/**
 * One writer thread and one reader thread on the mirrored ring, step by step.
 * Every shared access is a step of its own and memcpy moves one byte a step, so
 * a run is any interleaving of the two threads (sequentially consistent memory).
 */
module RingSpsc {
  import opened Arithmetic
  import opened RingCore

  /** Line 200 loads both indices, in an order that C leaves open: the one that was loaded first. */
  datatype Loaded = LoadedWidx(value: Word) | LoadedRidx(value: Word)

  /**
   * Where the writer is inside ringbuffer_write: between the two loads of line 200 with all of
   * the caller's bytes, after it with those it may copy, and copying.
   */
  datatype Writer =
    | WIdle
    | WLooking(src: seq<Byte>, first: Loaded)
    | WAdmitted(src: seq<Byte>)
    | WCopying(src: seq<Byte>, base: Word, done: nat)

  /** Where the reader is inside ringbuffer_read; `dest` holds the bytes copied out so far. */
  datatype Reader =
    | RIdle
    | RCopying(len: nat, dest: seq<Byte>)
    | RReleased(dest: seq<Byte>, tries: nat)
    | RLoaded(dest: seq<Byte>, temp: Word, tries: nat)
    | RSwapped(dest: seq<Byte>, tries: nat)

  /** `sent` and `got` are history: the bytes committed and the bytes released so far. */
  datatype State = State(
    phys: seq<Byte>, ridx: Word, widx: Word,
    w: Writer, r: Reader,
    sent: seq<Byte>, got: seq<Byte>)

  datatype Step =
    | Look(src: seq<Byte>, ridxFirst: bool) | Admit | LoadBase | CopyIn | Commit
    | Observe(amount: Word) | CopyOut | Release | LoadWidx | Cas | PullBack

  datatype Returned = Nothing | Wrote(count: nat) | Read(bytes: seq<Byte>)

  predicate Shape(size: Word, s: State) {
    0 < size && 2 * size < WORD && |s.phys| == size
  }

  /** The window from line 231 to line 240, entered only when the read index passed `size`. */
  predicate InRelease(r: Reader) {
    r.RReleased? || r.RLoaded? || r.RSwapped?
  }

  predicate WriterStep(step: Step) {
    step.Look? || step.Admit? || step.LoadBase? || step.CopyIn? || step.Commit?
  }

  /** What program order alone allows. */
  predicate InOrder(s: State, step: Step) {
    match step
    case Look(src, _) => s.w.WIdle? && 0 < |src| < WORD
    case Admit => s.w.WLooking?
    case LoadBase => s.w.WAdmitted?
    case CopyIn => s.w.WCopying? && s.w.done < |s.w.src|
    case Commit => s.w.WCopying? && s.w.done == |s.w.src|
    case Observe(amount) => s.r.RIdle? && 0 < amount
    case CopyOut => s.r.RCopying? && |s.r.dest| < s.r.len
    case Release => s.r.RCopying? && |s.r.dest| == s.r.len
    case LoadWidx => s.r.RReleased?
    case Cas => s.r.RLoaded?
    case PullBack => s.r.RSwapped?
  }

  /** The release in front of the reader would take its index past `size` and open the window. */
  predicate OpensWindow(size: Word, s: State) {
    s.r.RCopying? && s.ridx + s.r.len > size
  }

  /** The one exclusion: line 200 and the window from line 231 to line 240 do not overlap. */
  predicate Enabled(size: Word, s: State, step: Step) {
    && InOrder(s, step)
    && (step.Look? ==> !InRelease(s.r))
    && (step.Release? && s.w.WLooking? ==> !OpensWindow(size, s))
  }

  /** What line 200 takes for free space once it has loaded the other index too. */
  function FreeSeen(size: Word, s: State): Word
    requires s.w.WLooking?
  {
    match s.w.first
    case LoadedWidx(widx) => Avail(size, widx, s.ridx)
    case LoadedRidx(ridx) => Avail(size, s.widx, ridx)
  }

  function Do(size: Word, s: State, step: Step): (t: State)
    requires Shape(size, s) && InOrder(s, step)
    ensures Shape(size, t)
  {
    match step
    case Look(src, ridxFirst) =>
      s.(w := WLooking(src, if ridxFirst then LoadedRidx(s.ridx) else LoadedWidx(s.widx)))
    case Admit =>
      var len := Min(FreeSeen(size, s), |s.w.src|);
      s.(w := if len > 0 then WAdmitted(s.w.src[..len]) else WIdle)
    case LoadBase =>
      s.(w := WCopying(s.w.src, s.widx, 0))
    case CopyIn =>
      s.(phys := s.phys[Cell(size, s.w.base + s.w.done) := s.w.src[s.w.done]],
         w := WCopying(s.w.src, s.w.base, s.w.done + 1))
    case Commit =>
      s.(widx := Wrap(s.widx + |s.w.src|), w := WIdle, sent := s.sent + s.w.src)
    case Observe(amount) =>
      var used := Used(s.widx, s.ridx);
      if used > 0 then s.(r := RCopying(Min(used, amount), [])) else s
    case CopyOut =>
      s.(r := RCopying(s.r.len, s.r.dest + [s.phys[Cell(size, s.ridx + |s.r.dest|)]]))
    case Release =>
      var ridx := Wrap(s.ridx + s.r.len);
      s.(ridx := ridx, got := s.got + s.r.dest,
         r := if ridx > size then RReleased(s.r.dest, 0) else RIdle)
    case LoadWidx =>
      s.(r := RLoaded(s.r.dest, s.widx, s.r.tries + 1))
    case Cas =>
      if s.widx == s.r.temp then
        s.(widx := Wrap(s.r.temp - size), r := RSwapped(s.r.dest, s.r.tries))
      else
        s.(r := RReleased(s.r.dest, s.r.tries))
    case PullBack =>
      s.(ridx := Wrap(s.ridx - size), r := RIdle)
  }

  /** What the call that this step finishes hands back to its caller. */
  function Result(size: Word, s: State, step: Step): Returned
    requires Shape(size, s) && InOrder(s, step)
  {
    match step
    case Admit => if FreeSeen(size, s) > 0 then Nothing else Wrote(0)
    case Commit => Wrote(|s.w.src|)
    case Observe(_) => if Used(s.widx, s.ridx) > 0 then Nothing else Read([])
    case Release => if Wrap(s.ridx + s.r.len) > size then Nothing else Read(s.r.dest)
    case PullBack => Read(s.r.dest)
    case _ => Nothing
  }

  ghost predicate Init(size: Word, s: State) {
    && Shape(size, s)
    && s.ridx == 0 && s.widx == 0 && s.w.WIdle? && s.r.RIdle?
    && s.sent == [] && s.got == []
  }

  /** A run: an initial state and any finite sequence of enabled steps. */
  ghost predicate IsRun(size: Word, ss: seq<State>, steps: seq<Step>) {
    && |ss| == |steps| + 1
    && Init(size, ss[0])
    && (forall i | 0 <= i < |ss| :: Shape(size, ss[i]))
    && (forall i | 0 <= i < |steps| :: Enabled(size, ss[i], steps[i]) && ss[i + 1] == Do(size, ss[i], steps[i]))
  }

  // ---------------------------------------------------------------- invariant

  /** How many committed bytes the reader has not released yet. */
  function Live(s: State): int {
    |s.sent| - |s.got|
  }

  predicate IndexInv(size: Word, s: State) {
    && 0 <= Live(s) <= size
    && s.ridx + Live(s) <= 2 * size
    && (InRelease(s.r) <==> s.ridx > size)
    && (InRelease(s.r) ==> Live(s) < size)
    && s.widx == s.ridx + Live(s) - (if s.r.RSwapped? then size else 0)
  }

  /** A first load is never ahead of its index, and behind it at most by what was read since. */
  predicate LookInv(size: Word, s: State) {
    s.w.WLooking? ==>
      && 0 < |s.w.src| < WORD && !InRelease(s.r)
      && match s.w.first
         case LoadedWidx(widx) => widx == s.widx
         case LoadedRidx(ridx) => ridx <= s.ridx && s.widx <= ridx + size
  }

  predicate WriterInv(size: Word, s: State) {
    s.w.WAdmitted? || s.w.WCopying? ==>
      && 0 < |s.w.src| < WORD
      && (InRelease(s.r) ==> Live(s) + |s.w.src| < size)
      && Live(s) + |s.w.src| <= size
      && s.ridx + Live(s) + |s.w.src| <= 2 * size
      && (s.w.WCopying? ==>
        && s.w.done <= |s.w.src|
        && (s.w.base == s.widx || s.w.base == s.widx + size)
        && s.w.base + |s.w.src| <= 2 * size)
  }

  predicate IsSuffix(b: seq<Byte>, a: seq<Byte>) {
    |b| <= |a| && a[|a| - |b|..] == b
  }

  predicate ReaderInv(s: State) {
    match s.r
    case RIdle => true
    case RCopying(len, dest) =>
      && 0 < len <= Live(s) && |dest| <= len
      && s.sent[|s.got|..|s.got| + |dest|] == dest
    case RReleased(dest, tries) =>
      IsSuffix(dest, s.got) && tries <= 1 && (tries == 1 ==> s.w.WIdle?)
    case RLoaded(dest, temp, tries) =>
      && IsSuffix(dest, s.got)
      && 1 <= tries <= 2 && temp >= |s.phys|
      && (temp == s.widx || (s.w.WIdle? && tries == 1))
      && (tries == 2 ==> s.w.WIdle?)
    case RSwapped(dest, tries) =>
      IsSuffix(dest, s.got) && 1 <= tries <= 2
  }

  /** The byte k places after the read index. */
  function ByteAt(size: Word, phys: seq<Byte>, ridx: int, k: int): Byte
    requires 0 < size && |phys| == size
  {
    phys[Cell(size, ridx + k)]
  }

  /** The bytes of a write in progress that are already in their cells. */
  function Copied(w: Writer): seq<Byte> {
    if w.WCopying? && w.done <= |w.src| then w.src[..w.done] else []
  }

  /** What the cells from the read index on must hold: committed bytes, then those being written. */
  function Expected(s: State): seq<Byte>
    requires s.got <= s.sent
  {
    s.sent[|s.got|..] + Copied(s.w)
  }

  predicate Holds(size: Word, phys: seq<Byte>, ridx: int, bytes: seq<Byte>)
    requires 0 < size && |phys| == size
  {
    forall k | 0 <= k < |bytes| :: ByteAt(size, phys, ridx, k) == bytes[k]
  }

  predicate DataInv(size: Word, s: State)
    requires Shape(size, s)
  {
    s.got <= s.sent && Holds(size, s.phys, s.ridx, Expected(s))
  }

  predicate Inv(size: Word, s: State) {
    Shape(size, s) && IndexInv(size, s) && DataInv(size, s) && LookInv(size, s) && WriterInv(size, s) && ReaderInv(s)
  }

  lemma HoldsFrom(size: Word, phys: seq<Byte>, ridx: int, bytes: seq<Byte>, n: nat)
    requires 0 < size && |phys| == size && n <= |bytes|
    requires Holds(size, phys, ridx, bytes)
    ensures Holds(size, phys, ridx + n, bytes[n..])
  {}

  /** A byte written right after `bytes` spoils none of them while all fit in one lap. */
  lemma HoldsOneMore(size: Word, phys: seq<Byte>, ridx: int, bytes: seq<Byte>, at: int, b: Byte)
    requires 0 < size && |phys| == size
    requires 0 <= ridx && |bytes| < size && ridx + |bytes| < 2 * size
    requires 0 <= at < 2 * size && (at == ridx + |bytes| || at + size == ridx + |bytes| || at == ridx + |bytes| + size)
    requires Holds(size, phys, ridx, bytes)
    ensures Holds(size, phys[Cell(size, at) := b], ridx, bytes + [b])
  {
    CellFold(size);
    forall k | 0 <= k < |bytes| + 1
      ensures ByteAt(size, phys[Cell(size, at) := b], ridx, k) == (bytes + [b])[k]
    {
      assert k < |bytes| ==> ByteAt(size, phys, ridx, k) == bytes[k];
    }
  }

  lemma LookKeeps(size: Word, s: State, src: seq<Byte>, ridxFirst: bool)
    requires Inv(size, s) && Enabled(size, s, Look(src, ridxFirst))
    ensures Inv(size, Do(size, s, Look(src, ridxFirst)))
  {}

  /** An old read index only hides free space, so line 200 never takes more than there is. */
  lemma AdmitKeeps(size: Word, s: State)
    requires Inv(size, s) && Enabled(size, s, Admit)
    ensures Inv(size, Do(size, s, Admit))
  {}

  lemma LoadBaseKeeps(size: Word, s: State)
    requires Inv(size, s) && Enabled(size, s, LoadBase)
    ensures Inv(size, Do(size, s, LoadBase))
  {}

  /** The byte written lands right after the expected bytes and on none of them. */
  lemma CopyInKeeps(size: Word, s: State)
    requires Inv(size, s) && Enabled(size, s, CopyIn)
    ensures Inv(size, Do(size, s, CopyIn))
  {
    HoldsOneMore(size, s.phys, s.ridx, Expected(s), s.w.base + s.w.done, s.w.src[s.w.done]);
    assert Expected(Do(size, s, CopyIn)) == Expected(s) + [s.w.src[s.w.done]];
  }

  lemma CommitKeeps(size: Word, s: State)
    requires Inv(size, s) && Enabled(size, s, Commit)
    ensures Inv(size, Do(size, s, Commit))
  {
    assert s.w.src[..s.w.done] == s.w.src;
    assert Expected(Do(size, s, Commit)) == Expected(s);
  }

  lemma ObserveKeeps(size: Word, s: State, amount: Word)
    requires Inv(size, s) && Enabled(size, s, Observe(amount))
    ensures Inv(size, Do(size, s, Observe(amount)))
  {}

  lemma CopyOutKeeps(size: Word, s: State)
    requires Inv(size, s) && Enabled(size, s, CopyOut)
    ensures Inv(size, Do(size, s, CopyOut))
  {
    assert Expected(Do(size, s, CopyOut)) == Expected(s);
    assert ByteAt(size, s.phys, s.ridx, |s.r.dest|) == Expected(s)[|s.r.dest|];
  }

  lemma ReleaseKeeps(size: Word, s: State)
    requires Inv(size, s) && Enabled(size, s, Release)
    ensures Inv(size, Do(size, s, Release))
  {
    HoldsFrom(size, s.phys, s.ridx, Expected(s), s.r.len);
    assert Expected(Do(size, s, Release)) == Expected(s)[s.r.len..];
  }

  lemma LoadWidxKeeps(size: Word, s: State)
    requires Inv(size, s) && Enabled(size, s, LoadWidx)
    ensures Inv(size, Do(size, s, LoadWidx))
  {}

  lemma CasKeeps(size: Word, s: State)
    requires Inv(size, s) && Enabled(size, s, Cas)
    ensures Inv(size, Do(size, s, Cas))
  {}

  /** Pulling both indices back by `size` names the same cells. */
  lemma PullBackKeeps(size: Word, s: State)
    requires Inv(size, s) && Enabled(size, s, PullBack)
    ensures Inv(size, Do(size, s, PullBack))
  {
    CellFold(size);
    var t := Do(size, s, PullBack);
    assert Expected(t) == Expected(s);
    forall k | 0 <= k < |Expected(t)|
      ensures ByteAt(size, t.phys, t.ridx, k) == Expected(t)[k]
    {
      assert ByteAt(size, t.phys, t.ridx, k) == ByteAt(size, s.phys, s.ridx, k);
    }
  }

  lemma StepKeeps(size: Word, s: State, step: Step)
    requires Inv(size, s) && Enabled(size, s, step)
    ensures Inv(size, Do(size, s, step))
  {
    match step
    case Look(src, ridxFirst) => LookKeeps(size, s, src, ridxFirst);
    case Admit => AdmitKeeps(size, s);
    case LoadBase => LoadBaseKeeps(size, s);
    case CopyIn => CopyInKeeps(size, s);
    case Commit => CommitKeeps(size, s);
    case Observe(amount) => ObserveKeeps(size, s, amount);
    case CopyOut => CopyOutKeeps(size, s);
    case Release => ReleaseKeeps(size, s);
    case LoadWidx => LoadWidxKeeps(size, s);
    case Cas => CasKeeps(size, s);
    case PullBack => PullBackKeeps(size, s);
  }

  lemma {:induction false} RunKeeps(size: Word, ss: seq<State>, steps: seq<Step>, i: nat)
    requires IsRun(size, ss, steps) && i < |ss|
    ensures Inv(size, ss[i])
  {
    if i > 0 {
      RunKeeps(size, ss, steps, i - 1);
      StepKeeps(size, ss[i - 1], steps[i - 1]);
    }
  }

  ghost predicate Reachable(size: Word, s: State) {
    exists ss, steps :: IsRun(size, ss, steps) && s == ss[|steps|]
  }

  lemma ReachableInv(size: Word, s: State)
    requires Reachable(size, s)
    ensures Inv(size, s)
  {
    var ss, steps :| IsRun(size, ss, steps) && s == ss[|steps|];
    RunKeeps(size, ss, steps, |steps|);
  }

  // ---------------------------------------------------------------- FIFO over whole runs

  /** All bytes that finished calls of ringbuffer_read handed out in the first n steps. */
  ghost function Delivered(size: Word, ss: seq<State>, steps: seq<Step>, n: nat): seq<Byte>
    requires IsRun(size, ss, steps) && n <= |steps|
  {
    if n == 0 then []
    else
      Delivered(size, ss, steps, n - 1) +
      BytesReturned(Result(size, ss[n - 1], steps[n - 1]))
  }

  function BytesReturned(r: Returned): seq<Byte> {
    if r.Read? then r.bytes else []
  }

  /** Bytes released but still to be returned by the read in progress. */
  function Unreturned(r: Reader): seq<Byte> {
    if InRelease(r) then r.dest else []
  }

  lemma ReturnedOnce(size: Word, s: State, step: Step, before: seq<Byte>)
    requires Inv(size, s) && Enabled(size, s, step)
    requires before + Unreturned(s.r) == s.got
    ensures var t := Do(size, s, step);
            before + BytesReturned(Result(size, s, step)) + Unreturned(t.r) == t.got
  {}

  /** In every run what reads returned is a prefix of what writes committed. */
  lemma {:induction false} ReadsArePrefixOfWrites(size: Word, ss: seq<State>, steps: seq<Step>, n: nat)
    requires IsRun(size, ss, steps) && n <= |steps|
    ensures Delivered(size, ss, steps, n) + Unreturned(ss[n].r) == ss[n].got
    ensures Delivered(size, ss, steps, n) <= ss[n].sent
  {
    RunKeeps(size, ss, steps, n);
    if n > 0 {
      ReadsArePrefixOfWrites(size, ss, steps, n - 1);
      RunKeeps(size, ss, steps, n - 1);
      ReturnedOnce(size, ss[n - 1], steps[n - 1], Delivered(size, ss, steps, n - 1));
    }
  }

  /** The queue as memory alone shows it, without the history. */
  function Queue(size: Word, s: State): seq<Byte>
    requires Shape(size, s)
  {
    var count := s.widx - s.ridx + (if s.r.RSwapped? then size else 0);
    Window(s.phys, size, s.ridx, if count < 0 then 0 else count)
  }

  /** Each step is a whole enqueue (Commit), a whole dequeue (Release) or invisible. */
  lemma StepsRefineBoundedFifo(size: Word, s: State, step: Step)
    requires Reachable(size, s) && Shape(size, s) && Enabled(size, s, step)
    ensures var q, t := Queue(size, s), Do(size, s, step);
            && |q| <= size
            && match step
               case Commit => Queue(size, t) == q + s.w.src && |q| + |s.w.src| <= size
               case Release => q == s.r.dest + Queue(size, t)
               case _ => Queue(size, t) == q
  {
    ReachableInv(size, s);
    StepKeeps(size, s, step);
    QueueIsHistory(size, s);
    QueueIsHistory(size, Do(size, s, step));
  }

  /** A read moves min(used, amount) bytes and gives up only on an empty queue. */
  lemma ReadMovesAllItCan(size: Word, s: State, amount: Word)
    requires Reachable(size, s) && Shape(size, s) && Enabled(size, s, Observe(amount))
    ensures var len := Min(|Queue(size, s)|, amount);
            if len == 0 then Result(size, s, Observe(amount)) == Read([]) && Queue(size, s) == []
            else Do(size, s, Observe(amount)).r == RCopying(len, [])
  {
    ReachableInv(size, s);
    QueueIsHistory(size, s);
  }

  /** Step i of the run is the second load of a line 200 that loaded ridx in step j. */
  ghost predicate RidxLoad(ss: seq<State>, steps: seq<Step>, i: nat, j: nat)
    requires |ss| == |steps| + 1 && i < |steps| && ss[i].w.WLooking?
  {
    if ss[i].w.first.LoadedWidx? then j == i
    else
      && j < i && steps[j] == Look(ss[i].w.src, true)
      && forall k | j < k <= i :: ss[k].w == ss[i].w
  }

  /** A step into the middle of line 200 is its first load or a reader's step that leaves widx alone. */
  lemma LookingBefore(size: Word, ss: seq<State>, steps: seq<Step>, i: nat)
    requires IsRun(size, ss, steps) && i < |steps| && ss[i + 1].w.WLooking?
    ensures ss[i + 1].widx == ss[i].widx
    ensures if steps[i].Look? then
              && steps[i] == Look(ss[i + 1].w.src, ss[i + 1].w.first.LoadedRidx?) && !InRelease(ss[i].r)
              && ss[i + 1].w.first.value == (if steps[i].ridxFirst then ss[i].ridx else ss[i].widx)
            else ss[i + 1].w == ss[i].w
  {
    RunKeeps(size, ss, steps, i);
    LookingStep(size, ss[i], steps[i]);
  }

  lemma LookingStep(size: Word, s: State, step: Step)
    requires Inv(size, s) && Enabled(size, s, step) && Do(size, s, step).w.WLooking?
    ensures Do(size, s, step).widx == s.widx
  {}

  /** The writer has only been looking since it loaded ridx, so widx is as it was then. */
  lemma {:induction false} LookingSince(size: Word, ss: seq<State>, steps: seq<Step>, i: nat) returns (j: nat)
    requires IsRun(size, ss, steps) && i < |steps| && ss[i].w.WLooking?
    ensures RidxLoad(ss, steps, i, j) && ss[i].widx == ss[j].widx
    ensures ss[i].w.first.LoadedRidx? ==> ss[i].w.first.value == ss[j].ridx && !InRelease(ss[j].r)
  {
    j := i;
    if ss[i].w.first.LoadedRidx? {
      LookingBefore(size, ss, steps, i - 1);
      if steps[i - 1].Look? {
        j := i - 1;
      } else {
        j := LookingSince(size, ss, steps, i - 1);
      }
    }
  }

  /** So what line 200 takes for free space is what was free at its load of ridx. */
  lemma FreeAtRidxLoad(size: Word, ss: seq<State>, steps: seq<Step>, i: nat) returns (j: nat)
    requires IsRun(size, ss, steps) && i < |steps| && ss[i].w.WLooking?
    ensures RidxLoad(ss, steps, i, j) && FreeSeen(size, ss[i]) == size - |Queue(size, ss[j])|
  {
    j := LookingSince(size, ss, steps, i);
    RunKeeps(size, ss, steps, i);
    RunKeeps(size, ss, steps, j);
    QueueIsHistory(size, ss[j]);
  }

  /**
   * A write moves min(free, amount) bytes, where free is judged at its load of ridx, and gives
   * up only if the queue was full then.
   */
  lemma WriteMovesAllItCan(size: Word, ss: seq<State>, steps: seq<Step>, i: nat) returns (j: nat)
    requires IsRun(size, ss, steps) && i < |steps| && steps[i] == Admit
    ensures ss[i].w.WLooking? && j <= i
    ensures ss[i].w.first.LoadedWidx? ==> j == i
    ensures ss[i].w.first.LoadedRidx? ==>
              j < i && steps[j] == Look(ss[i].w.src, true) && forall k | j < k <= i :: ss[k].w == ss[i].w
    ensures var len := Min(size - |Queue(size, ss[j])|, |ss[i].w.src|);
            && 0 <= len
            && if len == 0 then Result(size, ss[i], Admit) == Wrote(0) && |Queue(size, ss[j])| == size
               else ss[i + 1].w == WAdmitted(ss[i].w.src[..len])
  {
    j := FreeAtRidxLoad(size, ss, steps, i);
    RunKeeps(size, ss, steps, i);
  }

  lemma QueueIsHistory(size: Word, s: State)
    requires Inv(size, s)
    ensures Queue(size, s) == s.sent[|s.got|..]
  {
    forall k | 0 <= k < Live(s)
      ensures ByteAt(size, s.phys, s.ridx, k) == s.sent[|s.got|..][k]
    {
      assert Expected(s)[k] == s.sent[|s.got|..][k];
    }
  }

  // ---------------------------------------------------------------- memory safety

  /** Copies stay inside the double mapping, whichever side of a pull-back the base was taken on. */
  lemma CopiesStayMapped(size: Word, s: State)
    requires Reachable(size, s)
    ensures s.w.WCopying? ==> s.w.base + |s.w.src| <= 2 * size
    ensures s.r.RCopying? ==> s.ridx + s.r.len <= 2 * size
  {
    ReachableInv(size, s);
  }

  /** No cell is in the range being written and the range being read at once. */
  lemma CopiesNeverOverlap(size: Word, s: State, j: nat, k: nat)
    requires Reachable(size, s) && 0 < size
    requires s.w.WCopying? && j < |s.w.src|
    requires s.r.RCopying? && k < s.r.len
    ensures Cell(size, s.w.base + j) != Cell(size, s.ridx + k)
  {
    ReachableInv(size, s);
    CellFold(size);
  }

  /** No size_t operation that a step performs ever wraps. */
  lemma NoStepWraps(size: Word, s: State, step: Step)
    requires Reachable(size, s) && Enabled(size, s, step)
    ensures step.Observe? ==> Used(s.widx, s.ridx) == s.widx - s.ridx
    ensures step.Admit? ==>
              var widx := if s.w.first.LoadedWidx? then s.w.first.value else s.widx;
              var ridx := if s.w.first.LoadedRidx? then s.w.first.value else s.ridx;
              Used(widx, ridx) == widx - ridx && FreeSeen(size, s) == size - (widx - ridx)
    ensures step.Commit? ==> s.widx + |s.w.src| < 0x1_0000_0000_0000_0000
    ensures step.Release? ==> s.ridx + s.r.len < 0x1_0000_0000_0000_0000
    ensures step.Cas? ==> s.r.temp >= size
    ensures step.PullBack? ==> s.ridx >= size
  {
    ReachableInv(size, s);
  }

  // ---------------------------------------------------------------- the retry loop

  /** Steps the reader may still need before its release ends. */
  function ReleaseMeasure(r: Reader): int {
    match r
    case RReleased(_, tries) => 6 - 2 * tries
    case RLoaded(_, _, tries) => 7 - 2 * tries
    case RSwapped(_, _) => 1
    case _ => 0
  }

  /** At most two attempts, and the second one always succeeds. */
  lemma AtMostTwoAttempts(size: Word, s: State)
    requires Reachable(size, s) && s.r.RLoaded?
    ensures s.r.tries <= 2
    ensures s.r.tries == 2 ==> s.widx == s.r.temp
    ensures s.widx != s.r.temp ==> s.w.WIdle?
  {
    ReachableInv(size, s);
  }

  lemma ReachableStep(size: Word, s: State, step: Step)
    requires Reachable(size, s) && Shape(size, s) && Enabled(size, s, step)
    ensures Reachable(size, Do(size, s, step))
  {
    var ss, steps :| IsRun(size, ss, steps) && s == ss[|steps|];
    assert IsRun(size, ss + [Do(size, s, step)], steps + [step]);
  }

  /** The rest of an admitted write of one byte with no step of the reader in between. */
  lemma ReachableCommit(size: Word, s: State) returns (t: State)
    requires Reachable(size, s) && Inv(size, s) && s.w.WAdmitted? && |s.w.src| == 1
    ensures Reachable(size, t) && Inv(size, t)
    ensures t == s.(phys := t.phys, widx := Wrap(s.widx + 1), w := WIdle, sent := s.sent + s.w.src)
  {
    var s1 := Do(size, s, LoadBase);
    var s2 := Do(size, s1, CopyIn);
    t := Do(size, s2, Commit);
    ReachableStep(size, s, LoadBase);
    ReachableStep(size, s1, CopyIn);
    ReachableStep(size, s2, Commit);
    ReachableInv(size, t);
  }

  lemma ReachableWrite(size: Word, s: State, b: Byte) returns (t: State)
    requires Reachable(size, s) && Inv(size, s)
    requires s.w.WIdle? && !InRelease(s.r) && Live(s) < size
    ensures Reachable(size, t) && Inv(size, t)
    ensures t == s.(phys := t.phys, widx := s.widx + 1, sent := s.sent + [b])
  {
    t := ReachableAdmit(size, s, b);
    t := ReachableCommit(size, t);
  }

  lemma ReachableAdmit(size: Word, s: State, b: Byte) returns (t: State)
    requires Reachable(size, s) && Inv(size, s)
    requires s.w.WIdle? && !InRelease(s.r) && Live(s) < size
    ensures Reachable(size, t) && Inv(size, t)
    ensures t == s.(w := WAdmitted([b]))
  {
    assert [b][..1] == [b];
    var looking := Do(size, s, Look([b], false));
    ReachableStep(size, s, Look([b], false));
    ReachableInv(size, looking);
    t := Do(size, looking, Admit);
    ReachableStep(size, looking, Admit);
    ReachableInv(size, t);
  }

  /** A read of one byte, up to and including line 231. */
  lemma ReachableRead(size: Word, s: State) returns (t: State)
    requires Reachable(size, s) && Inv(size, s) && s.r.RIdle? && Live(s) > 0 && !s.w.WLooking?
    ensures Reachable(size, t) && Inv(size, t)
    ensures t == s.(ridx := s.ridx + 1, got := t.got, r := t.r) && |t.got| == |s.got| + 1
    ensures t.r == if s.ridx < size then RIdle else RReleased(t.got[|t.got| - 1..], 0)
  {
    var s1 := Do(size, s, Observe(1));
    var s2 := Do(size, s1, CopyOut);
    t := Do(size, s2, Release);
    ReachableStep(size, s, Observe(1));
    ReachableStep(size, s1, CopyOut);
    ReachableStep(size, s2, Release);
    ReachableInv(size, t);
  }

  /** Two bytes written and read, which takes ridx to the end of the ring, and one more written. */
  lemma ReachableFullLap() returns (s: State)
    ensures Reachable(2, s) && Inv(2, s)
    ensures s.w.WIdle? && s.r.RIdle? && s.ridx == 2 && Live(s) == 1
  {
    s := State([0, 0], 0, 0, WIdle, RIdle, [], []);
    assert Reachable(2, s) by { assert IsRun(2, [s], []); }
    s := ReachableWrite(2, s, 1);
    s := ReachableWrite(2, s, 2);
    s := ReachableRead(2, s);
    s := ReachableRead(2, s);
    s := ReachableWrite(2, s, 3);
  }

  /** The bound is tight: a write admitted before the window and committed inside it costs a retry. */
  lemma SecondAttemptHappens()
    ensures exists s :: Reachable(2, s) && s.r.RLoaded? && s.r.tries == 2
  {
    var s := ReachableFullLap();
    s := ReachableAdmit(2, s, 4);
    s := ReachableRead(2, s);
    s := ReachableRetry(2, s);
  }

  lemma ReachableRetry(size: Word, s: State) returns (t: State)
    requires Reachable(size, s) && Inv(size, s)
    requires s.r.RReleased? && s.r.tries == 0 && s.w.WAdmitted? && |s.w.src| == 1
    ensures Reachable(size, t) && t.r.RLoaded? && t.r.tries == 2
  {
    ReachableStep(size, s, LoadWidx);
    var loaded := Do(size, s, LoadWidx);
    ReachableInv(size, loaded);
    var committed := ReachableCommit(size, loaded);
    ReachableStep(size, committed, Cas);
    var failed := Do(size, committed, Cas);
    assert failed.r == RReleased(s.r.dest, 1);
    ReachableStep(size, failed, LoadWidx);
    t := Do(size, failed, LoadWidx);
  }

  /** The release is wait-free: the reader is never blocked and only its own steps count it down. */
  lemma ReleaseEnds(size: Word, s: State, step: Step)
    requires Reachable(size, s) && Shape(size, s) && InRelease(s.r)
    ensures 1 <= ReleaseMeasure(s.r) <= 6
    ensures exists own :: !WriterStep(own) && Enabled(size, s, own)
    ensures Enabled(size, s, step) ==>
              var t := Do(size, s, step);
              if WriterStep(step) then t.r == s.r else ReleaseMeasure(t.r) < ReleaseMeasure(s.r)
  {
    ReachableInv(size, s);
    var own := if s.r.RReleased? then LoadWidx else if s.r.RLoaded? then Cas else PullBack;
    assert !WriterStep(own) && Enabled(size, s, own);
  }

  /** Outside the release window the indices are in their resting range. */
  lemma IndicesAtRest(size: Word, s: State)
    requires Reachable(size, s) && !InRelease(s.r)
    ensures s.ridx <= size && s.ridx <= s.widx <= s.ridx + size
  {
    ReachableInv(size, s);
  }

  // ---------------------------------------------------------------- why the exclusion, and no more

  /** Copying `free` bytes from now on would stay within the free space and the mapping. */
  predicate Fits(size: Word, s: State, free: Word) {
    free == 0 || (free <= size - Live(s) && s.widx + free <= 2 * size)
  }

  /** Line 200 run in one go would go wrong at exactly the moments of the window. */
  lemma ExclusionIsExact(size: Word, s: State)
    requires Reachable(size, s)
    ensures Fits(size, s, Avail(size, s.widx, s.ridx)) <==> !InRelease(s.r)
    ensures s.r.RSwapped? ==> Avail(size, s.widx, s.ridx) == size - Live(s) + size
  {
    ReachableInv(size, s);
  }

  /** Whenever line 200 is allowed to do its second load, what it takes for free fits. */
  lemma AllowedAdmissionFits(size: Word, s: State)
    requires Reachable(size, s) && s.w.WLooking?
    ensures Fits(size, s, FreeSeen(size, s)) && FreeSeen(size, s) <= size - Live(s)
    ensures s.w.first.LoadedWidx? ==> FreeSeen(size, s) == size - Live(s)
  {
    ReachableInv(size, s);
  }

  /** The states from an excluded release to the end of its window, line 200 still between its loads. */
  function ThroughWindow(size: Word, s: State): (ts: seq<State>)
    requires Shape(size, s) && s.w.WLooking? && InOrder(s, Release) && Wrap(s.ridx + s.r.len) > size
    ensures |ts| == 4
  {
    var released := Do(size, s, Release);
    var loaded := Do(size, released, LoadWidx);
    var swapped := Do(size, loaded, Cas);
    [released, loaded, swapped, Do(size, swapped, PullBack)]
  }

  lemma ThroughWindowStates(size: Word, s: State)
    requires Inv(size, s) && s.w.WLooking? && InOrder(s, Release) && OpensWindow(size, s)
    ensures Wrap(s.ridx + s.r.len) > size
    ensures var ts := ThroughWindow(size, s);
            && (forall i | 0 <= i < 4 :: ts[i].w == s.w && Live(ts[i]) == Live(s) - s.r.len)
            && (forall i | 0 <= i < 4 :: ts[i].ridx == s.ridx + s.r.len - if i < 3 then 0 else size)
            && (forall i | 0 <= i < 4 :: ts[i].widx == s.widx - if i < 2 then 0 else size)
  {}

  /** Line 200 may do its second load in the i-th of these states. */
  predicate FitsAt(size: Word, s: State, i: nat)
    requires Shape(size, s) && s.w.WLooking? && InOrder(s, Release) && Wrap(s.ridx + s.r.len) > size && i < 4
  {
    var t := ThroughWindow(size, s)[i];
    t.w.WLooking? && Fits(size, t, FreeSeen(size, t))
  }

  /** Right after such a release an old widx and the new ridx let the write leave the mapping. */
  lemma OldWidxNeverFits(size: Word, s: State)
    requires Inv(size, s) && s.w.WLooking? && s.w.first.LoadedWidx?
    requires InOrder(s, Release) && OpensWindow(size, s)
    ensures Wrap(s.ridx + s.r.len) > size && !FitsAt(size, s, 0)
  {
    ThroughWindowStates(size, s);
  }

  lemma AvailWithin(size: Word, widx: Word, ridx: Word)
    requires 2 * size < WORD && ridx <= widx + size && widx <= ridx + size
    ensures Avail(size, widx, ridx) == size - (widx - ridx)
  {}

  /** An old ridx makes a whole lap too much look free once widx is swapped. */
  lemma FreeWithOldRidx(size: Word, s: State, i: nat)
    requires Inv(size, s) && s.w.WLooking? && s.w.first.LoadedRidx? && i < 4
    requires InOrder(s, Release) && OpensWindow(size, s)
    ensures Wrap(s.ridx + s.r.len) > size
    ensures var t := ThroughWindow(size, s)[i];
            t.w == s.w && FreeSeen(size, t) == (if i < 2 then size else 2 * size) - (s.widx - s.w.first.value)
  {
    ThroughWindowStates(size, s);
    AvailWithin(size, s.widx, s.w.first.value);
    AvailWithin(size, ThroughWindow(size, s)[i].widx, s.w.first.value);
  }

  lemma OldRidxFits(size: Word, s: State, i: nat)
    requires Inv(size, s) && s.w.WLooking? && s.w.first.LoadedRidx? && i < 4
    requires InOrder(s, Release) && OpensWindow(size, s)
    ensures Wrap(s.ridx + s.r.len) > size
    ensures FitsAt(size, s, i) <==> (i >= 2 ==> FreeSeen(size, s) == 0 && s.r.len == Live(s))
  {
    ThroughWindowStates(size, s);
    FreeWithOldRidx(size, s, i);
    AvailWithin(size, s.widx, s.w.first.value);
  }

  /**
   * A release that opens the window between the two loads always lets line 200 go wrong at some
   * moment, except when ridx was loaded first, from a full ring, and the read empties it.
   */
  lemma SplitExclusionIsExact(size: Word, s: State)
    requires Reachable(size, s) && Shape(size, s) && s.w.WLooking?
    requires InOrder(s, Release) && OpensWindow(size, s)
    ensures Wrap(s.ridx + s.r.len) > size
    ensures (forall i: nat | i < 4 :: FitsAt(size, s, i)) <==>
            s.w.first.LoadedRidx? && FreeSeen(size, s) == 0 && s.r.len == Live(s)
  {
    ReachableInv(size, s);
    ThroughWindowStates(size, s);
    if s.w.first.LoadedWidx? {
      OldWidxNeverFits(size, s);
    } else {
      forall i: nat | i < 4
        ensures FitsAt(size, s, i) <==> (i >= 2 ==> FreeSeen(size, s) == 0 && s.r.len == Live(s))
      {
        OldRidxFits(size, s, i);
      }
      assert FitsAt(size, s, 2) <==> FreeSeen(size, s) == 0 && s.r.len == Live(s);
    }
  }

  /** Such a release does come up, so the second half of the exclusion is needed as well. */
  lemma SplitExclusionIsNeeded()
    ensures exists s :: Reachable(2, s) && Inv(2, s) && s.w.WLooking? && s.w.first.LoadedWidx?
              && InOrder(s, Release) && OpensWindow(2, s)
  {
    var s := ReachableFullLap();
    ReachableStep(2, s, Observe(1));
    s := Do(2, s, Observe(1));
    ReachableInv(2, s);
    ReachableStep(2, s, CopyOut);
    s := Do(2, s, CopyOut);
    ReachableInv(2, s);
    ReachableStep(2, s, Look([4], false));
    s := Do(2, s, Look([4], false));
    ReachableInv(2, s);
  }

  /** A thread that the exclusion holds back waits for the other one, which then has a step. */
  lemma ExclusionNeverBlocksBoth(size: Word, s: State, step: Step)
    requires Reachable(size, s) && InOrder(s, step) && !Enabled(size, s, step)
    ensures exists other :: Enabled(size, s, other) && WriterStep(other) != WriterStep(step)
  {
    var inWindow := if s.r.RReleased? then LoadWidx else if s.r.RLoaded? then Cas else PullBack;
    var other := if step.Release? then Admit else inWindow;
    assert Enabled(size, s, other) && WriterStep(other) != WriterStep(step);
  }

  /** Nothing else is excluded: a step held back would let line 200 go wrong now, or open its window. */
  lemma NothingElseIsExcluded(size: Word, s: State, step: Step)
    requires Reachable(size, s) && InOrder(s, step) && !Enabled(size, s, step)
    ensures || (step.Look? && !Fits(size, s, Avail(size, s.widx, s.ridx)))
            || (step.Release? && s.w.WLooking? && s.ridx + s.r.len > size)
  {
    ReachableInv(size, s);
    ExclusionIsExact(size, s);
  }

  // ---------------------------------------------------------------- every interleaving is a run

  /** Every ring of less than half the address space starts a run, whatever its cells hold. */
  lemma AnyRingStarts(size: Word, phys: seq<Byte>)
    requires 0 < size && 2 * size < 0x1_0000_0000_0000_0000 && |phys| == size
    ensures Reachable(size, State(phys, 0, 0, WIdle, RIdle, [], []))
  {
    assert IsRun(size, [State(phys, 0, 0, WIdle, RIdle, [], [])], []);
  }

  /** How a write in progress goes on. */
  function NextOfWriter(s: State): Step {
    if s.w.WLooking? then Admit
    else if s.w.WAdmitted? then LoadBase
    else if s.w.WCopying? && s.w.done < |s.w.src| then CopyIn
    else Commit
  }

  lemma WriteGoesOn(size: Word, s: State)
    requires Inv(size, s) && !s.w.WIdle?
    ensures WriterStep(NextOfWriter(s)) && Enabled(size, s, NextOfWriter(s))
  {}

  /** How a read in progress goes on. */
  function NextOfReader(s: State): Step {
    match s.r
    case RIdle => Observe(1)
    case RCopying(len, dest) => if |dest| < len then CopyOut else Release
    case RReleased(_, _) => LoadWidx
    case RLoaded(_, _, _) => Cas
    case RSwapped(_, _) => PullBack
  }

  lemma ReadGoesOn(size: Word, s: State)
    requires Inv(size, s) && !s.r.RIdle?
    ensures !WriterStep(NextOfReader(s)) && !NextOfReader(s).Observe?
    ensures Enabled(size, s, NextOfReader(s)) ||
            (s.w.WLooking? && s.r.RCopying? && |s.r.dest| == s.r.len && s.ridx + s.r.len > size)
  {}

  /** Whatever the reader is doing, the writer can begin any write that is safe, and go on with one. */
  lemma WriterRunsFreely(size: Word, s: State)
    requires Reachable(size, s)
    ensures s.w.WIdle? ==>
              forall src: seq<Byte>, ridxFirst | 0 < |src| < 0x1_0000_0000_0000_0000 ::
                Enabled(size, s, Look(src, ridxFirst)) <==> Fits(size, s, Avail(size, s.widx, s.ridx))
    ensures !s.w.WIdle? ==> exists step :: WriterStep(step) && Enabled(size, s, step)
  {
    ReachableInv(size, s);
    ExclusionIsExact(size, s);
    if !s.w.WIdle? {
      WriteGoesOn(size, s);
    }
  }

  /**
   * Whatever the writer is doing, the reader can begin any read, and go on with one unless it
   * would open the window.
   */
  lemma ReaderRunsFreely(size: Word, s: State)
    requires Reachable(size, s)
    ensures s.r.RIdle? ==> forall amount: Word | 0 < amount :: Enabled(size, s, Observe(amount))
    ensures !s.r.RIdle? ==>
              || (exists step :: !WriterStep(step) && Enabled(size, s, step))
              || (s.w.WLooking? && s.r.RCopying? && |s.r.dest| == s.r.len && s.ridx + s.r.len > size)
  {
    ReachableInv(size, s);
    if !s.r.RIdle? {
      ReadGoesOn(size, s);
    }
  }

  /** A step is one thread's: it leaves the other's place and bytes alone and touches at most one cell. */
  lemma StepsAreSmall(size: Word, s: State, step: Step)
    requires Shape(size, s) && Enabled(size, s, step)
    ensures var t := Do(size, s, step);
            && (if WriterStep(step) then t.r == s.r && t.ridx == s.ridx && t.got == s.got
                else t.w == s.w && t.phys == s.phys && t.sent == s.sent)
            && (forall i, j | 0 <= i < j < size :: t.phys[i] == s.phys[i] || t.phys[j] == s.phys[j])
            && (s.r.RCopying? && t.r.RCopying? ==> |t.r.dest| <= |s.r.dest| + 1)
  {}

  // ---------------------------------------------------------------- what the calls report

  /** A call ends with the step that makes its thread idle, and a write reports what it committed. */
  lemma CallsReport(size: Word, s: State, step: Step)
    requires Reachable(size, s) && Shape(size, s) && Enabled(size, s, step)
    ensures var t, r := Do(size, s, step), Result(size, s, step);
            && (r.Wrote? <==> !s.w.WIdle? && t.w.WIdle?)
            && (r.Wrote? ==> r.count == |t.sent| - |s.sent|)
            && (r.Read? <==> !WriterStep(step) && t.r.RIdle?)
            && (r.Read? ==> IsSuffix(r.bytes, t.got) && (s.r.RIdle? ==> r.bytes == []))
            && (r.Read? && s.r.RCopying? ==> |r.bytes| == s.r.len)
  {
    ReachableInv(size, s);
  }

  /** The counts that writes reported in the first n steps of a run, added up. */
  ghost function Reported(size: Word, ss: seq<State>, steps: seq<Step>, n: nat): int
    requires IsRun(size, ss, steps) && n <= |steps|
  {
    if n == 0 then 0
    else
      var r := Result(size, ss[n - 1], steps[n - 1]);
      Reported(size, ss, steps, n - 1) + if r.Wrote? then r.count else 0
  }

  /** Writes report exactly the bytes that they have committed. */
  lemma {:induction false} ReportedIsCommitted(size: Word, ss: seq<State>, steps: seq<Step>, n: nat)
    requires IsRun(size, ss, steps) && n <= |steps|
    ensures Reported(size, ss, steps, n) == |ss[n].sent|
  {
    if n > 0 {
      ReportedIsCommitted(size, ss, steps, n - 1);
      RunKeeps(size, ss, steps, n - 1);
      ReportsCommitted(size, ss[n - 1], steps[n - 1]);
    }
  }

  lemma ReportsCommitted(size: Word, s: State, step: Step)
    requires Inv(size, s) && Enabled(size, s, step)
    ensures var r := Result(size, s, step);
            |Do(size, s, step).sent| == |s.sent| + if r.Wrote? then r.count else 0
  {}

  /** What a write copies and commits is the front of the bytes that its caller passed: step j began it. */
  lemma {:induction false} WritesCallersBytes(size: Word, ss: seq<State>, steps: seq<Step>, i: nat) returns (j: nat)
    requires IsRun(size, ss, steps) && i < |ss| && !ss[i].w.WIdle?
    ensures j < i && steps[j].Look? && (forall k | j < k < i :: !steps[k].Look?)
    ensures if ss[i].w.WLooking? then ss[i].w.src == steps[j].src else ss[i].w.src <= steps[j].src
  {
    if steps[i - 1].Look? {
      j := i - 1;
    } else {
      WriterGoesOn(size, ss[i - 1], steps[i - 1]);
      j := WritesCallersBytes(size, ss, steps, i - 1);
    }
  }

  lemma WriterGoesOn(size: Word, s: State, step: Step)
    requires Shape(size, s) && Enabled(size, s, step) && !step.Look? && !Do(size, s, step).w.WIdle?
    ensures var t := Do(size, s, step);
            && !s.w.WIdle? && t.w.src <= s.w.src && (t.w.WLooking? ==> t.w == s.w)
  {}
}
