/** The writer and reader threads of test_ringbuffer.c over the ring, for any record count. */
module RingThreads {
  import opened Arithmetic
  import opened RingCore
  import opened RingSpsc

  /** ack_t: a 64-bit timestamp (never set, so zero) and two 32-bit fields. */
  datatype Ack = Ack(timestamp: nat, seqnum: nat, flags: nat)

  const ACK_SIZE := 16
  const INT_MAX := 0x7FFF_FFFF

  /** x in n bytes, least significant first. */
  function LittleEndian(x: nat, n: nat): (b: seq<Byte>)
    ensures |b| == n
  {
    if n == 0 then [] else [x % 256] + LittleEndian(x / 256, n - 1)
  }

  function Value(b: seq<Byte>): nat {
    if b == [] then 0 else b[0] as int + 256 * Value(b[1..])
  }

  function Pow256(n: nat): nat {
    if n == 0 then 1 else 256 * Pow256(n - 1)
  }

  function Fields(xs: seq<nat>): (b: seq<Byte>)
    ensures |b| == 4 * |xs|
  {
    if xs == [] then [] else LittleEndian(xs[0], 4) + Fields(xs[1..])
  }

  function Encode(a: Ack): (b: seq<Byte>)
    ensures |b| == ACK_SIZE
  {
    Fields([a.timestamp % U32, a.timestamp / U32, a.seqnum, a.flags])
  }

  function Decode(b: seq<Byte>): Ack
    requires |b| == ACK_SIZE
  {
    Ack(Value(b[0..4]) + U32 * Value(b[4..8]), Value(b[8..12]), Value(b[12..16]))
  }

  lemma {:induction false} LittleEndianValue(x: nat, n: nat)
    requires x < Pow256(n)
    ensures Value(LittleEndian(x, n)) == x
  {
    if n > 0 {
      LittleEndianValue(x / 256, n - 1);
    }
  }

  lemma {:induction false} FieldAt(xs: seq<nat>, i: nat)
    requires i < |xs|
    ensures Fields(xs)[4 * i..4 * i + 4] == LittleEndian(xs[i], 4)
  {
    if i > 0 {
      FieldAt(xs[1..], i - 1);
      assert Fields(xs)[4 * i..4 * i + 4] == Fields(xs[1..])[4 * (i - 1)..4 * (i - 1) + 4];
    }
  }

  lemma DecodeEncode(a: Ack)
    requires a.timestamp < U32 * U32 && a.seqnum < U32 && a.flags < U32
    ensures Decode(Encode(a)) == a
  {
    assert Pow256(1) == 256 && Pow256(2) == 65536 && Pow256(3) == 16777216 && Pow256(4) == U32;
    var xs := [a.timestamp % U32, a.timestamp / U32, a.seqnum, a.flags];
    forall i | 0 <= i < 4
      ensures Value(Fields(xs)[4 * i..4 * i + 4]) == xs[i]
    {
      FieldAt(xs, i);
      LittleEndianValue(xs[i], 4);
    }
    assert Value(Fields(xs)[4 * 0..4 * 0 + 4]) == xs[0];
    assert Value(Fields(xs)[4 * 1..4 * 1 + 4]) == xs[1];
    assert Value(Fields(xs)[4 * 2..4 * 2 + 4]) == xs[2];
    assert Value(Fields(xs)[4 * 3..4 * 3 + 4]) == xs[3];
  }

  /** Record i of a run of n records: only the last one is flagged. */
  function Record(n: nat, i: nat): Ack {
    Ack(0, i, if i + 1 < n then 0 else 1)
  }

  function Records(n: nat, k: nat): (rs: seq<Ack>)
    ensures |rs| == k
  {
    seq(k, i requires 0 <= i => Record(n, i))
  }

  /** The bytes of the first k records one after another. */
  function Stream(n: nat, k: nat): (b: seq<Byte>)
    ensures |b| == ACK_SIZE * k
  {
    if k == 0 then [] else Stream(n, k - 1) + Encode(Record(n, k - 1))
  }

  lemma SliceOfPrefix(a: seq<Byte>, b: seq<Byte>, lo: nat, hi: nat)
    requires lo <= hi <= |a|
    ensures (a + b)[lo..hi] == a[lo..hi]
  {}

  lemma {:induction false} StreamHasRecord(n: nat, k: nat, i: nat)
    requires i < k
    ensures Stream(n, k)[..ACK_SIZE * i] == Stream(n, i)
    ensures Stream(n, k)[ACK_SIZE * i..ACK_SIZE * i + ACK_SIZE] == Encode(Record(n, i))
  {
    var front, last := Stream(n, k - 1), Encode(Record(n, k - 1));
    if i < k - 1 {
      StreamHasRecord(n, k - 1, i);
      SliceOfPrefix(front, last, ACK_SIZE * i, ACK_SIZE * i + ACK_SIZE);
      SliceOfPrefix(front, last, 0, ACK_SIZE * i);
    }
  }

  datatype Status = Running | Truncated | Done

  /**
   * `next` is the writer's loop index. `seqnums` and `status` are the reader's; `missing` says
   * that it printed a missing number and `seen` records every record it took in.
   */
  datatype Sys = Sys(ring: State, next: nat, seqnums: nat, status: Status, missing: bool, seen: seq<Ack>)

  ghost predicate SysInit(size: Word, y: Sys) {
    Init(size, y.ring) && y.next == 0 && y.seqnums == 0 && y.status == Running && !y.missing && y.seen == []
  }

  /** Each thread calls the ring only with its own arguments and only while it runs. */
  predicate SysEnabled(size: Word, n: nat, y: Sys, step: Step) {
    && Enabled(size, y.ring, step)
    && (step.Look? ==> y.next < n && step.src == Encode(Record(n, y.next)))
    && (step.Observe? ==> y.status == Running && step.amount == ACK_SIZE)
  }

  /** The writer after a call: only the last record accepts any non-zero count. */
  function AfterWrite(n: nat, y: Sys, count: nat): Sys {
    if y.next + 1 < n then
      if count == ACK_SIZE then y.(next := y.next + 1) else y
    else
      if count != 0 then y.(next := y.next + 1) else y
  }

  /** The reader after a call: retry on nothing, stop on a short count or on flag 1. */
  function AfterRead(y: Sys, bytes: seq<Byte>): Sys {
    if |bytes| == 0 then y
    else if |bytes| != ACK_SIZE then y.(status := Truncated)
    else
      var a := Decode(bytes);
      var z := y.(seen := y.seen + [a]);
      if a.flags == 1 then z.(status := Done)
      else z.(missing := z.missing || a.seqnum != z.seqnums, seqnums := z.seqnums + 1)
  }

  function SysDo(size: Word, n: nat, y: Sys, step: Step): Sys
    requires Shape(size, y.ring) && SysEnabled(size, n, y, step)
  {
    var z := y.(ring := Do(size, y.ring, step));
    match Result(size, y.ring, step)
    case Nothing => z
    case Wrote(count) => AfterWrite(n, z, count)
    case Read(bytes) => AfterRead(z, bytes)
  }

  ghost predicate SysRun(size: Word, n: nat, ys: seq<Sys>, steps: seq<Step>) {
    && |ys| == |steps| + 1
    && SysInit(size, ys[0])
    && (forall i | 0 <= i < |ys| :: Shape(size, ys[i].ring))
    && (forall i | 0 <= i < |steps| ::
          SysEnabled(size, n, ys[i], steps[i]) && ys[i + 1] == SysDo(size, n, ys[i], steps[i]))
  }

  /** Counts the records the reader has released, returned or not. */
  function Taken(y: Sys): nat {
    |y.seen| + if InRelease(y.ring.r) then 1 else 0
  }

  /** Only whole records are read between the two loads of a write. */
  predicate LookWhole(s: State) {
    s.w.WLooking? && s.w.first.LoadedRidx? ==> (s.ridx - s.w.first.value) % ACK_SIZE == 0
  }

  predicate WriterWhole(n: nat, y: Sys) {
    && y.next <= n
    && y.ring.sent == Stream(n, y.next)
    && (!y.ring.w.WIdle? ==> y.next < n && y.ring.w.src == Encode(Record(n, y.next)))
    && LookWhole(y.ring)
  }

  predicate ReaderWhole(n: nat, y: Sys) {
    var s := y.ring;
    && y.status != Truncated && !y.missing
    && y.seen == Records(n, |y.seen|)
    && |s.got| == ACK_SIZE * Taken(y)
    && (y.status == Done <==> 0 < |y.seen| == n)
    && (y.status == Running ==> y.seqnums == |y.seen|)
    && (y.status == Done ==> s.r.RIdle?)
    && (s.r.RCopying? ==> s.r.len == ACK_SIZE)
    && (InRelease(s.r) ==> |s.r.dest| == ACK_SIZE)
  }

  predicate SysInv(size: Word, n: nat, y: Sys) {
    && size % ACK_SIZE == 0 && 0 < n <= INT_MAX
    && Inv(size, y.ring)
    && WriterWhole(n, y) && ReaderWhole(n, y)
  }

  lemma WholeOrNothing(a: int)
    requires 0 <= a && a % ACK_SIZE == 0
    ensures a == 0 || ACK_SIZE <= a
  {}

  lemma LiveRecords(size: Word, n: nat, y: Sys)
    requires SysInv(size, n, y) && !InRelease(y.ring.r)
    ensures Live(y.ring) == ACK_SIZE * (y.next - |y.seen|)
    ensures Used(y.ring.widx, y.ring.ridx) == Live(y.ring)
    ensures Avail(size, y.ring.widx, y.ring.ridx) == size - Live(y.ring)
  {}

  /** What is free, and what is used between reads, is always a whole number of records. */
  lemma WholeRoom(size: Word, n: nat, y: Sys)
    requires SysInv(size, n, y) && !InRelease(y.ring.r)
    ensures Avail(size, y.ring.widx, y.ring.ridx) % ACK_SIZE == 0
    ensures Used(y.ring.widx, y.ring.ridx) % ACK_SIZE == 0
  {}

  /** What a write takes for free is whole records too, whichever index it loaded first. */
  lemma WholeRoomSeen(size: Word, n: nat, y: Sys)
    requires SysInv(size, n, y) && y.ring.w.WLooking?
    ensures FreeSeen(size, y.ring) % ACK_SIZE == 0
  {
    WholeRoom(size, n, y);
    LiveRecords(size, n, y);
    match y.ring.w.first
    case LoadedWidx(widx) =>
    case LoadedRidx(ridx) =>
      AvailWithin(size, y.ring.widx, ridx);
      assert size - (y.ring.widx - ridx) == size - Live(y.ring) - (y.ring.ridx - ridx);
  }

  lemma AdmitWhole(size: Word, n: nat, y: Sys)
    requires SysInv(size, n, y) && SysEnabled(size, n, y, Admit)
    ensures Result(size, y.ring, Admit) in {Nothing, Wrote(0)}
    ensures SysDo(size, n, y, Admit) == y.(ring := Do(size, y.ring, Admit))
    ensures WriterWhole(n, SysDo(size, n, y, Admit))
  {
    WholeRoomSeen(size, n, y);
    WholeOrNothing(FreeSeen(size, y.ring));
    assert y.ring.w.src[..ACK_SIZE] == y.ring.w.src;
  }

  lemma CommitWhole(size: Word, n: nat, y: Sys)
    requires SysInv(size, n, y) && SysEnabled(size, n, y, Commit)
    ensures Result(size, y.ring, Commit) == Wrote(ACK_SIZE)
    ensures SysDo(size, n, y, Commit) == y.(ring := Do(size, y.ring, Commit), next := y.next + 1)
    ensures WriterWhole(n, SysDo(size, n, y, Commit))
  {
    var record := y.ring.w.src;
    assert |record| == ACK_SIZE && y.ring.sent + record == Stream(n, y.next + 1);
    assert Result(size, y.ring, Commit) == Wrote(ACK_SIZE);
  }

  lemma LookOrCopyWhole(size: Word, n: nat, y: Sys, step: Step)
    requires SysInv(size, n, y) && SysEnabled(size, n, y, step) && (step.Look? || step.LoadBase? || step.CopyIn?)
    ensures Result(size, y.ring, step) == Nothing
    ensures SysDo(size, n, y, step) == y.(ring := Do(size, y.ring, step))
    ensures WriterWhole(n, SysDo(size, n, y, step))
  {}

  lemma WriterStepKeeps(size: Word, n: nat, y: Sys, step: Step)
    requires SysInv(size, n, y) && SysEnabled(size, n, y, step) && WriterStep(step)
    ensures SysInv(size, n, SysDo(size, n, y, step))
    ensures Result(size, y.ring, step) in {Nothing, Wrote(0), Wrote(ACK_SIZE)}
  {
    StepKeeps(size, y.ring, step);
    if step.Admit? {
      AdmitWhole(size, n, y);
    } else if step.Commit? {
      CommitWhole(size, n, y);
    } else {
      LookOrCopyWhole(size, n, y, step);
    }
  }

  /** The bytes a read returns are exactly the next record. */
  lemma NextRecordRead(n: nat, y: Sys, bytes: seq<Byte>)
    requires 0 < n <= INT_MAX && WriterWhole(n, y) && y.ring.got <= y.ring.sent
    requires |y.ring.got| == ACK_SIZE * (|y.seen| + 1) && |bytes| == ACK_SIZE
    requires IsSuffix(bytes, y.ring.got)
    ensures |y.seen| < n && Decode(bytes) == Record(n, |y.seen|)
  {
    var k := |y.seen|;
    StreamHasRecord(n, y.next, k);
    assert bytes == y.ring.sent[ACK_SIZE * k..ACK_SIZE * k + ACK_SIZE];
    DecodeEncode(Record(n, k));
  }

  /** A read that ends with the next record moves the reader on by exactly that record. */
  lemma AfterWholeRead(n: nat, z: Sys, bytes: seq<Byte>)
    requires 0 < n <= INT_MAX && WriterWhole(n, z) && z.ring.got <= z.ring.sent
    requires |z.ring.got| == ACK_SIZE * (|z.seen| + 1) && |bytes| == ACK_SIZE
    requires IsSuffix(bytes, z.ring.got) && z.ring.r.RIdle?
    requires z.status == Running && !z.missing && z.seqnums == |z.seen| && z.seen == Records(n, |z.seen|)
    ensures WriterWhole(n, AfterRead(z, bytes)) && ReaderWhole(n, AfterRead(z, bytes))
  {
    NextRecordRead(n, z, bytes);
    assert Records(n, |z.seen| + 1) == z.seen + [Record(n, |z.seen|)];
  }

  /** What the last step of a read that moved bytes does to the ring. */
  lemma ReadEnds(size: Word, s: State, step: Step)
    requires Inv(size, s) && Enabled(size, s, step) && (step.Release? || step.PullBack?)
    requires Result(size, s, step).Read?
    ensures var t := Do(size, s, step);
            && Result(size, s, step) == Read(s.r.dest)
            && t.r.RIdle? && t.w == s.w && t.sent == s.sent && IsSuffix(s.r.dest, t.got)
            && t.got == (if step.Release? then s.got + s.r.dest else s.got)
            && (s.w.WLooking? ==> t.ridx == s.ridx + |s.r.dest|)
  {}

  /** What the two threads know of each other survives the last step of a read. */
  lemma ReadEndsForWriter(size: Word, n: nat, y: Sys, step: Step)
    requires SysInv(size, n, y) && SysEnabled(size, n, y, step) && (step.Release? || step.PullBack?)
    requires Result(size, y.ring, step).Read?
    ensures var z := y.(ring := Do(size, y.ring, step));
            && WriterWhole(n, z) && z.ring.got <= z.ring.sent && z.ring.r.RIdle?
            && |z.ring.got| == ACK_SIZE * (|z.seen| + 1) && IsSuffix(y.ring.r.dest, z.ring.got)
    ensures |y.ring.r.dest| == ACK_SIZE && Result(size, y.ring, step) == Read(y.ring.r.dest)
  {
    StepKeeps(size, y.ring, step);
    ReadEnds(size, y.ring, step);
    assert |y.ring.r.dest| == ACK_SIZE;
    assert |y.ring.got| == ACK_SIZE * (|y.seen| + if step.Release? then 0 else 1);
    WriterWholeAcross(n, y, y.(ring := Do(size, y.ring, step)));
  }

  lemma WriterWholeAcross(n: nat, y: Sys, z: Sys)
    requires WriterWhole(n, y) && z.next == y.next
    requires z.ring.w == y.ring.w && z.ring.sent == y.ring.sent
    requires z.ring.w.WLooking? ==> z.ring.ridx == y.ring.ridx + ACK_SIZE
    ensures WriterWhole(n, z)
  {}

  lemma ReadEndsWhole(size: Word, n: nat, y: Sys, step: Step)
    requires SysInv(size, n, y) && SysEnabled(size, n, y, step) && (step.Release? || step.PullBack?)
    requires Result(size, y.ring, step).Read?
    ensures |y.ring.r.dest| == ACK_SIZE && Result(size, y.ring, step) == Read(y.ring.r.dest)
    ensures var z := SysDo(size, n, y, step);
            z.ring == Do(size, y.ring, step) && WriterWhole(n, z) && ReaderWhole(n, z)
  {
    ReadEndsForWriter(size, n, y, step);
    RunningReader(n, y);
    var z := y.(ring := Do(size, y.ring, step));
    AfterWholeRead(n, z, y.ring.r.dest);
    assert SysDo(size, n, y, step) == AfterRead(z, y.ring.r.dest);
  }

  lemma RunningReader(n: nat, y: Sys)
    requires ReaderWhole(n, y) && !y.ring.r.RIdle?
    ensures y.status == Running && !y.missing && y.seqnums == |y.seen| && y.seen == Records(n, |y.seen|)
  {}

  /** Steps in the middle of a read leave both threads where they are. */
  lemma MidReadWhole(size: Word, n: nat, y: Sys, step: Step)
    requires SysInv(size, n, y) && SysEnabled(size, n, y, step) && !WriterStep(step) && !step.Observe?
    requires Result(size, y.ring, step).Nothing?
    ensures var z := SysDo(size, n, y, step);
            z.ring == Do(size, y.ring, step) && WriterWhole(n, z) && ReaderWhole(n, z)
  {}

  lemma ObserveWhole(size: Word, n: nat, y: Sys, step: Step)
    requires SysInv(size, n, y) && SysEnabled(size, n, y, step) && step.Observe?
    ensures Result(size, y.ring, step) in {Nothing, Read([])}
    ensures SysDo(size, n, y, step) == y.(ring := Do(size, y.ring, step))
    ensures ReaderWhole(n, SysDo(size, n, y, step))
  {}

  lemma ReaderStepKeeps(size: Word, n: nat, y: Sys, step: Step)
    requires SysInv(size, n, y) && SysEnabled(size, n, y, step) && !WriterStep(step)
    ensures SysInv(size, n, SysDo(size, n, y, step))
    ensures var r := Result(size, y.ring, step);
            r.Nothing? || (r.Read? && (r.bytes == [] || |r.bytes| == ACK_SIZE))
  {
    StepKeeps(size, y.ring, step);
    if step.Observe? {
      ObserveWhole(size, n, y, step);
    } else if Result(size, y.ring, step).Read? {
      ReadEndsWhole(size, n, y, step);
    } else {
      MidReadWhole(size, n, y, step);
    }
  }

  lemma {:induction false} SysRunKeeps(size: Word, n: nat, ys: seq<Sys>, steps: seq<Step>, i: nat)
    requires SysRun(size, n, ys, steps) && i < |ys|
    requires size % ACK_SIZE == 0 && 0 < n <= INT_MAX
    ensures SysInv(size, n, ys[i])
  {
    if i > 0 {
      SysRunKeeps(size, n, ys, steps, i - 1);
      if WriterStep(steps[i - 1]) {
        WriterStepKeeps(size, n, ys[i - 1], steps[i - 1]);
      } else {
        ReaderStepKeeps(size, n, ys[i - 1], steps[i - 1]);
      }
    }
  }

  /** Every call of either thread moves nothing or one whole record. */
  lemma OnlyWholeRecordsMove(size: Word, n: nat, ys: seq<Sys>, steps: seq<Step>, i: nat)
    requires SysRun(size, n, ys, steps) && i < |steps|
    requires size % ACK_SIZE == 0 && 0 < n <= INT_MAX
    ensures match Result(size, ys[i].ring, steps[i])
            case Nothing => true
            case Wrote(count) => count == 0 || count == ACK_SIZE
            case Read(bytes) => |bytes| == 0 || |bytes| == ACK_SIZE
  {
    SysRunKeeps(size, n, ys, steps, i);
    if WriterStep(steps[i]) {
      WriterStepKeeps(size, n, ys[i], steps[i]);
    } else {
      ReaderStepKeeps(size, n, ys[i], steps[i]);
    }
  }

  /**
   * In every run the reader sees records 0, 1, 2, ... with none missing, repeated or cut short,
   * and it stops exactly when it has taken the flagged last record, leaving the ring empty.
   */
  lemma ReaderSeesEveryRecordInOrder(size: Word, n: nat, ys: seq<Sys>, steps: seq<Step>, i: nat)
    requires SysRun(size, n, ys, steps) && i < |ys|
    requires size % ACK_SIZE == 0 && 0 < n <= INT_MAX
    ensures ys[i].seen == Records(n, |ys[i].seen|) && |ys[i].seen| <= n
    ensures ys[i].status != Truncated && !ys[i].missing
    ensures ys[i].status == Done <==> ys[i].seen == Records(n, n)
    ensures ys[i].status == Done ==> ys[i].next == n && ys[i].ring.got == ys[i].ring.sent
  {
    SysRunKeeps(size, n, ys, steps, i);
    assert Records(n, |ys[i].seen|) == ys[i].seen;
  }

  lemma RecordOrRoom(size: Word, n: nat, y: Sys)
    requires SysInv(size, n, y) && !InRelease(y.ring.r) && y.status == Running
    ensures Used(y.ring.widx, y.ring.ridx) >= ACK_SIZE ||
            (y.next < n && Avail(size, y.ring.widx, y.ring.ridx) >= ACK_SIZE)
  {
    WholeRoom(size, n, y);
    WholeOrNothing(Used(y.ring.widx, y.ring.ridx));
    WholeOrNothing(Avail(size, y.ring.widx, y.ring.ridx));
    LiveRecords(size, n, y);
  }

  /** The threads never wait for each other: between calls one of them can move a whole record. */
  lemma SomeThreadCanMove(size: Word, n: nat, ys: seq<Sys>, steps: seq<Step>, i: nat)
    requires SysRun(size, n, ys, steps) && i < |ys|
    requires size % ACK_SIZE == 0 && 0 < n <= INT_MAX
    requires ys[i].ring.w.WIdle? && ys[i].ring.r.RIdle? && ys[i].status == Running
    ensures Used(ys[i].ring.widx, ys[i].ring.ridx) >= ACK_SIZE ||
            (ys[i].next < n && Avail(size, ys[i].ring.widx, ys[i].ring.ridx) >= ACK_SIZE)
  {
    SysRunKeeps(size, n, ys, steps, i);
    RecordOrRoom(size, n, ys[i]);
  }

  /** In other words: the k-th record taken carries number k, and flag 1 exactly if it is the last of the n. */
  lemma RecordsAreNumberedAndFlagged(size: Word, n: nat, ys: seq<Sys>, steps: seq<Step>, i: nat, k: nat)
    requires SysRun(size, n, ys, steps) && i < |ys| && k < |ys[i].seen|
    requires size % 16 == 0 && 0 < n <= 0x7FFF_FFFF
    ensures k < n && ys[i].seen[k] == Ack(0, k, if k == n - 1 then 1 else 0)
  {
    ReaderSeesEveryRecordInOrder(size, n, ys, steps, i);
  }

  // ---------------------------------------------------------------- every interleaving is a run

  ghost predicate SysReachable(size: Word, n: nat, y: Sys) {
    exists ys, steps :: SysRun(size, n, ys, steps) && y == ys[|steps|]
  }

  lemma AnySysStarts(size: Word, n: nat, phys: seq<Byte>)
    requires 0 < size && 2 * size < 0x1_0000_0000_0000_0000 && |phys| == size
    ensures SysReachable(size, n, Sys(State(phys, 0, 0, WIdle, RIdle, [], []), 0, 0, Running, false, []))
  {
    var y := Sys(State(phys, 0, 0, WIdle, RIdle, [], []), 0, 0, Running, false, []);
    assert SysRun(size, n, [y], []);
  }

  lemma SysReachableStep(size: Word, n: nat, y: Sys, step: Step)
    requires SysReachable(size, n, y) && Shape(size, y.ring) && SysEnabled(size, n, y, step)
    ensures SysReachable(size, n, SysDo(size, n, y, step))
  {
    var ys, steps :| SysRun(size, n, ys, steps) && y == ys[|steps|];
    SysDoShape(size, n, y, step);
    ExtendSysRun(size, n, ys, steps, step);
    var zs, more := ys + [SysDo(size, n, y, step)], steps + [step];
    assert SysRun(size, n, zs, more) && zs[|more|] == SysDo(size, n, y, step);
  }

  lemma ExtendSysRun(size: Word, n: nat, ys: seq<Sys>, steps: seq<Step>, step: Step)
    requires SysRun(size, n, ys, steps) && SysEnabled(size, n, ys[|steps|], step)
    requires Shape(size, SysDo(size, n, ys[|steps|], step).ring)
    ensures SysRun(size, n, ys + [SysDo(size, n, ys[|steps|], step)], steps + [step])
  {
    var zs := ys + [SysDo(size, n, ys[|steps|], step)];
    assert forall i | 0 <= i < |ys| :: zs[i] == ys[i];
    assert forall i | 0 <= i < |steps| :: (steps + [step])[i] == steps[i];
  }

  lemma SysDoShape(size: Word, n: nat, y: Sys, step: Step)
    requires Shape(size, y.ring) && SysEnabled(size, n, y, step)
    ensures SysDo(size, n, y, step).ring == Do(size, y.ring, step)
  {}

  lemma SysReachableInv(size: Word, n: nat, y: Sys)
    requires SysReachable(size, n, y) && size % ACK_SIZE == 0 && 0 < n <= INT_MAX
    ensures SysInv(size, n, y)
  {
    var ys, steps :| SysRun(size, n, ys, steps) && y == ys[|steps|];
    SysRunKeeps(size, n, ys, steps, |steps|);
  }

  /**
   * The writer is held back only by the end of its loop or a window, the reader only by its end
   * or line 200.
   */
  lemma ThreadsRunFreely(size: Word, n: nat, y: Sys)
    requires SysReachable(size, n, y) && size % 16 == 0 && 0 < n <= 0x7FFF_FFFF
    ensures y.next < n && y.ring.w.WIdle? ==>
              forall ridxFirst ::
                SysEnabled(size, n, y, Look(Encode(Record(n, y.next)), ridxFirst)) <==> !InRelease(y.ring.r)
    ensures !y.ring.w.WIdle? ==> exists step :: WriterStep(step) && SysEnabled(size, n, y, step)
    ensures y.status == Running ==>
              || (exists step :: !WriterStep(step) && SysEnabled(size, n, y, step))
              || (y.ring.w.WLooking? && y.ring.r.RCopying? && y.ring.ridx + y.ring.r.len > size)
  {
    SysReachableInv(size, n, y);
    if !y.ring.w.WIdle? {
      WriteGoesOn(size, y.ring);
      assert SysEnabled(size, n, y, NextOfWriter(y.ring));
    }
    if y.ring.r.RIdle? {
      assert y.status == Running ==> SysEnabled(size, n, y, Observe(ACK_SIZE)) && !WriterStep(Observe(ACK_SIZE));
    } else {
      ReadGoesOn(size, y.ring);
      assert Enabled(size, y.ring, NextOfReader(y.ring)) ==> SysEnabled(size, n, y, NextOfReader(y.ring));
    }
  }

  /** No step is left exactly when all n records were written and taken. */
  lemma NoStepLeftExactlyAtTheEnd(size: Word, n: nat, y: Sys)
    requires SysReachable(size, n, y) && size % 16 == 0 && 0 < n <= 0x7FFF_FFFF
    ensures (forall step :: !SysEnabled(size, n, y, step)) <==>
            y.status == Done && y.next == |y.seen| == n && y.ring.w.WIdle? && y.ring.r.RIdle?
  {
    SysReachableInv(size, n, y);
    ThreadsRunFreely(size, n, y);
    var look := Look(Encode(Record(n, y.next)), false);
    assert y.next < n && y.ring.w.WIdle? && !InRelease(y.ring.r) ==> SysEnabled(size, n, y, look);
  }

  // ---------------------------------------------------------------- what the threads do with any count

  /** The reader's loop over what its calls return. */
  function ReadAll(y: Sys, calls: seq<seq<Byte>>): Sys {
    if calls == [] then y
    else
      var z := ReadAll(y, calls[..|calls| - 1]);
      if z.status == Running then AfterRead(z, calls[|calls| - 1]) else z
  }

  /** The reader would report a missing number on any stream that is not numbered 0, 1, 2, ... */
  lemma {:induction false} ReaderDetectsGaps(y: Sys, rs: seq<Ack>, calls: seq<seq<Byte>>)
    requires y.status == Running && y.seqnums == 0 && !y.missing && y.seen == []
    requires |calls| == |rs| && forall k | 0 <= k < |rs| ::
               && calls[k] == Encode(rs[k]) && rs[k].flags != 1
               && rs[k].timestamp < U32 * U32 && rs[k].seqnum < U32 && rs[k].flags < U32
    ensures var z := ReadAll(y, calls);
            && z.status == Running && z.seen == rs && z.seqnums == |rs|
            && (z.missing <==> exists k :: 0 <= k < |rs| && rs[k].seqnum != k)
  {
    if rs != [] {
      var last := |rs| - 1;
      ReaderDetectsGaps(y, rs[..last], calls[..last]);
      ReadsOneRecord(ReadAll(y, calls[..last]), rs[last]);
      GapBefore(rs, last);
    }
  }

  lemma ReadsOneRecord(y: Sys, a: Ack)
    requires a.timestamp < U32 * U32 && a.seqnum < U32 && a.flags < U32 && a.flags != 1
    ensures AfterRead(y, Encode(a)) ==
            y.(seen := y.seen + [a], missing := y.missing || a.seqnum != y.seqnums, seqnums := y.seqnums + 1)
  {
    DecodeEncode(a);
  }

  lemma GapBefore(rs: seq<Ack>, last: nat)
    requires last + 1 == |rs|
    ensures (exists k :: 0 <= k < |rs| && rs[k].seqnum != k) <==>
            (exists k :: 0 <= k < last && rs[..last][k].seqnum != k) || rs[last].seqnum != last
  {
    assert forall k | 0 <= k < last :: rs[..last][k] == rs[k];
  }

  /** A count that is no whole record: nothing is tried again, less ends the reader; only the last write takes it. */
  lemma OtherCounts(n: nat, y: Sys, count: nat, bytes: seq<Byte>)
    requires count != 16 && |bytes| != 16
    ensures AfterWrite(n, y, count) == if count == 0 || y.next + 1 < n then y else y.(next := y.next + 1)
    ensures AfterRead(y, bytes) == if bytes == [] then y else y.(status := Truncated)
  {}

  lemma FieldBytes(x: nat)
    ensures LittleEndian(x, 4) == [x % 256, x / 256 % 256, x / 65536 % 256, x / 16777216 % 256]
  {
    var y := x / 256;
    var z := y / 256;
    assert LittleEndian(z, 2) == [z % 256, z / 256 % 256];
    assert LittleEndian(x, 4) == [x % 256, y % 256] + LittleEndian(z, 2);
    assert z == x / 65536 && z / 256 == x / 16777216;
  }

  lemma FieldOf(a: Ack, i: nat)
    requires i < 4
    ensures Encode(a)[4 * i..4 * i + 4] ==
            LittleEndian([a.timestamp % U32, a.timestamp / U32, a.seqnum, a.flags][i], 4)
  {
    FieldAt([a.timestamp % U32, a.timestamp / U32, a.seqnum, a.flags], i);
  }

  /** The number lies in bytes 8 to 11 and the flags in bytes 12 to 15, least significant byte first. */
  lemma EncodedFields(a: Ack)
    requires a.timestamp < U32 * U32 && a.seqnum < U32 && a.flags < U32
    ensures Encode(a)[8..12] == [a.seqnum % 256, a.seqnum / 256 % 256, a.seqnum / 65536 % 256, a.seqnum / 16777216]
    ensures Encode(a)[12..16] == [a.flags % 256, a.flags / 256 % 256, a.flags / 65536 % 256, a.flags / 16777216]
  {
    FieldOf(a, 2);
    FieldOf(a, 3);
    FourBytes(a.seqnum);
    FourBytes(a.flags);
    assert Encode(a)[8..12] == LittleEndian(a.seqnum, 4);
    assert Encode(a)[12..16] == LittleEndian(a.flags, 4);
  }

  lemma FourBytes(x: nat)
    requires x < U32
    ensures LittleEndian(x, 4) == [x % 256, x / 256 % 256, x / 65536 % 256, x / 16777216]
  {
    FieldBytes(x);
  }
}
