/** The writer and reader threads of test_infbuffer.c over the buffer, for any thread counts. */
module InfThreads {
  import opened Arithmetic
  import opened InfBuffer

  const MAGIC := 0x00435053

  datatype Payload = Payload(magic: nat, id: nat, seqno: nat)

  /**
   * `begun[w]` counts the adds writer w has started, `seqnos[r]` is reader r's array of last
   * sequence numbers, `alive[r]` says that reader r is still looping, and `failed` that one of
   * the reader's assertions failed.
   */
  datatype Sys = Sys(
    buf: State<Payload>, begun: seq<nat>, seqnos: seq<seq<nat>>, alive: seq<bool>, failed: bool)

  function SysStart(items: nat, n: nat, m: nat): Sys {
    Sys(Start(items, n, m), seq(n, _ => 0), seq(m, _ => seq(n, _ => 0)), seq(m, _ => true), false)
  }

  /** maxseq of every writer, and of every reader: one less, in size_t arithmetic. */
  function WriterMax(items: nat, n: nat): nat
    requires 0 < n
  {
    items / n
  }

  function ReaderMax(items: nat, n: nat): nat
    requires 0 < n
  {
    (items / n - 1) % WORD
  }

  predicate SysEnabled(items: nat, n: nat, y: Sys, step: Step<Payload>)
    requires 0 < n
  {
    && Enabled(y.buf, step)
    && (step.Draw? ==>
      && step.w < |y.begun| && y.begun[step.w] < WriterMax(items, n)
      && step.item == Payload(MAGIC, step.w, y.begun[step.w] + 1))
    && (step.Take? ==> step.r < |y.alive| && y.alive[step.r])
  }

  /** What reader r does with what infbuffer_rem handed it. */
  function AfterRem(items: nat, n: nat, y: Sys, r: nat, slot: Slot<Payload>): Sys
    requires 0 < n && r < |y.alive| && r < |y.seqnos|
  {
    match slot
    case Null => y.(alive := y.alive[r := false])
    case Item(load) =>
      if load.magic != MAGIC || load.id >= n || load.id >= |y.seqnos[r]| || load.seqno <= y.seqnos[r][load.id] then
        y.(failed := true)
      else
        var last: seq<nat> := y.seqnos[r][load.id := load.seqno];
        y.(seqnos := y.seqnos[r := last],
           alive := y.alive[r := load.seqno < ReaderMax(items, n)])
  }

  function SysDo(items: nat, n: nat, y: Sys, step: Step<Payload>): Sys
    requires 0 < n && SysEnabled(items, n, y, step)
    requires |y.seqnos| == |y.alive| == |y.buf.rs|
  {
    var z := y.(buf := Do(y.buf, step));
    match step
    case Draw(w, _) => z.(begun := y.begun[w := y.begun[w] + 1])
    case Load(r) =>
      var idx := y.buf.rs[r].idx;
      if idx < |y.buf.data| then AfterRem(items, n, z, r, y.buf.data[idx]) else z
    case _ => z
  }

  ghost predicate SysRun(items: nat, n: nat, m: nat, ys: seq<Sys>, steps: seq<Step<Payload>>) {
    && 0 < n
    && |ys| == |steps| + 1
    && ys[0] == SysStart(items, n, m)
    && (forall i | 0 <= i < |ys| :: |ys[i].seqnos| == |ys[i].alive| == |ys[i].buf.rs|)
    && (forall i | 0 <= i < |steps| ::
          SysEnabled(items, n, ys[i], steps[i]) && ys[i + 1] == SysDo(items, n, ys[i], steps[i]))
  }

  // ---------------------------------------------------------------- invariant

  lemma {:induction false} SumAtMost(xs: seq<nat>, bound: nat)
    requires forall w | 0 <= w < |xs| :: xs[w] <= bound
    ensures Sum(xs) <= |xs| * bound
    ensures (forall w | 0 <= w < |xs| :: xs[w] == bound) ==> Sum(xs) == |xs| * bound
  {
    if xs != [] {
      SumAtMost(xs[1..], bound);
      assert |xs| * bound == bound + |xs[1..]| * bound;
    }
  }

  lemma SharesFit(items: nat, n: nat)
    requires 0 < n
    ensures n * (items / n) <= items
  {}

  /** The numbers of each writer increase with its tickets. */
  ghost predicate InOrder(drawn: seq<Entry<Payload>>) {
    forall i, j | 0 <= i < j < |drawn| ::
      drawn[i].writer == drawn[j].writer ==> drawn[i].item.seqno < drawn[j].item.seqno
  }

  /** Each ticket carries its writer's next number. */
  ghost predicate DrawnInv(begun: seq<nat>, drawn: seq<Entry<Payload>>) {
    && (forall i | 0 <= i < |drawn| ::
          var e := drawn[i];
          && e.writer < |begun|
          && e.item == Payload(MAGIC, e.writer, e.item.seqno)
          && 1 <= e.item.seqno <= begun[e.writer])
    && InOrder(drawn)
    && (forall w, q | 0 <= w < |begun| && 1 <= q <= begun[w] :: TicketFor(w, q) in drawn)
  }

  function TicketFor(w: nat, q: nat): Entry<Payload> {
    Entry(w, Payload(MAGIC, w, q))
  }

  /** The number of the last item from writer `id` that reader r got, 0 before the first. */
  function LastSeqno(taken: seq<Taken<Payload>>, r: nat, id: nat): nat {
    if taken == [] then 0
    else
      var t := taken[|taken| - 1];
      if t.reader == r && t.slot.Item? && t.slot.value.id == id then t.slot.value.seqno
      else LastSeqno(taken[..|taken| - 1], r, id)
  }

  ghost predicate SeqnosInv(n: nat, y: Sys) {
    && |y.seqnos| == |y.alive| == |y.buf.rs|
    && (forall r | 0 <= r < |y.seqnos| :: |y.seqnos[r]| == n)
    && (forall r, id | 0 <= r < |y.seqnos| && 0 <= id < n :: y.seqnos[r][id] == LastSeqno(y.buf.taken, r, id))
  }

  ghost predicate ShareInv(items: nat, n: nat, y: Sys) {
    && 0 < n
    && |y.buf.data| == items && |y.buf.ws| == |y.begun| == n
    && (forall w | 0 <= w < n :: y.begun[w] <= WriterMax(items, n))
    && Sum(y.begun) == y.buf.tidx
    && DrawnInv(y.begun, y.buf.drawn)
  }

  ghost predicate SysInv(items: nat, n: nat, y: Sys) {
    Inv(y.buf) && ShareInv(items, n, y) && SeqnosInv(n, y) && !y.failed
  }

  /** An item behind a later ticket has a higher number than the last one got from its writer. */
  lemma {:induction false} LaterTicketHigherNumber(
      y: Sys, taken: seq<Taken<Payload>>, r: nat, idx: nat)
    requires DrawnInv(y.begun, y.buf.drawn) && idx < |y.buf.drawn|
    requires forall k | 0 <= k < |taken| ::
               && taken[k].idx < |y.buf.drawn|
               && taken[k].slot in {Null, Item(y.buf.drawn[taken[k].idx].item)}
               && (taken[k].reader == r ==> taken[k].idx < idx)
    ensures LastSeqno(taken, r, y.buf.drawn[idx].writer) < y.buf.drawn[idx].item.seqno
  {
    if taken != [] {
      LaterTicketHigherNumber(y, taken[..|taken| - 1], r, idx);
      assert taken[|taken| - 1].slot.Item? ==>
               taken[|taken| - 1].slot.value == y.buf.drawn[taken[|taken| - 1].idx].item;
    }
  }

  lemma DrawKeepsNumbers(begun: seq<nat>, drawn: seq<Entry<Payload>>, w: nat)
    requires DrawnInv(begun, drawn) && w < |begun|
    ensures DrawnInv(begun[w := begun[w] + 1], drawn + [TicketFor(w, begun[w] + 1)])
  {}

  lemma DrawKeepsShare(items: nat, n: nat, y: Sys, step: Step<Payload>)
    requires ShareInv(items, n, y) && SysEnabled(items, n, y, step) && step.Draw?
    requires |y.seqnos| == |y.alive| == |y.buf.rs|
    ensures ShareInv(items, n, SysDo(items, n, y, step))
  {
    var z := SysDo(items, n, y, step);
    SumUpdate(y.begun, step.w, y.begun[step.w] + 1);
    DrawKeepsNumbers(y.begun, y.buf.drawn, step.w);
    assert z.buf.drawn == y.buf.drawn + [TicketFor(step.w, y.begun[step.w] + 1)];
  }

  lemma DrawKeepsSeqnos(items: nat, n: nat, y: Sys, step: Step<Payload>)
    requires 0 < n && SeqnosInv(n, y) && SysEnabled(items, n, y, step) && step.Draw?
    ensures SeqnosInv(n, SysDo(items, n, y, step))
  {
    assert SysDo(items, n, y, step).buf.taken == y.buf.taken;
  }

  lemma DrawKeepsSys(items: nat, n: nat, y: Sys, step: Step<Payload>)
    requires SysInv(items, n, y) && SysEnabled(items, n, y, step) && step.Draw?
    ensures SysInv(items, n, SysDo(items, n, y, step))
  {
    StepKeeps(y.buf, step);
    DrawKeepsShare(items, n, y, step);
    DrawKeepsSeqnos(items, n, y, step);
  }

  /** The reader's assertions hold and its array again matches what it has got. */
  lemma AfterRemKeeps(items: nat, n: nat, y: Sys, z: Sys, r: nat, idx: nat, slot: Slot<Payload>)
    requires SysInv(items, n, y) && r < |y.alive| && idx < |y.buf.drawn|
    requires slot in {Null, Item(y.buf.drawn[idx].item)}
    requires forall k | 0 <= k < |y.buf.taken| :: y.buf.taken[k].reader == r ==> y.buf.taken[k].idx < idx
    requires z.seqnos == y.seqnos && z.alive == y.alive && !z.failed && |z.buf.rs| == |y.buf.rs|
    requires z.buf.taken == y.buf.taken + [Taken(r, idx, slot)]
    ensures var x := AfterRem(items, n, z, r, slot);
            SeqnosInv(n, x) && !x.failed && x.buf == z.buf && x.begun == z.begun
  {
    LaterTicketHigherNumber(y, y.buf.taken, r, idx);
    var x := AfterRem(items, n, z, r, slot);
    assert z.buf.taken[..|z.buf.taken| - 1] == y.buf.taken;
    forall q, id | 0 <= q < |x.seqnos| && 0 <= id < n
      ensures |x.seqnos[q]| == n && x.seqnos[q][id] == LastSeqno(x.buf.taken, q, id)
    {
      assert y.seqnos[q][id] == LastSeqno(y.buf.taken, q, id);
    }
  }

  lemma LoadKeepsSys(items: nat, n: nat, y: Sys, step: Step<Payload>)
    requires SysInv(items, n, y) && SysEnabled(items, n, y, step) && step.Load?
    ensures SysInv(items, n, SysDo(items, n, y, step))
  {
    StepKeeps(y.buf, step);
    StepKeepsSizes(y.buf, step);
    var r, idx := step.r, y.buf.rs[step.r].idx;
    if idx < items {
      var z := y.(buf := Do(y.buf, step));
      AfterRemKeeps(items, n, y, z, r, idx, y.buf.data[idx]);
    }
  }

  lemma OtherKeepsSys(items: nat, n: nat, y: Sys, step: Step<Payload>)
    requires SysInv(items, n, y) && SysEnabled(items, n, y, step) && !step.Draw? && !step.Load?
    ensures SysInv(items, n, SysDo(items, n, y, step))
  {
    StepKeeps(y.buf, step);
    var t := Do(y.buf, step);
    assert t.drawn == y.buf.drawn && t.taken == y.buf.taken && t.tidx == y.buf.tidx;
    StepKeepsSizes(y.buf, step);
  }

  lemma SysStepKeeps(items: nat, n: nat, y: Sys, step: Step<Payload>)
    requires SysInv(items, n, y) && SysEnabled(items, n, y, step)
    ensures SysInv(items, n, SysDo(items, n, y, step))
  {
    if step.Draw? {
      DrawKeepsSys(items, n, y, step);
    } else if step.Load? {
      LoadKeepsSys(items, n, y, step);
    } else {
      OtherKeepsSys(items, n, y, step);
    }
  }

  lemma {:induction false} SysRunKeeps(items: nat, n: nat, m: nat, ys: seq<Sys>, steps: seq<Step<Payload>>, i: nat)
    requires SysRun(items, n, m, ys, steps) && i < |ys|
    ensures SysInv(items, n, ys[i])
  {
    if i == 0 {
      StartInv<Payload>(items, n, m);
      SumOfZeros(n);
    } else {
      SysRunKeeps(items, n, m, ys, steps, i - 1);
      SysStepKeeps(items, n, ys[i - 1], steps[i - 1]);
    }
  }

  lemma TicketsFit(items: nat, n: nat, y: Sys)
    requires SysInv(items, n, y)
    ensures y.buf.tidx <= n * WriterMax(items, n) <= items
  {
    SumAtMost(y.begun, WriterMax(items, n));
    SharesFit(items, n);
  }

  /** The reader's assertions never fail and no slot index ever reaches `items`. */
  lemma AssertionsHoldAndIndicesFit(
      items: nat, n: nat, m: nat, ys: seq<Sys>, steps: seq<Step<Payload>>, i: nat)
    requires SysRun(items, n, m, ys, steps) && i < |ys|
    ensures !ys[i].failed
    ensures ys[i].buf.tidx <= n * (items / n) <= items && !ys[i].buf.overrun
  {
    SysRunKeeps(items, n, m, ys, steps, i);
    TicketsFit(items, n, ys[i]);
  }

  /** What one reader gets from one writer comes in strictly increasing order of number. */
  lemma EachReaderSeesEachWriterInOrder(
      items: nat, n: nat, m: nat, ys: seq<Sys>, steps: seq<Step<Payload>>, i: nat, j: nat, k: nat)
    requires SysRun(items, n, m, ys, steps) && i < |ys|
    requires j < k < |ys[i].buf.taken|
    requires ys[i].buf.taken[j].reader == ys[i].buf.taken[k].reader
    requires ys[i].buf.taken[j].slot.Item? && ys[i].buf.taken[k].slot.Item?
    requires ys[i].buf.taken[j].slot.value.id == ys[i].buf.taken[k].slot.value.id
    ensures ys[i].buf.taken[j].slot.value.seqno < ys[i].buf.taken[k].slot.value.seqno
  {
    SysRunKeeps(items, n, m, ys, steps, i);
    var s := ys[i].buf;
    var a, b := s.taken[j].idx, s.taken[k].idx;
    assert s.taken[j].slot.value == s.drawn[a].item && s.taken[k].slot.value == s.drawn[b].item;
    assert s.drawn[a].writer == s.drawn[b].writer;
  }

  /**
   * Once all writers are through, the n * maxseq filled slots hold each writer's numbers from 1
   * to maxseq, so each of them exactly once.
   */
  lemma FinishedWritersFillTheBuffer(
      items: nat, n: nat, m: nat, ys: seq<Sys>, steps: seq<Step<Payload>>, i: nat, w: nat, q: nat)
    requires SysRun(items, n, m, ys, steps) && i < |ys|
    requires Busy(ys[i].buf.ws) == {}
    requires forall v | 0 <= v < |ys[i].begun| :: ys[i].begun[v] == items / n
    requires w < n && 1 <= q <= items / n
    ensures ys[i].buf.widx == n * (items / n) <= |ys[i].buf.data|
    ensures Item(Payload(0x00435053, w, q)) in ys[i].buf.data[..ys[i].buf.widx]
    ensures Null !in ys[i].buf.data[..ys[i].buf.widx]
  {
    SysRunKeeps(items, n, m, ys, steps, i);
    SumAtMost(ys[i].begun, WriterMax(items, n));
    SharesFit(items, n);
    var s := ys[i].buf;
    forall k | 0 <= k < s.tidx
      ensures s.data[k] == Item(s.drawn[k].item)
    {
      assert s.drawn[k].writer !in Busy(s.ws);
      assert !HoldsTicket(s, s.drawn[k].writer, k);
    }
    assert TicketFor(w, q) in s.drawn;
    var k :| 0 <= k < |s.drawn| && s.drawn[k] == TicketFor(w, q);
    assert s.data[..s.widx][k] == Item(Payload(MAGIC, w, q));
  }

  // ---------------------------------------------------------------- which readers finish

  /** The read ticket i is for an item after which its reader stops, or for none so far. */
  ghost predicate StopTicket(items: nat, n: nat, y: Sys, i: nat)
    requires 0 < n
  {
    i >= |y.buf.drawn| || y.buf.drawn[i].item.seqno >= ReaderMax(items, n)
  }

  /** A reader draws a further ticket only after items that do not stop it. */
  ghost predicate UseInv(items: nat, n: nat, y: Sys)
    requires 0 < n
  {
    && |y.alive| == |y.buf.rs| && |y.buf.owners| == y.buf.ridx
    && (forall q | 0 <= q < |y.buf.rs| :: !y.buf.rs[q].RIdle? ==> y.alive[q])
    && (forall i | 0 <= i < y.buf.ridx ::
          var q := y.buf.owners[i];
          && q < |y.buf.rs|
          && ((!y.buf.rs[q].RIdle? && y.buf.rs[q].idx == i) || (y.alive[q] ==> !StopTicket(items, n, y, i))))
    && (forall i, j | 0 <= i < j < y.buf.ridx ::
          y.buf.owners[i] == y.buf.owners[j] ==> !StopTicket(items, n, y, i))
  }

  lemma WritersKeepUse(items: nat, n: nat, y: Sys, z: Sys)
    requires 0 < n && UseInv(items, n, y)
    requires z.buf.rs == y.buf.rs && z.buf.ridx == y.buf.ridx && z.buf.owners == y.buf.owners && z.alive == y.alive
    requires y.buf.drawn <= z.buf.drawn
    ensures UseInv(items, n, z)
  {
    assert forall i: nat :: StopTicket(items, n, z, i) ==> StopTicket(items, n, y, i);
  }

  lemma TakeKeepsUse(items: nat, n: nat, y: Sys, r: nat)
    requires 0 < n && UseInv(items, n, y) && SysEnabled(items, n, y, Take(r))
    requires |y.seqnos| == |y.alive|
    ensures UseInv(items, n, SysDo(items, n, y, Take(r)))
  {
    var z := SysDo(items, n, y, Take(r));
    assert forall i: nat :: StopTicket(items, n, z, i) == StopTicket(items, n, y, i);
    assert z.buf.owners == y.buf.owners + [r] && z.buf.rs == y.buf.rs[r := RTicket(y.buf.ridx)];
  }

  lemma WaitKeepsUse(items: nat, n: nat, y: Sys, r: nat)
    requires 0 < n && UseInv(items, n, y) && SysEnabled(items, n, y, Wait(r))
    requires |y.seqnos| == |y.alive|
    ensures UseInv(items, n, SysDo(items, n, y, Wait(r)))
  {
    var z := SysDo(items, n, y, Wait(r));
    assert forall i: nat :: StopTicket(items, n, z, i) == StopTicket(items, n, y, i);
    assert z.buf.rs == y.buf.rs[r := RReady(y.buf.rs[r].idx)];
  }

  /** A reader that goes on has just loaded an item that does not stop it. */
  lemma LoadKeepsUse(items: nat, n: nat, y: Sys, z: Sys, r: nat)
    requires 0 < n && UseInv(items, n, y) && r < |y.buf.rs| && y.buf.rs[r].RReady?
    requires z.buf.rs == y.buf.rs[r := RIdle] && z.buf.ridx == y.buf.ridx && z.buf.owners == y.buf.owners
    requires z.buf.drawn == y.buf.drawn
    requires |z.alive| == |y.alive| && forall q | 0 <= q < |y.alive| && q != r :: z.alive[q] == y.alive[q]
    requires z.alive[r] ==> !StopTicket(items, n, y, y.buf.rs[r].idx)
    ensures UseInv(items, n, z)
  {
    assert forall i: nat :: StopTicket(items, n, z, i) == StopTicket(items, n, y, i);
    forall i | 0 <= i < z.buf.ridx && z.buf.owners[i] == r
      ensures z.alive[r] ==> !StopTicket(items, n, z, i)
    {}
  }

  /** Reader q has stopped because of the item behind ticket t. */
  ghost predicate StoppedBy(items: nat, n: nat, y: Sys, q: nat, t: nat)
    requires 0 < n
  {
    && t < |y.buf.drawn| && y.buf.drawn[t].item.seqno >= ReaderMax(items, n)
    && t < |y.buf.owners| && y.buf.owners[t] == q
  }

  /** A reader goes on exactly after an item that does not stop it. */
  lemma LoadedItemDecides(items: nat, n: nat, y: Sys, r: nat)
    requires SysInv(items, n, y) && SysEnabled(items, n, y, Load(r)) && y.buf.tidx <= items
    ensures var z := SysDo(items, n, y, Load(r));
            && z.buf == Do(y.buf, Load(r)) && |z.alive| == |y.alive| && |z.buf.taken| > 0
            && (forall q | 0 <= q < |y.alive| && q != r :: z.alive[q] == y.alive[q])
            && (z.alive[r] ==> !StopTicket(items, n, y, y.buf.rs[r].idx))
            && (z.alive[r] || z.buf.taken[|z.buf.taken| - 1].slot.Null? || StoppedBy(items, n, z, r, y.buf.rs[r].idx))
  {
    var idx := y.buf.rs[r].idx;
    var slot := y.buf.data[idx];
    var before := y.(buf := Do(y.buf, Load(r)));
    assert before.buf.taken == y.buf.taken + [Taken(r, idx, slot)];
    AfterRemKeeps(items, n, y, before, r, idx, slot);
    assert SysDo(items, n, y, Load(r)) == AfterRem(items, n, before, r, slot);
    assert slot.Item? ==> slot == Item(y.buf.drawn[idx].item);
  }

  lemma UseStepKeeps(items: nat, n: nat, y: Sys, step: Step<Payload>)
    requires SysInv(items, n, y) && SysEnabled(items, n, y, step) && UseInv(items, n, y)
    ensures UseInv(items, n, SysDo(items, n, y, step))
  {
    TicketsFit(items, n, y);
    var z := SysDo(items, n, y, step);
    match step
    case Take(r) => TakeKeepsUse(items, n, y, r);
    case Wait(r) => WaitKeepsUse(items, n, y, r);
    case Load(r) =>
      LoadedItemDecides(items, n, y, r);
      LoadKeepsUse(items, n, y, z, r);
    case _ => WritersKeepUse(items, n, y, z);
  }

  lemma {:induction false} UseRunKeeps(items: nat, n: nat, m: nat, ys: seq<Sys>, steps: seq<Step<Payload>>, i: nat)
    requires SysRun(items, n, m, ys, steps) && i < |ys|
    ensures UseInv(items, n, ys[i]) && |ys[i].buf.rs| == m
  {
    if i > 0 {
      UseRunKeeps(items, n, m, ys, steps, i - 1);
      SysRunKeeps(items, n, m, ys, steps, i - 1);
      UseStepKeeps(items, n, ys[i - 1], steps[i - 1]);
      StepKeepsSizes(ys[i - 1].buf, steps[i - 1]);
    }
  }

  /** How many of a writer's numbers stop a reader: the last two, or all if there are fewer. */
  function StopsPerWriter(items: nat, n: nat): nat
    requires 0 < n
  {
    if WriterMax(items, n) < 2 then WriterMax(items, n) else 2
  }

  /** The tickets so far whose items stop no reader. */
  ghost function GoOn(items: nat, n: nat, y: Sys): set<nat>
    requires 0 < n
  {
    set i: nat | i < |y.buf.drawn| && !StopTicket(items, n, y, i)
  }

  ghost predicate NumberedFrom(drawn: seq<Entry<Payload>>, s: set<nat>, base: nat, k: nat) {
    forall i | i in s :: i < |drawn| && 1 <= drawn[i].item.seqno - base <= k
  }

  lemma FewNumbersOfOne(drawn: seq<Entry<Payload>>, s: set<nat>, w: nat, base: nat, k: nat)
    requires InOrder(drawn) && NumberedFrom(drawn, s, base, k)
    requires forall i | i in s :: drawn[i].writer == w
    ensures |s| <= k
  {
    var number := (i: nat) =>
      if i < |drawn| && base < drawn[i].item.seqno then drawn[i].item.seqno - base - 1 else 0;
    InjectionBound(s, Upto(k), number);
  }

  ghost function Fibre(s: set<nat>, f: nat -> nat, w: nat): set<nat> {
    set i | i in s && f(i) == w
  }

  /** If f takes n values on s and each of them at most k times, then s has at most n * k elements. */
  lemma {:induction false} FibreBound(s: set<nat>, f: nat -> nat, n: nat, k: nat)
    requires forall i | i in s :: f(i) < n
    requires forall w: nat | w < n :: |Fibre(s, f, w)| <= k
    ensures |s| <= n * k
  {
    if n == 0 {
      assert s == {};
    } else {
      var last := Fibre(s, f, n - 1);
      var rest := s - last;
      forall w: nat | w < n - 1
        ensures |Fibre(rest, f, w)| <= k
      {
        assert Fibre(rest, f, w) == Fibre(s, f, w);
      }
      FibreBound(rest, f, n - 1, k);
      assert s == last + rest;
      assert n * k == (n - 1) * k + k;
    }
  }

  /** At most n * k tickets carry one of a writer's k numbers after `base`. */
  lemma FewNumbers(drawn: seq<Entry<Payload>>, s: set<nat>, n: nat, base: nat, k: nat)
    requires InOrder(drawn) && NumberedFrom(drawn, s, base, k)
    requires forall i | i in s :: drawn[i].writer < n
    ensures |s| <= n * k
  {
    var owner := (i: nat) => if i < |drawn| then drawn[i].writer else 0;
    forall w: nat | w < n
      ensures |Fibre(s, owner, w)| <= k
    {
      FewNumbersOfOne(drawn, Fibre(s, owner, w), w, base, k);
    }
    FibreBound(s, owner, n, k);
  }

  lemma FewGoOn(items: nat, n: nat, y: Sys)
    requires SysInv(items, n, y) && items < WORD
    ensures |GoOn(items, n, y)| <= n * (WriterMax(items, n) - StopsPerWriter(items, n))
  {
    var k := WriterMax(items, n) - StopsPerWriter(items, n);
    SmallShare(items, n);
    forall i | i in GoOn(items, n, y)
      ensures y.buf.drawn[i].item.seqno <= k
    {}
    FewNumbers(y.buf.drawn, GoOn(items, n, y), n, 0, k);
  }

  lemma SmallShare(items: nat, n: nat)
    requires 0 < n && items < WORD
    ensures 1 <= WriterMax(items, n) ==> ReaderMax(items, n) == WriterMax(items, n) - 1
  {
    SharesFit(items, n);
    MulMonotone(1, n, items / n);
  }

  /** Tickets that stop their reader were drawn by different readers. */
  lemma StoppersAreFew(items: nat, n: nat, y: Sys, tickets: set<nat>)
    requires 0 < n && UseInv(items, n, y)
    requires forall t | t in tickets :: t < y.buf.ridx && StopTicket(items, n, y, t)
    ensures |tickets| <= |y.buf.rs|
  {
    var owner := (t: nat) => if t < |y.buf.owners| then y.buf.owners[t] else 0;
    InjectionBound(tickets, Upto(|y.buf.rs|), owner);
  }

  /**
   * As long as there are at most two readers for every writer (or as many as a writer adds, if
   * that is less), no reader ever draws a ticket that no add will serve.
   */
  lemma FewReadersDrawOnlyServedTickets(
      items: nat, n: nat, m: nat, ys: seq<Sys>, steps: seq<Step<Payload>>, i: nat)
    requires SysRun(items, n, m, ys, steps) && i < |ys|
    requires items < 0x1_0000_0000_0000_0000 && m <= n * (if items / n < 2 then items / n else 2)
    ensures ys[i].buf.ridx <= n * (items / n)
  {
    SysRunKeeps(items, n, m, ys, steps, i);
    UseRunKeeps(items, n, m, ys, steps, i);
    TakenAreServed(items, n, ys[i]);
  }

  lemma TakenAreServed(items: nat, n: nat, y: Sys)
    requires SysInv(items, n, y) && UseInv(items, n, y)
    requires items < WORD && |y.buf.rs| <= n * StopsPerWriter(items, n)
    ensures y.buf.ridx <= n * WriterMax(items, n)
  {
    var tickets := Upto(y.buf.ridx) - GoOn(items, n, y);
    StoppersAreFew(items, n, y, tickets);
    SizeOfRest(Upto(y.buf.ridx), GoOn(items, n, y));
    FewGoOn(items, n, y);
    ShareSplit(items, n);
  }

  lemma SizeOfRest(s: set<nat>, t: set<nat>)
    ensures |s - t| >= |s| - |t|
  {
    assert s - t + s * t == s;
    assert t - s + s * t == t;
  }

  lemma ShareSplit(items: nat, n: nat)
    requires 0 < n
    ensures var s := StopsPerWriter(items, n);
            n * WriterMax(items, n) == n * (WriterMax(items, n) - s) + n * s
  {}

  /** Then every reader still waiting when the writers are through can go on. */
  lemma FewReadersNeverWaitForever(
      items: nat, n: nat, m: nat, ys: seq<Sys>, steps: seq<Step<Payload>>, i: nat, r: nat)
    requires SysRun(items, n, m, ys, steps) && i < |ys|
    requires items < WORD && m <= n * StopsPerWriter(items, n)
    requires Busy(ys[i].buf.ws) == {}
    requires forall v | 0 <= v < |ys[i].begun| :: ys[i].begun[v] == WriterMax(items, n)
    requires r < |ys[i].buf.rs| && ys[i].buf.rs[r].RTicket?
    ensures Enabled(ys[i].buf, Wait(r))
  {
    SysRunKeeps(items, n, m, ys, steps, i);
    FewReadersDrawOnlyServedTickets(items, n, m, ys, steps, i);
    SumAtMost(ys[i].begun, WriterMax(items, n));
  }

  ghost predicate HasCause(items: nat, n: nat, y: Sys, q: nat)
    requires 0 < n
  {
    exists t: nat :: StoppedBy(items, n, y, q, t)
  }

  /** Unless some rem came back empty, every reader that stopped did so because of a number. */
  ghost predicate StopInv(items: nat, n: nat, y: Sys)
    requires 0 < n
  {
    MissedAnItem(y.buf) || forall q | 0 <= q < |y.alive| && !y.alive[q] :: HasCause(items, n, y, q)
  }

  lemma StoppedStays(items: nat, n: nat, y: Sys, z: Sys, q: nat)
    requires 0 < n && HasCause(items, n, y, q)
    requires y.buf.drawn <= z.buf.drawn && y.buf.owners <= z.buf.owners
    ensures HasCause(items, n, z, q)
  {
    var t: nat :| StoppedBy(items, n, y, q, t);
    assert StoppedBy(items, n, z, q, t);
  }

  lemma MissedStays(s: State<Payload>, t: State<Payload>)
    requires s.taken <= t.taken && MissedAnItem(s)
    ensures MissedAnItem(t)
  {
    var k :| 0 <= k < |s.taken| && s.taken[k].slot.Null?;
    assert t.taken[k].slot.Null?;
  }

  lemma StopStepKeeps(items: nat, n: nat, y: Sys, step: Step<Payload>)
    requires SysInv(items, n, y) && SysEnabled(items, n, y, step) && StopInv(items, n, y)
    ensures StopInv(items, n, SysDo(items, n, y, step))
  {
    TicketsFit(items, n, y);
    var z := SysDo(items, n, y, step);
    HistoryGrows(items, n, y, step);
    if MissedAnItem(y.buf) {
      MissedStays(y.buf, z.buf);
    } else {
      if step.Load? {
        LoadedItemDecides(items, n, y, step.r);
      }
      forall q | 0 <= q < |z.alive| && !z.alive[q] && !MissedAnItem(z.buf)
        ensures HasCause(items, n, z, q)
      {
        if !y.alive[q] {
          StoppedStays(items, n, y, z, q);
        }
      }
    }
  }

  lemma HistoryGrows(items: nat, n: nat, y: Sys, step: Step<Payload>)
    requires 0 < n && |y.seqnos| == |y.alive| == |y.buf.rs| && SysEnabled(items, n, y, step)
    ensures var z := SysDo(items, n, y, step);
            && y.buf.drawn <= z.buf.drawn && y.buf.owners <= z.buf.owners && y.buf.taken <= z.buf.taken
            && |z.alive| == |y.alive| && (!step.Load? ==> z.alive == y.alive)
  {}

  lemma {:induction false} StopRunKeeps(items: nat, n: nat, m: nat, ys: seq<Sys>, steps: seq<Step<Payload>>, i: nat)
    requires SysRun(items, n, m, ys, steps) && i < |ys|
    ensures StopInv(items, n, ys[i])
  {
    if i > 0 {
      StopRunKeeps(items, n, m, ys, steps, i - 1);
      SysRunKeeps(items, n, m, ys, steps, i - 1);
      StopStepKeeps(items, n, ys[i - 1], steps[i - 1]);
    }
  }

  /** The tickets so far whose items stop their reader. */
  ghost function Stops(items: nat, n: nat, y: Sys): set<nat>
    requires 0 < n
  {
    set t: nat | t < |y.buf.drawn| && y.buf.drawn[t].item.seqno >= ReaderMax(items, n)
  }

  lemma FewStops(items: nat, n: nat, y: Sys)
    requires SysInv(items, n, y) && items < WORD
    ensures |Stops(items, n, y)| <= n * StopsPerWriter(items, n)
  {
    SmallShare(items, n);
    FewNumbers(y.buf.drawn, Stops(items, n, y), n,
      WriterMax(items, n) - StopsPerWriter(items, n), StopsPerWriter(items, n));
  }

  /** The ticket that stopped reader q, if one did. */
  ghost function Cause(items: nat, n: nat, y: Sys, q: nat): (t: nat)
    requires 0 < n
    ensures HasCause(items, n, y, q) ==> StoppedBy(items, n, y, q, t)
  {
    if HasCause(items, n, y, q) then
      var u: nat :| StoppedBy(items, n, y, q, u);
      u
    else 0
  }

  ghost function Stopped(y: Sys): set<nat> {
    set q: nat | q < |y.alive| && !y.alive[q]
  }

  /** Without an empty rem no more readers than that ever stop, so any more of them never finish. */
  lemma OnlyThatManyReadersStop(
      items: nat, n: nat, m: nat, ys: seq<Sys>, steps: seq<Step<Payload>>, i: nat)
    requires SysRun(items, n, m, ys, steps) && i < |ys|
    requires items < 0x1_0000_0000_0000_0000 && !MissedAnItem(ys[i].buf)
    ensures |Stopped(ys[i])| <= n * (if items / n < 2 then items / n else 2)
  {
    var y := ys[i];
    SysRunKeeps(items, n, m, ys, steps, i);
    StopRunKeeps(items, n, m, ys, steps, i);
    FewStops(items, n, y);
    StoppedHaveCauses(items, n, y);
  }

  lemma StoppedHaveCauses(items: nat, n: nat, y: Sys)
    requires 0 < n && StopInv(items, n, y) && !MissedAnItem(y.buf)
    ensures |Stopped(y)| <= |Stops(items, n, y)|
  {
    var cause := (q: nat) => Cause(items, n, y, q);
    forall q | q in Stopped(y)
      ensures StoppedBy(items, n, y, q, cause(q))
    {}
    InjectionBound(Stopped(y), Stops(items, n, y), cause);
  }

  function Buffers(ys: seq<Sys>): (ss: seq<State<Payload>>)
    ensures |ss| == |ys| && forall i | 0 <= i < |ys| :: ss[i] == ys[i].buf
  {
    seq(|ys|, i requires 0 <= i < |ys| => ys[i].buf)
  }

  /** A run of the threads is a run of the buffer, so all that holds of the buffer holds here. */
  lemma RunOfBuffer(items: nat, n: nat, m: nat, ys: seq<Sys>, steps: seq<Step<Payload>>)
    requires SysRun(items, n, m, ys, steps)
    ensures IsRun(items, n, m, Buffers(ys), steps)
  {
    var ss := Buffers(ys);
    forall i | 0 <= i < |steps|
      ensures Enabled(ss[i], steps[i]) && ss[i + 1] == Do(ss[i], steps[i])
    {
      assert ys[i + 1] == SysDo(items, n, ys[i], steps[i]);
    }
  }

  /** With one writer no rem comes back empty, so that bound holds in every run. */
  lemma OneWriterStopsOnlyThatMany(items: nat, m: nat, ys: seq<Sys>, steps: seq<Step<Payload>>, i: nat)
    requires SysRun(items, 1, m, ys, steps) && i < |ys| && items < 0x1_0000_0000_0000_0000
    ensures |Stopped(ys[i])| <= if items < 2 then items else 2
  {
    RunOfBuffer(items, 1, m, ys, steps);
    OneWriterLoads(items, m, Buffers(ys), steps, i);
    OnlyThatManyReadersStop(items, 1, m, ys, steps, i);
  }

  // ---------------------------------------------------------------- when all readers finish

  ghost predicate SysReachable(items: nat, n: nat, m: nat, y: Sys) {
    exists ys, steps :: SysRun(items, n, m, ys, steps) && y == ys[|steps|]
  }

  /** The program has come to its end, or to a standstill. */
  ghost predicate NoStepLeft(items: nat, n: nat, y: Sys)
    requires 0 < n
  {
    forall step: Step<Payload> :: !SysEnabled(items, n, y, step)
  }

  predicate AllStopped(y: Sys) {
    forall q | 0 <= q < |y.alive| :: !y.alive[q]
  }

  /** All writers have added all they had to. */
  predicate WritersDone(items: nat, n: nat, y: Sys)
    requires 0 < n
  {
    && |y.begun| == |y.buf.ws| == n
    && forall w | 0 <= w < n :: y.buf.ws[w].WIdle? && y.begun[w] == WriterMax(items, n)
  }

  lemma SysReachableInv(items: nat, n: nat, m: nat, y: Sys)
    requires SysReachable(items, n, m, y)
    ensures SysInv(items, n, y) && UseInv(items, n, y) && |y.buf.rs| == m
    ensures y.buf.tidx <= n * WriterMax(items, n) <= items
    ensures WritersDone(items, n, y) ==> y.buf.widx == y.buf.tidx == n * WriterMax(items, n)
  {
    var ys, steps :| SysRun(items, n, m, ys, steps) && y == ys[|steps|];
    SysRunKeeps(items, n, m, ys, steps, |steps|);
    UseRunKeeps(items, n, m, ys, steps, |steps|);
    TicketsFit(items, n, y);
    SumAtMost(y.begun, WriterMax(items, n));
    assert WritersDone(items, n, y) ==> Busy(y.buf.ws) == {};
  }

  lemma ExtendSysRun(items: nat, n: nat, m: nat, ys: seq<Sys>, steps: seq<Step<Payload>>, step: Step<Payload>)
    requires SysRun(items, n, m, ys, steps) && SysEnabled(items, n, ys[|steps|], step)
    requires var z := SysDo(items, n, ys[|steps|], step); |z.seqnos| == |z.alive| == |z.buf.rs|
    ensures SysRun(items, n, m, ys + [SysDo(items, n, ys[|steps|], step)], steps + [step])
  {
    var zs := ys + [SysDo(items, n, ys[|steps|], step)];
    assert forall i | 0 <= i < |ys| :: zs[i] == ys[i];
    assert forall i | 0 <= i < |steps| :: (steps + [step])[i] == steps[i];
  }

  lemma StepEffect(items: nat, n: nat, y: Sys, step: Step<Payload>)
    requires 0 < n && |y.seqnos| == |y.alive| == |y.buf.rs| && SysEnabled(items, n, y, step)
    ensures var z := SysDo(items, n, y, step);
            && z.buf == Do(y.buf, step)
            && z.begun == (if step.Draw? then y.begun[step.w := y.begun[step.w] + 1] else y.begun)
            && |z.seqnos| == |z.alive| == |z.buf.rs| && (!step.Load? ==> z.alive == y.alive)
  {}

  /** The threads start with an empty buffer and nothing done, for any numbers of them. */
  lemma AnySysStarts(items: nat, n: nat, m: nat)
    requires 0 < n
    ensures SysReachable(items, n, m,
              Sys(State(seq(items, _ => Null), 0, 0, 0, seq(n, _ => WIdle), seq(m, _ => RIdle), false, [], [], []),
                  seq(n, _ => 0), seq(m, _ => seq(n, _ => 0)), seq(m, _ => true), false))
  {
    var ys, steps: seq<Step<Payload>> := [SysStart(items, n, m)], [];
    assert SysRun(items, n, m, ys, steps) && ys[|steps|] == ys[0];
    assert ys[0].buf.data == seq(items, _ => Null) && ys[0].begun == seq(n, _ => 0);
  }

  /** Any step that is possible can come next. */
  lemma SysReachableDo(items: nat, n: nat, m: nat, y: Sys, step: Step<Payload>)
    requires SysReachable(items, n, m, y) && 0 < n && SysEnabled(items, n, y, step)
    requires |y.seqnos| == |y.alive| == |y.buf.rs|
    ensures SysReachable(items, n, m, SysDo(items, n, y, step))
  {
    var ys, steps :| SysRun(items, n, m, ys, steps) && y == ys[|steps|];
    StepEffect(items, n, y, step);
    ExtendSysRun(items, n, m, ys, steps, step);
    var zs, more := ys + [SysDo(items, n, y, step)], steps + [step];
    assert SysRun(items, n, m, zs, more) && zs[|more|] == SysDo(items, n, y, step);
  }

  lemma SysReachableStep(items: nat, n: nat, m: nat, y: Sys, step: Step<Payload>) returns (z: Sys)
    requires SysReachable(items, n, m, y) && 0 < n && SysEnabled(items, n, y, step)
    requires |y.seqnos| == |y.alive| == |y.buf.rs|
    ensures SysReachable(items, n, m, z) && z.buf == Do(y.buf, step)
    ensures z.begun == if step.Draw? then y.begun[step.w := y.begun[step.w] + 1] else y.begun
    ensures |z.seqnos| == |z.alive| == |z.buf.rs| && (!step.Load? ==> z.alive == y.alive)
  {
    z := SysDo(items, n, y, step);
    StepEffect(items, n, y, step);
    SysReachableDo(items, n, m, y, step);
  }

  /**
   * A writer is never held back before its last add, a reader that loops only by the wait for
   * an add.
   */
  lemma ThreadsRunFreely(items: nat, n: nat, m: nat, y: Sys)
    requires SysReachable(items, n, m, y) && 0 < n
    ensures |y.buf.ws| == |y.begun| == n && |y.buf.rs| == |y.alive| == m
    ensures forall w: nat | w < n && y.buf.ws[w].WIdle? && y.begun[w] < items / n ::
              SysEnabled(items, n, y, Draw(w, Payload(0x00435053, w, y.begun[w] + 1)))
    ensures forall w: nat | w < n && !y.buf.ws[w].WIdle? ::
              exists step :: WriterStep(step) && step.w == w && SysEnabled(items, n, y, step)
    ensures forall r: nat | r < m && y.alive[r] && !(y.buf.rs[r].RTicket? && y.buf.rs[r].idx >= y.buf.widx) ::
              exists step :: !WriterStep(step) && step.r == r && SysEnabled(items, n, y, step)
  {
    SysReachableInv(items, n, m, y);
    forall w: nat | w < n && !y.buf.ws[w].WIdle?
      ensures exists step :: WriterStep(step) && step.w == w && SysEnabled(items, n, y, step)
    {
      AddGoesOn(y.buf, w);
      assert SysEnabled(items, n, y, NextOfWriter(y.buf, w));
    }
    forall r: nat | r < m && y.alive[r] && !(y.buf.rs[r].RTicket? && y.buf.rs[r].idx >= y.buf.widx)
      ensures exists step :: !WriterStep(step) && step.r == r && SysEnabled(items, n, y, step)
    {
      RemGoesOn(y.buf, r);
      assert SysEnabled(items, n, y, NextOfReader(y.buf, r));
    }
  }

  /** If no step is left then the writers are through and every live reader waits for nothing. */
  lemma StandstillHasWaiters(items: nat, n: nat, m: nat, y: Sys)
    requires SysReachable(items, n, m, y) && 0 < n && NoStepLeft(items, n, y)
    ensures WritersDone(items, n, y)
    ensures forall q | 0 <= q < |y.alive| && y.alive[q] :: y.buf.rs[q].RTicket? && y.buf.rs[q].idx >= y.buf.widx
  {
    SysReachableInv(items, n, m, y);
    forall w: nat | w < n
      ensures y.buf.ws[w].WIdle? && y.begun[w] == WriterMax(items, n)
    {
      assert !SysEnabled(items, n, y, Commit(w)) && !SysEnabled(items, n, y, Store(w));
      assert !SysEnabled(items, n, y, Draw(w, Payload(MAGIC, w, y.begun[w] + 1)));
    }
    forall q: nat | q < |y.alive| && y.alive[q]
      ensures y.buf.rs[q].RTicket? && y.buf.rs[q].idx >= y.buf.widx
    {
      assert !SysEnabled(items, n, y, Take(q)) && !SysEnabled(items, n, y, Wait(q));
      assert !SysEnabled(items, n, y, Load(q));
    }
  }

  /** When no step is left, each writer's numbers from 1 to items / n are all in the buffer. */
  lemma StandstillHoldsEveryItem(items: nat, n: nat, m: nat, y: Sys)
    requires SysReachable(items, n, m, y) && 0 < n && NoStepLeft(items, n, y)
    ensures y.buf.widx == n * (items / n) <= |y.buf.data| == items
    ensures forall w, q | 0 <= w < n && 1 <= q <= items / n ::
              Item(Payload(0x00435053, w, q)) in y.buf.data[..y.buf.widx]
    ensures Null !in y.buf.data[..y.buf.widx]
  {
    SysReachableInv(items, n, m, y);
    StandstillHasWaiters(items, n, m, y);
    FullBufferHasNoHole(items, n, m, y);
    var ys, steps :| SysRun(items, n, m, ys, steps) && y == ys[|steps|];
    assert Busy(y.buf.ws) == {};
    forall w: nat, q: nat | w < n && 1 <= q <= items / n
      ensures Item(Payload(0x00435053, w, q)) in y.buf.data[..y.buf.widx]
    {
      FinishedWritersFillTheBuffer(items, n, m, ys, steps, |steps|, w, q);
    }
  }

  /** What a reader gets, when it gets an item, is what its three assertions ask for. */
  lemma LoadedItemsAreSound(items: nat, n: nat, m: nat, y: Sys, k: nat)
    requires SysReachable(items, n, m, y) && 0 < n && k < |y.buf.taken| && y.buf.taken[k].slot.Item?
    ensures var load := y.buf.taken[k].slot.value;
            load.magic == 0x00435053 && load.id < n && 1 <= load.seqno <= items / n
  {
    SysReachableInv(items, n, m, y);
    assert y.buf.taken[k].slot.value == y.buf.drawn[y.buf.taken[k].idx].item;
  }

  /** The assertions fail on everything else. */
  lemma AssertionsAskForThat(items: nat, n: nat, y: Sys, r: nat, load: Payload)
    requires 0 < n && r < |y.alive| && r < |y.seqnos| && |y.seqnos[r]| == n && !y.failed
    ensures !AfterRem(items, n, y, r, Item(load)).failed <==>
            load.magic == 0x00435053 && load.id < n && load.seqno > y.seqnos[r][load.id]
  {}

  /** Few enough readers have all stopped when no step is left. */
  lemma FewReadersAllStop(items: nat, n: nat, m: nat, y: Sys)
    requires SysReachable(items, n, m, y) && 0 < n && NoStepLeft(items, n, y)
    requires items < 0x1_0000_0000_0000_0000 && m <= n * (if items / n < 2 then items / n else 2)
    ensures AllStopped(y)
  {
    SysReachableInv(items, n, m, y);
    StandstillHasWaiters(items, n, m, y);
    var ys, steps :| SysRun(items, n, m, ys, steps) && y == ys[|steps|];
    assert Busy(y.buf.ws) == {};
    forall q: nat | q < |y.alive| && y.alive[q]
      ensures false
    {
      FewReadersNeverWaitForever(items, n, m, ys, steps, |steps|, q);
      assert false;
    }
  }

  // ---------------------------------------------------------------- and when some never do

  /** No reader is in the middle of a rem. */
  predicate ReadersIdle(y: Sys) {
    forall r | 0 <= r < |y.buf.rs| :: y.buf.rs[r].RIdle?
  }

  predicate WritersIdle(y: Sys) {
    forall w | 0 <= w < |y.buf.ws| :: y.buf.ws[w].WIdle?
  }

  /** Writer w does its next add with no other thread in between. */
  lemma FillOne(items: nat, n: nat, m: nat, y: Sys, w: nat) returns (z: Sys)
    requires SysReachable(items, n, m, y) && 0 < n && w < n == |y.begun| == |y.buf.ws|
    requires |y.seqnos| == |y.alive| == |y.buf.rs|
    requires WritersIdle(y) && y.begun[w] < WriterMax(items, n)
    ensures SysReachable(items, n, m, z) && WritersIdle(z)
    ensures z.begun == y.begun[w := y.begun[w] + 1]
    ensures z.buf.rs == y.buf.rs && z.buf.taken == y.buf.taken && z.buf.ridx == y.buf.ridx
  {
    var draw: Step<Payload> := Draw(w, Payload(MAGIC, w, y.begun[w] + 1));
    z := SysReachableStep(items, n, m, y, draw);
    assert z.buf.ws == y.buf.ws[w := WTicket(y.buf.tidx, draw.item)];
    z := SysReachableStep(items, n, m, z, Store(w));
    assert z.buf.ws == y.buf.ws[w := WStored(y.buf.tidx, draw.item)];
    z := SysReachableStep(items, n, m, z, Commit(w));
    assert z.buf.ws == y.buf.ws;
  }

  /** All writers do all their adds before any reader starts. */
  lemma FillAll(items: nat, n: nat, m: nat, y: Sys) returns (z: Sys)
    requires SysReachable(items, n, m, y) && 0 < n && WritersIdle(y) && ReadersIdle(y) && y.buf.taken == []
    ensures SysReachable(items, n, m, z) && WritersDone(items, n, z) && ReadersIdle(z)
    ensures z.buf.taken == [] && z.buf.ridx == y.buf.ridx
    decreases n * WriterMax(items, n) - Sum(y.begun)
  {
    SysReachableInv(items, n, m, y);
    if w: nat :| w < n && y.begun[w] < WriterMax(items, n) {
      z := FillOne(items, n, m, y, w);
      SumUpdate(y.begun, w, y.begun[w] + 1);
      z := FillAll(items, n, m, z);
    } else {
      z := y;
    }
  }

  /** A full buffer with no reader in the middle of a rem, and no rem so far that came back empty. */
  ghost predicate Serving(items: nat, n: nat, m: nat, y: Sys) {
    && 0 < n && SysReachable(items, n, m, y)
    && WritersDone(items, n, y) && ReadersIdle(y) && !MissedAnItem(y.buf)
  }

  lemma FullBufferHasNoHole(items: nat, n: nat, m: nat, y: Sys)
    requires SysReachable(items, n, m, y) && 0 < n && WritersDone(items, n, y)
    ensures y.buf.widx <= |y.buf.data|
    ensures forall i | 0 <= i < y.buf.widx :: y.buf.data[i].Item?
  {
    SysReachableInv(items, n, m, y);
    forall i | 0 <= i < y.buf.widx
      ensures y.buf.data[i].Item?
    {
      assert !HoldsTicket(y.buf, y.buf.drawn[i].writer, i);
    }
  }

  /** Reader q does a rem with no other thread in between. */
  lemma ServeOne(items: nat, n: nat, m: nat, y: Sys, q: nat) returns (z: Sys)
    requires Serving(items, n, m, y) && y.buf.ridx < y.buf.widx
    requires q < |y.alive| == |y.seqnos| == |y.buf.rs| && y.alive[q]
    ensures Serving(items, n, m, z) && z.buf.ridx == y.buf.ridx + 1 && z.buf.widx == y.buf.widx
  {
    FullBufferHasNoHole(items, n, m, y);
    z := SysReachableStep(items, n, m, y, Take(q));
    assert z.buf.rs[q] == RTicket(y.buf.ridx);
    z := SysReachableStep(items, n, m, z, Wait(q));
    assert z.buf.rs[q] == RReady(y.buf.ridx);
    z := SysReachableStep(items, n, m, z, Load(q));
    assert z.buf.taken == y.buf.taken + [Taken(q, y.buf.ridx, y.buf.data[y.buf.ridx])];
  }

  /** The readers take turns until they have all stopped or drawn all served tickets. */
  lemma ServeAll(items: nat, n: nat, m: nat, y: Sys) returns (z: Sys)
    requires Serving(items, n, m, y) && y.buf.ridx <= y.buf.widx
    ensures Serving(items, n, m, z) && (AllStopped(z) || z.buf.ridx == z.buf.widx)
    decreases y.buf.widx - y.buf.ridx
  {
    SysReachableInv(items, n, m, y);
    if q: nat :| y.buf.ridx < y.buf.widx && q < |y.alive| && y.alive[q] {
      z := ServeOne(items, n, m, y, q);
      z := ServeAll(items, n, m, z);
    } else {
      z := y;
    }
  }

  /** The first k readers have stopped or wait for an add that will not come. */
  ghost predicate Stalled(items: nat, n: nat, m: nat, y: Sys, k: nat) {
    && 0 < n && SysReachable(items, n, m, y) && WritersDone(items, n, y)
    && |y.buf.rs| == |y.alive| == |y.seqnos| == m && k <= m && y.buf.ridx >= y.buf.widx
    && (forall q | 0 <= q < k && y.alive[q] :: y.buf.rs[q].RTicket? && y.buf.rs[q].idx >= y.buf.widx)
    && (forall q | 0 <= q < m && (k <= q || !y.alive[q]) :: y.buf.rs[q].RIdle?)
  }

  lemma StallAll(items: nat, n: nat, m: nat, y: Sys, k: nat) returns (z: Sys)
    requires Stalled(items, n, m, y, 0) && k <= m
    ensures Stalled(items, n, m, z, k) && z.alive == y.alive
  {
    z := y;
    for q := 0 to k
      invariant Stalled(items, n, m, z, q) && z.alive == y.alive
    {
      if z.alive[q] {
        z := SysReachableStep(items, n, m, z, Take(q));
      }
    }
  }

  lemma StalledIsStandstill(items: nat, n: nat, m: nat, y: Sys)
    requires Stalled(items, n, m, y, m)
    ensures NoStepLeft(items, n, y)
  {}

  /** All writers first, then readers as long as there is something to read. */
  lemma ServedOut(items: nat, n: nat, m: nat) returns (y: Sys)
    requires 0 < n
    ensures Serving(items, n, m, y) && (AllStopped(y) || y.buf.ridx == y.buf.widx)
  {
    y := SysStart(items, n, m);
    var ys, steps: seq<Step<Payload>> := [y], [];
    assert SysRun(items, n, m, ys, steps) && ys[|steps|] == y;
    y := FillAll(items, n, m, y);
    y := ServeAll(items, n, m, y);
  }

  /** With more readers than that some run ends with a reader that waits forever. */
  lemma ManyReadersGetStuck(items: nat, n: nat, m: nat) returns (y: Sys)
    requires 0 < n && items < 0x1_0000_0000_0000_0000 && n * (if items / n < 2 then items / n else 2) < m
    ensures SysReachable(items, n, m, y) && NoStepLeft(items, n, y) && !AllStopped(y)
  {
    y := ServedOut(items, n, m);
    NotAllStopped(items, n, m, y);
    SysReachableInv(items, n, m, y);
    y := StallAll(items, n, m, y, m);
    StalledIsStandstill(items, n, m, y);
  }

  lemma NotAllStopped(items: nat, n: nat, m: nat, y: Sys)
    requires SysReachable(items, n, m, y) && 0 < n && items < WORD
    requires n * StopsPerWriter(items, n) < m && !MissedAnItem(y.buf)
    ensures !AllStopped(y)
  {
    SysReachableInv(items, n, m, y);
    var ys, steps :| SysRun(items, n, m, ys, steps) && y == ys[|steps|];
    OnlyThatManyReadersStop(items, n, m, ys, steps, |steps|);
    assert AllStopped(y) ==> Stopped(y) == Upto(m);
  }

  /** All readers finish, however the threads interleave, exactly if there are few enough of them. */
  lemma AllReadersFinishExactlyWhenFew(items: nat, n: nat, m: nat)
    requires 0 < n && items < 0x1_0000_0000_0000_0000
    ensures (forall y | SysReachable(items, n, m, y) && (forall step :: !SysEnabled(items, n, y, step)) ::
               forall q | 0 <= q < |y.alive| :: !y.alive[q]) <==>
            m <= n * (if items / n < 2 then items / n else 2)
  {
    if m <= n * StopsPerWriter(items, n) {
      forall y | SysReachable(items, n, m, y) && (forall step :: !SysEnabled(items, n, y, step))
        ensures AllStopped(y)
      {
        FewReadersAllStop(items, n, m, y);
      }
    } else {
      var y := ManyReadersGetStuck(items, n, m);
    }
  }

  /** A standstill always comes: no run has more steps than this. */
  lemma EveryRunEnds(items: nat, n: nat, m: nat, ys: seq<Sys>, steps: seq<Step<Payload>>)
    requires SysRun(items, n, m, ys, steps)
    ensures |steps| <= 6 * (n * (items / n)) + 3 * m
  {
    var y, total := ys[|steps|], n * WriterMax(items, n);
    assert SysReachable(items, n, m, y);
    SysReachableInv(items, n, m, y);
    RunOfBuffer(items, n, m, ys, steps);
    TicketsBoundTheRun(items, n, m, Buffers(ys), steps, |steps|);
    var late := Upto(y.buf.ridx) - Upto(total);
    StoppersAreFew(items, n, y, late);
    assert |late| >= y.buf.ridx - total;
  }
}
