/**
 * infbuffer.c: a buffer that is only ever filled once, shared by any number of writers and
 * readers. Each atomic add, store and load is a step (sequentially consistent memory).
 */
module InfBuffer {

  /** A slot as calloc leaves it, or holding the pointer an add stored. */
  datatype Slot<T> = Null | Item(value: T)

  datatype Writer<T> = WIdle | WTicket(idx: nat, item: T) | WStored(idx: nat, item: T)

  datatype Reader = RIdle | RTicket(idx: nat) | RReady(idx: nat)

  /** One write ticket: who drew it and for which item. */
  datatype Entry<T> = Entry(writer: nat, item: T)

  /** One finished rem. */
  datatype Taken<T> = Taken(reader: nat, idx: nat, slot: Slot<T>)

  /**
   * The last four fields are history: whether an access fell outside the array, the write
   * tickets, the owners of the read tickets and the finished rems.
   */
  datatype State<T> = State(
    data: seq<Slot<T>>, tidx: nat, widx: nat, ridx: nat,
    ws: seq<Writer<T>>, rs: seq<Reader>,
    overrun: bool, drawn: seq<Entry<T>>, owners: seq<nat>, taken: seq<Taken<T>>)

  datatype Step<T> = Draw(w: nat, item: T) | Store(w: nat) | Commit(w: nat) | Take(r: nat) | Wait(r: nat) | Load(r: nat)

  predicate WriterStep<T>(step: Step<T>) {
    step.Draw? || step.Store? || step.Commit?
  }

  predicate Enabled<T>(s: State<T>, step: Step<T>) {
    match step
    case Draw(w, _) => w < |s.ws| && s.ws[w].WIdle?
    case Store(w) => w < |s.ws| && s.ws[w].WTicket?
    case Commit(w) => w < |s.ws| && s.ws[w].WStored?
    case Take(r) => r < |s.rs| && s.rs[r].RIdle?
    case Wait(r) => r < |s.rs| && s.rs[r].RTicket? && s.rs[r].idx < s.widx
    case Load(r) => r < |s.rs| && s.rs[r].RReady?
  }

  function Do<T>(s: State<T>, step: Step<T>): State<T>
    requires Enabled(s, step)
  {
    match step
    case Draw(w, item) =>
      s.(tidx := s.tidx + 1, ws := s.ws[w := WTicket(s.tidx, item)], drawn := s.drawn + [Entry(w, item)])
    case Store(w) =>
      var idx, item := s.ws[w].idx, s.ws[w].item;
      var t := s.(ws := s.ws[w := WStored(idx, item)]);
      if idx < |s.data| then t.(data := s.data[idx := Item(item)]) else t.(overrun := true)
    case Commit(w) =>
      s.(widx := s.widx + 1, ws := s.ws[w := WIdle])
    case Take(r) =>
      s.(ridx := s.ridx + 1, rs := s.rs[r := RTicket(s.ridx)], owners := s.owners + [r])
    case Wait(r) =>
      s.(rs := s.rs[r := RReady(s.rs[r].idx)])
    case Load(r) =>
      var idx := s.rs[r].idx;
      var t := s.(rs := s.rs[r := RIdle]);
      if idx < |s.data| then t.(taken := s.taken + [Taken(r, idx, s.data[idx])]) else t.(overrun := true)
  }

  /** infbuffer_init with n writer threads and m reader threads about to start. */
  function Start<T>(items: nat, n: nat, m: nat): State<T> {
    State(seq(items, _ => Null), 0, 0, 0, seq(n, _ => WIdle), seq(m, _ => RIdle), false, [], [], [])
  }

  ghost predicate IsRun<T(!new)>(items: nat, n: nat, m: nat, ss: seq<State<T>>, steps: seq<Step<T>>) {
    && |ss| == |steps| + 1
    && ss[0] == Start(items, n, m)
    && forall i | 0 <= i < |steps| :: Enabled(ss[i], steps[i]) && ss[i + 1] == Do(ss[i], steps[i])
  }

  ghost predicate Reachable<T(!new)>(items: nat, n: nat, m: nat, s: State<T>) {
    exists ss, steps :: IsRun(items, n, m, ss, steps) && s == ss[|steps|]
  }

  // ---------------------------------------------------------------- invariant

  function Busy<T>(ws: seq<Writer<T>>): set<nat> {
    set w: nat | w < |ws| && !ws[w].WIdle?
  }

  ghost predicate HoldsTicket<T>(s: State<T>, w: nat, i: nat) {
    w < |s.ws| && s.ws[w].WTicket? && s.ws[w].idx == i
  }

  ghost predicate TicketInv<T>(s: State<T>) {
    && |s.drawn| == s.tidx && s.widx <= s.tidx
    && |Busy(s.ws)| == s.tidx - s.widx
    && (forall i | 0 <= i < s.tidx :: s.drawn[i].writer < |s.ws|)
    && (forall w | 0 <= w < |s.ws| :: !s.ws[w].WIdle? ==>
          s.ws[w].idx < s.tidx && s.drawn[s.ws[w].idx] == Entry(w, s.ws[w].item))
  }

  /** The last ticket's writer has not drawn again, so it can only be holding that ticket. */
  ghost predicate LastTicketInv<T>(s: State<T>)
    requires TicketInv(s)
  {
    s.tidx > 0 ==>
      var w := s.drawn[s.tidx - 1].writer;
      s.ws[w].WTicket? ==> s.ws[w].idx == s.tidx - 1
  }

  /** A drawn slot is empty exactly while its own writer still holds the ticket. */
  ghost predicate SlotInv<T>(s: State<T>)
    requires TicketInv(s)
  {
    forall i | 0 <= i < |s.data| ::
      s.data[i] == if i < s.tidx && !HoldsTicket(s, s.drawn[i].writer, i) then Item(s.drawn[i].item) else Null
  }

  ghost predicate ReadInv<T>(s: State<T>) {
    && |s.owners| == s.ridx
    && (forall r | 0 <= r < |s.rs| :: !s.rs[r].RIdle? ==> s.rs[r].idx < s.ridx && s.owners[s.rs[r].idx] == r)
    && (forall r | 0 <= r < |s.rs| :: s.rs[r].RReady? ==> s.rs[r].idx < s.widx)
    && (forall k | 0 <= k < |s.taken| ::
          var t := s.taken[k];
          && t.reader < |s.rs| && t.idx < s.ridx && s.owners[t.idx] == t.reader
          && t.idx < s.widx && t.idx < |s.data|
          && (!s.rs[t.reader].RIdle? ==> t.idx < s.rs[t.reader].idx))
    && (forall j, k | 0 <= j < k < |s.taken| ::
          s.taken[j].reader == s.taken[k].reader ==> s.taken[j].idx < s.taken[k].idx)
  }

  /** What a finished rem got: its slot's item, or nothing because the slot was still empty. */
  ghost predicate LoadInv<T>(s: State<T>)
    requires TicketInv(s) && ReadInv(s)
  {
    forall k | 0 <= k < |s.taken| :: s.taken[k].slot in {Null, Item(s.drawn[s.taken[k].idx].item)}
  }

  /** A ticket beyond the array means an access outside it, as soon as its add has stored. */
  ghost predicate OverrunInv<T>(s: State<T>)
    requires TicketInv(s)
  {
    && (s.overrun ==> s.tidx > |s.data|)
    && (forall i | |s.data| <= i < s.tidx :: HoldsTicket(s, s.drawn[i].writer, i) || s.overrun)
  }

  /** Everything the writers touch. */
  ghost predicate WriteInv<T>(s: State<T>) {
    TicketInv(s) && LastTicketInv(s) && SlotInv(s) && OverrunInv(s)
  }

  ghost predicate Inv<T>(s: State<T>) {
    WriteInv(s) && ReadInv(s) && LoadInv(s)
  }

  lemma BusyUpdate<T>(ws: seq<Writer<T>>, w: nat, x: Writer<T>)
    requires w < |ws|
    ensures Busy(ws[w := x]) == if x.WIdle? then Busy(ws) - {w} else Busy(ws) + {w}
    ensures |Busy(ws[w := x])| == |Busy(ws)| + (if x.WIdle? then 0 else 1) - (if ws[w].WIdle? then 0 else 1)
  {
    forall q: nat
      ensures q in Busy(ws[w := x]) <==> if q == w then !x.WIdle? else q in Busy(ws)
    {}
    assert Busy(ws) - {w} + {w} == Busy(ws) + {w};
    if x.WIdle? {
      assert Busy(ws[w := x]) == Busy(ws) - {w};
    } else {
      assert Busy(ws[w := x]) == Busy(ws) + {w};
    }
  }

  lemma DrawKeepsTickets<T>(s: State<T>, w: nat, item: T)
    requires WriteInv(s) && Enabled(s, Draw(w, item))
    ensures TicketInv(Do(s, Draw(w, item))) && LastTicketInv(Do(s, Draw(w, item)))
  {
    BusyUpdate(s.ws, w, WTicket(s.tidx, item));
  }

  /** The slot of the new ticket is empty like all behind it. */
  lemma DrawKeeps<T>(s: State<T>, w: nat, item: T)
    requires WriteInv(s) && Enabled(s, Draw(w, item))
    ensures WriteInv(Do(s, Draw(w, item)))
  {
    DrawKeepsTickets(s, w, item);
    var t := Do(s, Draw(w, item));
    forall i | 0 <= i < |t.data|
      ensures t.data[i] ==
              if i < t.tidx && !HoldsTicket(t, t.drawn[i].writer, i) then Item(t.drawn[i].item) else Null
    {
      if i < s.tidx {
        assert t.drawn[i] == s.drawn[i];
        assert HoldsTicket(t, t.drawn[i].writer, i) <==> HoldsTicket(s, s.drawn[i].writer, i);
      }
    }
  }

  lemma StoreKeepsTickets<T>(s: State<T>, w: nat)
    requires WriteInv(s) && Enabled(s, Store(w))
    ensures TicketInv(Do(s, Store(w))) && LastTicketInv(Do(s, Store(w)))
  {
    var x, t := WStored(s.ws[w].idx, s.ws[w].item), Do(s, Store(w));
    BusyUpdate(s.ws, w, x);
    assert t.ws == s.ws[w := x] && t.drawn == s.drawn && t.tidx == s.tidx && t.widx == s.widx;
  }

  /** A store fills the slot of the writer's own ticket and no other. */
  lemma StoreKeeps<T>(s: State<T>, w: nat)
    requires WriteInv(s) && Enabled(s, Store(w))
    ensures WriteInv(Do(s, Store(w)))
  {
    StoreKeepsTickets(s, w);
    var t, idx := Do(s, Store(w)), s.ws[w].idx;
    forall i | 0 <= i < |t.data|
      ensures t.data[i] ==
              if i < t.tidx && !HoldsTicket(t, t.drawn[i].writer, i) then Item(t.drawn[i].item) else Null
    {
      assert i < s.tidx && i != idx ==>
               (HoldsTicket(t, t.drawn[i].writer, i) <==> HoldsTicket(s, s.drawn[i].writer, i));
    }
  }

  lemma CommitKeeps<T>(s: State<T>, w: nat)
    requires WriteInv(s) && Enabled(s, Commit(w))
    ensures WriteInv(Do(s, Commit(w)))
  {
    CommitKeepsTickets(s, w);
    var t := Do(s, Commit(w));
    assert forall q: nat, i: nat :: HoldsTicket(t, q, i) <==> HoldsTicket(s, q, i);
    assert t.data == s.data && t.drawn == s.drawn && t.tidx == s.tidx && t.overrun == s.overrun;
  }

  lemma CommitKeepsTickets<T>(s: State<T>, w: nat)
    requires WriteInv(s) && Enabled(s, Commit(w))
    ensures TicketInv(Do(s, Commit(w))) && LastTicketInv(Do(s, Commit(w)))
  {
    BusyUpdate(s.ws, w, WIdle);
    assert w in Busy(s.ws);
  }

  lemma TakeKeeps<T>(s: State<T>, r: nat)
    requires Inv(s) && Enabled(s, Take(r))
    ensures ReadInv(Do(s, Take(r)))
  {}

  lemma WaitKeeps<T>(s: State<T>, r: nat)
    requires Inv(s) && Enabled(s, Wait(r))
    ensures ReadInv(Do(s, Wait(r)))
  {}

  lemma LoadKeeps<T>(s: State<T>, r: nat)
    requires Inv(s) && Enabled(s, Load(r))
    ensures ReadInv(Do(s, Load(r)))
  {
    var t, idx := Do(s, Load(r)), s.rs[r].idx;
    assert t.rs == s.rs[r := RIdle] && t.ridx == s.ridx && t.owners == s.owners && t.widx == s.widx;
    assert t.taken == if idx < |s.data| then s.taken + [Taken(r, idx, s.data[idx])] else s.taken;
  }

  lemma WritersLeaveReads<T>(s: State<T>, step: Step<T>)
    requires Inv(s) && Enabled(s, step) && WriterStep(step)
    requires WriteInv(Do(s, step))
    ensures ReadInv(Do(s, step)) && LoadInv(Do(s, step))
  {
    var t := Do(s, step);
    assert t.rs == s.rs && t.ridx == s.ridx && t.owners == s.owners && t.taken == s.taken;
    assert |t.data| == |s.data| && t.widx >= s.widx && s.drawn <= t.drawn;
  }

  lemma ReadersLeaveWrites<T>(s: State<T>, step: Step<T>)
    requires Inv(s) && Enabled(s, step) && !WriterStep(step)
    requires ReadInv(Do(s, step))
    ensures WriteInv(Do(s, step)) && LoadInv(Do(s, step))
  {
    SameTickets(s, Do(s, step));
    LoadsFindTheirItems(s, step);
  }

  lemma SameTickets<T>(s: State<T>, t: State<T>)
    requires WriteInv(s)
    requires t.data == s.data && t.ws == s.ws && t.tidx == s.tidx && t.widx == s.widx && t.drawn == s.drawn
    requires t.overrun == (s.overrun || (t.overrun && t.tidx > |t.data|))
    ensures WriteInv(t)
  {
    assert forall q: nat, i: nat :: HoldsTicket(t, q, i) <==> HoldsTicket(s, q, i);
  }

  lemma LoadsFindTheirItems<T>(s: State<T>, step: Step<T>)
    requires Inv(s) && Enabled(s, step) && !WriterStep(step)
    requires TicketInv(Do(s, step)) && ReadInv(Do(s, step))
    ensures LoadInv(Do(s, step))
  {
    var t := Do(s, step);
    assert t.data == s.data && t.drawn == s.drawn;
  }

  lemma StepKeeps<T>(s: State<T>, step: Step<T>)
    requires Inv(s) && Enabled(s, step)
    ensures Inv(Do(s, step))
  {
    match step {
      case Draw(w, item) => DrawKeeps(s, w, item);
      case Store(w) => StoreKeeps(s, w);
      case Commit(w) => CommitKeeps(s, w);
      case Take(r) => TakeKeeps(s, r);
      case Wait(r) => WaitKeeps(s, r);
      case Load(r) => LoadKeeps(s, r);
    }
    if WriterStep(step) {
      WritersLeaveReads(s, step);
    } else {
      ReadersLeaveWrites(s, step);
    }
  }

  lemma StartInv<T>(items: nat, n: nat, m: nat)
    ensures Inv<T>(Start(items, n, m))
  {}

  lemma StepKeepsSizes<T>(s: State<T>, step: Step<T>)
    requires Enabled(s, step)
    ensures var t := Do(s, step); |t.data| == |s.data| && |t.ws| == |s.ws| && |t.rs| == |s.rs|
  {}

  lemma {:induction false} RunKeeps<T(!new)>(
      items: nat, n: nat, m: nat, ss: seq<State<T>>, steps: seq<Step<T>>, i: nat)
    requires IsRun(items, n, m, ss, steps) && i < |ss|
    ensures Inv(ss[i]) && |ss[i].data| == items && |ss[i].ws| == n && |ss[i].rs| == m
  {
    if i == 0 {
      StartInv<T>(items, n, m);
    } else {
      RunKeeps(items, n, m, ss, steps, i - 1);
      StepKeeps(ss[i - 1], steps[i - 1]);
      StepKeepsSizes(ss[i - 1], steps[i - 1]);
    }
  }

  lemma ReachableInv<T(!new)>(items: nat, n: nat, m: nat, s: State<T>)
    requires Reachable(items, n, m, s)
    ensures Inv(s) && |s.data| == items && |s.ws| == n && |s.rs| == m
  {
    var ss, steps :| IsRun(items, n, m, ss, steps) && s == ss[|steps|];
    RunKeeps(items, n, m, ss, steps, |steps|);
  }

  // ---------------------------------------------------------------- how far widx can be trusted

  /** Slots that `widx` claims but no store has reached yet. */
  function Unfilled<T(==)>(s: State<T>): set<nat> {
    set i: nat | i < s.widx && i < |s.data| && s.data[i] == Null
  }

  lemma {:induction false} InjectionBound<A(!new), B>(a: set<A>, b: set<B>, f: A -> B)
    requires forall x | x in a :: f(x) in b
    requires forall x, y | x in a && y in a && f(x) == f(y) :: x == y
    ensures |a| <= |b|
  {
    if a != {} {
      var x :| x in a;
      InjectionBound(a - {x}, b - {f(x)}, f);
    }
  }

  function Upto(n: nat): (s: set<nat>)
    ensures |s| == n && forall i: nat :: i in s <==> i < n
  {
    if n == 0 then {} else Upto(n - 1) + {n - 1}
  }

  /** The writer that drew last is busy only with a ticket that widx does not claim. */
  lemma LastWriterMissesNothing<T>(s: State<T>)
    requires Inv(s) && s.tidx > 0
    ensures forall i | i in Unfilled(s) :: s.drawn[i].writer != s.drawn[s.tidx - 1].writer
  {
    var last := s.drawn[s.tidx - 1].writer;
    assert s.ws[last].WTicket? ==> last in Busy(s.ws);
    forall i | i in Unfilled(s)
      ensures s.drawn[i].writer != last
    {
      assert HoldsTicket(s, s.drawn[i].writer, i);
    }
  }

  /**
   * `widx` counts finished adds, not a filled prefix: of the slots below it at most n - 1 are
   * still empty, and never more than there are adds in flight.
   */
  lemma FewUnfilledSlots<T(!new)>(items: nat, n: nat, m: nat, s: State<T>)
    requires Reachable(items, n, m, s) && 1 <= n
    ensures s.tidx - s.widx == |Busy(s.ws)| <= n
    ensures |Unfilled(s)| <= n - 1 && |Unfilled(s)| <= s.tidx - s.widx
  {
    ReachableInv(items, n, m, s);
    FewUnfilled(s, n);
  }

  lemma FewUnfilled<T>(s: State<T>, n: nat)
    requires Inv(s) && |s.ws| == n && 1 <= n
    ensures s.tidx - s.widx == |Busy(s.ws)| <= n
    ensures |Unfilled(s)| <= n - 1 && |Unfilled(s)| <= s.tidx - s.widx
  {
    InjectionBound(Busy(s.ws), Upto(n), w => w);
    var owner := (i: nat) => if i < |s.drawn| then s.drawn[i].writer else 0;
    forall i | i in Unfilled(s)
      ensures HoldsTicket(s, owner(i), i)
    {}
    InjectionBound(Unfilled(s), Busy(s.ws), owner);
    if s.tidx > 0 {
      var last := s.drawn[s.tidx - 1].writer;
      LastWriterMissesNothing(s);
      InjectionBound(Unfilled(s), Upto(n) - {last}, owner);
    }
  }

  lemma ExtendRun<T(!new)>(items: nat, n: nat, m: nat, ss: seq<State<T>>, steps: seq<Step<T>>, step: Step<T>)
    requires IsRun(items, n, m, ss, steps) && Enabled(ss[|steps|], step)
    ensures IsRun(items, n, m, ss + [Do(ss[|steps|], step)], steps + [step])
  {}

  lemma StartReachable<T(!new)>(items: nat, n: nat, m: nat)
    ensures Reachable<T>(items, n, m, Start(items, n, m))
  {
    var s: State<T> := Start(items, n, m);
    assert IsRun(items, n, m, [s], []);
  }

  lemma ReachableStep<T(!new)>(items: nat, n: nat, m: nat, s: State<T>, step: Step<T>)
    requires Reachable(items, n, m, s) && Enabled(s, step)
    ensures Reachable(items, n, m, Do(s, step))
  {
    var ss, steps :| IsRun(items, n, m, ss, steps) && s == ss[|steps|];
    ExtendRun(items, n, m, ss, steps, step);
    assert (ss + [Do(s, step)])[|steps + [step]|] == Do(s, step);
  }

  /** A whole add with no other thread in between. */
  function AddAlone<T>(s: State<T>, w: nat, item: T): (t: State<T>)
    requires w < |s.ws| && s.ws[w].WIdle?
    ensures t.ws == s.ws && t.tidx == s.tidx + 1 && t.widx == s.widx + 1
    ensures t.data == if s.tidx < |s.data| then s.data[s.tidx := Item(item)] else s.data
    ensures t.rs == s.rs && t.ridx == s.ridx && t.owners == s.owners && t.taken == s.taken
    ensures t.drawn == s.drawn + [Entry(w, item)]
  {
    Do(Do(Do(s, Draw(w, item)), Store(w)), Commit(w))
  }

  lemma ReachableAddAlone<T(!new)>(items: nat, n: nat, m: nat, s: State<T>, w: nat, item: T)
    requires Reachable(items, n, m, s) && w < |s.ws| && s.ws[w].WIdle?
    ensures Reachable(items, n, m, AddAlone(s, w, item))
  {
    ReachableStep(items, n, m, s, Draw(w, item));
    ReachableStep(items, n, m, Do(s, Draw(w, item)), Store(w));
    ReachableStep(items, n, m, Do(Do(s, Draw(w, item)), Store(w)), Commit(w));
  }

  /** The first k writers have drawn tickets 0 to k - 1 and hold them. */
  ghost predicate Holding<T>(s: State<T>, k: nat) {
    && k <= |s.ws| && k <= s.tidx
    && (forall w | 0 <= w < k :: s.ws[w].WTicket? && s.ws[w].idx == w)
    && (forall w | k <= w < |s.ws| :: s.ws[w].WIdle?)
  }

  lemma {:induction false} AllButOneDraw<T(!new)>(items: nat, n: nat, m: nat, x: T, k: nat) returns (s: State<T>)
    requires k <= n
    ensures Reachable(items, n, m, s) && Holding(s, k) && s.tidx == k && s.widx == 0 && |s.ws| == n
  {
    if k == 0 {
      s := Start(items, n, m);
      StartReachable<T>(items, n, m);
    } else {
      s := AllButOneDraw(items, n, m, x, k - 1);
      ReachableStep(items, n, m, s, Draw(k - 1, x));
      s := Do(s, Draw(k - 1, x));
    }
  }

  /** While the others hold theirs, the last writer finishes k adds. */
  lemma {:induction false} LastOneAdds<T(!new)>(items: nat, n: nat, m: nat, x: T, k: nat) returns (s: State<T>)
    requires 1 <= n
    ensures Reachable(items, n, m, s) && Holding(s, n - 1) && s.tidx == n - 1 + k && s.widx == k && |s.ws| == n
  {
    if k == 0 {
      s := AllButOneDraw(items, n, m, x, n - 1);
    } else {
      s := LastOneAdds(items, n, m, x, k - 1);
      ReachableAddAlone(items, n, m, s, n - 1, x);
      s := AddAlone(s, n - 1, x);
    }
  }

  /** Slots 0 to k - 1 are then claimed by `widx` and empty. */
  lemma HeldSlotsAreUnfilled<T(!new)>(s: State<T>, k: nat)
    requires Inv(s) && Holding(s, k) && k <= s.widx && k <= |s.data|
    ensures |Unfilled(s)| >= k
  {
    forall i: nat | i < k
      ensures s.data[i] == Null
    {
      assert s.drawn[s.ws[i].idx] == Entry(i, s.ws[i].item);
      assert HoldsTicket(s, s.drawn[i].writer, i);
    }
    InjectionBound(Upto(k), Unfilled(s), i => i);
  }

  /**
   * The bound n - 1 is reached for every number of writers, and without running out of slots
   * exactly if there are 2 * (n - 1) of them.
   */
  lemma UnfilledBoundIsReached<T(!new)>(items: nat, n: nat, m: nat, x: T)
    requires 1 <= n
    ensures (exists s: State<T> :: Reachable(items, n, m, s) && s.tidx <= items && |Unfilled(s)| == n - 1) <==>
            2 * (n - 1) <= items
  {
    forall s: State<T> | Reachable(items, n, m, s) && s.tidx <= items && |Unfilled(s)| == n - 1
      ensures 2 * (n - 1) <= items
    {
      FewUnfilledSlots(items, n, m, s);
      InjectionBound(Unfilled(s), Upto(s.widx), i => i);
    }
    if 2 * (n - 1) <= items {
      var s := LastOneAdds(items, n, m, x, n - 1);
      ReachableInv(items, n, m, s);
      HeldSlotsAreUnfilled(s, n - 1);
      FewUnfilledSlots(items, n, m, s);
      assert |Unfilled(s)| == n - 1;
    }
  }

  /** With no add in flight the first tidx slots hold exactly the drawn items, in ticket order. */
  lemma QuiescentBufferIsComplete<T(!new)>(items: nat, n: nat, m: nat, s: State<T>)
    requires Reachable(items, n, m, s) && Busy(s.ws) == {} && s.tidx <= items
    ensures s.widx == s.tidx
    ensures s.data == seq(items, i requires 0 <= i => if i < |s.drawn| then Item(s.drawn[i].item) else Null)
  {
    ReachableInv(items, n, m, s);
    forall i | 0 <= i < s.tidx
      ensures !HoldsTicket(s, s.drawn[i].writer, i)
    {
      assert s.drawn[i].writer !in Busy(s.ws);
    }
  }

  /** The tickets of a run: the items of its adds in the order the adds began. */
  function Begun<T>(steps: seq<Step<T>>): seq<Entry<T>> {
    if steps == [] then []
    else
      var last := steps[|steps| - 1];
      Begun(steps[..|steps| - 1]) + if last.Draw? then [Entry(last.w, last.item)] else []
  }

  lemma {:induction false} TicketsAreTheAddsBegun<T(!new)>(
      items: nat, n: nat, m: nat, ss: seq<State<T>>, steps: seq<Step<T>>, i: nat)
    requires IsRun(items, n, m, ss, steps) && i <= |steps|
    ensures ss[i].drawn == Begun(steps[..i])
  {
    if i > 0 {
      TicketsAreTheAddsBegun(items, n, m, ss, steps, i - 1);
      assert steps[..i][..i - 1] == steps[..i - 1];
      DrawnByStep(ss[i - 1], steps[i - 1]);
    }
  }

  lemma DrawnByStep<T>(s: State<T>, step: Step<T>)
    requires Enabled(s, step)
    ensures Do(s, step).drawn == s.drawn + if step.Draw? then [Entry(step.w, step.item)] else []
  {}

  // ---------------------------------------------------------------- stored once, loaded at most once

  /** A filled slot never changes again, and only the store of the slot's own ticket fills it. */
  lemma StoredOnce<T(!new)>(items: nat, n: nat, m: nat, s: State<T>, step: Step<T>, i: nat)
    requires Reachable(items, n, m, s) && Enabled(s, step) && i < |s.data|
    ensures var t := Do(s, step);
            && (s.data[i].Item? ==> t.data[i] == s.data[i])
            && (t.data[i] != s.data[i] ==>
                  step.Store? && s.ws[step.w].idx == i < |s.drawn| && s.drawn[i] == Entry(step.w, t.data[i].value))
  {
    ReachableInv(items, n, m, s);
  }

  lemma LoadedAtMostOnce<T(!new)>(items: nat, n: nat, m: nat, s: State<T>, j: nat, k: nat)
    requires Reachable(items, n, m, s) && j < k < |s.taken|
    ensures s.taken[j].idx != s.taken[k].idx
  {
    ReachableInv(items, n, m, s);
  }

  /** With no add in flight some access has left the array exactly if there were more tickets than slots. */
  lemma OverrunExactlyBeyondTheArray<T(!new)>(items: nat, n: nat, m: nat, s: State<T>)
    requires Reachable(items, n, m, s) && Busy(s.ws) == {}
    ensures s.overrun <==> s.tidx > items
  {
    ReachableInv(items, n, m, s);
    if s.tidx > items {
      assert s.drawn[items].writer !in Busy(s.ws);
    }
  }

  /** No access leaves the array as long as no more tickets are drawn than there are slots. */
  lemma NoOverrun<T(!new)>(items: nat, n: nat, m: nat, s: State<T>)
    requires Reachable(items, n, m, s) && s.tidx <= items
    ensures !s.overrun
  {
    ReachableInv(items, n, m, s);
  }

  // ---------------------------------------------------------------- every interleaving is a run

  /** How writer w's add goes on. */
  function NextOfWriter<T>(s: State<T>, w: nat): Step<T>
    requires w < |s.ws|
  {
    if s.ws[w].WTicket? then Store(w) else Commit(w)
  }

  lemma AddGoesOn<T>(s: State<T>, w: nat)
    requires w < |s.ws| && !s.ws[w].WIdle?
    ensures var step := NextOfWriter(s, w);
            WriterStep(step) && !step.Draw? && step.w == w && Enabled(s, step)
  {}

  /** How reader r goes on. */
  function NextOfReader<T>(s: State<T>, r: nat): Step<T>
    requires r < |s.rs|
  {
    if s.rs[r].RIdle? then Take(r) else if s.rs[r].RTicket? then Wait(r) else Load(r)
  }

  lemma RemGoesOn<T>(s: State<T>, r: nat)
    requires r < |s.rs| && !(s.rs[r].RTicket? && s.rs[r].idx >= s.widx)
    ensures var step := NextOfReader(s, r);
            !WriterStep(step) && step.r == r && Enabled(s, step)
  {}

  /** Nothing but its own wait loop ever holds a thread back. */
  lemma OnlyTheWaitLoopBlocks<T(!new)>(items: nat, n: nat, m: nat, s: State<T>)
    requires Reachable(items, n, m, s)
    ensures |s.ws| == n && |s.rs| == m
    ensures forall w: nat, item: T | w < n && s.ws[w].WIdle? :: Enabled(s, Draw(w, item))
    ensures forall w: nat | w < n && !s.ws[w].WIdle? ::
              exists step :: WriterStep(step) && step.w == w && Enabled(s, step)
    ensures forall r: nat | r < m && !(s.rs[r].RTicket? && s.rs[r].idx >= s.widx) ::
              exists step :: !WriterStep(step) && step.r == r && Enabled(s, step)
  {
    ReachableInv(items, n, m, s);
    forall w: nat | w < n && !s.ws[w].WIdle?
      ensures exists step :: WriterStep(step) && step.w == w && Enabled(s, step)
    {
      AddGoesOn(s, w);
    }
    forall r: nat | r < m && !(s.rs[r].RTicket? && s.rs[r].idx >= s.widx)
      ensures exists step :: !WriterStep(step) && step.r == r && Enabled(s, step)
    {
      RemGoesOn(s, r);
    }
  }

  // ---------------------------------------------------------------- how long a run can be

  function Sum(xs: seq<nat>): nat {
    if xs == [] then 0 else xs[0] + Sum(xs[1..])
  }

  lemma {:induction false} SumUpdate(xs: seq<nat>, w: nat, x: nat)
    requires w < |xs|
    ensures Sum(xs[w := x]) == Sum(xs) - xs[w] + x
  {
    if w == 0 {
      assert xs[w := x][1..] == xs[1..];
    } else {
      SumUpdate(xs[1..], w - 1, x);
      assert xs[w := x][1..] == xs[1..][w - 1 := x];
    }
  }

  lemma {:induction false} SumOfZeros(n: nat)
    ensures Sum(seq(n, _ => 0)) == 0
  {
    if n > 0 {
      SumOfZeros(n - 1);
      assert seq(n, _ => 0)[1..] == seq<nat>(n - 1, _ => 0);
    }
  }

  /** The steps that each call in progress still has to do. */
  function WriterDue<T>(ws: seq<Writer<T>>): (due: seq<nat>)
    ensures |due| == |ws|
  {
    seq(|ws|, w requires 0 <= w < |ws| => if ws[w].WIdle? then 0 else if ws[w].WTicket? then 2 else 1)
  }

  function ReaderDue(rs: seq<Reader>): (due: seq<nat>)
    ensures |due| == |rs|
  {
    seq(|rs|, r requires 0 <= r < |rs| => if rs[r].RIdle? then 0 else if rs[r].RTicket? then 2 else 1)
  }

  function Due<T>(s: State<T>): nat {
    Sum(WriterDue(s.ws)) + Sum(ReaderDue(s.rs))
  }

  lemma WriterDueUpdate<T>(ws: seq<Writer<T>>, w: nat, x: Writer<T>)
    requires w < |ws|
    ensures Sum(WriterDue(ws[w := x])) == Sum(WriterDue(ws)) - WriterDue(ws)[w] + WriterDue([x])[0]
  {
    SumUpdate(WriterDue(ws), w, WriterDue([x])[0]);
    assert WriterDue(ws[w := x]) == WriterDue(ws)[w := WriterDue([x])[0]];
  }

  lemma ReaderDueUpdate(rs: seq<Reader>, r: nat, x: Reader)
    requires r < |rs|
    ensures Sum(ReaderDue(rs[r := x])) == Sum(ReaderDue(rs)) - ReaderDue(rs)[r] + ReaderDue([x])[0]
  {
    SumUpdate(ReaderDue(rs), r, ReaderDue([x])[0]);
    assert ReaderDue(rs[r := x]) == ReaderDue(rs)[r := ReaderDue([x])[0]];
  }

  lemma StepIsCounted<T>(s: State<T>, step: Step<T>)
    requires Enabled(s, step)
    ensures var t := Do(s, step);
            3 * (t.tidx + t.ridx) - Due(t) == 3 * (s.tidx + s.ridx) - Due(s) + 1
  {
    var t := Do(s, step);
    if WriterStep(step) {
      WriterDueUpdate(s.ws, step.w, t.ws[step.w]);
      assert t.ws == s.ws[step.w := t.ws[step.w]];
    } else {
      ReaderDueUpdate(s.rs, step.r, t.rs[step.r]);
      assert t.rs == s.rs[step.r := t.rs[step.r]];
    }
  }

  /** A ticket is worth three steps, so a run can only go on by drawing tickets. */
  lemma {:induction false} TicketsBoundTheRun<T(!new)>(
      items: nat, n: nat, m: nat, ss: seq<State<T>>, steps: seq<Step<T>>, i: nat)
    requires IsRun(items, n, m, ss, steps) && i < |ss|
    ensures i == 3 * (ss[i].tidx + ss[i].ridx) - Due(ss[i])
  {
    if i == 0 {
      SumOfZeros(n);
      SumOfZeros(m);
      assert WriterDue(ss[0].ws) == seq<nat>(n, _ => 0) && ReaderDue(ss[0].rs) == seq<nat>(m, _ => 0);
    } else {
      TicketsBoundTheRun(items, n, m, ss, steps, i - 1);
      StepIsCounted(ss[i - 1], steps[i - 1]);
    }
  }

  // ---------------------------------------------------------------- one writer is a FIFO, two are not

  /** With one writer the rem that drew ticket i always returns the i-th item added. */
  lemma OneWriterIsFifo<T(!new)>(items: nat, m: nat, ss: seq<State<T>>, steps: seq<Step<T>>, i: nat, k: nat)
    requires IsRun(items, 1, m, ss, steps) && i <= |steps| && k < |ss[i].taken|
    ensures var t := ss[i].taken[k];
            t.idx < |Begun(steps[..i])| && t.slot == Item(Begun(steps[..i])[t.idx].item)
  {
    TicketsAreTheAddsBegun(items, 1, m, ss, steps, i);
    OneWriterLoads(items, m, ss, steps, i);
    RunKeeps(items, 1, m, ss, steps, i);
  }

  lemma {:induction false} OneWriterLoads<T(!new)>(items: nat, m: nat, ss: seq<State<T>>, steps: seq<Step<T>>, i: nat)
    requires IsRun(items, 1, m, ss, steps) && i < |ss|
    ensures forall k | 0 <= k < |ss[i].taken| :: ss[i].taken[k].slot.Item?
  {
    if i > 0 {
      OneWriterLoads(items, m, ss, steps, i - 1);
      RunKeeps(items, 1, m, ss, steps, i - 1);
      OneWriterFindsItem(ss[i - 1], steps[i - 1]);
    }
  }

  lemma OneWriterFindsItem<T>(s: State<T>, step: Step<T>)
    requires Inv(s) && |s.ws| == 1 && Enabled(s, step)
    ensures forall k | |s.taken| <= k < |Do(s, step).taken| :: Do(s, step).taken[k].slot.Item?
    ensures s.taken <= Do(s, step).taken
  {
    if step.Load? && s.rs[step.r].idx < |s.data| {
      FewUnfilled(s, 1);
      assert s.rs[step.r].idx !in Unfilled(s);
    }
  }

  /** Two tickets are drawn and the second one is finished first. */
  lemma SecondAddFinishesFirst<T(!new)>(items: nat, n: nat, m: nat, x: T, y: T)
      returns (ss: seq<State<T>>, steps: seq<Step<T>>)
    requires 2 <= items && 2 <= n && 1 <= m
    ensures IsRun(items, n, m, ss, steps)
    ensures var s := ss[|steps|];
            s.widx == 1 && s.ridx == 0 && |s.data| == items && s.data[0] == Null && |s.rs| == m && s.rs[0] == RIdle
  {
    steps := [Draw(0, x), Draw(1, y), Store(1), Commit(1)];
    var s0: State<T> := Start(items, n, m);
    var s1 := Do(s0, steps[0]);
    var s2 := Do(s1, steps[1]);
    assert s2.ws[1] == WTicket(1, y) && s2.data[0] == Null && s2.rs[0] == RIdle;
    var s3 := Do(s2, steps[2]);
    ss := [s0, s1, s2, s3, Do(s3, steps[3])];
  }

  /** The first rem then passes its wait and finds nothing. */
  lemma TwoWritersCanMiss<T(!new)>(items: nat, n: nat, m: nat, x: T, y: T)
      returns (ss: seq<State<T>>, steps: seq<Step<T>>)
    requires 2 <= items && 2 <= n && 1 <= m
    ensures IsRun(items, n, m, ss, steps)
    ensures var taken := ss[|steps|].taken; |taken| > 0 && taken[|taken| - 1] == Taken(0, 0, Null)
  {
    ss, steps := SecondAddFinishesFirst(items, n, m, x, y);
    for i := 0 to 3
      invariant IsRun(items, n, m, ss, steps)
      invariant var s := ss[|steps|];
                && s.widx == 1 && |s.data| == items && s.data[0] == Null && |s.rs| == m
                && (i == 0 ==> s.ridx == 0 && s.rs[0] == RIdle)
                && (i == 1 ==> s.rs[0] == RTicket(0))
                && (i == 2 ==> s.rs[0] == RReady(0))
                && (i == 3 ==> |s.taken| > 0 && s.taken[|s.taken| - 1] == Taken(0, 0, Null))
    {
      var step := if i == 0 then Take(0) else if i == 1 then Wait(0) else Load(0);
      ExtendRun(items, n, m, ss, steps, step);
      ss, steps := ss + [Do(ss[|steps|], step)], steps + [step];
    }
  }

  ghost predicate MissedAnItem<T>(s: State<T>) {
    exists k :: 0 <= k < |s.taken| && s.taken[k].slot.Null?
  }

  /** Some rem can come back with an empty slot exactly when there is more than one writer. */
  lemma EmptyLoadNeedsTwoWriters<T(!new)>(items: nat, n: nat, m: nat, x: T)
    requires 2 <= items && 1 <= n && 1 <= m
    ensures (exists s: State<T> :: Reachable(items, n, m, s) && MissedAnItem(s)) <==> 2 <= n
  {
    if 2 <= n {
      var ss, steps := TwoWritersCanMiss(items, n, m, x, x);
      var s := ss[|steps|];
      assert s.taken[|s.taken| - 1].slot.Null?;
      assert Reachable(items, n, m, s) && MissedAnItem(s);
    } else {
      forall s: State<T> | Reachable(items, n, m, s)
        ensures !MissedAnItem(s)
      {
        var ss, steps :| IsRun(items, n, m, ss, steps) && s == ss[|steps|];
        OneWriterLoads(items, m, ss, steps, |steps|);
      }
    }
  }

  // ---------------------------------------------------------------- used by one thread

  /** A rem up to its wait, and past it if its slot is claimed already. */
  function RemAlone<T>(s: State<T>, r: nat): (t: State<T>)
    requires r < |s.rs| && s.rs[r].RIdle?
    ensures t.data == s.data && t.tidx == s.tidx && t.widx == s.widx && t.ridx == s.ridx + 1
    ensures s.widx <= s.ridx ==> t.rs == s.rs[r := RTicket(s.ridx)] && t.taken == s.taken
    ensures s.ridx < s.widx && s.ridx < |s.data| ==>
              t.rs == s.rs && t.taken == s.taken + [Taken(r, s.ridx, s.data[s.ridx])]
  {
    var t := Do(s, Take(r));
    if s.ridx < s.widx then Do(Do(t, Wait(r)), Load(r)) else t
  }

  /** What a rem comes to: the item, or still in its wait loop with its ticket. */
  datatype Removal<T> = Removed(item: T) | Waiting(idx: nat)

  /** What the class below and the machine above have in common. */
  datatype Memory<T> = Snapshot(data: seq<Slot<T>>, tidx: nat, widx: nat, ridx: nat)

  function MemoryOf<T>(s: State<T>): Memory<T> {
    Snapshot(s.data, s.tidx, s.widx, s.ridx)
  }

  /** The buffer itself, used by one thread: no other thread steps in between. */
  class Buffer<T(!new)> {
    const data: array<Slot<T>>
    var tidx: nat
    var widx: nat
    var ridx: nat

    /** All adds finished: the filled part is a prefix. */
    ghost predicate Valid()
      reads this, data
    {
      && widx == tidx <= data.Length
      && forall i | 0 <= i < data.Length :: data[i].Item? <==> i < widx
    }

    /** All items ever added, in order. */
    ghost function Items(): (items: seq<T>)
      requires Valid()
      reads this, data
      ensures |items| == widx
    {
      seq(widx, i requires 0 <= i < widx reads this, data requires Valid() => data[i].value)
    }

    ghost function Memory(): Memory<T>
      reads this, data
    {
      Snapshot(data[..], tidx, widx, ridx)
    }

    constructor (items: nat)
      ensures Valid() && fresh(data) && data.Length == items && Items() == []
      ensures forall n, m :: MemoryOf(Start(items, n, m)) == Memory()
    {
      data := new Slot<T>[items](_ => Null);
      tidx, widx, ridx := 0, 0, 0;
    }

    method Add(item: T)
      requires Valid() && tidx < data.Length
      modifies this`tidx, this`widx, data
      ensures Valid() && Items() == old(Items()) + [item]
      ensures forall s: State<T>, w: nat | MemoryOf(s) == old(Memory()) && w < |s.ws| && s.ws[w].WIdle? ::
                MemoryOf(AddAlone(s, w, item)) == Memory()
    {
      var idx := tidx;
      tidx := tidx + 1;
      data[idx] := Item(item);
      widx := widx + 1;
      assert Items() == old(Items()) + [item];
    }

    /** The rem with ticket i removes the i-th item added, or waits for it. */
    method Rem() returns (r: Removal<T>)
      requires Valid()
      modifies this`ridx
      ensures Valid() && Items() == old(Items()) && ridx == old(ridx) + 1
      ensures r == if old(ridx) < |Items()| then Removed(Items()[old(ridx)]) else Waiting(old(ridx))
      ensures forall s: State<T>, q: nat | MemoryOf(s) == old(Memory()) && q < |s.rs| && s.rs[q].RIdle? ::
                && MemoryOf(RemAlone(s, q)) == Memory()
                && (r.Removed? ==>
                      RemAlone(s, q).rs == s.rs && RemAlone(s, q).taken == s.taken + [Taken(q, s.ridx, Item(r.item))])
                && (r.Waiting? ==>
                      RemAlone(s, q).rs == s.rs[q := RTicket(r.idx)] && RemAlone(s, q).taken == s.taken)
    {
      var idx := ridx;
      ridx := ridx + 1;
      r := Resume(idx);
    }

    /** The wait loop, which another thread's step alone can end, and the load behind it. */
    method Resume(idx: nat) returns (r: Removal<T>)
      requires Valid()
      ensures r == if idx < |Items()| then Removed(Items()[idx]) else Waiting(idx)
    {
      if idx >= widx {
        return Waiting(idx);
      }
      r := Removed(data[idx].value);
    }
  }
}
