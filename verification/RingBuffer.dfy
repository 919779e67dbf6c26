/** ringbuffer.c used by one thread: a class over the doubly mapped storage that is a bounded FIFO. */
module RingBuffer {
  import opened Arithmetic
  import opened RingCore

  class Ring {
    const phys: array<Byte>
    const size: Word
    var ridx: Word
    var widx: Word

    ghost predicate Valid()
      reads this
    {
      && 0 < size && 2 * size < WORD && phys.Length == size
      && ridx <= size && ridx <= widx <= ridx + size
    }

    /** The queue: the cells from the read index up to the write index. */
    ghost function Contents(): (q: seq<Byte>)
      requires Valid()
      reads this, phys
      ensures |q| == widx - ridx
    {
      Window(phys[..], size, ridx, widx - ridx)
    }

    constructor (size: Word)
      requires 0 < size && 2 * size < 0x1_0000_0000_0000_0000
      ensures Valid() && fresh(phys) && this.size == size && Contents() == [] && ridx == widx == 0
    {
      this.size := size;
      phys := new Byte[size];
      ridx := 0;
      widx := 0;
    }

    method UsedBytes() returns (n: Word)
      requires Valid()
      ensures n == |Contents()|
    {
      n := Used(widx, ridx);
    }

    method AvailBytes() returns (n: Word)
      requires Valid()
      ensures n == size - |Contents()|
    {
      n := Avail(size, widx, ridx);
    }

    /** memcpy to &address[widx]: the bytes come to lie right behind the queue. */
    method CopyIn(src: seq<Byte>)
      requires Valid() && |src| <= size - (widx - ridx)
      modifies phys
      ensures Window(phys[..], size, ridx, widx - ridx + |src|) == old(Contents()) + src
    {
      CellFold(size);
      ghost var q := Contents();
      for i := 0 to |src|
        invariant Window(phys[..], size, ridx, widx - ridx + i) == q + src[..i]
      {
        ghost var before := phys[..];
        phys[Cell(size, widx + i)] := src[i];
        WindowOneMore(before, size, ridx, widx - ridx + i, src[i]);
      }
    }

    /** memcpy from &address[ridx] into the caller's buffer. */
    method CopyOut(dest: array<Byte>, len: nat)
      requires Valid() && dest != phys && len <= dest.Length && len <= widx - ridx
      modifies dest
      ensures dest[..len] == Contents()[..len]
      ensures dest[len..] == old(dest[len..])
    {
      ghost var q := Contents();
      for i := 0 to len
        invariant dest[..i] == q[..i]
        invariant dest[i..] == old(dest[i..])
      {
        dest[i] := phys[Cell(size, ridx + i)];
      }
    }

    method Write(src: seq<Byte>) returns (len: Word)
      requires Valid() && 0 < |src| < 0x1_0000_0000_0000_0000
      modifies this`widx, phys
      ensures Valid() && widx == old(widx) + len
      ensures len == Min(size - |old(Contents())|, |src|)
      ensures Contents() == old(Contents()) + src[..len]
    {
      len := Min(Wrap(size - Used(widx, ridx)), |src|);
      if len > 0 {
        CopyIn(src[..len]);
        widx := Wrap(widx + len);
      }
    }

    method Read(dest: array<Byte>, amount: Word) returns (len: Word)
      requires Valid() && dest != phys && 0 < amount <= dest.Length
      modifies this`ridx, this`widx, dest
      ensures Valid()
      ensures len == Min(|old(Contents())|, amount)
      ensures dest[..len] == old(Contents())[..len] && dest[len..] == old(dest[len..])
      ensures Contents() == old(Contents())[len..]
      ensures old(ridx) + len <= size ==> ridx == old(ridx) + len && widx == old(widx)
      ensures old(ridx) + len > size ==> ridx == old(ridx) + len - size && widx == old(widx) - size
    {
      var used := Used(widx, ridx);
      if used > 0 {
        len := Min(used, amount);
        CopyOut(dest, len);
        WindowFrom(phys[..], size, ridx, widx - ridx, len);
        ridx := Wrap(ridx + len);
        if ridx > size {
          WindowOneLap(phys[..], size, ridx, widx - ridx);
          ghost var drifted := widx;
          var swapped := false;
          while !swapped
            modifies this`widx
            invariant widx == if swapped then drifted - size else drifted
            decreases !swapped
          {
            var temp := widx;
            var temp2 := Wrap(temp - size);
            var temp3 := CompareAndSwapWidx(temp, temp2);
            swapped := temp3 == temp;
          }
          ridx := Wrap(ridx - size);
        }
      } else {
        len := 0;
      }
    }

    /** atomic_compare_and_swap on the write index: returns what it found there. */
    method CompareAndSwapWidx(expected: Word, desired: Word) returns (found: Word)
      modifies this`widx
      ensures found == old(widx)
      ensures widx == if old(widx) == expected then desired else old(widx)
    {
      found := widx;
      if found == expected {
        widx := desired;
      }
    }

    method Peek(dest: array<Byte>, amount: Word) returns (len: Word)
      requires Valid() && dest != phys && 0 < amount <= dest.Length
      modifies dest
      ensures len == Min(|Contents()|, amount)
      ensures dest[..len] == Contents()[..len] && dest[len..] == old(dest[len..])
      ensures Contents() == old(Contents())
    {
      var used := Used(widx, ridx);
      if used > 0 {
        len := Min(used, amount);
        CopyOut(dest, len);
      } else {
        len := 0;
      }
    }

    method Reset()
      requires Valid()
      modifies this`ridx, this`widx
      ensures Valid() && Contents() == [] && ridx == widx == 0
    {
      ridx := 0;
      widx := 0;
    }
  }

  /** One more byte behind a window that leaves room for it extends the window. */
  lemma WindowOneMore(phys: seq<Byte>, size: int, start: int, n: nat, b: Byte)
    requires 0 < size && |phys| == size && n < size && 0 <= start <= size
    ensures Window(phys[Cell(size, start + n) := b], size, start, n + 1) == Window(phys, size, start, n) + [b]
  {
    CellFold(size);
  }

  // ---------------------------------------------------------------- every sequence of calls

  datatype Op = Write(src: seq<Byte>) | Read(amount: Word) | Peek(amount: Word) | Reset | AskUsed | AskAvail

  datatype Out = Count(n: int) | Bytes(bytes: seq<Byte>) | Unit

  predicate Callable(op: Op) {
    match op
    case Write(src) => 0 < |src| < WORD
    case Read(amount) => 0 < amount
    case Peek(amount) => 0 < amount
    case _ => true
  }

  /** The bounded FIFO that the ring stands for: the queue after a call and what the call returns. */
  function Fifo(size: nat, q: seq<Byte>, op: Op): (seq<Byte>, Out)
    requires |q| <= size
  {
    match op
    case Write(src) => var n := Min(size - |q|, |src|); (q + src[..n], Count(n))
    case Read(amount) => var n := Min(|q|, amount); (q[n..], Bytes(q[..n]))
    case Peek(amount) => var n := Min(|q|, amount); (q, Bytes(q[..n]))
    case Reset => ([], Unit)
    case AskUsed => (q, Count(|q|))
    case AskAvail => (q, Count(size - |q|))
  }

  function FifoQueue(size: nat, ops: seq<Op>): (q: seq<Byte>)
    ensures |q| <= size
  {
    if ops == [] then [] else Fifo(size, FifoQueue(size, ops[..|ops| - 1]), ops[|ops| - 1]).0
  }

  function FifoOuts(size: nat, ops: seq<Op>): (outs: seq<Out>)
    ensures |outs| == |ops|
  {
    if ops == [] then []
    else
      var before := ops[..|ops| - 1];
      FifoOuts(size, before) + [Fifo(size, FifoQueue(size, before), ops[|ops| - 1]).1]
  }

  /** Since the last reset: the bytes that writes accepted and the bytes that reads removed. */
  function Flow(size: nat, ops: seq<Op>): (inOut: (seq<Byte>, seq<Byte>)) {
    if ops == [] then ([], [])
    else
      var before, op := ops[..|ops| - 1], ops[|ops| - 1];
      var q, (accepted, removed) := FifoQueue(size, before), Flow(size, before);
      match op
      case Write(src) => (accepted + src[..Min(size - |q|, |src|)], removed)
      case Read(amount) => (accepted, removed + q[..Min(|q|, amount)])
      case Reset => ([], [])
      case _ => (accepted, removed)
  }

  /** Nothing is lost, made up or reordered: what went in is what came out and what is still queued. */
  lemma {:induction false} FlowIsConserved(size: nat, ops: seq<Op>)
    ensures Flow(size, ops).0 == Flow(size, ops).1 + FifoQueue(size, ops)
  {
    if ops != [] {
      var before := ops[..|ops| - 1];
      FlowIsConserved(size, before);
      var q := FifoQueue(size, before);
      if ops[|ops| - 1].Read? {
        var n := Min(|q|, ops[|ops| - 1].amount);
        assert q == q[..n] + q[n..];
      }
    }
  }

  /** Any sequence of calls on a fresh ring answers exactly as the bounded FIFO does. */
  method RunOps(size: Word, ops: seq<Op>) returns (outs: seq<Out>)
    requires 0 < size && 2 * size < 0x1_0000_0000_0000_0000
    requires forall op | op in ops :: op.Write? ==> 0 < |op.src| < 0x1_0000_0000_0000_0000
    requires forall op | op in ops :: (op.Read? || op.Peek?) ==> 0 < op.amount
    ensures outs == FifoOuts(size, ops)
  {
    var ring := new Ring(size);
    outs := [];
    for i := 0 to |ops|
      invariant ring.Valid() && fresh(ring) && fresh(ring.phys) && ring.size == size
      invariant ring.Contents() == FifoQueue(size, ops[..i])
      invariant outs == FifoOuts(size, ops[..i])
    {
      assert ops[..i + 1][..i] == ops[..i];
      var out := Call(ring, ops[i]);
      outs := outs + [out];
    }
    assert ops[..|ops|] == ops;
  }

  method Call(ring: Ring, op: Op) returns (out: Out)
    requires ring.Valid() && Callable(op)
    modifies ring, ring.phys
    ensures ring.Valid()
    ensures (ring.Contents(), out) == Fifo(ring.size, old(ring.Contents()), op)
  {
    match op
    case Write(src) =>
      var n := ring.Write(src);
      out := Count(n);
    case Read(amount) =>
      var dest := new Byte[amount];
      var n := ring.Read(dest, amount);
      out := Bytes(dest[..n]);
    case Peek(amount) =>
      var dest := new Byte[amount];
      var n := ring.Peek(dest, amount);
      out := Bytes(dest[..n]);
    case Reset =>
      ring.Reset();
      out := Unit;
    case AskUsed =>
      var n := ring.UsedBytes();
      out := Count(n);
    case AskAvail =>
      var n := ring.AvailBytes();
      out := Count(n);
  }
}
