/** What every use of the ring shares: C's size_t arithmetic and the doubly mapped storage. */
module RingCore {
  import opened Arithmetic

  type Byte = x: int | 0 <= x < 256

  /** A 64-bit size_t. */
  type Word = x: int | 0 <= x < WORD

  /** The value of an exact integer once it is stored in a size_t. */
  function Wrap(x: int): (w: Word)
    ensures 0 <= x < WORD ==> w == x
  {
    x % WORD
  }

  /** The storage is mapped twice, so address[i] and address[i + size] are one cell. */
  function Cell(size: int, i: int): (c: int)
    requires 0 < size
    ensures 0 <= c < size
  {
    i % size
  }

  /** The n bytes that reading from address[start] on would see. */
  function Window(phys: seq<Byte>, size: int, start: int, n: nat): (bytes: seq<Byte>)
    requires 0 < size && |phys| == size
    ensures |bytes| == n
  {
    seq(n, k requires 0 <= k => phys[Cell(size, start + k)])
  }

  /** ringbuffer_used on given index values. */
  function Used(widx: Word, ridx: Word): Word {
    Wrap(widx - ridx)
  }

  /** ringbuffer_avail on given index values. */
  function Avail(size: Word, widx: Word, ridx: Word): Word {
    Wrap(size - Used(widx, ridx))
  }

  /** Inside the 2 * size mapping the second half folds back on the first. */
  lemma CellFold(size: int)
    requires 0 < size
    ensures forall i | 0 <= i < 2 * size :: Cell(size, i) == if i < size then i else i - size
  {}

  /** Moving the start forward drops the front. */
  lemma WindowFrom(phys: seq<Byte>, size: int, start: int, n: nat, len: nat)
    requires 0 < size && |phys| == size && len <= n
    ensures Window(phys, size, start + len, n - len) == Window(phys, size, start, n)[len..]
  {}

  /** Moving the start back by one lap names the same cells. */
  lemma WindowOneLap(phys: seq<Byte>, size: int, start: int, n: nat)
    requires 0 < size && |phys| == size && size <= start && start + n <= 2 * size
    ensures Window(phys, size, start - size, n) == Window(phys, size, start, n)
  {
    CellFold(size);
    var a, b := Window(phys, size, start - size, n), Window(phys, size, start, n);
    forall k | 0 <= k < n
      ensures a[k] == b[k]
    {
      assert Cell(size, start - size + k) == Cell(size, start + k);
    }
  }
}
