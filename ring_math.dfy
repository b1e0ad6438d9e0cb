/**
 * Cursor arithmetic of the static ring buffer in buffer.h: the capacity, the
 * unsigned `size_t` arithmetic the C code relies on, the used/available space
 * computations and the two "contiguous span" macros.
 *
 * Everything here is a function of the two cursor values alone; the buffer's
 * bytes are handled in RingContents and the object itself in RingBuffers.
 */
module RingMath {

  /** RING_BUFFER_SIZE: the number of slots in the backing array. */
  const N: int := 1024

  /** 2^64: the modulus of C's 64-bit `size_t`. */
  const WORD: int := 0x1_0000_0000_0000_0000

  /** The values a `size_t` can hold. */
  type SizeT = x: int | 0 <= x < WORD

  /** Unsigned wrap-around: what a `size_t` expression evaluates to. */
  function Wrap(x: int): SizeT
  {
    x % WORD
  }

  /** `x & RING_BUFFER_MASK` for the power-of-two size N. */
  function Mask(x: SizeT): (r: SizeT)
    ensures r < N
  {
    x % N
  }

  /** The kernel's `min` macro. */
  function Min(a: int, b: int): (r: int)
    ensures r <= a && r <= b
    ensures r == a || r == b
  {
    if a < b then a else b
  }

  /** A cursor value as every operation keeps it: inside the array. */
  predicate InRange(cursor: int)
  {
    0 <= cursor < N
  }

  /** The slot i places after slot p, going forward round the array. */
  function Advance(p: int, i: int): (r: int)
    requires InRange(p) && 0 <= i <= N
    ensures InRange(r)
  {
    if p + i < N then p + i else p + i - N
  }

  /** How many places slot k lies after slot p, going forward round the array. */
  function Distance(p: int, k: int): (r: int)
    requires InRange(p) && InRange(k)
    ensures 0 <= r < N
    ensures Advance(p, r) == k
  {
    if p <= k then k - p else k - p + N
  }

  /** Masking the sum of a cursor and a count up to N is advancing the cursor. */
  lemma MaskIsAdvance(p: int, i: int)
    requires InRange(p) && 0 <= i <= N
    ensures Mask(p + i) == Advance(p, i)
  {
  }

  /** Adding a multiple of N does not change a remainder modulo N. */
  lemma ModShift(x: int, m: int)
    ensures (x + m * N) % N == x % N
  {
  }

  /**
   * Masking a wrapped `size_t` value gives the mathematical remainder modulo
   * N, because N divides 2^64. This is why the C expressions
   * `(tail - head - 1) & MASK` and `(head - tail) & MASK` are right even
   * when the subtraction goes below zero.
   */
  lemma MaskOfWrap(x: int)
    ensures Mask(Wrap(x)) == x % N
  {
    var q := x / WORD;
    assert x == Wrap(x) + (q * 0x40_0000_0000_0000) * N;
    ModShift(Wrap(x), q * 0x40_0000_0000_0000);
  }

  /**
   * ring_buffer_space_used: the number of stored bytes, which is how far
   * head lies after tail.
   */
  function SpaceUsed(head: SizeT, tail: SizeT): (r: SizeT)
    ensures r < N
    ensures InRange(head) && InRange(tail) ==> r == Distance(tail, head)
  {
    MaskOfWrap(head - tail);
    Mask(Wrap(head - tail))
  }

  /**
   * ring_buffer_space_avail: the free slots, which are all slots but the
   * stored ones and the one slot kept unused.
   */
  function SpaceAvail(head: SizeT, tail: SizeT): (r: SizeT)
    ensures r < N
    ensures InRange(head) && InRange(tail) ==> r == N - 1 - Distance(tail, head)
  {
    MaskOfWrap(tail - head - 1);
    Mask(Wrap(tail - head - 1))
  }

  /**
   * The space accounting of the buffer: used and free space always add up to
   * N - 1, the buffer is empty exactly when the cursors meet, and it is full
   * exactly when the slot after head is tail.
   */
  lemma SpaceAccounting(head: SizeT, tail: SizeT)
    requires InRange(head) && InRange(tail)
    ensures SpaceUsed(head, tail) + SpaceAvail(head, tail) == N - 1
    ensures SpaceUsed(head, tail) == 0 <==> head == tail
    ensures SpaceAvail(head, tail) == 0 <==> Advance(head, 1) == tail
  {
  }

  /** The head cursor lies SpaceUsed slots after the tail cursor. */
  lemma HeadAfterTail(head: SizeT, tail: SizeT)
    requires InRange(head) && InRange(tail)
    ensures head == Advance(tail, SpaceUsed(head, tail))
  {
  }

  /** Moving head forward by n free slots raises the used space by n. */
  lemma UsedAfterWrite(head: SizeT, tail: SizeT, n: int)
    requires InRange(head) && InRange(tail)
    requires 0 <= n <= SpaceAvail(head, tail)
    ensures SpaceUsed(Advance(head, n), tail) == SpaceUsed(head, tail) + n
  {
  }

  /** Moving tail forward by n stored slots lowers the used space by n. */
  lemma UsedAfterRead(head: SizeT, tail: SizeT, n: int)
    requires InRange(head) && InRange(tail)
    requires 0 <= n <= SpaceUsed(head, tail)
    ensures SpaceUsed(head, Advance(tail, n)) == SpaceUsed(head, tail) - n
  {
  }

  /** The result of RING_BUFFER_GET_WRITE / RING_BUFFER_GET_READ. */
  datatype Span = Span(offset: SizeT, length: SizeT)

  /**
   * RING_BUFFER_GET_WRITE: the longest run of free slots that starts at head
   * and does not run past the end of the array.
   */
  function WriteSpan(head: SizeT, tail: SizeT): (sp: Span)
    ensures sp.offset == head % N
    ensures sp.offset + sp.length <= N
    ensures sp.length <= SpaceAvail(head, tail)
    ensures sp.length < SpaceAvail(head, tail) ==> sp.offset + sp.length == N
  {
    Span(Mask(head), Min(N - Mask(head), SpaceAvail(head, tail)))
  }

  /**
   * RING_BUFFER_GET_READ: the longest run of stored bytes that starts at tail
   * and does not run past the end of the array.
   */
  function ReadSpan(head: SizeT, tail: SizeT): (sp: Span)
    ensures sp.offset == tail % N
    ensures sp.offset + sp.length <= N
    ensures sp.length <= SpaceUsed(head, tail)
    ensures sp.length < SpaceUsed(head, tail) ==> sp.offset + sp.length == N
  {
    Span(Mask(tail), Min(N - Mask(tail), SpaceUsed(head, tail)))
  }

  /**
   * No slot of the write span holds a stored byte: the j-th slot of the span
   * lies SpaceUsed + j slots after tail, inside the free region, so filling
   * the span never overwrites data that has not been read yet.
   */
  lemma WriteSpanIsFree(head: SizeT, tail: SizeT, j: int)
    requires InRange(head) && InRange(tail)
    requires 0 <= j < WriteSpan(head, tail).length
    ensures head + j < N
    ensures Distance(tail, head + j) == SpaceUsed(head, tail) + j
    ensures SpaceUsed(head, tail) + j < N - 1
  {
    SpaceAccounting(head, tail);
  }
}
