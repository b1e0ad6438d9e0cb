/**
 * The bytes a ring buffer holds, as a function of its backing array: the
 * stored contents are the `used` slots that follow `tail`, taken in order and
 * wrapping round the end of the array. Writes are described by Overwrite,
 * which replaces the slots that follow a start position.
 */
module RingContents {
  import opened RingMath

  /** The n slots of d that start at `start`, wrapping round the end. */
  function Window(d: seq<char>, start: int, n: nat): seq<char>
    requires |d| == N && InRange(start) && n <= N
  {
    seq(n, i requires 0 <= i < n => d[Advance(start, i)])
  }

  /**
   * d with the |s| slots from `start` onwards (wrapping) replaced by s: what
   * the copy loop of ring_buffer_write leaves in the backing array.
   */
  function Overwrite(d: seq<char>, start: int, s: seq<char>): seq<char>
    requires |d| == N && InRange(start) && |s| <= N
  {
    seq(N, k requires 0 <= k < N => if Distance(start, k) < |s| then s[Distance(start, k)] else d[k])
  }

  /** A window of u + n slots is the window of u slots followed by the next n. */
  lemma {:induction false} WindowSplit(d: seq<char>, start: int, u: nat, n: nat)
    requires |d| == N && InRange(start) && u + n <= N
    ensures Window(d, start, u + n) == Window(d, start, u) + Window(d, Advance(start, u), n)
  {
    var whole, left, right := Window(d, start, u + n), Window(d, start, u), Window(d, Advance(start, u), n);
    assert forall i :: 0 <= i < n ==> whole[u + i] == right[i];
    assert whole == left + right;
  }

  /** Reading the slots just overwritten gives back exactly what was written. */
  lemma {:induction false} WindowOfOverwrite(d: seq<char>, start: int, s: seq<char>)
    requires |d| == N && InRange(start) && |s| <= N
    ensures Window(Overwrite(d, start, s), start, |s|) == s
  {
    var w := Window(Overwrite(d, start, s), start, |s|);
    forall i | 0 <= i < |s|
      ensures w[i] == s[i]
    {
      assert Distance(start, Advance(start, i)) == i;
    }
  }

  /**
   * Overwriting the slots that follow a window leaves the window itself
   * unchanged, as long as the two together fit in the array.
   */
  lemma {:induction false} WindowAfterOverwrite(d: seq<char>, start: int, u: nat, s: seq<char>)
    requires |d| == N && InRange(start) && u + |s| <= N
    ensures Window(Overwrite(d, Advance(start, u), s), start, u) == Window(d, start, u)
  {
    var h := Advance(start, u);
    var before, after := Window(d, start, u), Window(Overwrite(d, h, s), start, u);
    forall i | 0 <= i < u
      ensures after[i] == before[i]
    {
      assert Distance(h, Advance(start, i)) == N - u + i;
    }
  }

  /**
   * Appending to the stored contents: writing s into the slots that follow a
   * window of u stored bytes extends the window by s, as long as the result
   * still fits in the array.
   */
  lemma WindowAppend(d: seq<char>, start: int, u: nat, s: seq<char>)
    requires |d| == N && InRange(start) && u + |s| <= N
    ensures Window(Overwrite(d, Advance(start, u), s), start, u + |s|) == Window(d, start, u) + s
  {
    var h := Advance(start, u);
    WindowSplit(Overwrite(d, h, s), start, u, |s|);
    WindowAfterOverwrite(d, start, u, s);
    WindowOfOverwrite(d, h, s);
  }

  /** Dropping the first r bytes of a window moves its start forward by r. */
  lemma WindowDrop(d: seq<char>, start: int, u: nat, r: nat)
    requires |d| == N && InRange(start) && r <= u <= N
    ensures Window(d, Advance(start, r), u - r) == Window(d, start, u)[r..]
  {
    WindowSplit(d, start, r, u - r);
  }

  /**
   * Writing at head: storing s in the free slots from head onwards and moving
   * head past them raises the used space by |s| and appends s to the stored
   * bytes.
   */
  lemma AppendAtHead(d: seq<char>, head: SizeT, tail: SizeT, s: seq<char>)
    requires |d| == N && InRange(head) && InRange(tail)
    requires |s| <= SpaceAvail(head, tail)
    ensures SpaceUsed(Advance(head, |s|), tail) == SpaceUsed(head, tail) + |s|
    ensures Window(Overwrite(d, head, s), tail, SpaceUsed(Advance(head, |s|), tail))
         == Window(d, tail, SpaceUsed(head, tail)) + s
  {
    UsedAfterWrite(head, tail, |s|);
    HeadAfterTail(head, tail);
    WindowAppend(d, tail, SpaceUsed(head, tail), s);
  }

  /**
   * Reading at tail: moving tail past r of the stored bytes lowers the used
   * space by r and removes exactly the r oldest bytes.
   */
  lemma ConsumeAtTail(d: seq<char>, head: SizeT, tail: SizeT, r: nat)
    requires |d| == N && InRange(head) && InRange(tail)
    requires r <= SpaceUsed(head, tail)
    ensures SpaceUsed(head, Advance(tail, r)) == SpaceUsed(head, tail) - r
    ensures Window(d, Advance(tail, r), SpaceUsed(head, Advance(tail, r)))
         == Window(d, tail, SpaceUsed(head, tail))[r..]
  {
    UsedAfterRead(head, tail, r);
    WindowDrop(d, tail, SpaceUsed(head, tail), r);
  }

  /**
   * One step of the copy loop of ring_buffer_write: after the first i bytes
   * of s are in place, storing s[i] in the slot i places after start puts the
   * first i + 1 in place.
   */
  lemma {:induction false} OverwriteStep(d: seq<char>, start: int, s: seq<char>, i: nat)
    requires |d| == N && InRange(start) && i < |s| && i < N
    ensures Overwrite(d, start, s[..i])[Advance(start, i) := s[i]] == Overwrite(d, start, s[..i + 1])
  {
    var lhs, rhs := Overwrite(d, start, s[..i])[Advance(start, i) := s[i]], Overwrite(d, start, s[..i + 1]);
    assert forall k :: 0 <= k < N ==> lhs[k] == rhs[k];
  }

  /**
   * Overwrite changes only the |s| slots that follow start: every other slot
   * keeps its byte, and overwriting with nothing changes nothing.
   */
  lemma OverwriteKeeps(d: seq<char>, start: int, s: seq<char>)
    requires |d| == N && InRange(start) && |s| <= N
    ensures forall k :: 0 <= k < N && Distance(start, k) >= |s| ==> Overwrite(d, start, s)[k] == d[k]
    ensures s == [] ==> Overwrite(d, start, s) == d
  {
  }

  /**
   * The usage pattern of RING_BUFFER_GET_WRITE: copying s into the array
   * contiguously from the span's offset, then advancing head by |s|, appends
   * s to the stored bytes. The example advances head with a function
   * ring_buffer_write_advance that buffer.h does not define; it is read here
   * as ring_buffer_seek_write, which advances head the same way.
   */
  lemma {:induction false} SpanWriteAppends(d: seq<char>, head: SizeT, tail: SizeT, s: seq<char>)
    requires |d| == N && InRange(head) && InRange(tail)
    requires |s| <= WriteSpan(head, tail).length
    ensures head + |s| <= N
    ensures Window(d[..head] + s + d[head + |s|..], tail, SpaceUsed(head, tail) + |s|)
         == Window(d, tail, SpaceUsed(head, tail)) + s
  {
    var u := SpaceUsed(head, tail);
    SpaceAccounting(head, tail);
    HeadAfterTail(head, tail);
    var spliced := d[..head] + s + d[head + |s|..];
    assert spliced == Overwrite(d, head, s) by {
      assert forall k :: 0 <= k < N ==> spliced[k] == Overwrite(d, head, s)[k];
    }
    WindowAppend(d, tail, u, s);
  }

  /**
   * The usage pattern of RING_BUFFER_GET_READ: the span's bytes, read
   * contiguously from the array, are the oldest stored bytes.
   */
  lemma {:induction false} ReadSpanIsOldest(d: seq<char>, head: SizeT, tail: SizeT)
    requires |d| == N && InRange(head) && InRange(tail)
    ensures tail + ReadSpan(head, tail).length <= N
    ensures d[tail..tail + ReadSpan(head, tail).length]
         == Window(d, tail, SpaceUsed(head, tail))[..ReadSpan(head, tail).length]
  {
    var n := ReadSpan(head, tail).length;
    assert forall i :: 0 <= i < n ==> d[tail..tail + n][i] == Window(d, tail, SpaceUsed(head, tail))[i];
  }
}
