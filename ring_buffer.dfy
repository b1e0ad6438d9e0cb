/**
 * ring_buffer_t of buffer.h: a 1024-byte array with a write cursor (head)
 * and a read cursor (tail), and the operations that move bytes in and out of
 * it. The stored bytes, oldest first, are Contents(): the SpaceUsed slots
 * that follow tail. Every mutator is specified as a change to Contents().
 */
module RingBuffers {
  import opened RingMath
  import opened RingContents
  import opened RingTrace

  class RingBuffer {
    var data: array<char>
    var head: SizeT
    var tail: SizeT

    /** Both cursors lie inside the fixed-size array. */
    ghost predicate Valid()
      reads this
    {
      data.Length == N && InRange(head) && InRange(tail)
    }

    /** The stored bytes, from tail up to (not including) head. */
    ghost function Contents(): seq<char>
      reads this, data
      requires Valid()
    {
      State().Contents()
    }

    /** The buffer as a value: the array's bytes and the two cursors. */
    ghost function State(): Ring
      reads this, data
    {
      Ring(data[..], head, tail)
    }

    /**
     * Storage for one ring_buffer_t. As with a C declaration, the cursors
     * mean nothing until ring_buffer_init: callers call Init.
     */
    constructor ()
      ensures data.Length == N && fresh(data)
    {
      data := new char[N];
    }

    /** ring_buffer_init: both cursors to 0, so the buffer is empty. */
    method Init()
      requires data.Length == N
      modifies this
      ensures Valid() && data == old(data)
      ensures head == 0 && tail == 0
      ensures Contents() == []
      ensures SpaceUsed(head, tail) == 0 && SpaceAvail(head, tail) == N - 1
    {
      head := 0;
      tail := 0;
    }

    /**
     * ring_buffer_seek_read: advance tail by n, masked. Advancing past no more
     * than the stored bytes discards exactly the n oldest.
     */
    method SeekRead(n: SizeT)
      requires Valid()
      modifies this`tail
      ensures Valid()
      ensures tail == (old(tail) + n) % N
      ensures n <= old(SpaceUsed(head, tail)) ==>
                SpaceUsed(head, tail) == old(SpaceUsed(head, tail)) - n &&
                Contents() == old(Contents())[n..]
    {
      ghost var u := SpaceUsed(head, tail);
      MaskOfWrap(tail + n);
      tail := Mask(Wrap(tail + n));
      if n <= u {
        MaskIsAdvance(old(tail), n);
        UsedAfterRead(head, old(tail), n);
        WindowDrop(data[..], old(tail), u, n);
      }
    }

    /**
     * ring_buffer_seek_write: advance head by n, masked. Advancing over no
     * more than the free slots turns the n bytes the caller placed there
     * (through WriteSpan) into the newest stored bytes.
     */
    method SeekWrite(n: SizeT)
      requires Valid()
      modifies this`head
      ensures Valid()
      ensures head == (old(head) + n) % N
      ensures n <= old(SpaceAvail(head, tail)) ==>
                SpaceUsed(head, tail) == old(SpaceUsed(head, tail)) + n &&
                Contents() == old(Contents()) + Window(data[..], old(head), n)
    {
      ghost var u := SpaceUsed(head, tail);
      MaskOfWrap(head + n);
      head := Mask(Wrap(head + n));
      if n <= SpaceAvail(old(head), tail) {
        MaskIsAdvance(old(head), n);
        UsedAfterWrite(old(head), tail, n);
        HeadAfterTail(old(head), tail);
        WindowSplit(data[..], tail, u, n);
      }
    }

    /**
     * ring_buffer_write: copy min(len, avail) bytes of src into the slots
     * from head onwards, one byte at a time, advancing head after each.
     */
    method Write(src: seq<char>, len: SizeT) returns (written: SizeT)
      requires Valid() && len <= |src|
      modifies this`head, data
      ensures Valid() && tail == old(tail)
      ensures written == Min(len, old(SpaceAvail(head, tail)))
      ensures Contents() == old(Contents()) + src[..written]
      ensures head == Advance(old(head), written)
      ensures data[..] == Overwrite(old(data[..]), old(head), src[..written])
      ensures forall k :: 0 <= k < N && Distance(old(head), k) >= written ==> data[k] == old(data[k])
      ensures old(SpaceAvail(head, tail)) == 0 ==> written == 0 && head == old(head) && data[..] == old(data[..])
      ensures State() == AfterPut(old(State()), src[..len])
    {
      var avail := SpaceAvail(head, tail);
      written := if len > avail then avail else len;
      ghost var d0, h0 := data[..], head;
      assert data[..] == Overwrite(d0, h0, src[..0]);
      var i: SizeT := 0;
      while i < written
        invariant 0 <= i <= written
        invariant head == Advance(h0, i)
        invariant data[..] == Overwrite(d0, h0, src[..i])
      {
        OverwriteStep(d0, h0, src, i);
        data[head] := src[i];
        MaskIsAdvance(head, 1);
        head := Mask(head + 1);
        i := i + 1;
      }
      WriteIsAfterPut(d0, h0, tail, src, len, written);
    }

    /**
     * ring_buffer_read: copy min(len, used) stored bytes, oldest first, into
     * out, advancing tail after each.
     */
    method Read(out: array<char>, len: SizeT) returns (read: SizeT)
      requires Valid() && len <= out.Length && out != data
      modifies this`tail, out
      ensures Valid() && head == old(head) && data[..] == old(data[..])
      ensures read == Min(len, old(SpaceUsed(head, tail)))
      ensures out[..read] == old(Contents())[..read]
      ensures out[read..] == old(out[read..])
      ensures Contents() == old(Contents())[read..]
      ensures tail == Advance(old(tail), read)
      ensures old(SpaceUsed(head, tail)) == 0 ==> read == 0 && tail == old(tail)
      ensures State() == AfterTake(old(State()), len)
    {
      var used := SpaceUsed(head, tail);
      read := if len > used then used else len;
      ghost var c0, t0 := Contents(), tail;
      var i: SizeT := 0;
      while i < read
        invariant 0 <= i <= read
        invariant tail == Advance(t0, i)
        invariant out[..i] == c0[..i]
        invariant out[read..] == old(out[read..])
      {
        out[i] := data[tail];
        MaskIsAdvance(tail, 1);
        tail := Mask(tail + 1);
        i := i + 1;
      }
      ReadIsAfterTake(data[..], head, t0, len, read);
    }

    /**
     * ring_buffer_peek: copy up to len stored bytes, starting offset bytes
     * after tail, into out without consuming them. An offset at or past the
     * stored bytes copies nothing.
     */
    method Peek(offset: SizeT, out: array<char>, len: SizeT) returns (copied: SizeT)
      requires Valid() && len <= out.Length && out != data
      modifies out
      ensures offset >= SpaceUsed(head, tail) ==> copied == 0
      ensures offset < SpaceUsed(head, tail) ==>
                copied == Min(len, SpaceUsed(head, tail) - offset) &&
                out[..copied] == Contents()[offset..offset + copied]
      ensures out[copied..] == old(out[copied..])
    {
      var used := SpaceUsed(head, tail);
      if offset >= used {
        return 0;
      }
      copied := Min(len, used - offset);
      ghost var c := Contents();
      var i: SizeT := 0;
      while i < copied
        invariant 0 <= i <= copied
        invariant out[..i] == c[offset..offset + i]
        invariant out[copied..] == old(out[copied..])
      {
        MaskIsAdvance(tail, offset + i);
        var idx := Mask(tail + offset + i);
        out[i] := data[idx];
        i := i + 1;
      }
    }
  }
}
