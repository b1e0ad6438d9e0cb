/**
 * A ring_buffer_t as a value (its array's bytes and its two cursors), the
 * effect of ring_buffer_write and ring_buffer_read on that value, and what
 * any sequence of writes and reads does: the buffer is first-in-first-out,
 * whatever the order of the calls and however often the cursors wrap.
 */
module RingTrace {
  import opened RingMath
  import opened RingContents

  /** The value of a ring_buffer_t: the bytes of its array and its cursors. */
  datatype Ring = Ring(d: seq<char>, head: SizeT, tail: SizeT)
  {
    /** The array has N slots and both cursors lie inside it. */
    predicate Valid()
    {
      |d| == N && InRange(head) && InRange(tail)
    }

    /** The number of stored bytes: how far head lies after tail. */
    function Used(): int
      requires Valid()
    {
      Distance(tail, head)
    }

    /** The number of free slots: all but the stored ones and the spare slot. */
    function Avail(): int
      requires Valid()
    {
      N - 1 - Distance(tail, head)
    }

    /** The stored bytes, oldest first: the Used slots after tail. */
    function Contents(): seq<char>
      requires Valid()
    {
      Window(d, tail, Used())
    }
  }

  /**
   * Used and Avail are what ring_buffer_space_used and ring_buffer_space_avail
   * return for this ring, and Contents is the window those functions delimit.
   */
  lemma {:induction false} RingAccounting(r: Ring)
    requires r.Valid()
    ensures r.Used() == SpaceUsed(r.head, r.tail) && r.Avail() == SpaceAvail(r.head, r.tail)
    ensures r.Used() + r.Avail() == N - 1
    ensures r.Contents() == Window(r.d, r.tail, SpaceUsed(r.head, r.tail))
  {
    SpaceAccounting(r.head, r.tail);
  }

  /**
   * ring_buffer_write(rb, s, |s|) on a value: the first min(|s|, avail) bytes
   * of s are stored after the old contents; tail does not move.
   */
  function AfterPut(r: Ring, s: seq<char>): (r': Ring)
    requires r.Valid()
    ensures r'.Valid() && r'.tail == r.tail
    ensures r'.Contents() == r.Contents() + s[..Min(|s|, r.Avail())]
  {
    var k := Min(|s|, r.Avail());
    RingAccounting(r);
    AppendAtHead(r.d, r.head, r.tail, s[..k]);
    Ring(Overwrite(r.d, r.head, s[..k]), Advance(r.head, k), r.tail)
  }

  /**
   * ring_buffer_read(rb, out, n) on a value: the first min(n, used) stored
   * bytes leave the buffer; head and the array do not change.
   */
  function AfterTake(r: Ring, n: nat): (r': Ring)
    requires r.Valid()
    ensures r'.Valid() && r'.head == r.head && r'.d == r.d
    ensures r'.Contents() == r.Contents()[Min(n, r.Used())..]
  {
    var k := Min(n, r.Used());
    RingAccounting(r);
    ConsumeAtTail(r.d, r.head, r.tail, k);
    Ring(r.d, r.head, Advance(r.tail, k))
  }

  /**
   * The array and cursors that the copy loop of ring_buffer_write leaves
   * (written = min(len, avail) bytes of src stored from head onwards, head
   * moved past them) are the value AfterPut describes; only the written slots
   * change, and a full buffer takes nothing.
   */
  lemma WriteIsAfterPut(d: seq<char>, head: SizeT, tail: SizeT, src: seq<char>, len: nat, written: int)
    requires |d| == N && InRange(head) && InRange(tail) && len <= |src|
    requires written == Min(len, SpaceAvail(head, tail))
    ensures AfterPut(Ring(d, head, tail), src[..len])
         == Ring(Overwrite(d, head, src[..written]), Advance(head, written), tail)
    ensures AfterPut(Ring(d, head, tail), src[..len]).Contents() == Ring(d, head, tail).Contents() + src[..written]
    ensures forall k :: 0 <= k < N && Distance(head, k) >= written ==> Overwrite(d, head, src[..written])[k] == d[k]
    ensures SpaceAvail(head, tail) == 0 ==>
              written == 0 && Advance(head, written) == head && Overwrite(d, head, src[..written]) == d
  {
    RingAccounting(Ring(d, head, tail));
    assert src[..len][..written] == src[..written];
    OverwriteKeeps(d, head, src[..written]);
  }

  /**
   * The cursors that the copy loop of ring_buffer_read leaves are the value
   * AfterTake describes.
   */
  lemma ReadIsAfterTake(d: seq<char>, head: SizeT, tail: SizeT, len: nat, read: int)
    requires |d| == N && InRange(head) && InRange(tail)
    requires read == Min(len, SpaceUsed(head, tail))
    ensures AfterTake(Ring(d, head, tail), len) == Ring(d, head, Advance(tail, read))
    ensures AfterTake(Ring(d, head, tail), len).Contents() == Ring(d, head, tail).Contents()[read..]
  {
    RingAccounting(Ring(d, head, tail));
  }

  /** A call on the buffer: a write of some bytes, or a read of up to n bytes. */
  datatype Op = Put(bytes: seq<char>) | Take(count: nat)

  /**
   * What a run of calls leaves behind: the final buffer, every byte the
   * writes accepted and every byte the reads delivered, in call order.
   */
  datatype Outcome = Outcome(final: Ring, accepted: seq<char>, delivered: seq<char>)

  /** Apply the calls of ops to r, one after the other. */
  function Run(r: Ring, ops: seq<Op>): (o: Outcome)
    requires r.Valid()
    ensures o.final.Valid()
    ensures |o.delivered| <= |r.Contents()| + |o.accepted|
    decreases |ops|
  {
    if ops == [] then Outcome(r, [], [])
    else
      match ops[0]
      case Put(s) =>
        var r1 := AfterPut(r, s);
        var rest := Run(r1, ops[1..]);
        Outcome(rest.final, s[..Min(|s|, r.Avail())] + rest.accepted, rest.delivered)
      case Take(n) =>
        var r1 := AfterTake(r, n);
        var rest := Run(r1, ops[1..]);
        Outcome(rest.final, rest.accepted, r.Contents()[..Min(n, r.Used())] + rest.delivered)
  }

  /**
   * The bookkeeping of one read of k bytes followed by more calls: if the
   * calls after the read keep the balance, so does the whole run.
   */
  lemma TakeBalance(c: seq<char>, k: nat, c1: seq<char>, acc: seq<char>, del: seq<char>, fin: seq<char>)
    requires k <= |c| && c1 == c[k..] && c1 + acc == del + fin
    ensures c + acc == c[..k] + del + fin
  {
    assert c == c[..k] + c1;
    assert (c[..k] + c1) + acc == c[..k] + (c1 + acc);
  }

  /**
   * First in, first out: the bytes stored at the start followed by every byte
   * the writes accepted are exactly the bytes the reads delivered followed by
   * the bytes still stored at the end.
   */
  lemma {:induction false} Fifo(r: Ring, ops: seq<Op>)
    requires r.Valid()
    ensures r.Contents() + Run(r, ops).accepted == Run(r, ops).delivered + Run(r, ops).final.Contents()
    decreases |ops|
  {
    if ops != [] {
      match ops[0]
      case Put(s) =>
        var r1 := AfterPut(r, s);
        var rest := Run(r1, ops[1..]);
        Fifo(r1, ops[1..]);
        var c, a := r.Contents(), s[..Min(|s|, r.Avail())];
        assert c + (a + rest.accepted) == (c + a) + rest.accepted;
      case Take(n) =>
        var k := Min(n, r.Used());
        var r1 := AfterTake(r, n);
        var rest := Run(r1, ops[1..]);
        Fifo(r1, ops[1..]);
        TakeBalance(r.Contents(), k, r1.Contents(), rest.accepted, rest.delivered, rest.final.Contents());
    }
  }

  /** The empty buffer ring_buffer_init leaves, with its array's bytes d. */
  function Fresh(d: seq<char>): (r: Ring)
    requires |d| == N
    ensures r.Valid() && r.Contents() == []
  {
    Ring(d, 0, 0)
  }

  /**
   * From a freshly initialised buffer, the reads deliver a prefix of the
   * bytes the writes accepted, and what is left stored is the rest of them.
   */
  lemma DeliveredPrefixOfAccepted(d: seq<char>, ops: seq<Op>)
    requires |d| == N
    ensures Run(Fresh(d), ops).delivered <= Run(Fresh(d), ops).accepted
    ensures Run(Fresh(d), ops).accepted
         == Run(Fresh(d), ops).delivered + Run(Fresh(d), ops).final.Contents()
  {
    Fifo(Fresh(d), ops);
    assert [] + Run(Fresh(d), ops).accepted == Run(Fresh(d), ops).accepted;
  }
}
