/**
 * The scenarios of buffer_test.c, each as a method that runs the calls the
 * test makes and returns what the test's assertions look at, plus two
 * general first-in-first-out round trips that hold for every input.
 */
module RingBufferTests {
  import opened RingMath
  import opened RingBuffers

  /**
   * Tests 1 to 3 of buffer_test.c, in order on one buffer: initialise, write
   * "Hello, Ring Buffer!" (strlen 19) and read it back.
   */
  method BasicScenario() returns (initUsed: SizeT, initAvail: SizeT, written: SizeT, usedAfterWrite: SizeT,
                                  read: SizeT, text: seq<char>, usedAfterRead: SizeT)
    ensures initUsed == 0 && initAvail == N - 1
    ensures written == 19 && usedAfterWrite == 19
    ensures read == 19 && text == "Hello, Ring Buffer!" && usedAfterRead == 0
  {
    var rb := new RingBuffer();
    rb.Init();
    initUsed := SpaceUsed(rb.head, rb.tail);
    initAvail := SpaceAvail(rb.head, rb.tail);

    var hello := "Hello, Ring Buffer!";
    written := rb.Write(hello, |hello|);
    assert written == 19 && rb.head == 19 && rb.tail == 0;
    usedAfterWrite := SpaceUsed(rb.head, rb.tail);

    var readBuf := new char[2048];
    read := rb.Read(readBuf, written);
    text := readBuf[..read];
    usedAfterRead := SpaceUsed(rb.head, rb.tail);
  }

  /**
   * Test 4 of buffer_test.c: offering N bytes of 'A' to an empty buffer
   * stores only N - 1 of them and leaves no free slot. The test runs it with
   * both cursors at 19, after tests 2 and 3; here the cursors may sit at any
   * slot `start`.
   */
  method FullScenario(start: SizeT) returns (written: SizeT, avail: SizeT)
    requires InRange(start)
    ensures written == N - 1
    ensures avail == 0
  {
    var rb := new RingBuffer();
    rb.Init();
    rb.SeekWrite(start);
    rb.SeekRead(start);
    assert rb.head == start && rb.tail == start;
    var fill := seq(N, _ => 'A');
    written := rb.Write(fill, N);
    avail := SpaceAvail(rb.head, rb.tail);
    SpaceAccounting(rb.head, rb.tail);
  }

  /**
   * Test 5 of buffer_test.c: write "ABCDEF", read 3, write "123456", then
   * read up to N bytes; the bytes come out in the order they went in.
   */
  method CircularScenario() returns (firstRead: SizeT, text: seq<char>)
    ensures firstRead == 3
    ensures text == "DEF123456"
  {
    var rb := new RingBuffer();
    rb.Init();
    var readBuf := new char[2048];
    var w1 := rb.Write("ABCDEF", 6);
    assert rb.Contents() == "ABCDEF";
    firstRead := rb.Read(readBuf, 3);
    assert rb.Contents() == "DEF";
    var w2 := rb.Write("123456", 6);
    assert rb.Contents() == "DEF123456";
    var r := rb.Read(readBuf, N);
    text := readBuf[..r];
  }

  /**
   * Round trip: whatever fits in an empty buffer (at most N - 1 bytes) is
   * read back unchanged by a read of the same length.
   */
  method RoundTrip(s: seq<char>) returns (written: SizeT, got: seq<char>)
    requires |s| <= N - 1
    ensures written == |s|
    ensures got == s
  {
    var rb := new RingBuffer();
    rb.Init();
    written := rb.Write(s, |s|);
    var out := new char[|s|];
    var r := rb.Read(out, |s|);
    got := out[..r];
  }

  /**
   * Round trip across the end of the array: with both cursors first moved to
   * any slot `start` (by seeking), a write of up to N - 1 bytes that wraps
   * past the last slot still reads back unchanged.
   */
  method WrappedRoundTrip(start: SizeT, s: seq<char>) returns (got: seq<char>)
    requires InRange(start) && |s| <= N - 1
    ensures got == s
  {
    var rb := new RingBuffer();
    rb.Init();
    rb.SeekWrite(start);
    rb.SeekRead(start);
    assert rb.head == start && rb.tail == start;
    var written := rb.Write(s, |s|);
    var out := new char[|s|];
    var r := rb.Read(out, |s|);
    got := out[..r];
  }
}
