/**
 The receiving side of cockatrice/src/single_instance_manager.cpp: one connection puts a length-prefixed
 message together from the chunks it arrives in.
 */
module InstanceReceiver {
  import opened Bytes

  /** A QStringList of UTF-16 strings, and how QDataStream writes and reads it. */
  type Files = seq<units>
  datatype Codec = Codec(encode: Files -> bytes, decode: bytes -> Files)

  /** What is assumed of QDataStream: it reads back what it has written. */
  ghost predicate Faithful(codec: Codec) {
    forall files: Files :: codec.decode(codec.encode(files)) == files
  }

  const ACK_MESSAGE: string := "COCKATRICE_ACK"
  const TWO_32: nat := 0x1_0000_0000
  const TWO_31: nat := 0x8000_0000

  /** A quint32 as QDataStream writes it: big-endian. */
  function BigEndian(n: nat): (b: bytes)
    ensures |b| == 4
  {
    [n / 0x100 / 0x100 / 0x100 % 0x100, n / 0x100 / 0x100 % 0x100, n / 0x100 % 0x100, n % 0x100]
  }

  function ReadBigEndian(b: bytes): (n: nat)
    requires |b| == 4
    ensures n < TWO_32
  {
    (((b[0] as int * 0x100) + b[1]) * 0x100 + b[2]) * 0x100 + b[3]
  }

  lemma BigEndianReadsBack(n: nat)
    ensures ReadBigEndian(BigEndian(n)) == n % TWO_32
  {
    var h := n / 0x100;
    var g := h / 0x100;
    var f := g / 0x100;
    var e, low := f / 0x100, ReadBigEndian(BigEndian(n));
    assert n == 0x100 * h + n % 0x100 && h == 0x100 * g + h % 0x100;
    assert g == 0x100 * f + g % 0x100 && f == 0x100 * e + f % 0x100;
    assert n == TWO_32 * e + low;
    Remainder(n, e, low);
  }

  lemma Remainder(n: nat, e: nat, low: nat)
    requires n == TWO_32 * e + low && low < TWO_32
    ensures n % TWO_32 == low
  {}

  /** static_cast<int> of a 64-bit size. */
  function ToInt(n: nat): int { (n + TWO_31) % TWO_32 - TWO_31 }

  /** The sender's message: the size of the payload cut to 32 bits, then the payload. */
  function Message(payload: bytes): bytes { BigEndian(|payload| % TWO_32) + payload }

  /** QByteArray::mid. */
  function Mid(b: bytes, from: nat, length: nat): bytes {
    if from >= |b| then [] else if from + length > |b| then b[from..] else b[from..from + length]
  }

  /** A connection: what has arrived, the size read from it (0 while none has been), and what was done. */
  datatype Connection = Connection(buffer: bytes, expectedSize: nat, emitted: seq<Files>, replies: seq<string>, open: bool)

  const FRESH: Connection := Connection([], 0, [], [], true)

  /** What the readyRead handler makes of one more chunk. */
  function Feed(c: Connection, chunk: bytes, codec: Codec): Connection {
    if !c.open then c
    else
      var buffer := c.buffer + chunk;
      if c.expectedSize == 0 && |buffer| < 4 then c.(buffer := buffer)
      else
        var size := if c.expectedSize == 0 then ReadBigEndian(buffer[..4]) else c.expectedSize;
        if |buffer| < ToInt(4 + size) then c.(buffer := buffer, expectedSize := size)
        else Connection([], 0, c.emitted + [codec.decode(Mid(buffer, 4, size))], c.replies + [ACK_MESSAGE], false)
  }

  function FeedAll(chunks: seq<bytes>, codec: Codec): Connection {
    if chunks == [] then FRESH else Feed(FeedAll(chunks[..|chunks| - 1], codec), chunks[|chunks| - 1], codec)
  }

  function Concat(chunks: seq<bytes>): bytes {
    if chunks == [] then [] else Concat(chunks[..|chunks| - 1]) + chunks[|chunks| - 1]
  }

  class Receiver {
    const codec: Codec
    var buffer: bytes
    var expectedSize: nat
    var emitted: seq<Files>
    var replies: seq<string>
    var open: bool

    ghost function State(): Connection
      reads this
    {
      Connection(buffer, expectedSize, emitted, replies, open)
    }

    constructor (codec: Codec)
      ensures this.codec == codec && State() == FRESH
    {
      this.codec, buffer, expectedSize, emitted, replies, open := codec, [], 0, [], [], true;
    }

    /** The readyRead handler; its loop always ends in its first turn. */
    method ReadyRead(chunk: bytes)
      modifies this
      ensures State() == Feed(old(State()), chunk, codec)
    {
      if !open { return; }
      buffer := buffer + chunk;
      if expectedSize == 0 {
        if |buffer| < 4 { return; }
        expectedSize := ReadBigEndian(buffer[..4]);
      }
      if |buffer| < ToInt(4 + expectedSize) { return; }
      var payload := Mid(buffer, 4, expectedSize);
      var files := codec.decode(payload);
      replies := replies + [ACK_MESSAGE];
      buffer := [];
      expectedSize := 0;
      emitted := emitted + [files];
      open := false;
    }

    /** All the chunks of one connection, one after the other. */
    method Receive(chunks: seq<bytes>)
      requires State() == FRESH
      modifies this
      ensures State() == FeedAll(chunks, codec)
    {
      for i := 0 to |chunks|
        invariant State() == FeedAll(chunks[..i], codec)
      {
        assert chunks[..i + 1][..i] == chunks[..i];
        ReadyRead(chunks[i]);
      }
      assert chunks[..|chunks|] == chunks;
    }
  }

  // ----- one message, however it is cut -----

  /** Nothing happens before the message is complete; then the list is handed on once and acknowledged once. */
  ghost predicate HandedOnOnce(chunks: seq<bytes>, payload: bytes, codec: Codec) {
    forall k :: 0 <= k <= |chunks| ==>
      var c := FeedAll(chunks[..k], codec);
      if |Concat(chunks[..k])| < |Message(payload)| then c.emitted == [] && c.replies == []
      else c.emitted == [codec.decode(payload)] && c.replies == [ACK_MESSAGE]
  }

  /** The state in the middle of a message. */
  ghost predicate InMessage(c: Connection, arrived: bytes, payload: bytes) {
    && c.open && c.emitted == [] && c.replies == []
    && c.buffer == arrived && arrived <= Message(payload)
    && (c.expectedSize == 0 || (c.expectedSize == |payload| && |arrived| >= 4))
  }

  ghost predicate AfterMessage(c: Connection, payload: bytes, codec: Codec) {
    !c.open && c.emitted == [codec.decode(payload)] && c.replies == [ACK_MESSAGE]
  }

  lemma SizeOfMessage(arrived: bytes, payload: bytes)
    requires arrived <= Message(payload) && |arrived| >= 4
    ensures ReadBigEndian(arrived[..4]) == |payload| % TWO_32
  {
    assert arrived[..4] == Message(payload)[..4] == BigEndian(|payload| % TWO_32);
    BigEndianReadsBack(|payload| % TWO_32);
  }

  lemma OneChunk(c: Connection, arrived: bytes, chunk: bytes, payload: bytes, codec: Codec)
    requires InMessage(c, arrived, payload) && arrived + chunk <= Message(payload) && 4 + |payload| < TWO_31
    ensures var next := Feed(c, chunk, codec);
            if |arrived + chunk| < |Message(payload)| then InMessage(next, arrived + chunk, payload)
            else AfterMessage(next, payload, codec)
  {
    hide BigEndian, ReadBigEndian;
    var buffer := arrived + chunk;
    assert |Message(payload)| == 4 + |payload| && ToInt(4 + |payload|) == 4 + |payload|;
    if |buffer| >= 4 {
      SizeOfMessage(buffer, payload);
      if |buffer| == 4 + |payload| {
        assert buffer == Message(payload);
        assert Mid(buffer, 4, |payload|) == payload;
      }
    }
  }

  lemma {:induction false} ConcatIsLonger(chunks: seq<bytes>, k: nat)
    requires k <= |chunks|
    ensures Concat(chunks[..k]) <= Concat(chunks)
    decreases |chunks|
  {
    if k < |chunks| {
      var init := chunks[..|chunks| - 1];
      assert init[..k] == chunks[..k];
      ConcatIsLonger(init, k);
    } else {
      assert chunks[..k] == chunks;
    }
  }

  lemma {:induction false} RunOfMessage(chunks: seq<bytes>, k: nat, payload: bytes, codec: Codec)
    requires Concat(chunks) == Message(payload) && k <= |chunks| && 4 + |payload| < TWO_31
    ensures var arrived := Concat(chunks[..k]);
            if |arrived| < |Message(payload)| then InMessage(FeedAll(chunks[..k], codec), arrived, payload)
            else AfterMessage(FeedAll(chunks[..k], codec), payload, codec)
    decreases k
  {
    hide Message, Feed;
    MessageIsLong(payload);
    if k > 0 {
      RunOfMessage(chunks, k - 1, payload, codec);
      var before := chunks[..k - 1];
      assert chunks[..k][..k - 1] == before && chunks[..k][k - 1] == chunks[k - 1];
      ConcatIsLonger(chunks, k);
      ConcatIsLonger(chunks, k - 1);
      if |Concat(before)| < |Message(payload)| {
        OneChunk(FeedAll(before, codec), Concat(before), chunks[k - 1], payload, codec);
      } else {
        ClosedStaysClosed(FeedAll(before, codec), chunks[k - 1], codec);
      }
    }
  }

  lemma ClosedStaysClosed(c: Connection, chunk: bytes, codec: Codec)
    requires !c.open
    ensures Feed(c, chunk, codec) == c
  {}

  lemma MessageIsLong(payload: bytes)
    ensures |Message(payload)| == 4 + |payload| && InMessage(FRESH, [], payload)
  {
    assert [] <= Message(payload);
  }

  /** A cut of the message that shows a premature hand-over: the header (and a cut payload) come first. */
  function EarlyCut(payload: bytes): nat
    requires 4 + |payload| >= TWO_31
  {
    if ToInt(4 + |payload| % TWO_32) <= 4 then 4 else 4 + |payload| % TWO_32
  }

  lemma EarlyHandOver(payload: bytes, codec: Codec)
    requires 4 + |payload| >= TWO_31
    ensures var cut := EarlyCut(payload);
            cut < |Message(payload)| && Feed(FRESH, Message(payload)[..cut], codec).replies == [ACK_MESSAGE]
  {
    hide BigEndian, ReadBigEndian;
    var size, cut := |payload| % TWO_32, EarlyCut(payload);
    var chunk := Message(payload)[..cut];
    assert [] + chunk == chunk;
    SizeOfMessage(chunk, payload);
  }

  /**
   Whichever way one message is cut into chunks, it is handed on exactly once, at the chunk that completes
   it: true if and only if its size, as an int, is not negative.
   */
  lemma EveryCutIsHandedOnOnce(payload: bytes, codec: Codec)
    ensures (forall chunks: seq<bytes> :: Concat(chunks) == Message(payload) ==> HandedOnOnce(chunks, payload, codec))
            <==> 4 + |payload| < TWO_31
  {
    hide Message, Feed;
    MessageIsLong(payload);
    if 4 + |payload| < TWO_31 {
      forall chunks: seq<bytes> | Concat(chunks) == Message(payload) ensures HandedOnOnce(chunks, payload, codec) {
        forall k | 0 <= k <= |chunks|
          ensures var c := FeedAll(chunks[..k], codec);
                  if |Concat(chunks[..k])| < |Message(payload)| then c.emitted == [] && c.replies == []
                  else c.emitted == [codec.decode(payload)] && c.replies == [ACK_MESSAGE]
        {
          RunOfMessage(chunks, k, payload, codec);
        }
      }
    } else {
      var cut := EarlyCut(payload);
      EarlyHandOver(payload, codec);
      var a, b := Message(payload)[..cut], Message(payload)[cut..];
      var chunks := [a, b];
      assert chunks[..1] == [a];
      assert Concat([a]) == a;
      assert Concat(chunks) == a + b == Message(payload);
      assert FeedAll([a], codec) == Feed(FRESH, a, codec);
      assert !HandedOnOnce(chunks, payload, codec) by {
        assert FeedAll(chunks[..1], codec).replies != [];
      }
    }
  }

  /** The list that is handed on is the list that was sent. */
  lemma SentIsReceived(files: Files, chunks: seq<bytes>, codec: Codec)
    requires Faithful(codec) && 4 + |codec.encode(files)| < TWO_31
    requires Concat(chunks) == Message(codec.encode(files))
    ensures FeedAll(chunks, codec).emitted == [files] && FeedAll(chunks, codec).replies == [ACK_MESSAGE]
  {
    hide Message, Feed;
    assert chunks[..|chunks|] == chunks;
    RunOfMessage(chunks, |chunks|, codec.encode(files), codec);
  }
}
