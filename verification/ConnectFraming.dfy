/**
  Enveloped messages of the Connect protocol's streaming calls: one flag byte, the payload's
  length as four bytes in network order, then the payload. The server writes them, the client
  cuts them out of whatever chunks the transport delivers.
 */
module ConnectFraming {
  import opened Wrappers

  type Byte = x: int | 0 <= x < 256
  type Bytes = seq<Byte>

  const HEADER: nat := 5
  const MAX_SIZE := 0x1_0000_0000
  const FLAG_END_STREAM: Byte := 2
  const END_PAYLOAD: Bytes := [0x7B, 0x7D]

  predicate Compressed(flags: Byte) { flags % 2 == 1 }
  predicate EndStream(flags: Byte) { flags / 2 % 2 == 1 }

  datatype Frame = Frame(flags: Byte, payload: Bytes)

  /** The four length bytes, most significant first. */
  function SizeBytes(n: nat): (r: Bytes)
    requires n < MAX_SIZE
    ensures |r| == 4 && SizeOf(r) == n
  {
    var n1 := n / 0x100;
    var n2 := n1 / 0x100;
    [n2 / 0x100, n2 % 0x100, n1 % 0x100, n % 0x100]
  }

  function SizeOf(b: Bytes): nat
    requires |b| == 4
  {
    Shift(Shift(Shift(b[0], b[1]), b[2]), b[3])
  }

  function Shift(high: nat, low: Byte): nat { high * 0x100 + low }

  /** Packing a header; a payload whose length does not fit four bytes is an error. */
  function Encode(f: Frame): Option<Bytes> {
    if |f.payload| < MAX_SIZE then Some([f.flags] + SizeBytes(|f.payload|) + f.payload) else None
  }

  function EncodeAll(frames: seq<Frame>): Option<Bytes> {
    if frames == [] then Some([])
    else
      var head, tail := Encode(frames[0]), EncodeAll(frames[1..]);
      if head.Some? && tail.Some? then Some(head.value + tail.value) else None
  }

  /** What the server sends for these messages: an envelope each, then the end frame. */
  function ServerStream(messages: seq<Bytes>): Option<Bytes> {
    EncodeAll(MessageFrames(messages) + [Frame(FLAG_END_STREAM, END_PAYLOAD)])
  }

  function MessageFrames(messages: seq<Bytes>): seq<Frame> {
    seq(|messages|, i requires 0 <= i < |messages| => Frame(0, messages[i]))
  }

  /** The buffer starts with a whole envelope. */
  predicate Whole(buffer: Bytes) {
    |buffer| >= HEADER && |buffer| >= HEADER + SizeOf(buffer[1..HEADER])
  }

  function First(buffer: Bytes): Frame
    requires Whole(buffer)
  {
    Frame(buffer[0], buffer[HEADER..HEADER + SizeOf(buffer[1..HEADER])])
  }

  function Rest(buffer: Bytes): Bytes
    requires Whole(buffer)
  {
    buffer[HEADER + SizeOf(buffer[1..HEADER])..]
  }

  /** All whole envelopes at the front of the buffer, and what is left. */
  function Cut(buffer: Bytes): (seq<Frame>, Bytes) {
    if !Whole(buffer) then ([], buffer)
    else
      var (frames, left) := Cut(Rest(buffer));
      ([First(buffer)] + frames, left)
  }

  /** The payloads of the frames that do not end the stream. */
  function Messages(frames: seq<Frame>): seq<Bytes> {
    if frames == [] then []
    else (if EndStream(frames[0].flags) then [] else [frames[0].payload]) + Messages(frames[1..])
  }

  /** What the client's parser returns for a buffer, and what it leaves in it. */
  function Parse(buffer: Bytes): (seq<Bytes>, Bytes) {
    (Messages(Cut(buffer).0), Cut(buffer).1)
  }

  // ----- Encoding and cutting are inverse -----

  lemma EncodeIsWhole(f: Frame, rest: Bytes)
    requires Encode(f).Some?
    ensures var b := Encode(f).value + rest; Whole(b) && First(b) == f && Rest(b) == rest
  {
    var b := Encode(f).value + rest;
    assert b[1..HEADER] == SizeBytes(|f.payload|);
    assert b[HEADER..HEADER + |f.payload|] == f.payload;
    assert b[HEADER + |f.payload|..] == rest;
  }

  /** Cutting undoes encoding, whatever partial envelope follows. */
  lemma {:induction false} CutInvertsEncode(frames: seq<Frame>, rest: Bytes)
    requires EncodeAll(frames).Some? && !Whole(rest)
    ensures Cut(EncodeAll(frames).value + rest) == (frames, rest)
  {
    if frames == [] {
      assert [] + rest == rest;
    } else {
      var tail := EncodeAll(frames[1..]).value;
      assert EncodeAll(frames).value + rest == Encode(frames[0]).value + (tail + rest);
      EncodeIsWhole(frames[0], tail + rest);
      CutInvertsEncode(frames[1..], rest);
      assert [frames[0]] + frames[1..] == frames;
    }
  }

  lemma SizeRoundTrip(b: Bytes)
    requires |b| == 4
    ensures SizeOf(b) < MAX_SIZE && SizeBytes(SizeOf(b)) == b
  {
    ShiftInverse(b[0], b[1]);
    ShiftInverse(Shift(b[0], b[1]), b[2]);
    ShiftInverse(Shift(Shift(b[0], b[1]), b[2]), b[3]);
    assert b == [b[0], b[1], b[2], b[3]];
  }

  lemma ShiftInverse(high: nat, low: Byte)
    ensures Shift(high, low) / 0x100 == high && Shift(high, low) % 0x100 == low
  {
  }

  lemma WholeIsFirstAndRest(buffer: Bytes)
    requires Whole(buffer)
    ensures Encode(First(buffer)).Some? && buffer == Encode(First(buffer)).value + Rest(buffer)
  {
    var size := SizeOf(buffer[1..HEADER]);
    SizeRoundTrip(buffer[1..HEADER]);
    assert [buffer[0]] + buffer[1..HEADER] + buffer[HEADER..HEADER + size] + buffer[HEADER + size..] == buffer;
  }

  /** The buffer is these envelopes and then less than one more. */
  ghost predicate Decomposes(buffer: Bytes, frames: seq<Frame>, left: Bytes) {
    EncodeAll(frames).Some? && buffer == EncodeAll(frames).value + left && !Whole(left)
  }

  lemma ConsDecomposes(f: Frame, rest: Bytes, frames: seq<Frame>, left: Bytes)
    requires Encode(f).Some? && Decomposes(rest, frames, left)
    ensures Decomposes(Encode(f).value + rest, [f] + frames, left)
  {
    assert ([f] + frames)[1..] == frames;
    assert Encode(f).value + (EncodeAll(frames).value + left) == (Encode(f).value + EncodeAll(frames).value) + left;
  }

  /** Encoding undoes cutting: every buffer is the frames cut from it followed by a leftover
      that is shorter than the envelope it starts. */
  lemma {:induction false} EncodeInvertsCut(buffer: Bytes)
    ensures Decomposes(buffer, Cut(buffer).0, Cut(buffer).1)
  {
    if Whole(buffer) {
      WholeIsFirstAndRest(buffer);
      EncodeInvertsCut(Rest(buffer));
      ConsDecomposes(First(buffer), Rest(buffer), Cut(Rest(buffer)).0, Cut(Rest(buffer)).1);
    } else {
      assert [] + buffer == buffer;
    }
  }

  // ----- The parser does not depend on how the transport cuts the stream -----

  lemma {:induction false} CutAppend(a: Bytes, b: Bytes)
    ensures var (frames, left) := Cut(a);
            Cut(a + b) == (frames + Cut(left + b).0, Cut(left + b).1)
  {
    if Whole(a) {
      assert (a + b)[1..HEADER] == a[1..HEADER];
      assert First(a + b) == First(a);
      assert Rest(a + b) == Rest(a) + b;
      CutAppend(Rest(a), b);
      var (frames, left) := Cut(Rest(a));
      assert [First(a)] + (frames + Cut(left + b).0) == ([First(a)] + frames) + Cut(left + b).0;
    } else {
      assert [] + Cut(a + b).0 == Cut(a + b).0;
    }
  }

  lemma {:induction false} MessagesAppend(a: seq<Frame>, b: seq<Frame>)
    ensures Messages(a + b) == Messages(a) + Messages(b)
  {
    if a == [] {
      assert [] + b == b;
    } else {
      assert (a + b)[1..] == a[1..] + b;
      MessagesAppend(a[1..], b);
    }
  }

  function Joined(chunks: seq<Bytes>): Bytes {
    if chunks == [] then [] else Joined(chunks[..|chunks| - 1]) + chunks[|chunks| - 1]
  }

  /** The client's loop over transport chunks: extend the buffer, parse, keep what is left. */
  function Feed(chunks: seq<Bytes>): (seq<Bytes>, Bytes) {
    if chunks == [] then ([], [])
    else
      var (messages, left) := Feed(chunks[..|chunks| - 1]);
      var (more, left') := Parse(left + chunks[|chunks| - 1]);
      (messages + more, left')
  }

  /** For every partition into chunks, the messages and the leftover are those of the whole
      stream parsed at once. */
  lemma {:induction false} ChunkingDoesNotMatter(chunks: seq<Bytes>)
    ensures Feed(chunks) == Parse(Joined(chunks))
  {
    if chunks == [] {
    } else {
      var front, last := chunks[..|chunks| - 1], chunks[|chunks| - 1];
      ChunkingDoesNotMatter(front);
      CutAppend(Joined(front), last);
      MessagesAppend(Cut(Joined(front)).0, Cut(Cut(Joined(front)).1 + last).0);
    }
  }

  lemma {:induction false} MessageFramesAreMessages(messages: seq<Bytes>)
    ensures Messages(MessageFrames(messages)) == messages
  {
    if messages == [] {
    } else {
      assert MessageFrames(messages)[1..] == MessageFrames(messages[1..]);
      MessageFramesAreMessages(messages[1..]);
      assert [messages[0]] + messages[1..] == messages;
    }
  }

  /** Round trip: whatever the chunks, a client that has received a server's whole stream has
      exactly the messages, in order, and nothing left over. */
  lemma ClientReceivesServerStream(messages: seq<Bytes>, chunks: seq<Bytes>)
    requires ServerStream(messages) == Some(Joined(chunks))
    ensures Feed(chunks) == (messages, [])
  {
    var frames := MessageFrames(messages) + [Frame(FLAG_END_STREAM, END_PAYLOAD)];
    ChunkingDoesNotMatter(chunks);
    CutInvertsEncode(frames, []);
    assert Joined(chunks) + [] == Joined(chunks);
    EndFrameIsNoMessage(messages);
  }

  lemma EndFrameIsNoMessage(messages: seq<Bytes>)
    ensures Messages(MessageFrames(messages) + [Frame(FLAG_END_STREAM, END_PAYLOAD)]) == messages
  {
    var end := Frame(FLAG_END_STREAM, END_PAYLOAD);
    MessagesAppend(MessageFrames(messages), [end]);
    MessageFramesAreMessages(messages);
    assert Messages([end]) == [] + Messages([]);
    assert messages + [] == messages;
  }

  lemma {:induction false} EncodeAllFits(frames: seq<Frame>)
    ensures EncodeAll(frames).Some? <==> forall i :: 0 <= i < |frames| ==> |frames[i].payload| < MAX_SIZE
  {
    if frames == [] {
    } else {
      EncodeAllFits(frames[1..]);
      assert forall i :: 1 <= i < |frames| ==> frames[i] == frames[1..][i - 1];
    }
  }

  /** A stream exists exactly when every payload fits a four-byte length. */
  lemma ServerStreamExistsIff(messages: seq<Bytes>)
    ensures ServerStream(messages).Some? <==> forall i :: 0 <= i < |messages| ==> |messages[i]| < MAX_SIZE
  {
    var frames := MessageFrames(messages) + [Frame(FLAG_END_STREAM, END_PAYLOAD)];
    EncodeAllFits(frames);
    forall i | 0 <= i < |messages| ensures frames[i].payload == messages[i] {}
  }

  /** No two streams of messages look alike on the wire. */
  lemma ServerStreamIsInjective(a: seq<Bytes>, b: seq<Bytes>)
    requires ServerStream(a).Some? && ServerStream(a) == ServerStream(b)
    ensures a == b
  {
    var wire := ServerStream(a).value;
    var chunks: seq<Bytes> := [wire];
    assert chunks[..0] == [];
    assert Joined(chunks) == [] + wire == wire;
    ClientReceivesServerStream(a, chunks);
    ClientReceivesServerStream(b, chunks);
  }

  // ----- One request message, as the server reads it -----

  datatype Request = Payload(payload: Bytes) | Invalid | CompressedRequest | UnexpectedEnd | Truncated

  function ReadStreamMessage(body: Bytes): Request {
    if |body| < HEADER then Invalid
    else if Compressed(body[0]) then CompressedRequest
    else if EndStream(body[0]) then UnexpectedEnd
    else
      var size := SizeOf(body[1..HEADER]);
      var payload := body[HEADER..if HEADER + size < |body| then HEADER + size else |body|];
      if |payload| != size then Truncated else Payload(payload)
  }

  /** The server accepts a body exactly when it starts with an envelope of a plain message, and
      then reads the message in it; bytes after the envelope are ignored. */
  lemma ReadsExactlyPlainEnvelopes(body: Bytes, payload: Bytes)
    ensures ReadStreamMessage(body) == Payload(payload) <==>
              exists flags: Byte, rest: Bytes ::
                !Compressed(flags) && !EndStream(flags) && Encode(Frame(flags, payload)).Some?
                && body == Encode(Frame(flags, payload)).value + rest
  {
    if ReadStreamMessage(body) == Payload(payload) { ReadIsEnvelope(body, payload); }
    if flags: Byte, rest: Bytes :|
      !Compressed(flags) && !EndStream(flags) && Encode(Frame(flags, payload)).Some?
      && body == Encode(Frame(flags, payload)).value + rest
    {
      EncodeIsWhole(Frame(flags, payload), rest);
    }
  }

  lemma ReadIsEnvelope(body: Bytes, payload: Bytes)
    requires ReadStreamMessage(body) == Payload(payload)
    ensures var frame := Frame(body[0], payload);
            && !Compressed(body[0]) && !EndStream(body[0]) && Encode(frame).Some?
            && body == Encode(frame).value + body[HEADER + |payload|..]
  {
    WholeIsFirstAndRest(body);
  }

  /** The server reads what a client frames, whatever follows: a plain message by its payload; it
      refuses a compressed one and an end of stream. */
  lemma ServerReadsClientFrames(payload: Bytes, rest: Bytes)
    requires |payload| < MAX_SIZE
    ensures Encode(Frame(0, payload)).Some?
        && ReadStreamMessage(Encode(Frame(0, payload)).value + rest) == Payload(payload)
    ensures ReadStreamMessage(Encode(Frame(1, payload)).value + rest) == CompressedRequest
    ensures ReadStreamMessage(Encode(Frame(2, payload)).value + rest) == UnexpectedEnd
    ensures ReadStreamMessage(Encode(Frame(3, payload)).value + rest) == CompressedRequest
  {
    EncodeIsWhole(Frame(0, payload), rest);
    EncodeIsWhole(Frame(1, payload), rest);
    EncodeIsWhole(Frame(2, payload), rest);
    EncodeIsWhole(Frame(3, payload), rest);
  }

  lemma HeaderOfCut(payload: Bytes, n: nat)
    requires |payload| < MAX_SIZE && 5 <= n < 5 + |payload|
    ensures var body := Encode(Frame(0, payload)).value[..n]; body[0] == 0 && body[1..5] == SizeBytes(|payload|)
  {
    var header: Bytes := [0] + SizeBytes(|payload|);
    var body := (header + payload)[..n];
    assert body[..5] == header && header[1..5] == SizeBytes(|payload|);
    assert body[1..5] == body[..5][1..5];
  }

  /** A body that is shorter than its header says is refused, and so is one without a header. */
  lemma ShortBodiesAreRefused(payload: Bytes, n: nat)
    requires |payload| < MAX_SIZE && n < 5 + |payload|
    ensures ReadStreamMessage(Encode(Frame(0, payload)).value[..n]) == if n < 5 then Invalid else Truncated
  {
    if n >= 5 { HeaderOfCut(payload, n); }
  }

  lemma QuarterBytes(n: nat)
    requires n < MAX_SIZE
    ensures SizeBytes(n) == [n / 16777216, n / 65536 % 256, n / 256 % 256, n % 256]
  {
    assert n / 256 / 256 == n / 65536;
    assert n / 65536 / 256 == n / 16777216;
  }

  /** On the wire: the flag, then the length from its highest byte to its lowest, then the payload. */
  lemma WireFormat(flags: Byte, payload: Bytes)
    requires |payload| < MAX_SIZE
    ensures var n := |payload|;
            Encode(Frame(flags, payload)) ==
              Some([flags, n / 16777216, n / 65536 % 256, n / 256 % 256, n % 256] + payload)
  {
    var n := |payload|;
    QuarterBytes(n);
    assert [flags] + SizeBytes(n) == [flags, n / 16777216, n / 65536 % 256, n / 256 % 256, n % 256];
  }

  lemma EncodeOne(f: Frame)
    requires Encode(f).Some?
    ensures EncodeAll([f]) == Encode(f)
  {
    assert [f][1..] == [];
    assert Encode(f).value + [] == Encode(f).value;
  }

  lemma SmallSize(n: Byte)
    ensures SizeBytes(n) == [0, 0, 0, n]
  {
    assert n / 0x100 == 0;
  }

  lemma SmallFrame(f: Frame)
    requires |f.payload| < 256
    ensures Encode(f) == Some([f.flags, 0, 0, 0, |f.payload|] + f.payload)
  {
    SmallSize(|f.payload|);
    assert [f.flags] + [0, 0, 0, |f.payload|] == [f.flags, 0, 0, 0, |f.payload|];
  }

  /** The end of a stream: the end flag, and an empty JSON object. */
  lemma EmptyStream()
    ensures ServerStream([]) == Some([2, 0, 0, 0, 2] + [0x7B, 0x7D])
  {
    SmallFrame(Frame(FLAG_END_STREAM, END_PAYLOAD));
    EncodeOne(Frame(FLAG_END_STREAM, END_PAYLOAD));
    assert MessageFrames([]) == [];
    assert MessageFrames([]) + [Frame(FLAG_END_STREAM, END_PAYLOAD)] == [Frame(FLAG_END_STREAM, END_PAYLOAD)];
  }

  /** The client drops exactly the frames that carry the end flag. */
  lemma FramesKept(payload: Bytes)
    ensures Messages([Frame(0, payload)]) == Messages([Frame(1, payload)]) == [payload]
    ensures Messages([Frame(2, payload)]) == Messages([Frame(3, payload)]) == []
  {
    assert [payload] + [] == [payload];
    assert forall f: Frame :: [f][1..] == [];
  }

  // ----- The parser in its own form -----

  class ByteBuffer {
    var data: Bytes

    constructor ()
      ensures data == []
    {
      data := [];
    }

    method Extend(chunk: Bytes)
      modifies this
      ensures data == old(data) + chunk
    {
      data := data + chunk;
    }
  }

  lemma CutFirst(buffer: Bytes)
    requires Whole(buffer)
    ensures Cut(buffer).1 == Cut(Rest(buffer)).1
    ensures Messages(Cut(buffer).0) ==
              (if EndStream(buffer[0]) then [] else [First(buffer).payload]) + Messages(Cut(Rest(buffer)).0)
  {
    assert Cut(buffer).0[1..] == Cut(Rest(buffer)).0;
  }

  method ParseConnectMessages(buffer: ByteBuffer) returns (messages: seq<Bytes>)
    modifies buffer
    ensures (messages, buffer.data) == Parse(old(buffer.data))
  {
    messages := [];
    ghost var whole := Parse(buffer.data);
    assert [] + whole.0 == whole.0;
    while |buffer.data| >= HEADER
      invariant whole == (messages + Parse(buffer.data).0, Parse(buffer.data).1)
      decreases |buffer.data|
    {
      ghost var before := buffer.data;
      var flags, size := buffer.data[0], SizeOf(buffer.data[1..HEADER]);
      var total := HEADER + size;
      if |buffer.data| < total {
        break;
      }
      CutFirst(before);
      var payload := buffer.data[HEADER..total];
      buffer.data := buffer.data[total..];
      if EndStream(flags) {
        assert [] + Parse(buffer.data).0 == Parse(buffer.data).0;
        continue;
      }
      assert messages + ([payload] + Parse(buffer.data).0) == (messages + [payload]) + Parse(buffer.data).0;
      messages := messages + [payload];
    }
    assert Parse(buffer.data) == ([], buffer.data);
    assert messages + [] == messages;
  }

  /** The client's receive loop: all messages of the stream, for every way it is cut. */
  method ReceiveAll(chunks: seq<Bytes>) returns (messages: seq<Bytes>, left: Bytes)
    ensures (messages, left) == Parse(Joined(chunks))
  {
    var buffer := new ByteBuffer();
    messages := [];
    for i := 0 to |chunks|
      invariant (messages, buffer.data) == Feed(chunks[..i])
    {
      assert chunks[..i + 1][..i] == chunks[..i] && chunks[..i + 1][i] == chunks[i];
      buffer.Extend(chunks[i]);
      var more := ParseConnectMessages(buffer);
      messages := messages + more;
    }
    left := buffer.data;
    assert chunks[..|chunks|] == chunks;
    ChunkingDoesNotMatter(chunks);
  }

}
