/** The data plane's byte stream: length-prefixed frames and raw write payloads. */
module Framing {
  import opened Base

  type Byte = b: int | 0 <= b < 256
  type Stream = seq<Byte>

  const MAX_FRAME_SIZE: nat := 64 * 1024 * 1024
  const U32: nat := 0x1_0000_0000

  // ---------- Frames ----------

  // Four bytes, most significant first.
  function BigEndian(n: nat): (s: Stream)
    requires n < U32
    ensures |s| == 4
  {
    [n / 0x100_0000, n / 0x1_0000 % 256, n / 256 % 256, n % 256]
  }

  function FromBigEndian(s: Stream): (n: nat)
    requires |s| >= 4
    ensures n < U32
  {
    (s[0] as int) * 0x100_0000 + (s[1] as int) * 0x1_0000 + (s[2] as int) * 256 + s[3] as int
  }

  // The length is cut to 32 bits when it is written.
  function WriteFrame(data: Stream): Stream {
    BigEndian(|data| % U32) + data
  }

  datatype FrameResult = Frame(data: Stream, rest: Stream) | EndOfStream | TooLarge(length: nat)

  function ReadFrame(s: Stream): FrameResult {
    if |s| < 4 then EndOfStream
    else
      var length := FromBigEndian(s);
      if length > MAX_FRAME_SIZE then TooLarge(length)
      else if |s| - 4 < length then EndOfStream
      else Frame(s[4..4 + length], s[4 + length..])
  }

  lemma LengthRoundTrip(n: nat, rest: Stream)
    requires n < U32
    ensures FromBigEndian(BigEndian(n) + rest) == n
  {
    var a, b, c := n / 0x100_0000, n / 0x1_0000, n / 256;
    assert c / 256 == b && b / 256 == a;
    assert n == c * 256 + n % 256 && c == b * 256 + c % 256 && b == a * 256 + b % 256;
  }

  lemma FrameHeader(data: Stream, rest: Stream)
    ensures FromBigEndian(WriteFrame(data) + rest) == |data| % U32
    ensures (WriteFrame(data) + rest)[4..] == data + rest
  {
    LengthRoundTrip(|data| % U32, data + rest);
    assert WriteFrame(data) + rest == BigEndian(|data| % U32) + (data + rest);
  }

  // On the wire the length comes first, most significant byte in front, and then the
  // data.
  lemma FrameBytes(data: Stream)
    requires |data| < U32
    ensures var s := WriteFrame(data);
            && |s| == 4 + |data| && s[4..] == data
            && |data| == (s[0] as int) * 0x100_0000 + (s[1] as int) * 0x1_0000 + (s[2] as int) * 0x100 + s[3] as int
  {
    FrameHeader(data, []);
    assert WriteFrame(data) + [] == WriteFrame(data);
  }

  // A written frame is read back exactly when it is at most 64 MiB long; a longer
  // one is refused or, past 32 bits of length, read short.
  lemma FrameRoundTripIff(data: Stream, rest: Stream)
    ensures ReadFrame(WriteFrame(data) + rest) == Frame(data, rest) <==> |data| <= MAX_FRAME_SIZE
  {
    var s := WriteFrame(data) + rest;
    var length := |data| % U32;
    FrameHeader(data, rest);
    if |data| <= MAX_FRAME_SIZE {
      assert s[4..4 + length] == (data + rest)[..length] == data;
      assert s[4 + length..] == (data + rest)[length..] == rest;
    } else if length <= MAX_FRAME_SIZE && length <= |s| - 4 {
      assert |s[4..4 + length]| == length < |data|;
    }
  }

  // A frame cut short is not read at all.
  lemma FrameCutShort(data: Stream, n: nat)
    requires |data| <= MAX_FRAME_SIZE && n < |WriteFrame(data)|
    ensures ReadFrame(WriteFrame(data)[..n]) == EndOfStream
  {
    if n >= 4 {
      var s := WriteFrame(data)[..n];
      LengthRoundTrip(|data|, []);
      LengthRoundTrip(|data|, data[..n - 4]);
      assert s == BigEndian(|data|) + data[..n - 4];
    }
  }

  // ---------- Requests ----------

  datatype WriteHeader = WriteHeader(fields: nat, payloadSize: nat)
  datatype ReadHeader = ReadHeader(fields: nat)

  datatype Message = WriteReq(write: WriteHeader) | ReadReq(read: ReadHeader) | OtherMessage(tag: nat)

  // The JSON library: a message, written and parsed again, is unchanged.
  datatype Codec = Codec(write: Message -> Stream, parse: Stream -> Option<Message>)

  ghost predicate Lossless(codec: Codec) {
    forall m :: codec.parse(codec.write(m)) == Some(m)
  }

  datatype Request = Write(write: WriteHeader, payload: Stream) | Read(read: ReadHeader)

  datatype Ending = Disconnected | PayloadCutShort | FrameTooLarge(length: nat) | BadMessage | UnexpectedMessage

  datatype Handled = Handled(requests: seq<Request>, ending: Ending)

  datatype Taken = Took(request: Request, rest: Stream) | Stopped(ending: Ending)

  // One round of the request loop.
  function TakeOne(codec: Codec, s: Stream): (t: Taken)
    ensures t.Took? ==> |t.rest| < |s|
  {
    match ReadFrame(s)
    case EndOfStream => Stopped(Disconnected)
    case TooLarge(length) => Stopped(FrameTooLarge(length))
    case Frame(data, rest) =>
      match codec.parse(data)
      case None => Stopped(BadMessage)
      case Some(OtherMessage(_)) => Stopped(UnexpectedMessage)
      case Some(ReadReq(header)) => Took(Read(header), rest)
      case Some(WriteReq(header)) =>
        if |rest| < header.payloadSize then Stopped(PayloadCutShort)
        else Took(Write(header, rest[..header.payloadSize]), rest[header.payloadSize..])
  }

  // Everything the request loop takes from the stream until it stops.
  function Parse(codec: Codec, s: Stream): Handled
    decreases |s|
  {
    match TakeOne(codec, s)
    case Stopped(ending) => Handled([], ending)
    case Took(request, rest) =>
      var more := Parse(codec, rest);
      Handled([request] + more.requests, more.ending)
  }

  method RequestLoop(codec: Codec, s: Stream) returns (handled: seq<Request>, ending: Ending)
    ensures Handled(handled, ending) == Parse(codec, s)
  {
    handled, ending := [], Disconnected;
    var stream := s;
    while true
      invariant Parse(codec, s) == Continued(handled, Parse(codec, stream))
      decreases |stream|
    {
      ghost var before := stream;
      match ReadFrame(stream) {
        case EndOfStream => return handled, Disconnected;
        case TooLarge(length) => return handled, FrameTooLarge(length);
        case Frame(data, rest) =>
          var request;
          stream := rest;
          match codec.parse(data) {
            case None => return handled, BadMessage;
            case Some(OtherMessage(_)) => return handled, UnexpectedMessage;
            case Some(ReadReq(header)) =>
              request := Read(header);
            case Some(WriteReq(header)) =>
              if |stream| < header.payloadSize {
                return handled, PayloadCutShort;
              }
              request := Write(header, stream[..header.payloadSize]);
              stream := stream[header.payloadSize..];
          }
          assert TakeOne(codec, before) == Took(request, stream);
          ContinueByOne(handled, request, Parse(codec, stream));
          handled := handled + [request];
      }
    }
  }

  function Continued(handled: seq<Request>, more: Handled): Handled {
    Handled(handled + more.requests, more.ending)
  }

  lemma ContinueByOne(handled: seq<Request>, request: Request, more: Handled)
    ensures Continued(handled, Handled([request] + more.requests, more.ending))
         == Continued(handled + [request], more)
  {
    assert handled + ([request] + more.requests) == handled + [request] + more.requests;
  }

  // ---------- What a client sends ----------

  function MessageOf(r: Request): Message {
    match r
    case Write(header, _) => WriteReq(header)
    case Read(header) => ReadReq(header)
  }

  function Sent(codec: Codec, r: Request): Stream {
    WriteFrame(codec.write(MessageOf(r))) + (if r.Write? then r.payload else [])
  }

  function SentAll(codec: Codec, rs: seq<Request>): Stream {
    if rs == [] then [] else Sent(codec, rs[0]) + SentAll(codec, rs[1..])
  }

  // A frame within the limit, and a payload of the announced size.
  ghost predicate Proper(codec: Codec, r: Request) {
    |codec.write(MessageOf(r))| <= MAX_FRAME_SIZE && (r.Write? ==> |r.payload| == r.write.payloadSize)
  }

  ghost predicate AllProper(codec: Codec, rs: seq<Request>) {
    forall r | r in rs :: Proper(codec, r)
  }

  lemma ParsesFirst(codec: Codec, r: Request, rest: Stream)
    requires Lossless(codec) && Proper(codec, r)
    ensures var more := Parse(codec, rest);
            Parse(codec, Sent(codec, r) + rest) == Handled([r] + more.requests, more.ending)
  {
    var frame := codec.write(MessageOf(r));
    var payload := if r.Write? then r.payload else [];
    var s := Sent(codec, r) + rest;
    assert s == WriteFrame(frame) + (payload + rest);
    FrameRoundTripIff(frame, payload + rest);
    assert codec.parse(frame) == Some(MessageOf(r));
    if r.Write? {
      assert (payload + rest)[..r.write.payloadSize] == payload;
      assert (payload + rest)[r.write.payloadSize..] == rest;
    } else {
      assert payload + rest == rest;
    }
  }

  // A request cut short anywhere is not handled.
  lemma CutShortIsDropped(codec: Codec, r: Request, n: nat)
    requires Lossless(codec) && Proper(codec, r) && n < |Sent(codec, r)|
    ensures Parse(codec, Sent(codec, r)[..n]).requests == []
    ensures Parse(codec, Sent(codec, r)[..n]).ending in {Disconnected, PayloadCutShort}
  {
    var frame := codec.write(MessageOf(r));
    var written := WriteFrame(frame);
    if n < |written| {
      assert Sent(codec, r)[..n] == written[..n];
      FrameCutShort(frame, n);
    } else {
      var part := r.payload[..n - |written|];
      assert Sent(codec, r)[..n] == written + part;
      FrameRoundTripIff(frame, part);
      assert codec.parse(frame) == Some(MessageOf(r));
    }
  }

  lemma {:induction false} StreamRoundTrip(codec: Codec, rs: seq<Request>)
    requires Lossless(codec) && AllProper(codec, rs)
    ensures Parse(codec, SentAll(codec, rs)) == Handled(rs, Disconnected)
    decreases |rs|
  {
    if rs != [] {
      StreamRoundTrip(codec, rs[1..]);
      ParsesFirst(codec, rs[0], SentAll(codec, rs[1..]));
      assert [rs[0]] + rs[1..] == rs;
    }
  }

  // The requests are the first k of rs, where k is how many arrived whole in n bytes.
  ghost predicate WholeOnes(codec: Codec, rs: seq<Request>, n: nat, requests: seq<Request>) {
    var k := |requests|;
    && requests <= rs
    && |SentAll(codec, rs[..k])| <= n
    && (k < |rs| ==> n < |SentAll(codec, rs[..k + 1])|)
  }

  lemma SentFirstAndRest(codec: Codec, rs: seq<Request>, k: nat)
    requires 1 <= k <= |rs|
    ensures |SentAll(codec, rs[..k])| == |Sent(codec, rs[0])| + |SentAll(codec, rs[1..][..k - 1])|
  {
    assert rs[..k][1..] == rs[1..][..k - 1];
  }

  lemma OneMoreWhole(codec: Codec, rs: seq<Request>, n: nat, requests: seq<Request>)
    requires rs != [] && n >= |Sent(codec, rs[0])|
    requires WholeOnes(codec, rs[1..], n - |Sent(codec, rs[0])|, requests)
    ensures WholeOnes(codec, rs, n, [rs[0]] + requests)
  {
    var k := |requests|;
    SentFirstAndRest(codec, rs, k + 1);
    if k + 1 < |rs| {
      SentFirstAndRest(codec, rs, k + 2);
    }
  }

  // From a stream cut at any byte, exactly the requests that arrived whole are
  // handled, in order.
  lemma {:induction false} TruncatedStream(codec: Codec, rs: seq<Request>, n: nat)
    requires Lossless(codec) && AllProper(codec, rs) && n <= |SentAll(codec, rs)|
    ensures var h := Parse(codec, SentAll(codec, rs)[..n]);
            WholeOnes(codec, rs, n, h.requests) && h.ending in {Disconnected, PayloadCutShort}
    decreases |rs|
  {
    if rs == [] {
      assert SentAll(codec, rs)[..n] == [];
    } else {
      var first, rest := Sent(codec, rs[0]), SentAll(codec, rs[1..]);
      if n < |first| {
        assert SentAll(codec, rs)[..n] == first[..n];
        CutShortIsDropped(codec, rs[0], n);
        SentFirstAndRest(codec, rs, 1);
      } else {
        assert SentAll(codec, rs)[..n] == first + rest[..n - |first|];
        ParsesFirst(codec, rs[0], rest[..n - |first|]);
        TruncatedStream(codec, rs[1..], n - |first|);
        OneMoreWhole(codec, rs, n, Parse(codec, rest[..n - |first|]).requests);
      }
    }
  }

  lemma SentFirstThenRest(codec: Codec, rs: seq<Request>, rest: Stream)
    requires rs != []
    ensures SentAll(codec, rs) + rest == Sent(codec, rs[0]) + (SentAll(codec, rs[1..]) + rest)
  {
  }

  lemma ContinueFront(rs: seq<Request>, tail: Handled)
    requires rs != []
    ensures var more := Continued(rs[1..], tail);
            Handled([rs[0]] + more.requests, more.ending) == Continued(rs, tail)
  {
    assert [rs[0]] + (rs[1..] + tail.requests) == rs + tail.requests;
  }

  lemma {:induction false} ParsesAllThenRest(codec: Codec, rs: seq<Request>, rest: Stream, tail: Handled)
    requires Lossless(codec) && AllProper(codec, rs) && Parse(codec, rest) == tail
    ensures Parse(codec, SentAll(codec, rs) + rest) == Continued(rs, tail)
    decreases |rs|
  {
    if rs == [] {
      assert SentAll(codec, rs) + rest == rest;
    } else {
      ParsesAllThenRest(codec, rs[1..], rest, tail);
      SentFirstThenRest(codec, rs, rest);
      ParsesFirst(codec, rs[0], SentAll(codec, rs[1..]) + rest);
      ContinueFront(rs, tail);
    }
  }

  // Which frames stop the loop: one that is too long, by its length; bytes that do
  // not parse; a message of another kind; a write whose payload does not arrive.
  lemma BadFrames(codec: Codec, frame: Stream, rest: Stream)
    ensures MAX_FRAME_SIZE < |frame| < U32 ==>
            TakeOne(codec, WriteFrame(frame) + rest) == Stopped(FrameTooLarge(|frame|))
    ensures |frame| <= MAX_FRAME_SIZE ==>
            var t := TakeOne(codec, WriteFrame(frame) + rest);
            match codec.parse(frame)
            case None => t == Stopped(BadMessage)
            case Some(OtherMessage(_)) => t == Stopped(UnexpectedMessage)
            case Some(WriteReq(header)) => t == Stopped(PayloadCutShort) <==> |rest| < header.payloadSize
            case Some(ReadReq(_)) => t.Took?
  {
    FrameHeader(frame, rest);
    FrameRoundTripIff(frame, rest);
  }

  // Whatever proper requests came before, the loop stops there, having handled
  // exactly those.
  lemma StopsAtFirstBad(codec: Codec, rs: seq<Request>, rest: Stream, ending: Ending)
    requires Lossless(codec) && AllProper(codec, rs) && TakeOne(codec, rest) == Stopped(ending)
    ensures Parse(codec, SentAll(codec, rs) + rest) == Handled(rs, ending)
  {
    ParsesAllThenRest(codec, rs, rest, Handled([], ending));
    assert rs + [] == rs;
  }

  // The stream determines the requests: no two sequences are sent alike.
  lemma UniquelyParsable(codec: Codec, rs: seq<Request>, qs: seq<Request>)
    requires Lossless(codec) && AllProper(codec, rs) && AllProper(codec, qs)
    requires SentAll(codec, rs) == SentAll(codec, qs)
    ensures rs == qs
  {
    StreamRoundTrip(codec, rs);
    StreamRoundTrip(codec, qs);
  }

  // ---------- A lossless codec exists ----------

  function Unary(n: nat): Stream {
    if n == 0 then [0] else [1] + Unary(n - 1)
  }

  function CountOnes(s: Stream): nat {
    if s == [] || s[0] != 1 then 0 else 1 + CountOnes(s[1..])
  }

  function UnaryWrite(m: Message): Stream {
    match m
    case WriteReq(h) => [0] + Unary(h.fields) + Unary(h.payloadSize)
    case ReadReq(h) => [1] + Unary(h.fields)
    case OtherMessage(tag) => [2] + Unary(tag)
  }

  function UnaryParse(s: Stream): Option<Message> {
    if s == [] then None
    else
      var first := CountOnes(s[1..]);
      if s[0] == 0 then
        if |s| < first + 2 then None else Some(WriteReq(WriteHeader(first, CountOnes(s[first + 2..]))))
      else if s[0] == 1 then Some(ReadReq(ReadHeader(first)))
      else Some(OtherMessage(first))
  }

  lemma {:induction false} UnaryCounts(n: nat, rest: Stream)
    ensures |Unary(n)| == n + 1 && CountOnes(Unary(n) + rest) == n
  {
    if n > 0 {
      UnaryCounts(n - 1, rest);
      assert (Unary(n) + rest)[1..] == Unary(n - 1) + rest;
    }
  }

  // So the hypothesis on the JSON library can be met.
  lemma UnaryIsLossless()
    ensures Lossless(Codec(UnaryWrite, UnaryParse))
  {
    forall m ensures UnaryParse(UnaryWrite(m)) == Some(m) {
      match m
      case WriteReq(h) =>
        var s := UnaryWrite(m);
        UnaryCounts(h.fields, Unary(h.payloadSize));
        UnaryCounts(h.payloadSize, []);
        assert s[1..] == Unary(h.fields) + Unary(h.payloadSize);
        assert s[h.fields + 2..] == Unary(h.payloadSize) == Unary(h.payloadSize) + [];
      case ReadReq(h) =>
        UnaryCounts(h.fields, []);
        assert UnaryWrite(m)[1..] == Unary(h.fields) + [];
      case OtherMessage(tag) =>
        UnaryCounts(tag, []);
        assert UnaryWrite(m)[1..] == Unary(tag) + [];
    }
  }
}
