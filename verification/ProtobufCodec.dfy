/**
  The length-prefixed protobuf codec.  The message type, its serializer and parser and
  the checksum are parameters: the framing around them is what is modelled.
*/
module ProtobufCodecs {

  import opened Buffers

  const HEADER_LEN := 4
  const CHECKSUM_LEN := 4
  const MAX_MESSAGE_LEN := 64 * 1024 * 1024

  type Int32 = x: int | -0x8000_0000 <= x < 0x8000_0000

  datatype ErrorCode = InvalidLength | CheckSumError | UnknownMessageType | ParseError

  datatype Format<!Message> = Format(
    tag: Bytes, serialize: Message -> Bytes, parse: Bytes -> Option<Message>,
    checksum: Bytes -> Int32, rawCb: Option<Bytes -> bool>)
  {
    function MinMessageLen(): nat {
      |tag| + CHECKSUM_LEN
    }
  }

  lemma FitsInt32(x: Int32)
    ensures Fits(x, 4) && Pow256(4) == 0x1_0000_0000
  {
    assert Pow256(3) == 256 * (256 * (256 * Pow256(0)));
  }

  // ----- the frames -----

  /** Bytes with their checksum behind them. */
  function Sealed<Message>(f: Format<Message>, covered: Bytes): Bytes {
    covered + EncodeInt(f.checksum(covered), CHECKSUM_LEN)
  }

  /** Tag, payload and the checksum of both. */
  function Body<Message>(f: Format<Message>, m: Message): Bytes {
    Sealed(f, f.tag + f.serialize(m))
  }

  function Frame<Message>(f: Format<Message>, m: Message): Bytes {
    EncodeInt(|Body(f, m)|, HEADER_LEN) + Body(f, m)
  }

  function Frames<Message>(f: Format<Message>, ms: seq<Message>): Bytes {
    if ms == [] then [] else Frame(f, ms[0]) + Frames(f, ms[1..])
  }

  // ----- reading them -----

  datatype Parsed<Message> = Good(message: Message) | Bad(code: ErrorCode)

  predicate ValidChecksum<Message>(f: Format<Message>, body: Bytes)
    requires |body| >= CHECKSUM_LEN
  {
    var n := |body| - CHECKSUM_LEN;
    DecodeInt(body[n..]) == f.checksum(body[..n])
  }

  function Parse<Message>(f: Format<Message>, body: Bytes): Parsed<Message>
    requires |body| >= f.MinMessageLen()
  {
    if !ValidChecksum(f, body) then Bad(CheckSumError)
    else if body[..|f.tag|] != f.tag then Bad(UnknownMessageType)
    else match f.parse(body[|f.tag|..|body| - CHECKSUM_LEN])
         case Some(m) => Good(m)
         case None => Bad(ParseError)
  }

  /** What the bytes at hand call for: wait for more, give up, or consume a frame with or without a message. */
  datatype Verdict<Message> = Wait | GiveUp(code: ErrorCode) | Skip(n: nat) | Deliver(n: nat, message: Message)

  function Judge<Message>(f: Format<Message>, bytes: Bytes): (v: Verdict<Message>)
    ensures v.Skip? || v.Deliver? ==> HEADER_LEN <= v.n <= |bytes|
  {
    if |bytes| < f.MinMessageLen() + HEADER_LEN then Wait
    else
      var len := DecodeInt(bytes[..HEADER_LEN]);
      if len > MAX_MESSAGE_LEN || len < f.MinMessageLen() then GiveUp(InvalidLength)
      else if |bytes| < HEADER_LEN + len then Wait
      else if f.rawCb.Some? && !f.rawCb.value(bytes[..HEADER_LEN + len]) then Skip(HEADER_LEN + len)
      else match Parse(f, bytes[HEADER_LEN..HEADER_LEN + len])
           case Good(m) => Deliver(HEADER_LEN + len, m)
           case Bad(code) => GiveUp(code)
  }

  datatype Result<Message> = Result(messages: seq<Message>, error: Option<ErrorCode>, leftover: Bytes)

  /** One call of onMessage on a buffer holding these bytes. */
  function Receive<Message>(f: Format<Message>, bytes: Bytes): Result<Message>
    decreases |bytes|
  {
    match Judge(f, bytes)
    case Wait => Result([], None, bytes)
    case GiveUp(code) => Result([], Some(code), bytes)
    case Skip(n) => Receive(f, bytes[n..])
    case Deliver(n, m) =>
      var r := Receive(f, bytes[n..]);
      r.(messages := [m] + r.messages)
  }

  /** Calls of onMessage as the chunks of a stream arrive; a failing one leaves the bytes where they are. */
  datatype Session<Message> = Session(messages: seq<Message>, errors: seq<ErrorCode>, leftover: Bytes)

  function Feed<Message>(f: Format<Message>, held: Bytes, chunks: seq<Bytes>): Session<Message>
    decreases |chunks|
  {
    if chunks == [] then Session([], [], held)
    else
      var r := Receive(f, held + chunks[0]);
      var rest := Feed(f, r.leftover, chunks[1..]);
      Session(r.messages + rest.messages, (if r.error.Some? then [r.error.value] else []) + rest.errors, rest.leftover)
  }

  // ----- the split of the stream does not matter -----

  lemma JudgeStable<Message>(f: Format<Message>, b: Bytes, c: Bytes)
    requires !Judge(f, b).Wait?
    ensures Judge(f, b + c) == Judge(f, b)
  {
    hide DecodeInt, Parse;
    assert (b + c)[..HEADER_LEN] == b[..HEADER_LEN];
    var len := DecodeInt(b[..HEADER_LEN]);
    if f.MinMessageLen() <= len <= MAX_MESSAGE_LEN {
      assert (b + c)[..HEADER_LEN + len] == b[..HEADER_LEN + len];
      assert (b + c)[HEADER_LEN..HEADER_LEN + len] == b[HEADER_LEN..HEADER_LEN + len];
    }
  }

  /** Handing over b and then c does what handing over both at once does. */
  lemma {:induction false} ReceiveConcat<Message>(f: Format<Message>, b: Bytes, c: Bytes)
    ensures var r, both := Receive(f, b), Receive(f, b + c);
      if r.error.Some? then both == r.(leftover := r.leftover + c)
      else var s := Receive(f, r.leftover + c); both == s.(messages := r.messages + s.messages)
    decreases |b|
  {
    hide Judge;
    var v := Judge(f, b);
    if !v.Wait? {
      JudgeStable(f, b, c);
    }
    if v.Skip? || v.Deliver? {
      assert v.n <= |b| && HEADER_LEN <= v.n;
      assert (b + c)[v.n..] == b[v.n..] + c;
      ReceiveConcat(f, b[v.n..], c);
    }
  }

  /** What is left over calls for nothing but waiting, or for the same error again. */
  lemma {:induction false} LeftoverIsIdle<Message>(f: Format<Message>, b: Bytes)
    ensures var r := Receive(f, b); Receive(f, r.leftover) == Result([], r.error, r.leftover)
    decreases |b|
  {
    hide Judge;
    var v := Judge(f, b);
    if v.Skip? || v.Deliver? {
      LeftoverIsIdle(f, b[v.n..]);
    }
  }

  /**
    For arbitrary bytes in any chunking, the messages delivered, what is left over and
    whether and how reading fails depend only on the concatenation.
  */
  lemma {:induction false} ChunkingIsInvisible<Message>(f: Format<Message>, held: Bytes, chunks: seq<Bytes>)
    requires Receive(f, held).messages == [] && Receive(f, held).leftover == held
    ensures var s, r := Feed(f, held, chunks), Receive(f, held + Concat(chunks));
      && s.messages == r.messages && s.leftover == r.leftover
      && (r.error.None? ==> s.errors == []) && (r.error.Some? && chunks != [] ==> s.errors != [])
      && (forall e :: e in s.errors ==> r.error == Some(e))
    decreases |chunks|
  {
    hide Receive;
    if chunks == [] {
      assert held + [] == held;
    } else {
      var b, c := held + chunks[0], Concat(chunks[1..]);
      var r := Receive(f, b);
      assert held + Concat(chunks) == b + c;
      LeftoverIsIdle(f, b);
      ChunkingIsInvisible(f, r.leftover, chunks[1..]);
      ReceiveConcat(f, b, c);
      ReceiveConcat(f, r.leftover, c);
      assert c == [] ==> r.leftover + c == r.leftover;
    }
  }

  /** An error is reported again at every later call, because the frame stays in front. */
  lemma {:induction false} ErrorRepeats<Message>(f: Format<Message>, held: Bytes, chunks: seq<Bytes>)
    requires Receive(f, held).error.Some?
    ensures var r := Receive(f, held); var s := Feed(f, r.leftover, chunks);
      |s.errors| == |chunks| && forall e :: e in s.errors ==> e == r.error.value
    decreases |chunks|
  {
    if chunks != [] {
      hide Receive;
      var r := Receive(f, held);
      LeftoverIsIdle(f, held);
      ReceiveConcat(f, r.leftover, chunks[0]);
      ErrorRepeats(f, r.leftover + chunks[0], chunks[1..]);
    }
  }

  // ----- what is written is what is read -----

  /** The serializer, the parser and the raw callback are not in the way. */
  ghost predicate RoundTrips<Message(!new)>(f: Format<Message>) {
    forall m :: f.parse(f.serialize(m)) == Some(m)
  }

  predicate Accepted<Message>(f: Format<Message>, m: Message) {
    f.rawCb.Some? ==> f.rawCb.value(Frame(f, m))
  }

  function Filtered<Message>(f: Format<Message>, ms: seq<Message>): seq<Message> {
    if ms == [] then [] else (if Accepted(f, ms[0]) then [ms[0]] else []) + Filtered(f, ms[1..])
  }

  lemma ParseBody<Message(!new)>(f: Format<Message>, m: Message)
    requires RoundTrips(f)
    ensures Parse(f, Body(f, m)) == Good(m)
  {
    hide EncodeInt, DecodeInt;
    var covered := f.tag + f.serialize(m);
    var body := Body(f, m);
    FitsInt32(f.checksum(covered));
    IntRoundTrip(f.checksum(covered), CHECKSUM_LEN);
    assert body[|covered|..] == EncodeInt(f.checksum(covered), CHECKSUM_LEN);
    assert body[..|covered|] == covered;
    assert body[..|f.tag|] == f.tag;
    assert body[|f.tag|..|covered|] == f.serialize(m);
  }

  /** A frame is read back as its message exactly when it is within the size limit. */
  lemma JudgeFrame<Message(!new)>(f: Format<Message>, m: Message, rest: Bytes)
    requires RoundTrips(f) && |Body(f, m)| < 0x8000_0000
    ensures var n := |Frame(f, m)|;
      Judge(f, Frame(f, m) + rest) ==
        if |Body(f, m)| > MAX_MESSAGE_LEN then GiveUp(InvalidLength)
        else if Accepted(f, m) then Deliver(n, m) else Skip(n)
  {
    hide EncodeInt, DecodeInt, Parse;
    var body := Body(f, m);
    var bytes := Frame(f, m) + rest;
    FitsInt32(|body|);
    IntRoundTrip(|body|, HEADER_LEN);
    assert bytes[..HEADER_LEN] == EncodeInt(|body|, HEADER_LEN);
    assert bytes[..HEADER_LEN + |body|] == Frame(f, m);
    assert bytes[HEADER_LEN..HEADER_LEN + |body|] == body;
    ParseBody(f, m);
  }

  lemma ReceiveNothing<Message>(f: Format<Message>)
    ensures Receive(f, []) == Result([], None, [])
  {
  }

  lemma {:induction false} ReceiveFrames<Message(!new)>(f: Format<Message>, ms: seq<Message>)
    requires RoundTrips(f) && forall m :: m in ms ==> |Body(f, m)| <= MAX_MESSAGE_LEN
    ensures Receive(f, Frames(f, ms)) == Result(Filtered(f, ms), None, [])
    decreases |ms|
  {
    if ms != [] {
      hide Frame, Body, Judge;
      var rest := Frames(f, ms[1..]);
      JudgeFrame(f, ms[0], rest);
      ReceiveFrames(f, ms[1..]);
      assert (Frame(f, ms[0]) + rest)[|Frame(f, ms[0])|..] == rest;
    }
  }

  /**
    Messages within the limit, written one after the other and delivered in any chunks, arrive: all
    of them, once, in order.
  */
  lemma RoundTrip<Message(!new)>(f: Format<Message>, ms: seq<Message>, chunks: seq<Bytes>)
    requires RoundTrips(f) && (forall m :: m in ms ==> |Body(f, m)| <= MAX_MESSAGE_LEN)
    requires Concat(chunks) == Frames(f, ms)
    ensures Feed(f, [], chunks) == Session(Filtered(f, ms), [], [])
    ensures f.rawCb.None? ==> Filtered(f, ms) == ms
  {
    hide Receive, Feed, Frames;
    ReceiveFrames(f, ms);
    ReceiveNothing(f);
    ChunkingIsInvisible(f, [], chunks);
    assert [] + Concat(chunks) == Frames(f, ms);
    if f.rawCb.None? {
      FilteredAll(f, ms);
    }
  }

  lemma {:induction false} FilteredAll<Message>(f: Format<Message>, ms: seq<Message>)
    requires f.rawCb.None?
    ensures Filtered(f, ms) == ms
    decreases |ms|
  {
    if ms != [] {
      FilteredAll(f, ms[1..]);
    }
  }

  /** The limit is exact: a longer message is written without complaint and stops the reader for good. */
  lemma TooLongIsRefused<Message(!new)>(f: Format<Message>, m: Message, rest: Bytes)
    requires RoundTrips(f) && |Body(f, m)| < 0x8000_0000 && Accepted(f, m)
    ensures var r := Receive(f, Frame(f, m) + rest);
      && (|Body(f, m)| <= MAX_MESSAGE_LEN <==> r.messages != [] && r.messages[0] == m)
      && (|Body(f, m)| > MAX_MESSAGE_LEN ==> r == Result([], Some(InvalidLength), Frame(f, m) + rest))
  {
    hide Frame, Body;
    JudgeFrame(f, m, rest);
  }

  /** A frame whose checksum does not match is never delivered, and nothing after it is. */
  lemma CorruptNeverDelivered<Message>(f: Format<Message>, body: Bytes, rest: Bytes)
    requires f.MinMessageLen() <= |body| <= MAX_MESSAGE_LEN && !ValidChecksum(f, body)
    requires f.rawCb.Some? ==> f.rawCb.value(EncodeInt(|body|, HEADER_LEN) + body)
    ensures var bytes := EncodeInt(|body|, HEADER_LEN) + body + rest;
      Receive(f, bytes) == Result([], Some(CheckSumError), bytes)
  {
    hide EncodeInt, DecodeInt, ValidChecksum;
    var bytes := EncodeInt(|body|, HEADER_LEN) + body + rest;
    FitsInt32(|body|);
    IntRoundTrip(|body|, HEADER_LEN);
    assert bytes[..HEADER_LEN] == EncodeInt(|body|, HEADER_LEN);
    assert bytes[HEADER_LEN..HEADER_LEN + |body|] == body;
    assert bytes[..HEADER_LEN + |body|] == EncodeInt(|body|, HEADER_LEN) + body;
  }

  // ----- what is read was written -----

  lemma SealedIff<Message>(f: Format<Message>, body: Bytes, covered: Bytes)
    requires |body| >= CHECKSUM_LEN
    ensures body == Sealed(f, covered) <==> covered == body[..|body| - CHECKSUM_LEN] && ValidChecksum(f, body)
  {
    hide EncodeInt, DecodeInt;
    var n := |body| - CHECKSUM_LEN;
    FitsInt32(f.checksum(body[..n]));
    IntRoundTrip(f.checksum(body[..n]), CHECKSUM_LEN);
    IntInverse(body[n..]);
    assert body[..n] + body[n..] == body;
    if body == Sealed(f, covered) {
      assert |covered| == n && body[..n] == covered && body[n..] == EncodeInt(f.checksum(covered), CHECKSUM_LEN);
    }
  }

  /** Which bodies are read as which message, and which are refused for what. */
  lemma ParseExact<Message(!new)>(f: Format<Message>, body: Bytes)
    requires |body| >= f.MinMessageLen()
    ensures forall m :: Parse(f, body) == Good(m) <==>
      exists payload :: body == Sealed(f, f.tag + payload) && f.parse(payload) == Some(m)
    ensures Parse(f, body) == Bad(CheckSumError) <==> forall covered :: body != Sealed(f, covered)
    ensures Parse(f, body) == Bad(UnknownMessageType) <==>
      exists covered :: body == Sealed(f, covered) && !(f.tag <= covered)
    ensures Parse(f, body) == Bad(ParseError) <==>
      exists payload :: body == Sealed(f, f.tag + payload) && f.parse(payload) == None
  {
    hide ValidChecksum, Sealed;
    var n := |body| - CHECKSUM_LEN;
    var covered, rest := body[..n], body[|f.tag|..n];
    forall c ensures body == Sealed(f, c) <==> c == covered && ValidChecksum(f, body) {
      SealedIff(f, body, c);
    }
    assert covered == body[..|f.tag|] + rest;
    assert body[..|f.tag|] == f.tag <==> f.tag <= covered;
    forall payload | body == Sealed(f, f.tag + payload) ensures payload == rest && f.tag <= covered {
      assert f.tag + payload == covered;
      assert payload == (f.tag + payload)[|f.tag|..];
    }
    assert body == Sealed(f, covered) <==> ValidChecksum(f, body);
    if f.tag <= covered {
      assert covered == f.tag + rest;
      assert body == Sealed(f, f.tag + rest) <==> ValidChecksum(f, body);
    }
  }

  /** The first n of these bytes are a frame around this payload, its body at most 64 MB. */
  ghost predicate IsFrame<Message>(f: Format<Message>, bytes: Bytes, n: nat, payload: Bytes) {
    && n <= |bytes| && |f.tag| + 8 <= n <= 67108868
    && bytes[..n] == EncodeInt(n - 4, 4) + (f.tag + payload + EncodeInt(f.checksum(f.tag + payload), 4))
  }

  /** No other bytes are ever delivered: a message is what its frame holds, and the raw callback let it through. */
  lemma DeliveredIff<Message(!new)>(f: Format<Message>, bytes: Bytes, n: nat, m: Message)
    ensures Judge(f, bytes) == Deliver(n, m) <==>
      && n <= |bytes| && (f.rawCb.Some? ==> f.rawCb.value(bytes[..n]))
      && exists payload :: IsFrame(f, bytes, n, payload) && f.parse(payload) == Some(m)
  {
    hide Parse, EncodeInt, DecodeInt;
    if |bytes| >= HEADER_LEN {
      var head := bytes[..HEADER_LEN];
      var len := DecodeInt(head);
      IntInverse(head);
      if f.MinMessageLen() <= len && HEADER_LEN + len <= |bytes| {
        var body := bytes[HEADER_LEN..HEADER_LEN + len];
        assert bytes[..HEADER_LEN + len] == EncodeInt(len, HEADER_LEN) + body;
        ParseExact(f, body);
      }
      forall payload | IsFrame(f, bytes, n, payload)
        ensures len == n - HEADER_LEN && bytes[HEADER_LEN..n] == Sealed(f, f.tag + payload)
      {
        assert bytes[..n][..HEADER_LEN] == head && bytes[..n][HEADER_LEN..] == bytes[HEADER_LEN..n];
        FitsInt32(n - HEADER_LEN);
        IntRoundTrip(n - HEADER_LEN, HEADER_LEN);
      }
    }
  }

  /** Every other verdict, by the length in front: when to wait, what is refused, what is passed over. */
  lemma VerdictByLength<Message>(f: Format<Message>, len: Int32, rest: Bytes)
    ensures var v := Judge(f, EncodeInt(len, 4) + rest);
      if |rest| < |f.tag| + 4 then v == Wait
      else if len < |f.tag| + 4 || len > 67108864 then v == GiveUp(InvalidLength)
      else if |rest| < len then v == Wait
      else if f.rawCb.Some? && !f.rawCb.value(EncodeInt(len, 4) + rest[..len]) then v == Skip(4 + len)
      else match Parse(f, rest[..len]) case Good(m) => v == Deliver(4 + len, m) case Bad(code) => v == GiveUp(code)
  {
    hide Parse, EncodeInt, DecodeInt;
    var bytes := EncodeInt(len, 4) + rest;
    FitsInt32(len);
    IntRoundTrip(len, 4);
    assert bytes[..4] == EncodeInt(len, 4);
    if 0 <= len <= |rest| {
      assert bytes[4..4 + len] == rest[..len];
      assert bytes[..4 + len] == EncodeInt(len, 4) + rest[..len];
    }
  }

  /** A frame taken off the stream, with its message unless the raw callback kept it. */
  datatype Taken<Message> = Taken(frame: Bytes, message: Option<Message>)

  ghost predicate IsTaken<Message(!new)>(f: Format<Message>, t: Taken<Message>) {
    match t.message
    case None => f.rawCb.Some? && !f.rawCb.value(t.frame)
    case Some(m) => exists payload :: IsFrame(f, t.frame, |t.frame|, payload) && f.parse(payload) == Some(m)
  }

  function Stream<Message>(ts: seq<Taken<Message>>): Bytes {
    if ts == [] then [] else ts[0].frame + Stream(ts[1..])
  }

  function Delivered<Message>(ts: seq<Taken<Message>>): seq<Message> {
    if ts == [] then []
    else (match ts[0].message case Some(m) => [m] case None => []) + Delivered(ts[1..])
  }

  /**
    For arbitrary bytes: they are whole frames and then what is left; exactly the messages of
    those frames that the raw callback let through were delivered, in order.
  */
  lemma {:induction false} ReceivedWasSent<Message(!new)>(f: Format<Message>, bytes: Bytes)
      returns (ts: seq<Taken<Message>>)
    ensures var r := Receive(f, bytes);
      && bytes == Stream(ts) + r.leftover && r.messages == Delivered(ts)
      && forall t :: t in ts ==> IsTaken(f, t)
    decreases |bytes|
  {
    hide Judge, IsTaken, Stream, Delivered;
    var v := Judge(f, bytes);
    NoneTaken<Message>();
    ts := [];
    if v.Skip? || v.Deliver? {
      var rest := ReceivedWasSent(f, bytes[v.n..]);
      var t := Taken(bytes[..v.n], if v.Deliver? then Some(v.message) else None);
      OneTaken(f, bytes);
      StreamStep(t, rest, Receive(f, bytes[v.n..]).leftover);
      ts := [t] + rest;
      assert bytes == bytes[..v.n] + bytes[v.n..];
    }
  }

  lemma NoneTaken<Message>()
    ensures Stream<Message>([]) == [] && Delivered<Message>([]) == []
  {
  }

  lemma StreamStep<Message>(t: Taken<Message>, rest: seq<Taken<Message>>, leftover: Bytes)
    ensures Stream([t] + rest) + leftover == t.frame + (Stream(rest) + leftover)
    ensures Delivered([t] + rest) == if t.message.Some? then [t.message.value] + Delivered(rest) else Delivered(rest)
  {
    assert ([t] + rest)[1..] == rest;
  }

  lemma OneTaken<Message(!new)>(f: Format<Message>, bytes: Bytes)
    ensures var v := Judge(f, bytes);
      v.Skip? || v.Deliver? ==> IsTaken(f, Taken(bytes[..v.n], if v.Deliver? then Some(v.message) else None))
  {
    hide Parse, Sealed, EncodeInt, DecodeInt;
    var v := Judge(f, bytes);
    if v.Deliver? {
      DeliveredIff(f, bytes, v.n, v.message);
      var payload :| IsFrame(f, bytes, v.n, payload) && f.parse(payload) == Some(v.message);
      assert bytes[..v.n][..v.n] == bytes[..v.n];
      assert IsFrame(f, bytes[..v.n], v.n, payload);
    }
  }

  // ----- the codec over a Buffer -----

  /** What is still to come of a call, once some messages are delivered and these bytes are left. */
  ghost predicate Remains<Message>(f: Format<Message>, whole: Result<Message>, messages: seq<Message>, bytes: Bytes) {
    var r := Receive(f, bytes);
    whole == r.(messages := messages + r.messages)
  }

  lemma Begin<Message>(f: Format<Message>, bytes: Bytes)
    ensures Remains(f, Receive(f, bytes), [], bytes)
  {
    hide Receive;
    var r := Receive(f, bytes);
    assert [] + r.messages == r.messages;
  }

  /** One round of the loop. */
  lemma Round<Message>(f: Format<Message>, whole: Result<Message>, messages: seq<Message>, bytes: Bytes)
    requires Remains(f, whole, messages, bytes)
    ensures var v := Judge(f, bytes);
      && (v.Wait? ==> whole == Result(messages, None, bytes))
      && (v.GiveUp? ==> whole == Result(messages, Some(v.code), bytes))
      && (v.Skip? ==> Remains(f, whole, messages, bytes[v.n..]))
      && (v.Deliver? ==> Remains(f, whole, messages + [v.message], bytes[v.n..]))
  {
    hide Judge;
    var v := Judge(f, bytes);
    assert messages + [] == messages;
    if v.Deliver? {
      var s := Receive(f, bytes[v.n..]).messages;
      assert messages + ([v.message] + s) == messages + [v.message] + s;
    }
  }

  /** What is still to come of a session, once some of it is over. */
  ghost predicate SessionRemains<Message>(f: Format<Message>, whole: Session<Message>, messages: seq<Message>,
                                          errors: seq<ErrorCode>, held: Bytes, rest: seq<Bytes>) {
    var s := Feed(f, held, rest);
    whole == Session(messages + s.messages, errors + s.errors, s.leftover)
  }

  lemma SessionBegin<Message>(f: Format<Message>, held: Bytes, chunks: seq<Bytes>)
    ensures SessionRemains(f, Feed(f, held, chunks), [], [], held, chunks)
  {
    hide Feed;
    var s := Feed(f, held, chunks);
    assert [] + s.messages == s.messages && [] + s.errors == s.errors;
  }

  lemma SessionStep<Message>(f: Format<Message>, whole: Session<Message>, messages: seq<Message>,
                             errors: seq<ErrorCode>, held: Bytes, rest: seq<Bytes>)
    requires SessionRemains(f, whole, messages, errors, held, rest)
    ensures rest == [] ==> whole == Session(messages, errors, held)
    ensures rest != [] ==> var r := Receive(f, held + rest[0]);
      SessionRemains(f, whole, messages + r.messages, errors + (if r.error.Some? then [r.error.value] else []),
        r.leftover, rest[1..])
  {
    hide Receive;
    if rest == [] {
      assert messages + [] == messages && errors + [] == errors;
    } else {
      var r := Receive(f, held + rest[0]);
      var s := Feed(f, r.leftover, rest[1..]);
      var e := if r.error.Some? then [r.error.value] else [];
      assert messages + (r.messages + s.messages) == messages + r.messages + s.messages;
      assert errors + (e + s.errors) == errors + e + s.errors;
    }
  }

  class ProtobufCodecLite<!Message> {
    const format: Format<Message>

    constructor (format: Format<Message>)
      ensures this.format == format
    {
      this.format := format;
    }

    /** The whole frame, its length put in front at the end, in the gap. */
    method FillEmptyBuffer(buf: Buffer, message: Message)
      requires buf.Valid() && buf.Contents() == [] && buf.PrependableBytes() >= HEADER_LEN
      requires |Body(format, message)| < 0x8000_0000
      modifies buf, buf.buffer
      ensures buf.Valid() && buf.Contents() == Frame(format, message)
    {
      hide EncodeInt;
      buf.Append(format.tag);
      assert buf.Contents() == format.tag;
      var payload := format.serialize(message);
      buf.EnsureWritableBytes(|payload| + CHECKSUM_LEN);
      buf.Fill(payload);
      var checkSum := format.checksum(buf.Contents());
      FitsInt32(checkSum);
      buf.AppendInt(checkSum, CHECKSUM_LEN);
      assert buf.ReadableBytes() == |format.tag| + |payload| + CHECKSUM_LEN;
      FitsInt32(buf.ReadableBytes());
      buf.PrependInt(buf.ReadableBytes(), HEADER_LEN);
    }

    /** Consumes the frames that are complete; the messages are those handed to the callback, in order. */
    method OnMessage(buf: Buffer) returns (messages: seq<Message>, error: Option<ErrorCode>)
      requires buf.Valid()
      modifies buf`readerIndex, buf`writerIndex
      ensures buf.Valid() && Result(messages, error, buf.Contents()) == Receive(format, old(buf.Contents()))
    {
      hide Parse, EncodeInt, DecodeInt, Receive, Remains;
      messages, error := [], None;
      Begin(format, buf.Contents());
      ghost var whole := Receive(format, buf.Contents());
      while buf.ReadableBytes() >= format.MinMessageLen() + HEADER_LEN
        invariant buf.Valid() && Remains(format, whole, messages, buf.Contents())
        decreases buf.ReadableBytes()
      {
        var bytes := buf.Contents();
        Round(format, whole, messages, bytes);
        var len := buf.PeekInt(HEADER_LEN);
        if len > MAX_MESSAGE_LEN || len < format.MinMessageLen() {
          error := Some(InvalidLength);
          return;
        } else if buf.ReadableBytes() >= HEADER_LEN + len {
          if format.rawCb.Some? && !format.rawCb.value(bytes[..HEADER_LEN + len]) {
            buf.Retrieve(HEADER_LEN + len);
            continue;
          }
          match Parse(format, bytes[HEADER_LEN..HEADER_LEN + len]) {
            case Good(message) =>
              messages := messages + [message];
              buf.Retrieve(HEADER_LEN + len);
            case Bad(code) =>
              error := Some(code);
              return;
          }
        } else {
          return;
        }
      }
      Round(format, whole, messages, buf.Contents());
    }

    /**
      A connection's reads, each appended to its input buffer and handed on: the session the chunking
      theorems are about.
    */
    method OnReads(buf: Buffer, chunks: seq<Bytes>) returns (messages: seq<Message>, errors: seq<ErrorCode>)
      requires buf.Valid()
      modifies buf, buf.buffer
      ensures buf.Valid() && Session(messages, errors, buf.Contents()) == Feed(format, old(buf.Contents()), chunks)
    {
      hide Feed, Receive, SessionRemains;
      messages, errors := [], [];
      ghost var whole := Feed(format, buf.Contents(), chunks);
      SessionBegin(format, buf.Contents(), chunks);
      var i := 0;
      assert chunks[0..] == chunks;
      while i < |chunks|
        invariant 0 <= i <= |chunks| && buf.Valid() && (buf.buffer == old(buf.buffer) || fresh(buf.buffer))
        invariant SessionRemains(format, whole, messages, errors, buf.Contents(), chunks[i..])
      {
        SessionStep(format, whole, messages, errors, buf.Contents(), chunks[i..]);
        assert chunks[i..][0] == chunks[i] && chunks[i..][1..] == chunks[i + 1..];
        buf.Append(chunks[i]);
        var ms, error := OnMessage(buf);
        messages := messages + ms;
        errors := errors + if error.Some? then [error.value] else [];
        i := i + 1;
      }
      SessionStep(format, whole, messages, errors, buf.Contents(), chunks[i..]);
    }
  }
}
