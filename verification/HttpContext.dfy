/**
  The incremental HTTP request parser: Request-Line (section 5.1 of RFC 2616) and
  message headers (section 4.2 of RFC 2616), read line by line out of a Buffer.
*/
module HttpContexts {

  import opened Buffers

  const TAB: Byte := 9
  const SPACE: Byte := 32
  const COLON: Byte := 58
  const QUESTION: Byte := 63
  const CRLF: Bytes := [CR, LF]

  const GET: Bytes := [71, 69, 84]
  const POST: Bytes := [80, 79, 83, 84]
  const HEAD: Bytes := [72, 69, 65, 68]
  const PUT: Bytes := [80, 85, 84]
  const DELETE: Bytes := [68, 69, 76, 69, 84, 69]
  /** HTTP/1. */
  const HTTP1: Bytes := [72, 84, 84, 80, 47, 49, 46]
  const DIGIT0: Byte := 48
  const DIGIT1: Byte := 49

  datatype Method = InvalidMethod | Get | Post | Head | Put | Delete
  datatype Version = Unknown | Http10 | Http11

  /** The fields of a request, its receive time aside. */
  datatype Fields = Fields(httpMethod: Method, version: Version, path: Bytes, query: Bytes, headers: map<Bytes, Bytes>)

  const NO_FIELDS := Fields(InvalidMethod, Unknown, [], [], map[])

  // ----- pieces of a line -----

  /** std::find: where the first such byte is, the length if there is none. */
  function Find(s: Bytes, b: Byte): (i: nat)
    ensures i <= |s| && b !in s[..i] && (i < |s| ==> s[i] == b)
  {
    if s == [] then 0 else if s[0] == b then 0 else 1 + Find(s[1..], b)
  }

  lemma {:induction false} FindIs(s: Bytes, b: Byte, i: nat)
    requires i <= |s| && b !in s[..i] && (i < |s| ==> s[i] == b)
    ensures Find(s, b) == i
    decreases i
  {
    if i > 0 {
      assert s[..i][0] == s[0];
      assert s[1..][..i - 1] == s[..i][1..];
      FindIs(s[1..], b, i - 1);
    }
  }

  predicate IsSpace(b: Byte) {
    b == SPACE || TAB <= b <= CR
  }

  function MethodOf(m: Bytes): Method {
    if m == GET then Get
    else if m == POST then Post
    else if m == HEAD then Head
    else if m == PUT then Put
    else if m == DELETE then Delete
    else InvalidMethod
  }

  /** What isspace takes for a space in the C locale: space, \t, \n, \v, \f and \r. */
  const SPACES: set<Byte> := {32, 9, 10, 11, 12, 13}

  /** What is between the first and the last byte that is not a space. */
  ghost predicate IsTrimmed(s: Bytes, t: Bytes) {
    && (exists i, j :: 0 <= i <= j <= |s| && t == s[i..j]
          && (forall k :: 0 <= k < i || j <= k < |s| ==> s[k] in SPACES))
    && (t != [] ==> t[0] !in SPACES && t[|t| - 1] !in SPACES)
  }

  function TrimLeft(s: Bytes): Bytes {
    if s != [] && IsSpace(s[0]) then TrimLeft(s[1..]) else s
  }

  function TrimRight(s: Bytes): Bytes {
    if s != [] && IsSpace(s[|s| - 1]) then TrimRight(s[..|s| - 1]) else s
  }

  function Trim(s: Bytes): Bytes {
    TrimRight(TrimLeft(s))
  }

  lemma {:induction false} TrimLeftIs(s: Bytes) returns (i: nat)
    ensures i <= |s| && TrimLeft(s) == s[i..] && (forall k :: 0 <= k < i ==> IsSpace(s[k]))
    ensures i < |s| ==> !IsSpace(s[i])
    decreases |s|
  {
    if s != [] && IsSpace(s[0]) {
      var j := TrimLeftIs(s[1..]);
      assert s[1..][j..] == s[j + 1..];
      i := j + 1;
    } else {
      i := 0;
    }
  }

  lemma {:induction false} TrimRightIs(s: Bytes) returns (j: nat)
    ensures j <= |s| && TrimRight(s) == s[..j] && (forall k :: j <= k < |s| ==> IsSpace(s[k]))
    ensures j > 0 ==> !IsSpace(s[j - 1])
    decreases |s|
  {
    if s != [] && IsSpace(s[|s| - 1]) {
      j := TrimRightIs(s[..|s| - 1]);
      assert s[..|s| - 1][..j] == s[..j];
    } else {
      j := |s|;
    }
  }

  lemma TrimIsTrimmed(s: Bytes)
    ensures IsTrimmed(s, Trim(s))
  {
    var i := TrimLeftIs(s);
    var t := s[i..];
    var j := TrimRightIs(t);
    assert Trim(s) == t[..j] == s[i..i + j];
    forall k | 0 <= k < i || i + j <= k < |s| ensures IsSpace(s[k]) {
      if k >= i + j {
        assert s[k] == t[k - i];
      }
    }
    assert forall b :: IsSpace(b) <==> b in SPACES;
  }

  // ----- one line -----

  /** Fills in what it can of the request, even when the line turns out to be bad. */
  function RequestLine(f: Fields, line: Bytes): (bool, Fields) {
    var space := Find(line, SPACE);
    if space == |line| then (false, f)
    else
      var f1 := f.(httpMethod := MethodOf(line[..space]));
      if f1.httpMethod == InvalidMethod then (false, f1) else AfterMethod(f1, line[space + 1..])
  }

  function AfterMethod(f: Fields, target: Bytes): (bool, Fields) {
    var space := Find(target, SPACE);
    if space == |target| then (false, f)
    else
      var question := Find(target[..space], QUESTION);
      var f1 := if question != space then f.(path := target[..question], query := target[question..space])
                else f.(path := target[..space]);
      var proto := target[space + 1..];
      if |proto| != 8 || proto[..7] != HTTP1 then (false, f1)
      else if proto[7] == DIGIT1 then (true, f1.(version := Http11))
      else if proto[7] == DIGIT0 then (true, f1.(version := Http10))
      else (false, f1)
  }

  /**
    The field name is taken as it is; the value is trimmed; a later header of the same name replaces
    an earlier one.
  */
  function HeaderLine(f: Fields, line: Bytes): Fields
    requires Find(line, COLON) < |line|
  {
    var colon := Find(line, COLON);
    f.(headers := f.headers[line[..colon] := Trim(line[colon + 1..])])
  }

  // ----- one call -----

  datatype ParseState = ExpectRequestLine | ExpectHeaders | ExpectBody | GotAll

  datatype Outcome = Outcome(ok: bool, state: ParseState, fields: Fields, leftover: Bytes)

  /** The states from which a call returns; in the other two the loop of the source has no exit. */
  predicate Reading(state: ParseState) {
    state == ExpectRequestLine || state == ExpectHeaders
  }

  function Parse(state: ParseState, f: Fields, bytes: Bytes): (o: Outcome)
    requires Reading(state)
    ensures o.ok ==> o.state != ExpectBody
    decreases |bytes|
  {
    match FindCRLF(bytes)
    case None => Outcome(true, state, f, bytes)
    case Some(crlf) =>
      var line, rest := bytes[..crlf], bytes[crlf + 2..];
      if state == ExpectRequestLine then
        var (ok, f') := RequestLine(f, line);
        if ok then Parse(ExpectHeaders, f', rest) else Outcome(false, state, f', bytes)
      else if Find(line, COLON) < |line| then Parse(ExpectHeaders, HeaderLine(f, line), rest)
      else Outcome(true, GotAll, f, rest)
  }

  lemma HeaderTurn(f: Fields, bytes: Bytes)
    ensures FindCRLF(bytes).None? ==> Parse(ExpectHeaders, f, bytes) == Outcome(true, ExpectHeaders, f, bytes)
    ensures FindCRLF(bytes).Some? ==>
      var line, rest := bytes[..FindCRLF(bytes).value], bytes[FindCRLF(bytes).value + 2..];
      Parse(ExpectHeaders, f, bytes) ==
        if Find(line, COLON) < |line| then Parse(ExpectHeaders, HeaderLine(f, line), rest)
          else Outcome(true, GotAll, f, rest)
  {
    hide HeaderLine, Find;
  }

  predicate Finished(o: Outcome) {
    !o.ok || o.state == GotAll
  }

  /** One call as each chunk arrives, up to the first completed request or the first error. */
  function Feed(state: ParseState, f: Fields, held: Bytes, chunks: seq<Bytes>): Outcome
    requires Reading(state)
    decreases |chunks|
  {
    if chunks == [] then Outcome(true, state, f, held)
    else
      var o := Parse(state, f, held + chunks[0]);
      if Finished(o) then o.(leftover := o.leftover + Concat(chunks[1..]))
      else Feed(o.state, o.fields, o.leftover, chunks[1..])
  }

  lemma FeedStep(state: ParseState, f: Fields, held: Bytes, chunks: seq<Bytes>)
    requires Reading(state) && chunks != []
    ensures var o := Parse(state, f, held + chunks[0]);
      && (Finished(o) ==> Feed(state, f, held, chunks) == o.(leftover := o.leftover + Concat(chunks[1..])))
      && (!Finished(o) ==>
         Reading(o.state)
         && Feed(state, f, held, chunks) == Feed(o.state, o.fields, o.leftover, chunks[1..]))
  {
    hide Parse;
  }

  lemma FeedEnds(state: ParseState, f: Fields, held: Bytes, chunks: seq<Bytes>)
    requires chunks == []
    ensures (Reading(state) ==> Feed(state, f, held, chunks) == Outcome(true, state, f, held))
      && held + Concat(chunks) == held
  {
  }

  lemma ConcatStep(chunks: seq<Bytes>, i: nat, held: Bytes)
    requires i < |chunks|
    ensures chunks[i..] != [] && chunks[i..][0] == chunks[i] && chunks[i..][1..] == chunks[i + 1..]
    ensures held + Concat(chunks[i..]) == held + chunks[i] + Concat(chunks[i + 1..])
  {
    assert chunks[i..][1..] == chunks[i + 1..];
  }

  /** A call that leaves the request line unread has left the request alone. */
  lemma {:induction false} NothingReadYet(state: ParseState, f: Fields, bytes: Bytes)
    requires Reading(state)
    ensures var o := Parse(state, f, bytes);
      o.ok && o.state == ExpectRequestLine ==> state == ExpectRequestLine && o.fields == f
    decreases |bytes|
  {
    hide RequestLine, HeaderLine, Find;
    if FindCRLF(bytes).Some? {
      var crlf := FindCRLF(bytes).value;
      var line, rest := bytes[..crlf], bytes[crlf + 2..];
      if state == ExpectRequestLine {
        NothingReadYet(ExpectHeaders, RequestLine(f, line).1, rest);
      } else if Find(line, COLON) < |line| {
        NothingReadYet(ExpectHeaders, HeaderLine(f, line), rest);
      }
    }
  }

  /** Parsing b and then, unless that finished, what is left with c after it, is parsing both at once. */
  lemma {:induction false} ParseConcat(state: ParseState, f: Fields, b: Bytes, c: Bytes)
    requires Reading(state)
    ensures var o := Parse(state, f, b);
      Parse(state, f, b + c) ==
        if Finished(o) then o.(leftover := o.leftover + c) else Parse(o.state, o.fields, o.leftover + c)
    decreases |b|
  {
    hide RequestLine, HeaderLine, Find;
    if FindCRLF(b).Some? {
      FindCRLFStable(b, c);
      var crlf := FindCRLF(b).value;
      var line, rest := b[..crlf], b[crlf + 2..];
      assert (b + c)[..crlf] == line && (b + c)[crlf + 2..] == rest + c;
      if state == ExpectRequestLine {
        ParseConcat(ExpectHeaders, RequestLine(f, line).1, rest, c);
      } else if Find(line, COLON) < |line| {
        ParseConcat(ExpectHeaders, HeaderLine(f, line), rest, c);
      }
    }
  }

  lemma ParseIdle(state: ParseState, f: Fields, held: Bytes)
    requires Reading(state) && FindCRLF(held).None?
    ensures Parse(state, f, held) == Outcome(true, state, f, held)
  {
  }

  /**
    However TCP splits the stream, the calls end in the state, the fields and the leftover bytes of
    one call on the whole.
  */
  lemma {:induction false} ChunkingIsInvisible(state: ParseState, f: Fields, held: Bytes, chunks: seq<Bytes>)
    requires Reading(state) && FindCRLF(held).None?
    ensures Feed(state, f, held, chunks) == Parse(state, f, held + Concat(chunks))
    decreases |chunks|
  {
    hide Parse, FindCRLF;
    if chunks == [] {
      ParseIdle(state, f, held);
      assert held + [] == held;
    } else {
      var c := Concat(chunks[1..]);
      var o := Parse(state, f, held + chunks[0]);
      assert held + Concat(chunks) == held + chunks[0] + c;
      ParseConcat(state, f, held + chunks[0], c);
      if !Finished(o) {
        NothingLeftToRead(state, f, held + chunks[0]);
        ChunkingIsInvisible(o.state, o.fields, o.leftover, chunks[1..]);
      }
    }
  }

  lemma {:induction false} NothingLeftToRead(state: ParseState, f: Fields, bytes: Bytes)
    requires Reading(state) && !Finished(Parse(state, f, bytes))
    ensures var o := Parse(state, f, bytes); Reading(o.state) && FindCRLF(o.leftover).None?
    decreases |bytes|
  {
    hide RequestLine, HeaderLine, Find;
    if FindCRLF(bytes).Some? {
      var crlf := FindCRLF(bytes).value;
      var line, rest := bytes[..crlf], bytes[crlf + 2..];
      if state == ExpectRequestLine {
        NothingLeftToRead(ExpectHeaders, RequestLine(f, line).1, rest);
      } else {
        NothingLeftToRead(ExpectHeaders, HeaderLine(f, line), rest);
      }
    }
  }

  /**
    After an error the line is still in front and part of it is in the request: the
    assertion at the start of setMethod would fail in another call exactly if the line
    began with a method that is known and a space.
  */
  lemma ErrorKeepsMethod(bytes: Bytes)
    requires !Parse(ExpectRequestLine, NO_FIELDS, bytes).ok && FindCRLF(bytes).Some?
    ensures var o := Parse(ExpectRequestLine, NO_FIELDS, bytes);
      var line := bytes[..FindCRLF(bytes).value];
      && o.leftover == bytes && o.state == ExpectRequestLine
      && (o.fields.httpMethod != InvalidMethod <==>
            Find(line, SPACE) < |line| && MethodOf(line[..Find(line, SPACE)]) != InvalidMethod)
  {
    HeadersNeverFail(RequestLine(NO_FIELDS, bytes[..FindCRLF(bytes).value]).1, bytes[FindCRLF(bytes).value + 2..]);
  }

  /** Only the request line can be bad. */
  lemma {:induction false} HeadersNeverFail(f: Fields, bytes: Bytes)
    ensures Parse(ExpectHeaders, f, bytes).ok
    decreases |bytes|
  {
    hide HeaderLine, Find;
    if FindCRLF(bytes).Some? {
      var crlf := FindCRLF(bytes).value;
      if Find(bytes[..crlf], COLON) < |bytes[..crlf]| {
        HeadersNeverFail(HeaderLine(f, bytes[..crlf]), bytes[crlf + 2..]);
      }
    }
  }

  // ----- what a well-formed request is read as -----

  function NameOf(m: Method): Bytes {
    match m
    case InvalidMethod => []
    case Get => GET
    case Post => POST
    case Head => HEAD
    case Put => PUT
    case Delete => DELETE
  }

  datatype Header = Header(name: Bytes, value: Bytes)

  function VersionDigit(v: Version): Byte {
    if v == Http11 then DIGIT1 else DIGIT0
  }

  function TargetText(f: Fields): Bytes {
    f.path + f.query + [SPACE] + (HTTP1 + [VersionDigit(f.version)])
  }

  function RequestLineText(f: Fields): Bytes {
    NameOf(f.httpMethod) + [SPACE] + TargetText(f)
  }

  function HeaderText(h: Header): Bytes {
    h.name + [COLON] + ([SPACE] + h.value)
  }

  function HeadersText(hs: seq<Header>): Bytes {
    if hs == [] then CRLF else HeaderText(hs[0]) + CRLF + HeadersText(hs[1..])
  }

  function RequestText(f: Fields, hs: seq<Header>): Bytes {
    RequestLineText(f) + CRLF + HeadersText(hs)
  }

  predicate OneLine(s: Bytes) {
    FindCRLF(s).None?
  }

  predicate WellFormedLine(f: Fields) {
    && f.httpMethod != InvalidMethod && f.version != Unknown
    && SPACE !in f.path && QUESTION !in f.path
    && SPACE !in f.query && (f.query != [] ==> f.query[0] == QUESTION)
    && OneLine(RequestLineText(f))
  }

  predicate WellFormedHeader(h: Header) {
    COLON !in h.name && Trim(h.value) == h.value && OneLine(HeaderText(h))
  }

  function Collected(headers: map<Bytes, Bytes>, hs: seq<Header>): map<Bytes, Bytes>
    decreases |hs|
  {
    if hs == [] then headers else Collected(headers[hs[0].name := hs[0].value], hs[1..])
  }

  lemma EmptyLine()
    ensures FindCRLF([]) == None
  {
  }

  lemma LineEnds(line: Bytes, rest: Bytes)
    requires OneLine(line)
    ensures var s := line + CRLF + rest;
      FindCRLF(s) == Some(|line|) && s[..|line|] == line && s[|line| + 2..] == rest
  {
    var s := line + CRLF + rest;
    assert CrlfAt(s, |line|);
    forall j | 0 <= j < |line| ensures !CrlfAt(s, j) {
      assert !CrlfAt(line, j);
    }
  }

  lemma MethodRoundTrip(m: Method)
    ensures m != InvalidMethod ==> MethodOf(NameOf(m)) == m && SPACE !in NameOf(m)
  {
  }

  lemma TargetRead(f: Fields, g: Fields)
    requires WellFormedLine(f) && g.path == [] && g.query == []
    ensures AfterMethod(g, TargetText(f)) == (true, g.(version := f.version, path := f.path, query := f.query))
  {
    hide Find;
    var proto := HTTP1 + [VersionDigit(f.version)];
    var target := TargetText(f);
    var n := |f.path| + |f.query|;
    assert target[..n] == f.path + f.query && target[n + 1..] == proto;
    FindIs(target, SPACE, n);
    assert target[..n][..|f.path|] == f.path && target[..|f.path|] == f.path && target[|f.path|..n] == f.query;
    FindIs(target[..n], QUESTION, |f.path|);
    assert proto[..7] == HTTP1 && proto[7] == VersionDigit(f.version);
    assert f.query == [] ==> target[..n] == f.path;
  }

  lemma RequestLineRead(f: Fields)
    requires WellFormedLine(f)
    ensures RequestLine(NO_FIELDS, RequestLineText(f)) == (true, f.(headers := map[]))
  {
    hide Find, MethodOf, NameOf, AfterMethod, TargetText;
    var line := RequestLineText(f);
    var name := NameOf(f.httpMethod);
    MethodRoundTrip(f.httpMethod);
    assert line[..|name|] == name && line[|name| + 1..] == TargetText(f);
    FindIs(line, SPACE, |name|);
    TargetRead(f, NO_FIELDS.(httpMethod := f.httpMethod));
  }

  lemma TargetOf(g: Fields, target: Bytes)
    requires g.path == [] && g.query == [] && AfterMethod(g, target).0
    ensures var f := AfterMethod(g, target).1;
      && target == TargetText(f) && f.version != Unknown
         && f == g.(version := f.version, path := f.path, query := f.query)
      && SPACE !in f.path && QUESTION !in f.path && SPACE !in f.query && (f.query != [] ==> f.query[0] == QUESTION)
  {
    hide Find;
    var f := AfterMethod(g, target).1;
    var space := Find(target, SPACE);
    var proto := target[space + 1..];
    var question := Find(target[..space], QUESTION);
    assert proto == proto[..7] + [proto[7]] == HTTP1 + [VersionDigit(f.version)];
    assert target[..space][..question] == target[..question] && target[..space][question..] == target[question..space];
    assert f.path + f.query == target[..space];
    assert target == target[..space] + [target[space]] + proto;
    forall b | b in f.path || b in f.query ensures b != SPACE {
      assert b in target[..space];
    }
  }

  /** Nothing else passes for a request line: an accepted line is the text of what was read from it. */
  lemma AcceptedLineIsText(line: Bytes)
    requires OneLine(line) && RequestLine(NO_FIELDS, line).0
    ensures var f := RequestLine(NO_FIELDS, line).1; WellFormedLine(f) && line == RequestLineText(f)
  {
    hide Find, AfterMethod, TargetText, FindCRLF;
    var space := Find(line, SPACE);
    var name, target := line[..space], line[space + 1..];
    var g := NO_FIELDS.(httpMethod := MethodOf(name));
    TargetOf(g, target);
    assert NameOf(MethodOf(name)) == name;
    assert line == name + [line[space]] + target;
  }

  lemma HeaderLineRead(f: Fields, h: Header)
    requires WellFormedHeader(h)
    ensures var line := HeaderText(h);
      Find(line, COLON) == |h.name| < |line| && HeaderLine(f, line) == f.(headers := f.headers[h.name := h.value])
  {
    hide Find;
    var line := HeaderText(h);
    assert line[..|h.name|] == h.name && line[|h.name| + 1..] == [SPACE] + h.value;
    FindIs(line, COLON, |h.name|);
    assert ([SPACE] + h.value)[1..] == h.value;
  }

  lemma SplitAt(line: Bytes, i: nat)
    requires i < |line|
    ensures line == line[..i] + [line[i]] + line[i + 1..]
  {
  }

  /** Whatever its spacing, a line with a colon sets one header, and all it holds is name, colon and padded value. */
  lemma HeaderLineIsText(f: Fields, line: Bytes)
    requires Find(line, COLON) < |line|
    ensures var name, padded := line[..Find(line, COLON)], line[Find(line, COLON) + 1..];
      var g := HeaderLine(f, line);
      && COLON !in name && line == name + [COLON] + padded
      && name in g.headers && IsTrimmed(padded, g.headers[name])
      && g == f.(headers := f.headers[name := g.headers[name]])
  {
    hide Trim, IsTrimmed, Find;
    SplitAt(line, Find(line, COLON));
    TrimIsTrimmed(line[Find(line, COLON) + 1..]);
  }

  lemma {:induction false} HeadersRead(f: Fields, hs: seq<Header>, rest: Bytes)
    requires forall h :: h in hs ==> WellFormedHeader(h)
    ensures Parse(ExpectHeaders, f, HeadersText(hs) + rest) ==
      Outcome(true, GotAll, f.(headers := Collected(f.headers, hs)), rest)
    decreases |hs|
  {
    hide FindCRLF, HeaderLine, Find, HeaderText;
    if hs == [] {
      EmptyLine();
      LineEnds([], rest);
      assert [] + CRLF + rest == CRLF + rest;
    } else {
      var h := hs[0];
      var tail := HeadersText(hs[1..]) + rest;
      var line := HeaderText(h);
      assert HeadersText(hs) + rest == line + CRLF + tail;
      assert h in hs && WellFormedHeader(h);
      LineEnds(line, tail);
      HeaderLineRead(f, h);
      HeadersRead(f.(headers := f.headers[h.name := h.value]), hs[1..], rest);
    }
  }

  /** Any line without a colon ends the headers, not only an empty one. */
  lemma HeadersEnd(f: Fields, line: Bytes, rest: Bytes)
    requires OneLine(line) && COLON !in line
    ensures Parse(ExpectHeaders, f, line + CRLF + rest) == Outcome(true, GotAll, f, rest)
  {
    hide FindCRLF, HeaderLine, Find;
    LineEnds(line, rest);
    FindIs(line, COLON, |line|);
  }

  /** A call fails exactly if there is a whole line in front that is not the text of a well-formed request line. */
  lemma FailsIff(bytes: Bytes)
    ensures Parse(ExpectRequestLine, NO_FIELDS, bytes).ok <==>
      FindCRLF(bytes) == None
      || exists f :: WellFormedLine(f) && bytes[..FindCRLF(bytes).value] == RequestLineText(f)
  {
    hide RequestLine, WellFormedLine, RequestLineText, HeaderLine;
    if FindCRLF(bytes).Some? {
      var line, rest := bytes[..FindCRLF(bytes).value], bytes[FindCRLF(bytes).value + 2..];
      HeadersNeverFail(RequestLine(NO_FIELDS, line).1, rest);
      FirstLine(bytes);
      if RequestLine(NO_FIELDS, line).0 {
        AcceptedLineIsText(line);
      }
      if f :| WellFormedLine(f) && line == RequestLineText(f) {
        RequestLineRead(f);
      }
    }
  }

  lemma FirstLine(bytes: Bytes)
    requires FindCRLF(bytes).Some?
    ensures OneLine(bytes[..FindCRLF(bytes).value])
  {
    var n := FindCRLF(bytes).value;
    var line := bytes[..n];
    if FindCRLF(line).Some? {
      assert CrlfAt(bytes, FindCRLF(line).value);
    }
  }

  /** With another protocol the line is refused, but its method, path and query stay in the request. */
  lemma OtherProtocol(f: Fields, proto: Bytes)
    requires f.httpMethod != InvalidMethod && SPACE !in f.path && QUESTION !in f.path
    requires SPACE !in f.query && (f.query != [] ==> f.query[0] == QUESTION)
    requires proto != HTTP1 + [DIGIT0] && proto != HTTP1 + [DIGIT1]
    ensures RequestLine(NO_FIELDS, NameOf(f.httpMethod) + [SPACE] + (f.path + f.query + [SPACE] + proto)) ==
      (false, NO_FIELDS.(httpMethod := f.httpMethod, path := f.path, query := f.query))
  {
    hide Find, MethodOf, NameOf, AfterMethod;
    var name, target := NameOf(f.httpMethod), f.path + f.query + [SPACE] + proto;
    var line := name + [SPACE] + target;
    MethodRoundTrip(f.httpMethod);
    assert line[..|name|] == name && line[|name| + 1..] == target;
    FindIs(line, SPACE, |name|);
    TargetRefused(f, proto, NO_FIELDS.(httpMethod := f.httpMethod));
  }

  lemma TargetRefused(f: Fields, proto: Bytes, g: Fields)
    requires g.path == [] && g.query == [] && SPACE !in f.path && QUESTION !in f.path
    requires SPACE !in f.query && (f.query != [] ==> f.query[0] == QUESTION)
    requires proto != HTTP1 + [DIGIT0] && proto != HTTP1 + [DIGIT1]
    ensures AfterMethod(g, f.path + f.query + [SPACE] + proto) == (false, g.(path := f.path, query := f.query))
  {
    hide Find;
    var target := f.path + f.query + [SPACE] + proto;
    var n := |f.path| + |f.query|;
    assert target[..n] == f.path + f.query && target[n + 1..] == proto;
    FindIs(target, SPACE, n);
    assert target[..n][..|f.path|] == f.path && target[..|f.path|] == f.path && target[|f.path|..n] == f.query;
    FindIs(target[..n], QUESTION, |f.path|);
    assert |proto| == 8 ==> proto == proto[..7] + [proto[7]];
    assert f.query == [] ==> target[..n] == f.path;
  }

  /** A well-formed request in any chunking is read as itself, and what follows it is left alone. */
  lemma RequestRead(f: Fields, hs: seq<Header>, rest: Bytes, chunks: seq<Bytes>)
    requires WellFormedLine(f) && f.headers == Collected(map[], hs) && forall h :: h in hs ==> WellFormedHeader(h)
    requires Concat(chunks) == RequestText(f, hs) + rest
    ensures Feed(ExpectRequestLine, NO_FIELDS, [], chunks) == Outcome(true, GotAll, f, rest)
  {
    hide RequestLine, RequestLineText, HeadersText, Feed, FindCRLF, TargetText;
    var line := RequestLineText(f);
    var tail := HeadersText(hs) + rest;
    assert [] + Concat(chunks) == line + CRLF + tail;
    EmptyLine();
    ChunkingIsInvisible(ExpectRequestLine, NO_FIELDS, [], chunks);
    LineEnds(line, tail);
    RequestLineRead(f);
    HeadersRead(f.(headers := map[]), hs, rest);
  }

  // ----- the classes -----

  class HttpRequest {
    var httpMethod: Method
    var version: Version
    var path: Bytes
    var query: Bytes
    var receiveTime: int
    var headers: map<Bytes, Bytes>

    function Get(): Fields
      reads this
    {
      Fields(httpMethod, version, path, query, headers)
    }

    constructor ()
      ensures Get() == NO_FIELDS
    {
      httpMethod, version, path, query, receiveTime, headers := InvalidMethod, Unknown, [], [], 0, map[];
    }

    method SetMethod(m: Bytes) returns (ok: bool)
      requires httpMethod == InvalidMethod
      modifies `httpMethod
      ensures httpMethod == MethodOf(m) && (ok <==> httpMethod != InvalidMethod)
    {
      httpMethod := MethodOf(m);
      ok := httpMethod != InvalidMethod;
    }

    method AddHeader(line: Bytes, colon: nat)
      requires colon < |line| && colon == Find(line, COLON)
      modifies `headers
      ensures Get() == HeaderLine(old(Get()), line)
    {
      var field := line[..colon];
      var start := colon + 1;
      while start < |line| && IsSpace(line[start])
        invariant colon + 1 <= start <= |line|
        invariant TrimLeft(line[start..]) == TrimLeft(line[colon + 1..])
      {
        assert line[start..][1..] == line[start + 1..];
        start := start + 1;
      }
      var value := line[start..];
      assert value == TrimLeft(line[colon + 1..]);
      while value != [] && IsSpace(value[|value| - 1])
        invariant TrimRight(value) == Trim(line[colon + 1..])
        decreases |value|
      {
        value := value[..|value| - 1];
      }
      headers := headers[field := value];
    }
  }

  class HttpContext {
    var state: ParseState
    const request: HttpRequest

    constructor ()
      ensures state == ExpectRequestLine && fresh(request) && request.Get() == NO_FIELDS
    {
      state := ExpectRequestLine;
      request := new HttpRequest();
    }

    /** The part of processRequestLine that follows a known method. */
    method ProcessTarget(target: Bytes) returns (succeed: bool)
      modifies request`path, request`query, request`version
      ensures (succeed, request.Get()) == AfterMethod(old(request.Get()), target)
    {
      succeed := false;
      var space := Find(target, SPACE);
      if space != |target| {
        var question := Find(target[..space], QUESTION);
        if question != space {
          request.path := target[..question];
          request.query := target[question..space];
        } else {
          request.path := target[..space];
        }
        var proto := target[space + 1..];
        succeed := |proto| == 8 && proto[..7] == HTTP1;
        if succeed {
          if proto[7] == DIGIT1 {
            request.version := Http11;
          } else if proto[7] == DIGIT0 {
            request.version := Http10;
          } else {
            succeed := false;
          }
        }
      }
    }

    method ProcessRequestLine(line: Bytes) returns (succeed: bool)
      requires request.httpMethod == InvalidMethod
      modifies request
      ensures (succeed, request.Get()) == RequestLine(old(request.Get()), line)
      ensures request.receiveTime == old(request.receiveTime)
    {
      hide AfterMethod, Find;
      succeed := false;
      var space := Find(line, SPACE);
      if space != |line| {
        var known := request.SetMethod(line[..space]);
        if known {
          succeed := ProcessTarget(line[space + 1..]);
        }
      }
    }

    /** One turn of the loop while the request line is expected. */
    method ReadRequestLine(buf: Buffer, receiveTime: int) returns (ok: bool, hasMore: bool)
      requires buf.Valid() && state == ExpectRequestLine && request.httpMethod == InvalidMethod
      modifies `state, request, buf`readerIndex, buf`writerIndex
      ensures buf.Valid() && (hasMore ==>
        ok && state == ExpectHeaders
        && buf.ReadableBytes() < old(buf.ReadableBytes()))
      ensures var whole := Parse(ExpectRequestLine, old(request.Get()), old(buf.Contents()));
        if hasMore then Parse(state, request.Get(), buf.Contents()) == whole
        else Outcome(ok, state, request.Get(), buf.Contents()) == whole
      ensures !hasMore ==> state == ExpectRequestLine
      ensures request.receiveTime == if hasMore then receiveTime else old(request.receiveTime)
    {
      hide RequestLine, HeaderLine, Find;
      ok, hasMore := true, false;
      var bytes := buf.Contents();
      var crlf := FindCRLF(bytes);
      if crlf.Some? {
        ok := ProcessRequestLine(bytes[..crlf.value]);
        if ok {
          request.receiveTime := receiveTime;
          buf.Retrieve(crlf.value + 2);
          state := ExpectHeaders;
          hasMore := true;
        }
      }
    }

    /** One turn while headers are expected: a line with no colon, not only an empty one, ends them. */
    method ReadHeader(buf: Buffer) returns (hasMore: bool)
      requires buf.Valid() && state == ExpectHeaders
      modifies `state, request`headers, buf`readerIndex, buf`writerIndex
      ensures buf.Valid() && (hasMore ==> state == ExpectHeaders && buf.ReadableBytes() < old(buf.ReadableBytes()))
      ensures var whole := Parse(ExpectHeaders, old(request.Get()), old(buf.Contents()));
        if hasMore then Parse(state, request.Get(), buf.Contents()) == whole
        else Outcome(true, state, request.Get(), buf.Contents()) == whole
      ensures state != ExpectRequestLine
    {
      hide HeaderLine, Find, FindCRLF, Parse;
      hasMore := true;
      var bytes := buf.Contents();
      HeaderTurn(request.Get(), bytes);
      var crlf := FindCRLF(bytes);
      if crlf.Some? {
        var line := bytes[..crlf.value];
        var colon := Find(line, COLON);
        if colon != |line| {
          request.AddHeader(line, colon);
        } else {
          state := GotAll;
          hasMore := false;
        }
        buf.Retrieve(crlf.value + 2);
      } else {
        hasMore := false;
      }
    }

    /** Every turn that goes on consumes a line, so a call always returns. */
    method ParseRequest(buf: Buffer, receiveTime: int) returns (ok: bool)
      requires buf.Valid() && Reading(state) && (state == ExpectRequestLine ==> request.httpMethod == InvalidMethod)
      modifies `state, request, buf`readerIndex, buf`writerIndex
      ensures buf.Valid()
      ensures Outcome(ok, state, request.Get(), buf.Contents()) ==
        Parse(old(state), old(request.Get()), old(buf.Contents()))
      ensures request.receiveTime ==
        if old(state) == ExpectRequestLine && state != ExpectRequestLine then receiveTime else old(request.receiveTime)
    {
      hide Parse;
      ok := true;
      var hasMore := true;
      ghost var whole := Parse(state, request.Get(), buf.Contents());
      while hasMore
        invariant buf.Valid()
        invariant hasMore ==>
          ok && Reading(state)
          && (state == ExpectRequestLine ==> request.httpMethod == InvalidMethod)
        invariant hasMore ==> Parse(state, request.Get(), buf.Contents()) == whole
        invariant !hasMore ==> Outcome(ok, state, request.Get(), buf.Contents()) == whole
        invariant request.receiveTime ==
          if old(state) == ExpectRequestLine && state != ExpectRequestLine then receiveTime
            else old(request.receiveTime)
        invariant state == ExpectRequestLine ==> old(state) == ExpectRequestLine
        decreases hasMore, buf.ReadableBytes()
      {
        if state == ExpectRequestLine {
          ok, hasMore := ReadRequestLine(buf, receiveTime);
        } else {
          hasMore := ReadHeader(buf);
        }
      }
    }

    /** A connection's reads up to the first request or error; later bytes are only appended. */
    method OnReads(buf: Buffer, chunks: seq<Bytes>, receiveTime: int) returns (ok: bool)
      requires buf.Valid() && Reading(state) && (state == ExpectRequestLine ==> request.httpMethod == InvalidMethod)
      modifies `state, request, buf, buf.buffer
      ensures buf.Valid()
      ensures Outcome(ok, state, request.Get(), buf.Contents()) ==
        Feed(old(state), old(request.Get()), old(buf.Contents()), chunks)
    {
      hide Parse, Feed;
      ok := true;
      var i, finished := 0, false;
      ghost var whole := Feed(state, request.Get(), buf.Contents(), chunks);
      assert chunks[0..] == chunks;
      while i < |chunks|
        invariant 0 <= i <= |chunks| && buf.Valid() && (buf.buffer == old(buf.buffer) || fresh(buf.buffer))
        invariant !finished ==>
          ok && Reading(state)
          && (state == ExpectRequestLine ==> request.httpMethod == InvalidMethod)
        invariant !finished ==> whole == Feed(state, request.Get(), buf.Contents(), chunks[i..])
        invariant finished ==> whole == Outcome(ok, state, request.Get(), buf.Contents() + Concat(chunks[i..]))
      {
        ConcatStep(chunks, i, buf.Contents());
        if finished {
          buf.Append(chunks[i]);
        } else {
          FeedStep(state, request.Get(), buf.Contents(), chunks[i..]);
          NothingReadYet(state, request.Get(), buf.Contents() + chunks[i]);
          buf.Append(chunks[i]);
          ok := ParseRequest(buf, receiveTime);
          finished := !ok || state == GotAll;
        }
        i := i + 1;
      }
      FeedEnds(state, request.Get(), buf.Contents(), chunks[i..]);
    }

    method Reset()
      modifies `state, request
      ensures state == ExpectRequestLine && request.Get() == NO_FIELDS && request.receiveTime == 0
    {
      state := ExpectRequestLine;
      request.httpMethod, request.version := InvalidMethod, Unknown;
      request.path, request.query, request.headers := [], [], map[];
      request.receiveTime := 0;
    }
  }
}
