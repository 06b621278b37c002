/** Parsing a request head, and the one-shot reference for a whole request message. */
module RequestHead {
  import opened Sequences
  import opened Octets
  import opened Framing

  /** The exceptions that reach the connection loop. */
  datatype Exc =
    | BadRequest | PayloadTooLarge | ExpectationFailed
    | ServerError | RuntimeError | ValueError | TypeError | IndexError
    | SanicException   // "No stream is connected"
    | Cancelled        // asyncio's CancelledError, which `except Exception` does not catch
    | Raised(code: nat)

  datatype Outcome<+T> = Ok(value: T) | Err(exc: Exc)

  datatype Field = Field(name: Bytes, value: Bytes)

  /** The state of the loop over the header lines. */
  datatype Scan = Scan(keepAlive: bool, lengthSeen: bool, fields: seq<Field>)

  function SplitLine(line: Bytes): Option<Field> {
    var colon := Find([COLON], line, 0);
    if colon < 0 then None else Some(Field(Lower(line[..colon]), LStrip(line[colon + 1..])))
  }

  predicate IsLengthField(f: Field) {
    f.name == Ascii("content-length") || f.name == Ascii("transfer-encoding")
  }

  function ScanLine(st: Scan, line: Bytes): Option<Scan> {
    match SplitLine(line)
    case None => None
    case Some(f) =>
      var st' := st.(fields := st.fields + [f]);
      if IsLengthField(f) then
        if st.lengthSeen then None else Some(st'.(lengthSeen := true))
      else if f.name == Ascii("connection") then
        Some(st'.(keepAlive := Lower(f.value) == Ascii("keep-alive")))
      else
        Some(st')
  }

  function ScanLines(st: Scan, lines: seq<Bytes>): Option<Scan> {
    if |lines| == 0 then Some(st)
    else match ScanLines(st, lines[..|lines| - 1])
      case None => None
      case Some(st') => ScanLine(st', lines[|lines| - 1])
  }

  /** A line that stops the scan stops it whatever follows. */
  lemma {:induction false} ScanStops(st: Scan, lines: seq<Bytes>, i: nat)
    requires i <= |lines| && ScanLines(st, lines[..i]).None?
    ensures ScanLines(st, lines).None?
  {
    if i == |lines| {
      assert lines[..i] == lines;
    } else {
      assert lines[..|lines| - 1][..i] == lines[..i];
      ScanStops(st, lines[..|lines| - 1], i);
    }
  }

  function FieldValue(fields: seq<Field>, name: Bytes): Option<Bytes> {
    if |fields| == 0 then None
    else if fields[0].name == name then Some(fields[0].value)
    else FieldValue(fields[1..], name)
  }

  datatype Parsed = Parsed(keepAlive: bool, headOnly: bool, upgrade: bool, expectContinue: bool,
                           kind: BodyKind, length: nat)

  predicate IsAscii(s: Bytes) {
    forall i :: 0 <= i < |s| ==> s[i] < 128
  }

  function Upgrades(fields: seq<Field>): bool {
    match FieldValue(fields, Ascii("upgrade"))
    case None => false
    case Some(v) => Lower(v) == Ascii("websocket")
  }

  /** Whether a 100 Continue is expected, when the request announces a body. */
  function Expectation(fields: seq<Field>): Outcome<bool> {
    match FieldValue(fields, Ascii("expect"))
    case None => Ok(false)
    case Some(v) => if Lower(v) == Ascii("100-continue") then Ok(true) else Err(ExpectationFailed)
  }

  /** The body's framing, when the request announces one. */
  function BodyFraming(fields: seq<Field>): Outcome<(BodyKind, nat)> {
    if FieldValue(fields, Ascii("transfer-encoding")) == Some(Ascii("chunked")) then Ok((Chunked, 0))
    else match FieldValue(fields, Ascii("content-length"))
      case None => Err(BadRequest)
      case Some(v) => match SafeInt(v, 10)
        case None => Err(BadRequest)
        case Some(n) => Ok((Counted, n))
  }

  /** The head once its lines are scanned. `accepted` is whether the Request object could be built. */
  function Conclude(st: Scan, toHead: bool, url: Bytes, keepAliveAllowed: bool, accepted: bool): Outcome<Parsed> {
    if !IsAscii(url) || !accepted then Err(BadRequest)
    else
      var p := Parsed(st.keepAlive && keepAliveAllowed, toHead, Upgrades(st.fields), false, Absent, 0);
      if !st.lengthSeen then Ok(p)
      else match Expectation(st.fields)
        case Err(e) => Err(e)
        case Ok(b) => match BodyFraming(st.fields)
          case Err(e) => Err(e)
          case Ok((kind, n)) => Ok(p.(expectContinue := b, kind := kind, length := n))
  }

  datatype RequestLine = RequestLine(toHead: bool, url: Bytes, http11: bool)

  /** Exactly three words, the last one a known version. */
  function ParseRequestLine(line: Bytes): Option<RequestLine> {
    var words := Split(line, [SPACE]);
    if |words| != 3 then None
    else if words[2] == Ascii("HTTP/1.1") then Some(RequestLine(Lower(words[0]) == Ascii("head"), words[1], true))
    else if words[2] == Ascii("HTTP/1.0") then Some(RequestLine(Lower(words[0]) == Ascii("head"), words[1], false))
    else None
  }

  /** The whole head, without its final CRLF CRLF. */
  function ParseHead(head: Bytes, keepAliveAllowed: bool, accepted: bool): Outcome<Parsed> {
    var lines := Split(head, CRLF);
    match ParseRequestLine(lines[0])
    case None => Err(BadRequest)
    case Some(line) =>
      match ScanLines(Scan(line.http11, false, []), lines[1..])
      case None => Err(BadRequest)
      case Some(st) => Conclude(st, line.toHead, line.url, keepAliveAllowed, accepted)
  }

  // ---------------------------------------------------------------- no ambiguous request length

  /** Every Content-Length and Transfer-Encoding field of a head, in order. */
  function LengthFields(lines: seq<Bytes>): seq<Field> {
    if |lines| == 0 then []
    else
      LengthFields(lines[..|lines| - 1]) +
      match SplitLine(lines[|lines| - 1])
      case Some(f) => if IsLengthField(f) then [f] else []
      case None => []
  }

  lemma {:induction false} FieldValueSnoc(fields: seq<Field>, f: Field, name: Bytes)
    ensures FieldValue(fields + [f], name)
         == if FieldValue(fields, name).Some? then FieldValue(fields, name)
            else if f.name == name then Some(f.value) else None
  {
    if |fields| == 0 {
      assert fields + [f] == [f];
    } else {
      assert (fields + [f])[1..] == fields[1..] + [f];
      FieldValueSnoc(fields[1..], f, name);
    }
  }

  lemma {:induction false} ScanLengths(keep: bool, lines: seq<Bytes>)
    requires ScanLines(Scan(keep, false, []), lines).Some?
    ensures var st := ScanLines(Scan(keep, false, []), lines).value;
      var ls := LengthFields(lines);
      && |ls| == (if st.lengthSeen then 1 else 0)
      && FieldValue(st.fields, Ascii("content-length")) == FieldValue(ls, Ascii("content-length"))
      && FieldValue(st.fields, Ascii("transfer-encoding")) == FieldValue(ls, Ascii("transfer-encoding"))
  {
    if |lines| > 0 {
      var init, last := lines[..|lines| - 1], lines[|lines| - 1];
      ScanLengths(keep, init);
      var st := ScanLines(Scan(keep, false, []), init).value;
      var f := SplitLine(last).value;
      FieldValueSnoc(st.fields, f, Ascii("content-length"));
      FieldValueSnoc(st.fields, f, Ascii("transfer-encoding"));
      if IsLengthField(f) {
        assert LengthFields(init) == [];
        assert LengthFields(lines) == [f];
      } else {
        assert LengthFields(lines) == LengthFields(init);
      }
    }
  }

  lemma DistinctNames()
    ensures Ascii("content-length") != Ascii("transfer-encoding")
  {
    assert Ascii("content-length")[0] == 99 && Ascii("transfer-encoding")[0] == 116;
  }

  /** An accepted head never leaves its body length to interpretation: it has no length field and no
      body, or exactly one, which alone decides the framing. */
  lemma FramingIsUnambiguous(head: Bytes, allowed: bool, accepted: bool)
    requires ParseHead(head, allowed, accepted).Ok?
    ensures var p := ParseHead(head, allowed, accepted).value;
      var ls := LengthFields(Split(head, CRLF)[1..]);
      && (p.kind.Absent? <==> ls == [])
      && (p.kind.Chunked? <==> ls == [Field(Ascii("transfer-encoding"), Ascii("chunked"))])
      && (p.kind.Counted? <==> |ls| == 1 && ls[0].name == Ascii("content-length"))
      && (p.kind.Counted? ==> SafeInt(ls[0].value, 10) == Some(p.length))
  {
    var lines := Split(head, CRLF);
    ScanLengths(ParseRequestLine(lines[0]).value.http11, lines[1..]);
    DistinctNames();
    var ls := LengthFields(lines[1..]);
    if |ls| == 1 {
      assert ls == [ls[0]];
    }
  }

  // ---------------------------------------------------------------- one whole message

  /** Where the body starts: one CRLF of the head stays in front of a chunked body. */
  function BodyStart(end: nat, kind: BodyKind): nat {
    if kind.Chunked? then end + 2 else end + 4
  }

  /** The request message at the front of a stream: what of it is body, and what follows it. */
  function Message(s: Bytes, maxHead: nat, allowed: bool, accepted: bool): Rest {
    var p := Find(CRLF_CRLF, s, 0);
    if p < 0 || p >= maxHead then Starved
    else match ParseHead(s[..p], allowed, accepted)
      case Err(_) => Malformed
      case Ok(h) => Unread(h.kind, h.length, s[BodyStart(p, h.kind)..])
  }

  lemma MessageShrinks(s: Bytes, maxHead: nat, allowed: bool, accepted: bool)
    requires Message(s, maxHead, allowed, accepted).Whole?
    ensures |Message(s, maxHead, allowed, accepted).rest| < |s|
  {
    var p := Find(CRLF_CRLF, s, 0);
    var h := ParseHead(s[..p], allowed, accepted).value;
    UnreadShrinks(h.kind, h.length, s[BodyStart(p, h.kind)..]);
  }

  /** A body as a client sends it. */
  datatype ClientBody = NoPayload | Plain(payload: Bytes) | InChunks(blocks: seq<Bytes>)

  function BodyBytes(b: ClientBody): Bytes {
    match b
    case NoPayload => []
    case Plain(payload) => payload
    case InChunks(blocks) => Chunks(blocks) + LAST_CHUNK
  }

  function BodyPayload(b: ClientBody): Bytes {
    match b
    case NoPayload => []
    case Plain(payload) => payload
    case InChunks(blocks) => Flat(blocks)
  }

  /** The largest index at which one of its size lines ends. */
  function BodyLine(b: ClientBody): nat {
    if b.InChunks? then LongestSizeLine(b.blocks) else 0
  }

  function MessageBytes(head: Bytes, b: ClientBody): Bytes {
    head + CRLF_CRLF + BodyBytes(b)
  }

  /** The head parses, its end is its first empty line, below the limit, and it announces this body. */
  ghost predicate Announces(head: Bytes, b: ClientBody, maxHead: nat, allowed: bool, accepted: bool) {
    && CutsAfter(head, CRLF_CRLF)
    && |head| < maxHead
    && ParseHead(head, allowed, accepted).Ok?
    && var h := ParseHead(head, allowed, accepted).value;
       match b
       case NoPayload => h.kind.Absent?
       case Plain(payload) => h.kind.Counted? && h.length == |payload|
       case InChunks(_) => h.kind.Chunked?
  }

  lemma AbsentHasNoLength(head: Bytes, allowed: bool, accepted: bool)
    requires ParseHead(head, allowed, accepted).Ok?
    ensures var h := ParseHead(head, allowed, accepted).value; !h.kind.Counted? ==> h.length == 0
  {
  }

  lemma HeadEnd(head: Bytes, tail: Bytes)
    requires CutsAfter(head, CRLF_CRLF)
    ensures var s := head + CRLF_CRLF + tail;
      && Find(CRLF_CRLF, s, 0) == |head|
      && s[..|head|] == head
      && s[|head| + 4..] == tail
      && s[|head| + 2..] == CRLF + tail
  {
    FindInPrefix(CRLF_CRLF, head + CRLF_CRLF, tail, 0);
  }

  /** A well-formed message followed by anything is read back as its payload, leaving exactly what
      follows. */
  lemma MessageRoundTrip(head: Bytes, b: ClientBody, suffix: Bytes, maxHead: nat, allowed: bool, accepted: bool)
    requires Announces(head, b, maxHead, allowed, accepted)
    ensures Message(MessageBytes(head, b) + suffix, maxHead, allowed, accepted).Whole?
    ensures var r := Message(MessageBytes(head, b) + suffix, maxHead, allowed, accepted);
      r.payload == BodyPayload(b) && r.rest == suffix && r.line == BodyLine(b)
    ensures var s := MessageBytes(head, b) + suffix;
      Find(CRLF_CRLF, s, 0) == |head| && s[..|head|] == head
  {
    var tail := BodyBytes(b) + suffix;
    Associate(head + CRLF_CRLF, BodyBytes(b), suffix);
    HeadEnd(head, tail);
    AbsentHasNoLength(head, allowed, accepted);
    BodyRoundTrip(b, suffix);
  }

  lemma BodyRoundTrip(b: ClientBody, suffix: Bytes)
    ensures var tail := BodyBytes(b) + suffix;
      match b
      case NoPayload => Unread(Absent, 0, tail) == Whole([], suffix, 0)
      case Plain(payload) => Unread(Counted, |payload|, tail) == Whole(payload, suffix, 0)
      case InChunks(blocks) =>
        Unread(Chunked, 0, CRLF + tail) == Whole(Flat(blocks), suffix, LongestSizeLine(blocks))
  {
    if b.InChunks? {
      ChunkedRoundTrip(b.blocks, suffix);
      Associate(Chunks(b.blocks), LAST_CHUNK, suffix);
      Associate(CRLF, Chunks(b.blocks) + LAST_CHUNK, suffix);
      Associate(CRLF, Chunks(b.blocks), LAST_CHUNK);
    }
  }
}
