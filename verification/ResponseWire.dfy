/** What a client sees of the output written for one request, framed by section 6.3 of RFC 9112. */
module ResponseWire {
  import opened Sequences
  import opened Octets
  import opened Framing

  datatype TransferCoding = ChunkedCoding | OtherCoding

  /** The fields of a written response head that decide its framing and the fate of the connection. */
  datatype Head = Head(status: nat, length: Option<int>, coding: Option<TransferCoding>, keepAlive: bool)

  /** One thing handed to the transport: an interim 100 Continue, a final response head, or body data. */
  datatype Sent = Continue | Final(head: Head) | Data(bytes: Bytes)

  datatype ResponseFraming = NoBody | FixedBody(n: nat) | ChunkedBody | UntilClose

  predicate HasMessageBody(status: int) {
    status != 204 && status != 304 && !(100 <= status < 200)
  }

  /** How a client delimits the body behind `h`, in the order of section 6.3 of RFC 9112. */
  function FramingOf(h: Head, toHead: bool): ResponseFraming {
    if toHead || !HasMessageBody(h.status) then NoBody
    else if h.coding.Some? then
      if h.coding.value.ChunkedCoding? then ChunkedBody else UntilClose
    else if h.length.Some? && h.length.value >= 0 then FixedBody(h.length.value)
    else UntilClose
  }

  /** A head that announces both a length and a transfer coding. The engine writes one only for a
      response object on which the handler itself set Transfer-Encoding. */
  predicate Ambiguous(h: Head, toHead: bool) {
    !toHead && HasMessageBody(h.status) && h.length.Some? && h.coding.Some?
  }

  /** How the engine delimits the body it writes behind `h`: by the length if it has announced one. */
  function WrittenFraming(h: Head, toHead: bool): ResponseFraming {
    if toHead || !HasMessageBody(h.status) then NoBody
    else if h.length.Some? then if h.length.value >= 0 then FixedBody(h.length.value) else UntilClose
    else if h.coding == Some(ChunkedCoding) then ChunkedBody
    else UntilClose
  }

  // ---------------------------------------------------------------- the shape of one exchange

  /** How many interim responses lead. */
  function Lead(w: seq<Sent>): (n: nat)
    ensures n <= |w| && n <= 1
  {
    if |w| > 0 && w[0].Continue? then 1 else 0
  }

  predicate OnlyData(w: seq<Sent>) {
    forall i :: 0 <= i < |w| ==> w[i].Data?
  }

  /** At most one interim response, and no final one yet. */
  predicate NotStarted(w: seq<Sent>) {
    |w| == Lead(w)
  }

  /** At most one interim response, then exactly one final head, then only body data. */
  predicate Started(w: seq<Sent>) {
    |w| > Lead(w) && w[Lead(w)].Final? && OnlyData(w[Lead(w) + 1..])
  }

  function HeadOf(w: seq<Sent>): Head
    requires Started(w)
  {
    w[Lead(w)].head
  }

  predicate SameHead(w: seq<Sent>, w': seq<Sent>) {
    Started(w) && Started(w') && HeadOf(w) == HeadOf(w')
  }

  function DataOf(w: seq<Sent>): Bytes {
    if |w| == 0 then []
    else (if w[0].Data? then w[0].bytes else []) + DataOf(w[1..])
  }

  function BodyOf(w: seq<Sent>): Bytes
    requires Started(w)
  {
    DataOf(w[Lead(w) + 1..])
  }

  lemma {:induction false} DataSnoc(w: seq<Sent>, d: Bytes)
    ensures DataOf(w + [Data(d)]) == DataOf(w) + d
  {
    if |w| == 0 {
      assert DataOf([Data(d)]) == d + DataOf([]);
    } else {
      assert (w + [Data(d)])[1..] == w[1..] + [Data(d)];
      DataSnoc(w[1..], d);
    }
  }

  lemma SendData(w: seq<Sent>, d: Bytes)
    requires Started(w)
    ensures var w' := w + [Data(d)];
      Started(w') && HeadOf(w') == HeadOf(w) && BodyOf(w') == BodyOf(w) + d
  {
    var k := Lead(w) + 1;
    assert (w + [Data(d)])[k..] == w[k..] + [Data(d)];
    DataSnoc(w[k..], d);
  }

  /** What the header writer sends in one go. */
  function Opening(interim: bool, h: Head, d: Bytes): seq<Sent> {
    (if interim then [Continue] else []) + [Final(h)] + (if d == [] then [] else [Data(d)])
  }

  lemma SendHead(w: seq<Sent>, interim: bool, h: Head, d: Bytes)
    requires NotStarted(w) && (interim ==> w == [])
    ensures var w' := w + Opening(interim, h, d);
      Started(w') && HeadOf(w') == h && BodyOf(w') == d
  {
    var w0 := w + (if interim then [Continue] else []) + [Final(h)];
    var k := Lead(w0) + 1;
    assert w0[k..] == [];
    assert Started(w0) && HeadOf(w0) == h && BodyOf(w0) == [];
    if d == [] {
      assert w + Opening(interim, h, d) == w0;
    } else {
      assert w + Opening(interim, h, d) == w0 + [Data(d)];
      SendData(w0, d);
      assert [] + d == d;
    }
  }

  // ---------------------------------------------------------------- complete framing

  /** The body written is complete for its framing and carries exactly the blocks. */
  predicate Framed(f: ResponseFraming, body: Bytes, blocks: seq<Bytes>) {
    match f
    case NoBody => body == []
    case FixedBody(n) => |body| == n && body == Flat(blocks)
    case ChunkedBody => body == Chunks(blocks) + LAST_CHUNK
    case UntilClose => false
  }

  /** What a client gets out of a body it has delimited, or `None` when the body is not complete. */
  function ClientReads(f: ResponseFraming, body: Bytes): Option<Bytes> {
    match f
    case NoBody => if body == [] then Some([]) else None
    case FixedBody(n) => if |body| == n then Some(body) else None
    case ChunkedBody =>
      var r := Unread(Chunked, 0, CRLF + body);
      if r.Whole? && r.rest == [] then Some(r.payload) else None
    case UntilClose => None
  }

  /** A framed body is read by a client as exactly the blocks the handler sent. */
  lemma FramedIsReadBack(f: ResponseFraming, body: Bytes, blocks: seq<Bytes>)
    requires Framed(f, body, blocks)
    ensures ClientReads(f, body) == Some(if f.NoBody? then [] else Flat(blocks))
  {
    if f.ChunkedBody? {
      ChunkedRoundTrip(blocks, []);
      Associate(CRLF, Chunks(blocks), LAST_CHUNK);
      assert Framing.ChunkedBody(blocks, []) == CRLF + body;
    }
  }

  /** A client never gets a body out of a response with two framings: it is written plain, and read as
      chunks, or up to the end of the connection. */
  lemma AmbiguousIsMisread(h: Head, body: Bytes)
    requires Ambiguous(h, false)
    ensures ClientReads(FramingOf(h, false), body) != Some(body)
  {
    if Unread(Chunked, 0, CRLF + body).Whole? {
      UnreadShrinks(Chunked, 0, CRLF + body);
    }
  }

  /** A complete response is read by a client as exactly its blocks if and only if it has one framing. */
  lemma CompleteIsReadable(w: seq<Sent>, toHead: bool, blocks: seq<Bytes>)
    requires CompleteResponse(w, toHead, blocks)
    ensures var f := FramingOf(HeadOf(w), toHead);
      ClientReads(f, BodyOf(w)) == Some(if f.NoBody? then [] else Flat(blocks)) <==> !Ambiguous(HeadOf(w), toHead)
  {
    if Ambiguous(HeadOf(w), toHead) {
      AmbiguousIsMisread(HeadOf(w), BodyOf(w));
    } else {
      FramedIsReadBack(FramingOf(HeadOf(w), toHead), BodyOf(w), blocks);
    }
  }

  // ---------------------------------------------------------------- output so far

  /** The writer's state: `response_func` is itself the state. */
  datatype Func = HeaderFunc | NormalFunc | ChunkedFunc | IgnoredFunc | Ended

  /** What has been written for a request, by response state. `left` is the declared length minus what
      was written; it is negative exactly when the first block was longer than the declared length. */
  predicate Progress(w: seq<Sent>, toHead: bool, func: Func, left: int, blocks: seq<Bytes>) {
    if func.HeaderFunc? then NotStarted(w)
    else Started(w) && Behind(HeadOf(w), toHead, func, left, BodyOf(w), blocks)
  }

  /** `Progress` for the bytes behind the head. */
  predicate Behind(h: Head, toHead: bool, func: Func, left: int, body: Bytes, blocks: seq<Bytes>) {
    var f := WrittenFraming(h, toHead);
    match func
    case HeaderFunc => false
    case NormalFunc => !toHead && HasMessageBody(h.status) && h.length == Some(|body| + left) && body == Flat(blocks)
    case ChunkedFunc => f == ChunkedBody && body == Chunks(blocks)
    case IgnoredFunc => toHead && body == []
    case Ended => Framed(f, body, blocks)
  }

  /** The response states after a block that fits a declared length. */
  lemma NormalStep(w: seq<Sent>, toHead: bool, left: int, blocks: seq<Bytes>, d: Bytes)
    requires Progress(w, toHead, NormalFunc, left, blocks) && |d| <= left
    ensures var w' := w + [Data(d)];
      Started(w') && HeadOf(w') == HeadOf(w)
      && Progress(w', toHead, if |d| == left then Ended else NormalFunc, left - |d|, blocks + [d])
  {
    SendData(w, d);
    FlatSnoc(blocks, d);
  }

  /** The octets one call of the chunked writer sends. */
  function ChunkedOut(d: Bytes, end: bool): Bytes {
    Chunk(d) + (if end then LAST_CHUNK else [])
  }

  lemma ChunkedStep(w: seq<Sent>, toHead: bool, left: int, blocks: seq<Bytes>, d: Bytes, end: bool)
    requires Progress(w, toHead, ChunkedFunc, left, blocks)
    ensures var w' := w + [Data(ChunkedOut(d, end))];
      Started(w') && HeadOf(w') == HeadOf(w)
      && Progress(w', toHead, if end then Ended else ChunkedFunc, left, blocks + [d])
    ensures d == [] ==> Progress(w, toHead, ChunkedFunc, left, blocks + [d])
  {
    var out := ChunkedOut(d, end);
    SendData(w, out);
    ChunksSnoc(blocks, d);
    Associate(BodyOf(w), Chunk(d), LAST_CHUNK);
    assert Chunk(d) + [] == Chunk(d) && BodyOf(w) + [] == BodyOf(w);
  }

  /** The output of a request whose response is complete. */
  predicate CompleteResponse(w: seq<Sent>, toHead: bool, blocks: seq<Bytes>) {
    Started(w) && Framed(WrittenFraming(HeadOf(w), toHead), BodyOf(w), blocks)
  }

  /** At every moment the output of a response with one framing can be completed to a readable one: it is
      never already wrong. The one exception is an oversized first block, which `left` records. */
  lemma ProgressIsPrefix(w: seq<Sent>, toHead: bool, func: Func, left: int, blocks: seq<Bytes>)
    requires Progress(w, toHead, func, left, blocks)
    requires !func.HeaderFunc? && !Ambiguous(HeadOf(w), toHead) && (func.NormalFunc? ==> |BodyOf(w)| + left >= 0)
    ensures (exists more: Bytes :: ClientReads(FramingOf(HeadOf(w), toHead), BodyOf(w) + more).Some?)
      <==> !(func.NormalFunc? && left < 0)
  {
    var f, body := FramingOf(HeadOf(w), toHead), BodyOf(w);
    if func.NormalFunc? && left >= 0 {
      var more: Bytes := seq(left, i => 0 as byte);
      assert ClientReads(f, body + more).Some?;
    } else if func.ChunkedFunc? {
      FramedIsReadBack(f, body + LAST_CHUNK, blocks);
      assert ClientReads(f, body + LAST_CHUNK).Some?;
    } else if !func.NormalFunc? {
      assert body + [] == body;
      FramedIsReadBack(f, body, blocks);
      assert ClientReads(f, body + []).Some?;
    }
  }
}
