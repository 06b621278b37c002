/** The HTTP/1.1 connection engine: one object per connection that reads requests from a receive
    buffer, runs handlers and writes responses. */
module Http1 {
  import opened Sequences
  import opened Octets
  import opened Framing
  import opened RequestHead
  import opened ResponseWire
  import opened Connection

  /** The least of the configured sizes and the ceiling of 16384. */
  function HeaderMaxSize(sizes: seq<nat>): (n: nat)
    ensures n <= 16384 && (forall i :: 0 <= i < |sizes| ==> n <= sizes[i])
    ensures n == 16384 || n in sizes
  {
    if |sizes| == 0 then 16384
    else
      var m := HeaderMaxSize(sizes[1..]);
      if sizes[0] < m then sizes[0] else m
  }

  /** `bool(data)` payload of a read. */
  function Got(r: Option<Bytes>): Bytes {
    if r.Some? then r.value else []
  }

  /** Whether `send(data, end_stream)` ends the stream: with neither given, it does. */
  function Ends(data: Option<Bytes>, end: Option<bool>): bool {
    if data.None? && end.None? then true else end == Some(true)
  }

  /** Why a read can fail, in terms of the body `b` that was left at the front of the stream. */
  ghost predicate ReadFailure(e: Exc, b: Rest, handed: nat, limit: Limit) {
    match e
    case Cancelled => !b.Whole?
    case BadRequest => b.Whole? ==> b.line >= 64
    case PayloadTooLarge => b.Whole? ==> !Within(handed + |b.payload|, limit)
    case _ => false
  }

  /** Specification-only history of the current request. */
  datatype History = History(
    before: seq<Sent>,     // the wire when the request began
    turn: seq<Sent>,       // what has been written for it
    blocks: seq<Bytes>,    // the response blocks accepted
    handed: Bytes,         // the body octets handed out
    largest: Limit,        // the largest limit that was in force
    expected: Rest,        // the body, as the one-shot reader sees it
    cancelled: bool,       // a wait for input was cancelled
    headless: bool)        // a response head could not be formatted

  class Response {
    var status: int
    var body: Bytes
    var length: Declared
    var coding: Option<TransferCoding>
    var stream: Http?

    constructor (status: int, body: Bytes, length: Declared, coding: Option<TransferCoding>)
      ensures this.status == status && this.body == body
      ensures this.length == length && this.coding == coding && this.stream == null
    {
      this.status, this.body, this.length, this.coding := status, body, length, coding;
      this.stream := null;
    }

    function Value(): ResponseValue
      reads this
    {
      ResponseValue(status, body, length, coding)
    }

    /** Only the connection to a stream may differ. */
    twostate predicate Kept()
      reads this
    {
      unchanged(`status, `body, `length, `coding)
    }

    /** `BaseHTTPResponse.send`. */
    method Send(data: Option<Bytes>, end: Option<bool>) returns (r: Outcome<()>)
      requires stream != null ==> stream.Valid() && stream.response == this && !stream.stage.REQUEST?
      modifies this, stream
      ensures stream == old(stream)
      ensures stream == null ==> r == Err(SanicException) && unchanged(this)
      ensures stream != null ==> stream.Valid() && stream.InputKept() && stream.StageKept(r.Err?)
      ensures r != Err(Cancelled)
      // After the end, an empty end is tolerated and anything else is refused; nothing is written.
      ensures stream != null && old(stream.responseFunc).Ended? ==>
        && unchanged(stream)
        && r == (if Ends(data, end) && Got(data) == [] then Ok(()) else Err(ServerError))
      ensures stream != null && !old(stream.responseFunc).Ended? ==>
        stream.Sends(old(stream.responseFunc), old(stream.responseBytesLeft), old(stream.log),
                     Got(data), Ends(data, end), old(Value()), r)
      ensures status == old(status)
      ensures stream != null && !old(stream.responseFunc).HeaderFunc? ==> coding == old(coding)
      ensures stream != null && stream.responseFunc.HeaderFunc? ==> coding == old(coding)
    {
      if stream == null {
        return Err(SanicException);
      }
      if stream.responseFunc.Ended? {
        if Ends(data, end) && Got(data) == [] {
          return Ok(());
        }
        return Err(ServerError);
      }
      r := stream.Dispatch(Got(data), Ends(data, end));
    }
  }

  class Http {
    // Configuration
    const headerMaxSize: nat
    const requestMaxSize: nat
    const keepAliveAllowed: bool

    // The connection. `network` is the input not yet delivered, cut as it will be delivered; when it
    // runs out, the next wait ends in cancellation.
    var recvBuffer: Bytes
    var network: seq<Bytes>
    var wire: seq<Sent>
    var stage: Stage
    var keepAlive: bool

    // Per request
    var expectingContinue: bool
    var headOnly: bool
    var upgrade: bool
    var body: BodyKind
    var requestBytes: nat
    var bytesLeft: nat
    var maxSize: Limit
    var response: Response?
    var responseFunc: Func
    var responseBytesLeft: int

    ghost var log: History

    ghost function Stream(): Bytes
      reads `recvBuffer, `network
    {
      recvBuffer + Flat(network)
    }

    ghost function Body(): Rest
      reads `recvBuffer, `network, `body, `bytesLeft
    {
      Unread(body, bytesLeft, Stream())
    }

    ghost predicate Deliverable()
      reads `network
    {
      forall i :: 0 <= i < |network| ==> network[i] != []
    }

    /** Bytes handed out plus bytes left are the bytes announced, handed out within a limit; and while
        the connection can still be kept, the stream stands exactly where the one-shot reader says. */
    ghost predicate ReaderInv()
      reads this
    {
      && Deliverable()
      && |log.handed| + bytesLeft == requestBytes
      && (body.Absent? ==> bytesLeft == 0)
      && Within(|log.handed|, log.largest) && NoHigher(maxSize, log.largest)
      && (keepAlive && !log.cancelled && !stage.REQUEST? ==> Leaves(log.expected, log.handed, Body()))
    }

    ghost predicate WriterInv()
      reads this
    {
      && wire == log.before + log.turn
      && (stage.RESPONSE? ==> response != null)
      && (responseFunc.HeaderFunc? ==> !log.headless && (stage.REQUEST? || stage.HANDLER?))
      && (!log.headless ==>
          && Progress(log.turn, headOnly, responseFunc, responseBytesLeft, log.blocks)
          && (expectingContinue ==> log.turn == [])
          && (!responseFunc.HeaderFunc? ==> stage.RESPONSE? || stage.IDLE? || stage.FAILED?)
          && (!responseFunc.HeaderFunc? && keepAlive ==> HeadOf(log.turn).keepAlive)
          && (stage.IDLE? ==> responseFunc.Ended? || responseFunc.IgnoredFunc?)
          && (responseFunc.Ended? ==> stage.IDLE? || stage.FAILED?))
    }

    ghost predicate Valid()
      reads this
    {
      ReaderInv() && WriterInv()
    }

    constructor (headerMaxSize: nat, requestMaxSize: nat, keepAliveAllowed: bool, network: seq<Bytes>)
      ensures this.headerMaxSize == headerMaxSize && this.requestMaxSize == requestMaxSize
      ensures this.keepAliveAllowed == keepAliveAllowed
      ensures recvBuffer == [] && this.network == network && wire == []
      ensures stage == IDLE && keepAlive && !expectingContinue && response == null
    {
      this.headerMaxSize, this.requestMaxSize := headerMaxSize, requestMaxSize;
      this.keepAliveAllowed := keepAliveAllowed;
      this.recvBuffer, this.network, this.wire := [], network, [];
      this.stage, this.keepAlive := IDLE, true;
      expectingContinue, headOnly, upgrade := false, false, false;
      body, requestBytes, bytesLeft := Absent, 0, 0;
      maxSize, response := AtMost(requestMaxSize), null;
      responseFunc, responseBytesLeft := HeaderFunc, 0;
    }

    method InitForRequest()
      modifies `expectingContinue, `headOnly, `upgrade, `body, `requestBytes, `bytesLeft, `maxSize, `response, `log
      ensures !expectingContinue && !headOnly && !upgrade && response == null
      ensures body.Absent? && requestBytes == 0 && bytesLeft == 0 && maxSize == AtMost(requestMaxSize)
      ensures log == History(wire, [], [], [], maxSize, Whole([], Stream(), 0), false, false)
    {
      expectingContinue, headOnly, upgrade := false, false, false;
      body, requestBytes, bytesLeft := Absent, 0, 0;
      maxSize, response := AtMost(requestMaxSize), null;
      log := History(wire, [], [], [], maxSize, Whole([], Stream(), 0), false, false);
    }

    // -------------------------------------------------------------- the transport

    /** Waits for the next delivery. That an expected 100 Continue never waits for input is a
        condition of every wait. */
    method ReceiveMore() returns (r: Outcome<()>)
      requires !expectingContinue
      modifies `recvBuffer, `network, `log
      ensures Stream() == old(Stream())
      ensures r.Ok? ==>
        && |old(network)| > 0 && network == old(network)[1..]
        && recvBuffer == old(recvBuffer) + old(network)[0] && log == old(log)
      ensures r.Err? ==>
        && r == Err(Cancelled) && log == old(log).(cancelled := true)
        && network == old(network) == [] && recvBuffer == old(recvBuffer) == Stream()
    {
      if network == [] {
        log := log.(cancelled := true);
        return Err(Cancelled);
      }
      recvBuffer, network := recvBuffer + network[0], network[1..];
      r := Ok(());
    }

    /** Hands `items` to the transport; `blocks` are the response blocks accepted by now. */
    method Write(items: seq<Sent>, ghost blocks: seq<Bytes>)
      requires wire == log.before + log.turn
      modifies `wire, `log
      ensures wire == old(wire) + items
      ensures log == old(log).(turn := old(log).turn + items, blocks := blocks)
      ensures wire == log.before + log.turn
    {
      assert log.before + (log.turn + items) == (log.before + log.turn) + items;
      wire := wire + items;
      log := log.(turn := log.turn + items, blocks := blocks);
    }

    // -------------------------------------------------------------- the request head

    /** Receives until the empty line that ends the head is in the buffer. `had` is what was buffered
        before the last wait: nothing is awaited once headerMaxSize + 3 octets, or the end of the head,
        are there. */
    method FindHead() returns (r: Outcome<nat>, ghost had: Bytes)
      requires !expectingContinue && Deliverable()
      modifies `recvBuffer, `network, `log
      ensures Stream() == old(Stream()) && Deliverable()
      ensures r.Ok? <==> 0 <= Find(CRLF_CRLF, Stream(), 0) < headerMaxSize
      ensures r.Ok? ==>
        r.value == Find(CRLF_CRLF, Stream(), 0) && r.value + 4 <= |recvBuffer| && log == old(log)
      ensures r.Err? ==>
        && (r.exc.PayloadTooLarge? || r.exc.Cancelled?)
        && log == old(log).(cancelled := old(log).cancelled || r.exc.Cancelled?)
      ensures r.Err? && r.exc.Cancelled? ==> Find(CRLF_CRLF, Stream(), 0) < 0 && |Stream()| < headerMaxSize + 3
      ensures recvBuffer == old(recvBuffer) ||
        (had <= recvBuffer && recvBuffer[|had|..] in old(network)
         && |had| < headerMaxSize + 3 && Find(CRLF_CRLF, had, 0) < 0)
    {
      var pos: nat := 0;
      had := [];
      while true
        invariant Stream() == old(Stream()) && Deliverable() && log == old(log)
        invariant forall d :: d in network ==> d in old(network)
        invariant recvBuffer == old(recvBuffer) ||
          (had <= recvBuffer && recvBuffer[|had|..] in old(network)
           && |had| < headerMaxSize + 3 && Find(CRLF_CRLF, had, 0) < 0)
        invariant forall i: nat :: i < pos ==> !OccursAt(CRLF_CRLF, recvBuffer, i)
        decreases |network|
      {
        var found := Find(CRLF_CRLF, recvBuffer, pos);
        if found != -1 {
          FindIs(CRLF_CRLF, recvBuffer, 0, found);
          FindInPrefix(CRLF_CRLF, recvBuffer, Flat(network), 0);
          pos := found;
          break;
        }
        NowhereYet(recvBuffer, pos);
        pos := if |recvBuffer| < 3 then 0 else |recvBuffer| - 3;
        if pos >= headerMaxSize {
          LateHead(recvBuffer, Flat(network));
          break;
        }
        var held := recvBuffer;
        var more := ReceiveMore();
        if more.Err? {
          return Err(more.exc), had;
        }
        had := held;
        EarlyPart(held, recvBuffer[|held|..], pos);
        assert held + recvBuffer[|held|..] == recvBuffer;
      }
      if pos >= headerMaxSize {
        return Err(PayloadTooLarge), had;
      }
      r := Ok(pos);
    }

    /** The loop over the header lines; `keep_alive` is set by the last Connection field. */
    method ScanHeaders(lines: seq<Bytes>) returns (r: Option<Scan>)
      modifies `keepAlive
      ensures r == ScanLines(Scan(old(keepAlive), false, []), lines)
      ensures r.Some? ==> keepAlive == r.value.keepAlive
    {
      ghost var start := Scan(keepAlive, false, []);
      var lengthSeen, fields := false, [];
      for i := 0 to |lines|
        invariant ScanLines(start, lines[..i]) == Some(Scan(keepAlive, lengthSeen, fields))
      {
        assert lines[..i + 1][..i] == lines[..i];
        var f := SplitLine(lines[i]);
        if f.None? {
          ScanStops(start, lines, i + 1);
          return None;
        }
        if IsLengthField(f.value) {
          if lengthSeen {
            ScanStops(start, lines, i + 1);
            return None;
          }
          lengthSeen := true;
        } else if f.value.name == Ascii("connection") {
          keepAlive := Lower(f.value.value) == Ascii("keep-alive");
        }
        fields := fields + [f.value];
      }
      assert lines[..|lines|] == lines;
      r := Some(Scan(keepAlive, lengthSeen, fields));
    }

    /** The state of a request about to be read. */
    ghost predicate Starting()
      reads this
    {
      && Deliverable() && stage.REQUEST? && responseFunc.HeaderFunc?
      && !expectingContinue && body.Absent? && requestBytes == 0 && bytesLeft == 0
      && log == History(wire, [], [], [], maxSize, log.expected, false, false)
    }

    /** Receives and parses a request head. It is accepted exactly when the first empty line of the
        whole input starts below the limit and the head before it parses; then the head is cut off the
        stream and what remains is the body that the one-shot reader sees. */
    method RequestHeader(accepted: bool) returns (r: Outcome<()>)
      requires Starting()
      modifies `recvBuffer, `network, `log, `keepAlive, `headOnly, `upgrade, `expectingContinue
      modifies `body, `requestBytes, `bytesLeft
      ensures Valid()
      ensures log == old(log).(expected := log.expected, cancelled := log.cancelled)
      ensures log.cancelled ==> r == Err(Cancelled)
      ensures var p := Find(CRLF_CRLF, old(Stream()), 0);
        if 0 <= p < headerMaxSize then
          match ParseHead(old(Stream())[..p], keepAliveAllowed, accepted)
          case Ok(h) => r.Ok? && keepAlive == h.keepAlive && headOnly == h.headOnly
                        && upgrade == h.upgrade && expectingContinue == h.expectContinue
          case Err(e) => r == Err(e)
        else r == Err(PayloadTooLarge) || r == Err(Cancelled)
      ensures r.Ok? ==> log.expected == Body() == Message(old(Stream()), headerMaxSize, keepAliveAllowed, accepted)
      ensures r.Err? ==> Stream() == old(Stream())
    {
      var found, had := FindHead();
      if found.Err? {
        return Err(found.exc);
      }
      r := TakeHead(found.value, accepted);
    }

    /** Parses the head that ends at `pos` and cuts it off the buffer. */
    method TakeHead(pos: nat, accepted: bool) returns (r: Outcome<()>)
      requires Starting() && pos + 4 <= |recvBuffer|
      modifies `recvBuffer, `log, `keepAlive, `headOnly, `upgrade, `expectingContinue
      modifies `body, `requestBytes, `bytesLeft
      ensures log == old(log).(expected := log.expected)
      ensures requestBytes == bytesLeft && (body.Absent? ==> bytesLeft == 0) && (r.Err? ==> bytesLeft == 0)
      ensures match ParseHead(old(Stream())[..pos], keepAliveAllowed, accepted)
        case Ok(h) =>
          && r.Ok? && keepAlive == h.keepAlive && headOnly == h.headOnly
          && upgrade == h.upgrade && expectingContinue == h.expectContinue
          && log.expected == Body() == Unread(h.kind, h.length, old(Stream())[BodyStart(pos, h.kind)..])
        case Err(e) => r == Err(e) && Stream() == old(Stream())
    {
      CutStream(recvBuffer, Flat(network), pos);
      r := ReadHead(recvBuffer[..pos], accepted);
      if r.Ok? {
        var cut := BodyStart(pos, body);
        CutStream(recvBuffer, Flat(network), cut);
        recvBuffer := recvBuffer[cut..];
        log := log.(expected := Body());
      }
    }

    /** The part of `http1_request_header` that works on the head alone. */
    method ReadHead(head: Bytes, accepted: bool) returns (r: Outcome<()>)
      requires !expectingContinue && body.Absent? && requestBytes == 0 && bytesLeft == 0
      modifies `keepAlive, `headOnly, `upgrade, `expectingContinue, `body, `requestBytes, `bytesLeft
      ensures match ParseHead(head, keepAliveAllowed, accepted)
        case Ok(h) =>
          && r.Ok? && keepAlive == h.keepAlive && headOnly == h.headOnly && upgrade == h.upgrade
          && expectingContinue == h.expectContinue && body == h.kind && requestBytes == bytesLeft == h.length
        case Err(e) =>
          r == Err(e) && requestBytes == bytesLeft == 0
      ensures body.Absent? ==> bytesLeft == 0
    {
      var lines := Split(head, CRLF);
      var line := ParseRequestLine(lines[0]);
      if line.None? {
        return Err(BadRequest);
      }
      keepAlive := line.value.http11;
      headOnly := line.value.toHead;
      var scan := ScanHeaders(lines[1..]);
      if scan.None? {
        return Err(BadRequest);
      }
      if !keepAliveAllowed {
        keepAlive := false;
      }
      upgrade := Upgrades(scan.value.fields);
      if !IsAscii(line.value.url) || !accepted {
        return Err(BadRequest);
      }
      if scan.value.lengthSeen {
        r := ReadBodyHeaders(scan.value.fields);
      } else {
        r := Ok(());
      }
    }

    /** The part of it that prepares for the request body. */
    method ReadBodyHeaders(fields: seq<Field>) returns (r: Outcome<()>)
      requires !expectingContinue && body.Absent? && requestBytes == 0 && bytesLeft == 0
      modifies `expectingContinue, `body, `requestBytes, `bytesLeft
      ensures match Expectation(fields)
        case Err(e) => r == Err(e) && requestBytes == bytesLeft == 0
        case Ok(b) =>
          match BodyFraming(fields)
          case Err(e) => r == Err(e) && requestBytes == bytesLeft == 0
          case Ok((kind, n)) => r.Ok? && expectingContinue == b && body == kind && requestBytes == bytesLeft == n
      ensures body.Absent? ==> bytesLeft == 0
    {
      var wanted := Expectation(fields);
      if wanted.Err? {
        return Err(wanted.exc);
      }
      expectingContinue := wanted.value;
      if FieldValue(fields, Ascii("transfer-encoding")) == Some(Ascii("chunked")) {
        body := Chunked;
      } else {
        body := Counted;
        var value := FieldValue(fields, Ascii("content-length"));
        var n := if value.Some? then SafeInt(value.value, 10) else None;
        if n.None? {
          return Err(BadRequest);
        }
        requestBytes, bytesLeft := n.value, n.value;
      }
      r := Ok(());
    }

    // -------------------------------------------------------------- the request body

    /** Reads some octets of the request body; `None` when there are no more. Every read takes exactly
        what it returns off the body that the one-shot reader sees, however the input was cut. */
    method Read() returns (r: Outcome<Option<Bytes>>)
      requires Valid()
      modifies `recvBuffer, `network, `wire, `log, `expectingContinue, `keepAlive
      modifies `body, `requestBytes, `bytesLeft
      ensures Valid()
      ensures !expectingContinue
      // Only a body that cannot be read on costs the connection.
      ensures keepAlive == (old(keepAlive) && (r.Err? ==> r.exc.Cancelled?))
      ensures log == old(log).(cancelled := log.cancelled, handed := log.handed, turn := log.turn)
      ensures log.turn == old(log).turn + (if old(expectingContinue) then [Continue] else [])
      ensures r.Ok? ==>
        && Leaves(old(Body()), Got(r.value), Body())
        && log.handed == old(log).handed + Got(r.value)
        && log.cancelled == old(log).cancelled
        && (r.value.Some? ==> Within(|log.handed|, maxSize))
        && (if r.value.None? then body.Absent?
            else r.value != Some([]) && body == old(body) && |Stream()| < |old(Stream())|)
      ensures r.Err? ==>
        && ReadFailure(r.exc, old(Body()), |log.handed|, maxSize)
        && log.handed == old(log).handed
        && log.cancelled == (old(log).cancelled || r.exc.Cancelled?)
      // Over the limit no read hands out anything, and unless the next chunk header is still to be
      // read, nothing is even taken off the stream.
      ensures !Within(old(requestBytes), maxSize) ==> log.handed == old(log).handed
      ensures !Within(old(requestBytes), maxSize) && (old(bytesLeft) > 0 || !old(body).Chunked?) ==>
        r == Err(PayloadTooLarge) && Stream() == old(Stream()) && bytesLeft == old(bytesLeft)
    {
      SendContinue();
      ghost var b := Body();
      r := ReadBody();
      if r.Ok? {
        LeavesThen(log.expected, old(log).handed, b, Got(r.value), Body());
      }
    }

    /** Sends a 100 Continue if one is expected. */
    method SendContinue()
      requires Valid()
      modifies `wire, `log, `expectingContinue
      ensures Valid() && !expectingContinue
      ensures log == old(log).(turn := old(log).turn + (if old(expectingContinue) then [Continue] else []))
    {
      if expectingContinue {
        expectingContinue := false;
        Write([Continue], log.blocks);
      }
    }

    /** The part of `read` that works on the input. */
    method ReadBody() returns (r: Outcome<Option<Bytes>>)
      requires Deliverable() && !expectingContinue && |log.handed| + bytesLeft == requestBytes
      requires body.Absent? ==> bytesLeft == 0
      modifies `recvBuffer, `network, `log, `keepAlive, `body, `requestBytes, `bytesLeft
      ensures Deliverable() && |log.handed| + bytesLeft == requestBytes
      ensures body.Absent? ==> bytesLeft == 0
      ensures keepAlive == (old(keepAlive) && (r.Err? ==> r.exc.Cancelled?))
      ensures log == old(log).(cancelled := log.cancelled, handed := log.handed)
      ensures r.Ok? ==>
        && Leaves(old(Body()), Got(r.value), Body())
        && log == old(log).(handed := old(log).handed + Got(r.value))
        && (r.value.Some? ==> Within(|log.handed|, maxSize))
        && (if r.value.None? then body.Absent?
            else r.value != Some([]) && body == old(body) && |Stream()| < |old(Stream())|)
      ensures r.Err? ==>
        && ReadFailure(r.exc, old(Body()), |log.handed|, maxSize)
        && log.handed == old(log).handed
        && (if r.exc.Cancelled? then log.cancelled else log == old(log))
      ensures !Within(old(requestBytes), maxSize) ==> log.handed == old(log).handed
      ensures !Within(old(requestBytes), maxSize) && (old(bytesLeft) > 0 || !old(body).Chunked?) ==>
        r == Err(PayloadTooLarge) && Stream() == old(Stream()) && bytesLeft == old(bytesLeft)
    {
      if bytesLeft == 0 && body.Chunked? {
        var header := ReadChunkHeader();
        if header.Err? {
          return Err(header.exc);
        }
        if !header.value {
          return Ok(None);
        }
      }
      if !Within(requestBytes, maxSize) {
        if Body().Whole? {
          UnreadShrinks(body, bytesLeft, Stream());
        }
        keepAlive := false;
        return Err(PayloadTooLarge);
      }
      if bytesLeft == 0 {
        body := Absent;
        return Ok(None);
      }
      r := ReadData();
    }

    /** Takes the chunk header off the buffer; false at the last chunk. */
    method ReadChunkHeader() returns (r: Outcome<bool>)
      requires Deliverable() && !expectingContinue && body.Chunked? && bytesLeft == 0
      modifies `recvBuffer, `network, `log, `keepAlive, `body, `requestBytes, `bytesLeft
      ensures Deliverable() && keepAlive == (old(keepAlive) && (r.Err? ==> r.exc.Cancelled?))
      ensures r.Err? ==> bytesLeft == 0 && requestBytes == old(requestBytes)
      ensures log == old(log).(cancelled := log.cancelled)
      ensures r.Ok? ==>
        && Leaves(old(Body()), [], Body()) && |Stream()| < |old(Stream())|
        && requestBytes == old(requestBytes) + bytesLeft && log == old(log)
        && (if r.value then body.Chunked? && bytesLeft > 0 else body.Absent? && bytesLeft == 0)
      ensures r.Err? ==>
        && (r.exc.Cancelled? || r.exc.BadRequest?)
        && ReadFailure(r.exc, old(Body()), |log.handed|, maxSize)
        && (if r.exc.Cancelled? then log.cancelled else log == old(log))
    {
      var found := FindSizeLine();
      if found.Err? {
        return Err(found.exc);
      }
      r := TakeChunkHeader(found.value);
    }

    /** Takes the chunk header whose size line ends at `pos`. */
    method TakeChunkHeader(pos: nat) returns (r: Outcome<bool>)
      requires Deliverable() && !expectingContinue && body.Chunked? && bytesLeft == 0
      requires 3 <= pos && pos + 2 <= |recvBuffer| && Find(CRLF, Stream(), 3) == pos
      requires recvBuffer[2..pos] == Stream()[2..pos]
      modifies `recvBuffer, `network, `log, `keepAlive, `body, `requestBytes, `bytesLeft
      ensures Deliverable() && keepAlive == (old(keepAlive) && (r.Err? ==> r.exc.Cancelled?))
      ensures r.Err? ==> bytesLeft == 0 && requestBytes == old(requestBytes) && !old(Body()).Whole?
      ensures r.Ok? ==>
        && Leaves(old(Body()), [], Body()) && |Stream()| < |old(Stream())|
        && requestBytes == old(requestBytes) + bytesLeft && log == old(log)
        && (if r.value then body.Chunked? && bytesLeft > 0 else body.Absent? && bytesLeft == 0)
      ensures r.Err? ==>
        (r.exc.Cancelled? && log == old(log).(cancelled := true)) || (r.exc.BadRequest? && log == old(log))
    {
      var size := ChunkSize(recvBuffer[2..pos]);
      if size.None? {
        keepAlive := false;
        return Err(BadRequest);
      }
      HeaderLeaves(Stream());
      if size.value == 0 {
        r := EndChunks(pos + 4);
        return;
      }
      StartChunk(pos + 2, size.value);
      r := Ok(true);
    }

    /** Cuts off a chunk header of `n` octets that announced `size`. */
    method StartChunk(n: nat, size: nat)
      requires n <= |recvBuffer|
      modifies `recvBuffer, `requestBytes, `bytesLeft
      ensures Stream() == old(Stream())[n..]
      ensures bytesLeft == size && requestBytes == old(requestBytes) + size
    {
      CutStream(recvBuffer, Flat(network), n);
      recvBuffer := recvBuffer[n..];
      bytesLeft := size;
      requestBytes := requestBytes + size;
    }

    /** Cuts off the last chunk, once the CRLF after it has arrived. */
    method EndChunks(n: nat) returns (r: Outcome<bool>)
      requires !expectingContinue && Deliverable()
      modifies `recvBuffer, `network, `log, `body
      ensures Deliverable() && body.Absent?
      ensures r.Ok? ==> !r.value && n <= |old(Stream())| && Stream() == old(Stream())[n..] && log == old(log)
      ensures r.Err? ==> r.exc.Cancelled? && |old(Stream())| < n && log == old(log).(cancelled := true)
    {
      body := Absent;
      var last := WaitFor(n);
      if last.Err? {
        return Err(last.exc);
      }
      CutStream(recvBuffer, Flat(network), n);
      recvBuffer := recvBuffer[n..];
      r := Ok(false);
    }

    /** Receives until the CRLF that ends a size line is in the buffer. */
    method FindSizeLine() returns (r: Outcome<nat>)
      requires !expectingContinue && Deliverable()
      modifies `recvBuffer, `network, `log, `keepAlive
      ensures Stream() == old(Stream()) && Deliverable()
      ensures r.Ok? ==>
        && 3 <= r.value && r.value + 2 <= |recvBuffer|
        && Find(CRLF, recvBuffer, 3) == Find(CRLF, Stream(), 3) == r.value
        && recvBuffer[2..r.value] == Stream()[2..r.value]
        && log == old(log) && keepAlive == old(keepAlive)
      ensures r.Err? ==>
        var p := Find(CRLF, Stream(), 3);
        if r.exc.Cancelled? then p < 0 && log == old(log).(cancelled := true) && keepAlive == old(keepAlive)
        else r.exc.BadRequest? && (p < 0 || p >= 64) && log == old(log) && !keepAlive
    {
      while true
        invariant Stream() == old(Stream()) && Deliverable() && log == old(log) && keepAlive == old(keepAlive)
        decreases |network|
      {
        var pos := Find(CRLF, recvBuffer, 3);
        if pos != -1 {
          FindInPrefix(CRLF, recvBuffer, Flat(network), 3);
          return Ok(pos);
        }
        if |recvBuffer| > 64 {
          LateLine(recvBuffer, Flat(network));
          keepAlive := false;
          return Err(BadRequest);
        }
        var more := ReceiveMore();
        if more.Err? {
          return Err(more.exc);
        }
      }
    }

    /** Receives until the buffer holds `n` octets. */
    method WaitFor(n: nat) returns (r: Outcome<()>)
      requires !expectingContinue && Deliverable()
      modifies `recvBuffer, `network, `log
      ensures Stream() == old(Stream()) && Deliverable() && old(recvBuffer) <= recvBuffer
      ensures r.Ok? ==> |recvBuffer| >= n && log == old(log)
      ensures r.Err? ==> r.exc.Cancelled? && |Stream()| < n && log == old(log).(cancelled := true)
    {
      while |recvBuffer| < n
        invariant Stream() == old(Stream()) && Deliverable() && log == old(log) && old(recvBuffer) <= recvBuffer
        decreases |network|
      {
        var more := ReceiveMore();
        if more.Err? {
          return Err(more.exc);
        }
      }
      r := Ok(());
    }

    /** Waits for a delivery if nothing is buffered. */
    method AnyInput() returns (r: Outcome<()>)
      requires !expectingContinue && Deliverable()
      modifies `recvBuffer, `network, `log
      ensures Stream() == old(Stream()) && Deliverable()
      ensures r.Ok? ==> recvBuffer != [] && log == old(log)
      ensures r.Err? ==> r.exc.Cancelled? && Stream() == [] && log == old(log).(cancelled := true)
    {
      r := Ok(());
      if recvBuffer == [] {
        r := ReceiveMore();
      }
    }

    /** Hands out up to the octets left. */
    method ReadData() returns (r: Outcome<Option<Bytes>>)
      requires Deliverable() && !expectingContinue && bytesLeft > 0
      modifies `recvBuffer, `network, `log, `bytesLeft
      ensures Deliverable() && |log.handed| + bytesLeft == old(|log.handed| + bytesLeft)
      ensures log == old(log).(cancelled := log.cancelled, handed := log.handed)
      ensures r.Ok? ==>
        && r.value.Some? && r.value.value != []
        && Leaves(old(Body()), r.value.value, Body())
        && log == old(log).(handed := old(log).handed + r.value.value)
        && |Stream()| < |old(Stream())|
      ensures r.Err? ==>
        && r.exc.Cancelled? && !old(Body()).Whole? && log == old(log).(cancelled := true)
    {
      var ready := AnyInput();
      if ready.Err? {
        return Err(ready.exc);
      }
      var data := TakeData();
      r := Ok(Some(data));
    }

    method TakeData() returns (data: Bytes)
      requires recvBuffer != [] && bytesLeft > 0
      modifies `recvBuffer, `log, `bytesLeft
      ensures data != [] && |data| + bytesLeft == old(bytesLeft)
      ensures Leaves(old(Body()), data, Body()) && |Stream()| < |old(Stream())|
      ensures log == old(log).(handed := old(log).handed + data)
    {
      var size := if |recvBuffer| < bytesLeft then |recvBuffer| else bytesLeft;
      data := recvBuffer[..size];
      TakeLeaves(body, bytesLeft, recvBuffer, Flat(network), size);
      recvBuffer := recvBuffer[size..];
      bytesLeft := bytesLeft - size;
      log := log.(handed := log.handed + data);
    }

    /** The whole body: what iterating over the stream yields, joined. If a complete body is at the
        front of the stream, its size lines fit and it is within the limit, then it is returned exactly
        and exactly it is removed, whatever the deliveries. */
    method ReceiveBody() returns (r: Outcome<Bytes>)
      requires Valid()
      modifies `recvBuffer, `network, `wire, `log, `expectingContinue, `keepAlive
      modifies `body, `requestBytes, `bytesLeft
      ensures Valid()
      ensures keepAlive == (old(keepAlive) && (r.Err? ==> r.exc.Cancelled?))
      ensures log == old(log).(cancelled := log.cancelled, handed := log.handed, turn := log.turn)
      ensures log.handed == old(log).handed || Within(|log.handed|, maxSize)
      ensures !log.headless && !responseFunc.HeaderFunc? ==> log.turn == old(log).turn
      ensures r.Ok? ==> body.Absent? && Leaves(old(Body()), r.value, Body()) && log.cancelled == old(log).cancelled
      ensures r.Err? ==> log.cancelled == (old(log).cancelled || r.exc.Cancelled?)
      ensures r.Err? ==> r.exc.Cancelled? || r.exc.BadRequest? || r.exc.PayloadTooLarge?
      ensures old(Body()).Whole? && old(Body()).line < 64
              && Within(|old(log).handed| + |old(Body()).payload|, maxSize)
              ==> r == Ok(old(Body()).payload) && Stream() == old(Body()).rest
    {
      ghost var b, h := Body(), |log.handed|;
      r := Ok([]);
      LeavesAll(b);
      while !body.Absent?
        invariant Valid() && r.Ok?
        invariant keepAlive == old(keepAlive)
        invariant log.handed == old(log).handed || Within(|log.handed|, maxSize)
        invariant log == old(log).(handed := log.handed, turn := log.turn)
        invariant log.turn == old(log).turn || old(expectingContinue)
        invariant expectingContinue ==> old(expectingContinue)
        invariant Leaves(b, r.value, Body()) && |log.handed| == h + |r.value|
        decreases if body.Absent? then 0 else 1 + |Stream()|
      {
        ghost var b' := Body();
        var data := Read();
        if data.Err? {
          return Err(data.exc);
        }
        LeavesThen(b, r.value, b', Got(data.value), Body());
        r := Ok(r.value + Got(data.value));
      }
      if b.Whole? {
        assert r.value + [] == r.value;
      }
    }

    // -------------------------------------------------------------- the response

    /** Everything about the input, and all of the history but the output, is as it was. */
    twostate predicate InputKept()
      reads this
    {
      && unchanged(`recvBuffer, `network, `keepAlive, `headOnly, `upgrade, `body, `requestBytes, `bytesLeft,
                   `maxSize, `response)
      && log == old(log).(turn := log.turn, blocks := log.blocks, headless := log.headless)
    }

    /** A send leaves a started request started, does not mark it FAILED, and expects no 100 Continue anew;
        one that is refused leaves the stage alone. */
    twostate predicate StageKept(refused: bool)
      reads this
    {
      && !stage.REQUEST? && (stage.FAILED? ==> old(stage).FAILED?) && (expectingContinue ==> old(expectingContinue))
      && (refused && !old(responseFunc).IgnoredFunc? ==> stage == old(stage))
    }

    twostate lemma ReaderKept()
      requires old(ReaderInv()) && InputKept() && !old(stage).REQUEST? && !stage.REQUEST?
      ensures ReaderInv()
    {
    }

    /** The first block was longer than the declared length. */
    ghost predicate Stuck()
      reads this
    {
      responseFunc.NormalFunc? && responseBytesLeft < 0 && !expectingContinue && !log.headless
    }

    /** The effect of a first send of `block`. */
    ghost predicate FirstSent(was: History, block: Bytes, ends: bool, v: ResponseValue, r: Outcome<()>)
      reads this
    {
      && r == FirstSend(v, headOnly, ends)
      && (r.Ok? ==>
          && !log.headless && Started(log.turn)
          && HeadOf(log.turn).status == v.status && HeadOf(log.turn).keepAlive == keepAlive
          && responseFunc == NextFunc(v, headOnly, ends)
          && stage == (if ends || !HasMessageBody(v.status) then IDLE else RESPONSE)
          && (Ambiguous(HeadOf(log.turn), headOnly) <==> SaysTwice(v, headOnly, ends))
          && IntendedFraming(WrittenFraming(HeadOf(log.turn), headOnly), v, headOnly, ends, block)
          && (HasMessageBody(v.status) && !headOnly ==> log.blocks == [block])
          && (responseFunc.NormalFunc? ==>
              && v.length == Declared(responseBytesLeft + |block|)
              && HeadOf(log.turn).length == Some(v.length.n) && BodyOf(log.turn) == block))
      && (r.Err? ==>
          && log == was.(headless := r.exc.IndexError?)
          && (responseFunc.NormalFunc? ==> v.length == Declared(responseBytesLeft + |block|))
          && responseFunc == if r.exc.IndexError? then NextFunc(v, headOnly, ends) else HeaderFunc)
    }

    /** The effect of one send, by the response state it met. The framing of what was written is
        `Progress`, which every state satisfies; this adds which data it carries and when it is refused. */
    ghost predicate Sends(func: Func, left: int, was: History, data: Bytes, end: bool,
                          v: ResponseValue, r: Outcome<()>)
      reads this
    {
      match func
      case HeaderFunc =>
        FirstSent(was, if data == [] then v.body else data, end || (data == [] && v.body != []), v, r)
      case NormalFunc =>
        var left' := left - |data|;
        if left' < 0 || (left' > 0 && end) then
          r == Err(ServerError) && log == was && responseFunc == func && responseBytesLeft == left
        else
          && r.Ok? && log == was.(turn := was.turn + [Data(data)], blocks := was.blocks + [data])
          && (!was.headless ==> SameHead(was.turn, log.turn))
          && responseBytesLeft == left'
          && (if left' == 0 then responseFunc.Ended? && stage.IDLE? else responseFunc == func)
      case ChunkedFunc =>
        && r.Ok? && log.blocks == was.blocks + [data] && log.headless == was.headless
        && log.turn == (if end || data != [] then was.turn + [Data(ChunkedOut(data, end))] else was.turn)
        && (!was.headless ==> SameHead(was.turn, log.turn))
        && (if end then responseFunc.Ended? && stage.IDLE? else responseFunc == func)
      case IgnoredFunc =>
        && r == Err(TypeError) && log == was
        && (if end then responseFunc.Ended? && stage.IDLE? else responseFunc == func)
      case Ended => false
    }

    /** `self.stream.send(data, end_stream)`: calls whatever `response_func` is. */
    method Dispatch(data: Bytes, end: bool) returns (r: Outcome<()>)
      requires Valid() && response != null && !responseFunc.Ended? && !stage.REQUEST?
      modifies `stage, `wire, `log, `responseFunc, `responseBytesLeft, `expectingContinue, response
      ensures Valid() && InputKept() && StageKept(r.Err?) && r != Err(Cancelled)
      ensures response.stream == old(response.stream)
      ensures Sends(old(responseFunc), old(responseBytesLeft), old(log), data, end,
                    old(response.Value()), r)
      ensures response.status == old(response.status)
      ensures !old(responseFunc).HeaderFunc? || responseFunc.HeaderFunc? ==> response.coding == old(response.coding)
    {
      match responseFunc {
        case HeaderFunc => r := SendHeader(data, end);
        case NormalFunc => r := SendNormal(data, end);
        case ChunkedFunc => r := SendChunked(data, end);
        case IgnoredFunc => r := SendIgnored(end);
      }
      ReaderKept();
    }

    /** `http1_response_chunked`. */
    method SendChunked(data: Bytes, end: bool) returns (r: Outcome<()>)
      requires WriterInv() && responseFunc.ChunkedFunc? && !stage.REQUEST?
      modifies `stage, `wire, `log, `responseFunc
      ensures WriterInv() && InputKept() && !stage.REQUEST?
      ensures r.Ok? && log.blocks == old(log).blocks + [data] && log.headless == old(log).headless
      ensures !log.headless ==> SameHead(old(log).turn, log.turn)
      ensures log.turn ==
        if end || data != [] then old(log).turn + [Data(ChunkedOut(data, end))] else old(log).turn
      ensures if end then responseFunc.Ended? && stage.IDLE? else responseFunc.ChunkedFunc? && stage == old(stage)
    {
      if !log.headless {
        ResponseWire.ChunkedStep(log.turn, headOnly, responseBytesLeft, log.blocks, data, end);
      }
      if end || data != [] {
        Write([Data(ChunkedOut(data, end))], log.blocks + [data]);
      } else {
        log := log.(blocks := log.blocks + [data]);
      }
      if end {
        responseFunc, stage := Ended, IDLE;
      }
      r := Ok(());
    }

    /** `http1_response_normal`: refuses, before writing, what would not fit the declared length. */
    method SendNormal(data: Bytes, end: bool) returns (r: Outcome<()>)
      requires WriterInv() && responseFunc.NormalFunc? && !stage.REQUEST?
      modifies `stage, `wire, `log, `responseFunc, `responseBytesLeft
      ensures WriterInv() && InputKept() && StageKept(r.Err?)
      ensures Sends(NormalFunc, old(responseBytesLeft), old(log), data, end,
                    ResponseValue(200, [], Undeclared, None), r)
    {
      var left := responseBytesLeft - |data|;
      if left < 0 || (left > 0 && end) {
        return Err(ServerError);
      }
      if !log.headless {
        NormalStep(log.turn, headOnly, responseBytesLeft, log.blocks, data);
      }
      Write([Data(data)], log.blocks + [data]);
      if left == 0 {
        responseFunc, stage := Ended, IDLE;
      }
      responseBytesLeft := left;
      r := Ok(());
    }

    /** `head_response_ignored`. It is a plain function whose result, `None`, the caller awaits: so it
        updates the state and the call then raises TypeError. */
    method SendIgnored(end: bool) returns (r: Outcome<()>)
      requires WriterInv() && responseFunc.IgnoredFunc? && !stage.REQUEST?
      modifies `stage, `responseFunc
      ensures WriterInv() && InputKept() && !stage.REQUEST?
      ensures r == Err(TypeError)
      ensures if end then responseFunc.Ended? && stage.IDLE? else responseFunc.IgnoredFunc? && stage == old(stage)
    {
      if end {
        responseFunc, stage := Ended, IDLE;
      }
      r := Err(TypeError);
    }

    /** `http1_response_header`: formats the head, choosing the framing, and sends it with the first block. */
    method SendHeader(first: Bytes, endStream: bool) returns (r: Outcome<()>)
      requires WriterInv() && response != null && responseFunc.HeaderFunc? && !stage.REQUEST?
      modifies `stage, `wire, `log, `responseFunc, `responseBytesLeft, `expectingContinue, response
      ensures WriterInv() && InputKept() && StageKept(r.Err?)
      ensures response.stream == old(response.stream)
      ensures Sends(HeaderFunc, old(responseBytesLeft), old(log), first, endStream,
                    old(response.Value()), r)
      ensures response.status == old(response.status)
      ensures responseFunc.HeaderFunc? ==> response.coding == old(response.coding)
      // A 100 Continue still expected goes out now, in front of the head, unless the answer is 417.
      ensures r.Ok? ==>
        Lead(log.turn) == if old(expectingContinue) && response.status != 417 then 1 else |old(log).turn|
    {
      var data, end := first, endStream;
      if data == [] && response.body != [] {
        data, end := response.body, true;
      }
      if response.status < 200 {
        return Err(RuntimeError);
      }
      r := SendFirst(data, end);
    }

    /** The rest of it, for a possible status. */
    method SendFirst(data: Bytes, end: bool) returns (r: Outcome<()>)
      requires WriterInv() && response != null && responseFunc.HeaderFunc? && !stage.REQUEST?
      requires response.status >= 200
      modifies `stage, `wire, `log, `responseFunc, `responseBytesLeft, `expectingContinue, response
      ensures WriterInv() && InputKept() && StageKept(r.Err?)
      ensures response.stream == old(response.stream) && response.status == old(response.status)
      ensures FirstSent(old(log), data, end, old(response.Value()), r)
      ensures responseFunc.HeaderFunc? ==> response.coding == old(response.coding)
      ensures r.Ok? ==>
        Lead(log.turn) == if old(expectingContinue) && response.status != 417 then 1 else |old(log).turn|
    {
      var framing := ChooseFraming(data, end);
      if framing.Err? {
        return Err(framing.exc);
      }
      if response.status >= 1000 {
        // There is no status line for it: formatting raises, but `response_func` is already changed.
        log := log.(headless := true);
        return Err(IndexError);
      }
      SendOpening(framing.value.0, framing.value.1, AcceptedFirst(data));
      r := Ok(());
    }

    /** Sends the head and the first block, after a 100 Continue if one is still expected. */
    method SendOpening(out: Bytes, ends: bool, ghost blocks: seq<Bytes>)
      requires wire == log.before + log.turn && !stage.REQUEST?
      requires !log.headless && NotStarted(log.turn) && (expectingContinue ==> log.turn == [])
      requires response != null && response.status >= 0 && !responseFunc.HeaderFunc?
      requires ends ==> responseFunc.Ended? || responseFunc.IgnoredFunc?
      requires responseFunc.Ended? ==> ends
      requires Behind(CurrentHead(), headOnly, responseFunc, responseBytesLeft, out, blocks)
      modifies `stage, `wire, `log, `expectingContinue
      ensures WriterInv() && InputKept()
      ensures stage == if ends then IDLE else RESPONSE
      ensures !log.headless && Started(log.turn) && HeadOf(log.turn) == CurrentHead() && log.blocks == blocks
      ensures BodyOf(log.turn) == out
      ensures Lead(log.turn) == if old(expectingContinue) && response.status != 417 then 1 else |old(log).turn|
    {
      var interim := expectingContinue && response.status != 417;
      SendHead(log.turn, interim, CurrentHead(), out);
      Write(Opening(interim, CurrentHead(), out), blocks);
      expectingContinue := false;
      stage := if ends then IDLE else RESPONSE;
    }

    /** The head that the response object formats to. */
    function CurrentHead(): Head
      requires response != null && response.status >= 0
      reads this, response
    {
      Head(response.status, if response.length.Declared? then Some(response.length.n) else None,
           response.coding, keepAlive)
    }

    /** The block a first send carries, if the response can carry one. */
    ghost function AcceptedFirst(data: Bytes): seq<Bytes>
      requires response != null
      reads this, response
    {
      if headOnly || !HasMessageBody(response.status) then [] else [data]
    }

    /** The framing decision: sets the framing headers and the next `response_func`, and returns the
        bytes of the first block with whether the response is complete. */
    method ChooseFraming(data: Bytes, end: bool) returns (r: Outcome<(Bytes, bool)>)
      requires response != null && response.status >= 200
      modifies `responseFunc, `responseBytesLeft, response
      ensures response.stream == old(response.stream) && response.status == old(response.status)
      ensures var v := old(response.Value());
        if HasMessageBody(v.status) && !end && !headOnly && v.length.Garbled? then
          r == Err(ValueError) && unchanged(response) && responseFunc == old(responseFunc)
        else
          && r.Ok? && r.value.1 == (end || !HasMessageBody(v.status))
          && responseFunc == NextFunc(v, headOnly, end)
          && (Ambiguous(CurrentHead(), headOnly) <==> SaysTwice(v, headOnly, end))
          && IntendedFraming(WrittenFraming(CurrentHead(), headOnly), v, headOnly, end, data)
          && (responseFunc.NormalFunc? ==>
              && v.length == Declared(responseBytesLeft + |data|)
              && CurrentHead().length == Some(v.length.n) && r.value.0 == data)
          && Behind(CurrentHead(), headOnly, responseFunc, responseBytesLeft, r.value.0, AcceptedFirst(data))
    {
      assert Flat([data]) == data + Flat([]) == data;
      assert Chunks([data]) == Chunk(data) + Chunks([]) == Chunk(data);
      var out, ends := data, end;
      if !HasMessageBody(response.status) {
        responseFunc := Ended;
        if out != [] || !ends || !response.length.Undeclared? || response.coding.Some? {
          out, ends := [], true;
          response.length, response.coding := Undeclared, None;
        }
      } else if headOnly && !response.length.Undeclared? {
        responseFunc := Ended;
      } else if ends {
        response.length := Declared(|out|);
        responseFunc := Ended;
      } else if !response.length.Undeclared? {
        if response.length.Garbled? {
          return Err(ValueError);
        }
        responseBytesLeft := response.length.n - |out|;
        responseFunc := NormalFunc;
      } else {
        response.coding := Some(ChunkedCoding);
        out := Chunk(out);
        responseFunc := ChunkedFunc;
      }
      if headOnly {
        out := [];
        responseFunc := IgnoredFunc;
      }
      r := Ok((out, ends));
    }

    /** `respond`: connects a response object; only before anything was sent. */
    method Respond(res: Response) returns (r: Outcome<()>)
      requires Valid() && !stage.REQUEST?
      requires response != null ==> response.stream == this
      modifies `stage, `response, response, res
      ensures Valid() && !stage.REQUEST?
      ensures res.Kept() && (old(response) != null ==> old(response).Kept())
      ensures if old(stage).HANDLER? then
          && r.Ok? && response == res && res.stream == this && stage.HANDLER?
          && (old(response) != null && old(response) != res ==> old(response).stream == null)
        else
          r == Err(RuntimeError) && stage.FAILED? && response == old(response) && unchanged(res)
          && (response != null ==> unchanged(response))
    {
      if !stage.HANDLER? {
        stage := FAILED;
        return Err(RuntimeError);
      }
      if response != null {
        response.stream := null;
      }
      response := res;
      res.stream := this;
      r := Ok(());
    }

    // -------------------------------------------------------------- running a request

    /** Of the response objects of this request, at most the current one is connected. */
    ghost predicate Connected(objs: seq<Response>)
      reads this, objs
    {
      && (response != null ==> response in objs && response.stream == this)
      && forall i :: 0 <= i < |objs| ==> objs[i].stream == null || (objs[i].stream == this && objs[i] == response)
    }

    ghost predicate Tidy(objs: seq<Response>)
      reads this, objs
    {
      && !log.headless
      && (Started(log.turn) ==> !Ambiguous(HeadOf(log.turn), headOnly))
      && forall i :: 0 <= i < |objs| ==> objs[i].status < 1000 && (responseFunc.HeaderFunc? ==> objs[i].coding.None?)
    }

    /** It is still the same request, and nothing revives the connection. */
    twostate predicate SameRequest()
      reads this
    {
      && unchanged(`headOnly, `upgrade)
      && log.before == old(log).before && log.expected == old(log).expected
      && (keepAlive ==> old(keepAlive))
      && !stage.REQUEST?
      && NoHigher(old(log).largest, log.largest)
      // Behind an oversized first block nothing is ever written again.
      && (old(Stuck()) ==> Stuck() && log.turn == old(log).turn)
    }

    method Perform(op: Op, objs: seq<Response>) returns (r: Outcome<()>, objs': seq<Response>)
      requires Valid() && !stage.REQUEST? && Connected(objs)
      modifies this, objs
      ensures Valid() && Connected(objs') && SameRequest()
      ensures objs' == objs || (|objs'| == |objs| + 1 && objs'[..|objs|] == objs && fresh(objs'[|objs|]))
      ensures log.cancelled && !old(log).cancelled ==> r == Err(Cancelled)
      ensures TidyOp(op) && old(Tidy(objs)) ==> Tidy(objs')
      ensures match op
        case RespondOp(_, _, _, _) =>
          |objs'| == |objs| + 1 && (if old(stage).HANDLER? then r.Ok? && response == objs'[|objs|] else stage.FAILED?)
        case SetLimit(limit) => r.Ok? && maxSize == limit
        case RaiseOp(exc) => r == Err(exc) && unchanged(this)
        case SendOp(k, data, end) =>
          k < |objs| && old(objs[k].stream) == this && !old(responseFunc).Ended? ==>
            Sends(old(responseFunc), old(responseBytesLeft), old(log), Got(data), Ends(data, end),
                  old(objs[k].Value()), r)
        case RespondAgain(k) =>
          k < |objs| ==>
            if old(stage).HANDLER? then r.Ok? && response == objs[k] else r == Err(RuntimeError) && stage.FAILED?
        case ResetResponse =>
          if old(stage).HANDLER? then r.Ok? && response == null else r == Err(ServerError) && response == old(response)
        case ReadOp =>
          old(log).handed <= log.handed && (r.Ok? ==> Leaves(old(Body()), log.handed[|old(log).handed|..], Body()))
      ensures !op.ReadOp? ==> keepAlive == old(keepAlive)
      ensures !Responds(op) ==> (stage.FAILED? ==> old(stage).FAILED?)
      ensures !op.SendOp? && old(stage).HANDLER? ==> stage.HANDLER?
      ensures r == Err(Cancelled) ==> op.ReadOp? || op == RaiseOp(Cancelled)
      ensures !op.SetLimit? ==> maxSize == old(maxSize)
      // A body that can be read to its end within the limits stays so, and its connection is not lost.
      ensures old(Drainable()) && (op.SetLimit? ==> op.limit.Unlimited?) ==>
        Drainable() && keepAlive == old(keepAlive) && (op.ReadOp? ==> r.Ok?)
    {
      r, objs' := Ok(()), objs;
      match op {
        case ReadOp =>
          r := ReadOnce(objs);
        case SetLimit(limit) =>
          LimitTo(limit, objs);
        case RaiseOp(exc) =>
          r := Err(exc);
        case _ =>
          r, objs' := PerformOnResponse(op, objs);
      }
    }

    /** The actions on response objects. */
    method PerformOnResponse(op: Op, objs: seq<Response>) returns (r: Outcome<()>, objs': seq<Response>)
      requires Valid() && !stage.REQUEST? && Connected(objs)
      requires Responds(op) || op.ResetResponse? || op.SendOp?
      modifies this, objs
      ensures Valid() && Connected(objs') && SameRequest()
      ensures objs' == objs || (|objs'| == |objs| + 1 && objs'[..|objs|] == objs && fresh(objs'[|objs|]))
      ensures unchanged(`recvBuffer, `network, `body, `bytesLeft, `maxSize, `keepAlive)
      ensures log.handed == old(log).handed && log.cancelled == old(log).cancelled && r != Err(Cancelled)
      ensures TidyOp(op) && old(Tidy(objs)) ==> Tidy(objs')
      ensures match op
        case RespondOp(_, _, _, _) =>
          |objs'| == |objs| + 1 && (if old(stage).HANDLER? then r.Ok? && response == objs'[|objs|] else stage.FAILED?)
        case SendOp(k, data, end) =>
          k < |objs| && old(objs[k].stream) == this && !old(responseFunc).Ended? ==>
            Sends(old(responseFunc), old(responseBytesLeft), old(log), Got(data), Ends(data, end),
                  old(objs[k].Value()), r)
        case RespondAgain(k) =>
          k < |objs| ==>
            if old(stage).HANDLER? then r.Ok? && response == objs[k] else r == Err(RuntimeError) && stage.FAILED?
        case ResetResponse =>
          if old(stage).HANDLER? then r.Ok? && response == null else r == Err(ServerError) && response == old(response)
      ensures !Responds(op) ==> (stage.FAILED? ==> old(stage).FAILED?)
      ensures !op.SendOp? && old(stage).HANDLER? ==> stage.HANDLER?
    {
      r, objs' := Ok(()), objs;
      match op {
        case RespondOp(status, body, length, coding) =>
          r, objs' := RespondWith(status, body, length, coding, objs);
        case RespondAgain(k) =>
          if k < |objs| {
            r := RespondAgainWith(objs[k], objs);
          }
        case SendOp(k, data, end) =>
          if k < |objs| {
            r := SendOn(objs[k], data, end, objs);
          }
        case ResetResponse =>
          r := ResetFor(objs);
      }
    }

    method ReadOnce(objs: seq<Response>) returns (r: Outcome<()>)
      requires Valid() && !stage.REQUEST? && Connected(objs)
      modifies `recvBuffer, `network, `wire, `log, `expectingContinue, `keepAlive
      modifies `body, `requestBytes, `bytesLeft
      ensures Valid() && Connected(objs) && SameRequest()
      ensures log.cancelled && !old(log).cancelled ==> r == Err(Cancelled)
      ensures old(Tidy(objs)) ==> Tidy(objs)
      ensures old(log).handed <= log.handed && (r.Ok? ==> Leaves(old(Body()), log.handed[|old(log).handed|..], Body()))
      ensures old(Drainable()) ==> r.Ok? && Drainable() && keepAlive == old(keepAlive)
    {
      var data := Read();
      r := if data.Ok? then Ok(()) else Err(data.exc);
    }

    method LimitTo(limit: Limit, objs: seq<Response>)
      requires Valid() && !stage.REQUEST? && Connected(objs)
      modifies `maxSize, `log
      ensures Valid() && Connected(objs) && SameRequest() && maxSize == limit
      ensures log == old(log).(largest := Higher(old(log).largest, limit))
      ensures old(Tidy(objs)) ==> Tidy(objs)
    {
      maxSize := limit;
      log := log.(largest := Higher(log.largest, limit));
    }

    /** A new response object, connected if that is still possible. */
    method RespondWith(status: int, body: Bytes, length: Declared, coding: Option<TransferCoding>,
                       objs: seq<Response>) returns (r: Outcome<()>, objs': seq<Response>)
      requires Valid() && !stage.REQUEST? && Connected(objs)
      modifies `stage, `response, objs
      ensures Valid() && Connected(objs') && SameRequest() && unchanged(`log)
      ensures |objs'| == |objs| + 1 && objs'[..|objs|] == objs && fresh(objs'[|objs|])
      ensures if old(stage).HANDLER? then r.Ok? && response == objs'[|objs|] && stage.HANDLER? else stage.FAILED?
      ensures r != Err(Cancelled)
      ensures coding.None? && status < 1000 && old(Tidy(objs)) ==> Tidy(objs')
    {
      var res := new Response(status, body, length, coding);
      objs' := objs + [res];
      r := Respond(res);
    }

    method RespondAgainWith(res: Response, objs: seq<Response>) returns (r: Outcome<()>)
      requires Valid() && !stage.REQUEST? && Connected(objs) && res in objs
      modifies `stage, `response, objs
      ensures Valid() && Connected(objs) && SameRequest() && unchanged(`log)
      ensures if old(stage).HANDLER? then r.Ok? && response == res && stage.HANDLER?
              else r == Err(RuntimeError) && stage.FAILED?
      ensures old(Tidy(objs)) ==> Tidy(objs)
    {
      r := Respond(res);
    }

    method ResetFor(objs: seq<Response>) returns (r: Outcome<()>)
      requires Valid() && !stage.REQUEST? && Connected(objs)
      modifies `response, objs
      ensures Valid() && Connected(objs) && SameRequest()
      ensures if old(stage).HANDLER? then r.Ok? && response == null
              else r == Err(ServerError) && response == old(response)
      ensures old(Tidy(objs)) ==> Tidy(objs)
    {
      r := Reset();
    }

    method SendOn(res: Response, data: Option<Bytes>, end: Option<bool>, objs: seq<Response>) returns (r: Outcome<()>)
      requires Valid() && !stage.REQUEST? && Connected(objs) && res in objs
      modifies this, res
      ensures Valid() && Connected(objs) && SameRequest() && InputKept() && StageKept(r.Err?) && r != Err(Cancelled)
      ensures old(Tidy(objs)) ==> Tidy(objs)
      ensures old(res.stream) == this && old(responseFunc).Ended? ==>
        unchanged(this) && r == (if Ends(data, end) && Got(data) == [] then Ok(()) else Err(ServerError))
      ensures old(res.stream) == this && !old(responseFunc).Ended? ==>
        Sends(old(responseFunc), old(responseBytesLeft), old(log), Got(data), Ends(data, end),
              old(res.Value()), r)
    {
      r := res.Send(data, end);
    }

    /** `Request.reset_response`. */
    method Reset() returns (r: Outcome<()>)
      requires Valid() && !stage.REQUEST?
      modifies `response, response
      ensures Valid() && (old(response) != null ==> old(response).Kept())
      ensures if old(stage).HANDLER? then
          r.Ok? && response == null && (old(response) != null ==> old(response).stream == null)
        else
          r == Err(ServerError) && response == old(response) && (response != null ==> unchanged(response))
    {
      if !stage.HANDLER? {
        return Err(ServerError);
      }
      if response != null {
        response.stream := null;
      }
      response := null;
      r := Ok(());
    }

    /** Whatever an action does, it keeps the invariants of the request. */
    method Act(op: Op, objs: seq<Response>) returns (r: Outcome<()>, objs': seq<Response>)
      requires Valid() && !stage.REQUEST? && Connected(objs)
      modifies this, objs
      ensures Valid() && Connected(objs') && SameRequest()
      ensures forall i :: 0 <= i < |objs'| ==> (i < |objs| && objs'[i] == objs[i]) || fresh(objs'[i])
      ensures log.cancelled && !old(log).cancelled ==> r == Err(Cancelled)
      ensures TidyOp(op) && old(Tidy(objs)) ==> Tidy(objs')
      ensures !op.ReadOp? ==> keepAlive == old(keepAlive)
      ensures !Responds(op) ==> (stage.FAILED? ==> old(stage).FAILED?)
      ensures !op.SendOp? && old(stage).HANDLER? ==> stage.HANDLER?
      ensures r == Err(Cancelled) ==> op.ReadOp? || op == RaiseOp(Cancelled)
      ensures maxSize == if op.SetLimit? then op.limit else old(maxSize)
      ensures old(Drainable()) && (op.SetLimit? ==> op.limit.Unlimited?) ==>
        Drainable() && keepAlive == old(keepAlive) && (op.ReadOp? ==> r.Ok?)
    {
      r, objs' := Perform(op, objs);
    }

    /** One action, with its guard: a cancellation passes every guard. */
    method Take(step: Step, objs: seq<Response>) returns (r: Outcome<()>, objs': seq<Response>)
      requires Valid() && !stage.REQUEST? && Connected(objs)
      modifies this, objs
      ensures Valid() && Connected(objs') && SameRequest()
      ensures forall i :: 0 <= i < |objs'| ==> (i < |objs| && objs'[i] == objs[i]) || fresh(objs'[i])
      ensures log.cancelled && !old(log).cancelled ==> r == Err(Cancelled)
      ensures TidyOp(step.op) && old(Tidy(objs)) ==> Tidy(objs')
      ensures !step.op.ReadOp? ==> keepAlive == old(keepAlive)
      ensures CalmStep(step) && old(Drainable()) ==> r.Ok? && LimitKept() && Undisturbed()
      ensures CalmStep(step) && !Responds(step.op) ==> (stage.FAILED? ==> old(stage).FAILED?)
      ensures !step.op.SendOp? && old(stage).HANDLER? ==> stage.HANDLER?
    {
      r, objs' := Act(step.op, objs);
      if r.Err? && !r.exc.Cancelled? && step.caught {
        r := Ok(());
      }
    }

    method RunScript(script: Script, objs: seq<Response>) returns (r: Outcome<()>, objs': seq<Response>)
      requires Valid() && !stage.REQUEST? && Connected(objs)
      modifies this, objs
      ensures Valid() && Connected(objs') && SameRequest()
      ensures forall i :: 0 <= i < |objs'| ==> (i < |objs| && objs'[i] == objs[i]) || fresh(objs'[i])
      ensures log.cancelled && !old(log).cancelled ==> r == Err(Cancelled)
      ensures TidyScript(script) && old(Tidy(objs)) ==> Tidy(objs')
      ensures ReadsNothing(script) ==> keepAlive == old(keepAlive)
      ensures Calm(script) && old(stage).HANDLER? && old(Drainable()) ==>
        r.Ok? && !stage.FAILED? && LimitKept() && Undisturbed()
      ensures script == [] ==> r.Ok?
    {
      r, objs' := Ok(()), objs;
      var i := 0;
      while i < |script| && r.Ok?
        invariant i <= |script| && (i == 0 ==> r.Ok?)
        invariant Valid() && Connected(objs') && SameRequest()
        invariant forall j :: 0 <= j < |objs'| ==> (j < |objs| && objs'[j] == objs[j]) || fresh(objs'[j])
        invariant log.cancelled && !old(log).cancelled ==> r == Err(Cancelled)
        invariant TidyScript(script) && old(Tidy(objs)) ==> Tidy(objs')
        invariant ReadsNothing(script) ==> keepAlive == old(keepAlive)
        invariant Calm(script) && old(stage).HANDLER? && old(Drainable()) ==>
          r.Ok? && !stage.FAILED? && LimitKept() && Undisturbed()
        invariant old(stage).HANDLER? && SendsNothing(script[..i]) ==> stage.HANDLER?
      {
        SendsNothingSnoc(script, i);
        r, objs' := Take(script[i], objs');
        i := i + 1;
      }
    }

    /** The body can still be read to its end, and the connection is as it was. */
    twostate predicate Undisturbed()
      reads this
    {
      Drainable() && keepAlive == old(keepAlive)
    }

    /** The configured limit is in force, or none. */
    twostate predicate LimitKept()
      reads this
    {
      maxSize == old(maxSize) || maxSize.Unlimited?
    }

    /** `error_response`, around the runs of the application's exception handler. */
    method ErrorResponse(env: Env, objs: seq<Response>) returns (r: Outcome<()>)
      requires Valid() && Connected(objs)
      modifies this, objs
      ensures Valid() && SameHistory() && !stage.REQUEST?
      ensures response != null ==> response in objs || fresh(response)
      ensures keepAlive ==> old(stage).HANDLER? && (log.cancelled && !old(log).cancelled ==> r.Err?)
      ensures TidyEnv(env) && old(Tidy(objs)) ==> CleanOutput()
      ensures ReadsNothing(env.onError) && ReadsNothing(env.onErrorAgain) ==>
        keepAlive == (old(keepAlive) && old(stage).HANDLER?)
      ensures Calm(env.onError) && old(stage).HANDLER? && old(Drainable()) ==>
        r.Ok? && !stage.FAILED? && LimitKept() && Undisturbed()
      ensures !old(stage).HANDLER? && !old(stage).REQUEST? ==>
        r.Ok? && LimitKept() && unchanged(`stage, `responseFunc, `log) && (old(Drainable()) ==> Drainable())
    {
      if !stage.HANDLER? {
        keepAlive := false;
      }
      if stage.REQUEST? {
        stage := HANDLER;
      }
      r := Ok(());
      if stage.HANDLER? {
        r := HandleException(env, objs);
      }
    }

    /** `app.handle_exception`, and once more if it raises. */
    method HandleException(env: Env, objs: seq<Response>) returns (r: Outcome<()>)
      requires Valid() && stage.HANDLER? && Connected(objs)
      modifies this, objs
      ensures Valid() && SameRequest() && (response != null ==> response in objs || fresh(response))
      ensures log.cancelled && !old(log).cancelled ==> r.Err?
      ensures TidyEnv(env) && old(Tidy(objs)) ==> CleanOutput()
      ensures ReadsNothing(env.onError) && ReadsNothing(env.onErrorAgain) ==> keepAlive == old(keepAlive)
      ensures Calm(env.onError) && old(Drainable()) ==> r.Ok? && !stage.FAILED? && LimitKept() && Undisturbed()
      ensures env.onErrorAgain == [] && r.Err? ==> r.exc.Cancelled?
    {
      var objs';
      r, objs' := RunScript(env.onError, objs);
      if r.Err? && !r.exc.Cancelled? {
        r, objs' := RunScript(env.onErrorAgain, objs');
      }
    }

    /** The record of where the request began is as it was. */
    twostate predicate SameHistory()
      reads this
    {
      && unchanged(`headOnly, `upgrade)
      && log.before == old(log).before && log.expected == old(log).expected && (keepAlive ==> old(keepAlive))
    }

    /** Every head was formatted, and none announces two framings. */
    ghost predicate CleanOutput()
      reads this
    {
      !log.headless && (Started(log.turn) ==> !Ambiguous(HeadOf(log.turn), headOnly))
    }

    /** The `try` block: reads the head, runs the handler and finishes its response. */
    method Handle(env: Env) returns (r: Outcome<()>, objs: seq<Response>)
      requires Starting() && response == null && maxSize == AtMost(requestMaxSize)
      modifies this
      ensures Valid() && Connected(objs) && fresh(set i | 0 <= i < |objs| :: objs[i])
      ensures log.before == old(log).before
      ensures log.cancelled ==> r == Err(Cancelled)
      ensures r.Ok? ==> !stage.REQUEST?
      ensures !stage.REQUEST? ==> log.expected == Message(old(Stream()), headerMaxSize, keepAliveAllowed, env.accepts)
      ensures TidyEnv(env) ==> Tidy(objs)
      ensures Calm(env.handler) && CanBeRead(old(Stream()), env.accepts) ==>
        && !stage.REQUEST? && !stage.FAILED? && LimitKept() && r != Err(Cancelled) && Drainable()
        && keepAlive == HeadOfInput(old(Stream()), env.accepts).keepAlive
        && (r.Err? && stage.IDLE? ==> log.headless || (headOnly && responseFunc.Ended?))
      ensures r.Ok? && ReadsNothing(env.handler) ==>
        HeadAccepted(old(Stream()), env.accepts) && keepAlive == HeadOfInput(old(Stream()), env.accepts).keepAlive
    {
      objs := [];
      r := TakeRequest(env.accepts);
      if r.Ok? {
        r, objs := RunHandler(env.handler);
      }
    }

    /** Reads the head, up to the HANDLER stage. */
    method TakeRequest(accepts: bool) returns (r: Outcome<()>)
      requires Starting() && response == null && maxSize == AtMost(requestMaxSize)
      modifies `recvBuffer, `network, `log, `keepAlive, `headOnly, `upgrade, `expectingContinue
      modifies `body, `requestBytes, `bytesLeft, `stage
      ensures Valid() && log == old(log).(expected := log.expected, cancelled := log.cancelled)
      ensures log.cancelled ==> r == Err(Cancelled)
      ensures r.Ok? <==> HeadAccepted(old(Stream()), accepts)
      ensures if r.Ok? then stage.HANDLER? else stage.REQUEST?
      ensures r.Ok? ==>
        && keepAlive == HeadOfInput(old(Stream()), accepts).keepAlive
        && log.expected == Message(old(Stream()), headerMaxSize, keepAliveAllowed, accepts)
        && (CanBeRead(old(Stream()), accepts) ==> Drainable())
    {
      r := RequestHeader(accepts);
      if r.Ok? {
        stage := HANDLER;
      }
    }

    /** Runs the handler and finishes its response. */
    method RunHandler(script: Script) returns (r: Outcome<()>, objs: seq<Response>)
      requires Valid() && stage.HANDLER? && response == null && !log.cancelled && log.turn == []
      modifies this
      ensures Valid() && Connected(objs) && SameRequest() && forall i :: 0 <= i < |objs| ==> fresh(objs[i])
      ensures log.cancelled ==> r == Err(Cancelled)
      ensures TidyScript(script) && !old(log).headless ==> Tidy(objs)
      ensures ReadsNothing(script) ==> keepAlive == old(keepAlive)
      ensures Calm(script) && old(Drainable()) ==>
        && !stage.FAILED? && LimitKept() && r != Err(Cancelled) && Undisturbed()
        && (r.Err? && stage.IDLE? ==> log.headless || (headOnly && responseFunc.Ended?))
    {
      r, objs := RunScript(script, []);
      if r.Ok? {
        r := Finish(objs);
      }
    }

    /** The head at the front of the input is accepted. */
    ghost predicate HeadAccepted(input: Bytes, accepts: bool) {
      var p := Find(CRLF_CRLF, input, 0);
      0 <= p < headerMaxSize && ParseHead(input[..p], keepAliveAllowed, accepts).Ok?
    }

    /** The whole message is there and within the limits. */
    ghost predicate CanBeRead(input: Bytes, accepts: bool) {
      var m := Message(input, headerMaxSize, keepAliveAllowed, accepts);
      HeadAccepted(input, accepts) && m.Whole? && m.line < 64 && |m.payload| <= requestMaxSize
    }

    ghost function HeadOfInput(input: Bytes, accepts: bool): Parsed
      requires HeadAccepted(input, accepts)
    {
      ParseHead(input[..Find(CRLF_CRLF, input, 0)], keepAliveAllowed, accepts).value
    }

    /** Behind the handler: a response must have been given, and a streamed one is ended. */
    method Finish(objs: seq<Response>) returns (r: Outcome<()>)
      requires Valid() && !stage.REQUEST? && Connected(objs)
      modifies this, objs
      ensures Valid() && Connected(objs) && SameRequest() && InputKept() && StageKept(r.Err?) && r != Err(Cancelled)
      ensures old(Tidy(objs)) ==> Tidy(objs)
      ensures old(stage).HANDLER? && !upgrade ==> r == Err(ServerError) && unchanged(this)
      // An ended or abandoned stream is left alone, an open one gets its ending block.
      ensures !old(stage).RESPONSE? && !(old(stage).HANDLER? && !upgrade) ==> r.Ok? && unchanged(this)
      ensures old(stage).RESPONSE? && !old(responseFunc).Ended? && old(response) != null ==>
        Sends(old(responseFunc), old(responseBytesLeft), old(log), [], true, old(response.Value()), r)
      ensures r.Err? && stage.IDLE? ==> log.headless || (headOnly && responseFunc.Ended?)
    {
      if stage.HANDLER? && !upgrade {
        return Err(ServerError);
      }
      r := Ok(());
      if stage.RESPONSE? {
        r := SendOn(response, None, Some(true), objs);
      }
    }

    function Config(): Settings {
      Settings(headerMaxSize, requestMaxSize, keepAliveAllowed)
    }

    /** Whether the loop may start another request. */
    predicate Reusable()
      reads this
    {
      keepAlive && stage.IDLE?
    }

    /** What is left of the body is whole and within the limits. */
    ghost predicate Drainable()
      reads `recvBuffer, `network, `body, `bytesLeft, `log, `maxSize
    {
      Body().Whole? && Body().line < 64 && Within(|log.handed| + |Body().payload|, Capped(maxSize, requestMaxSize))
    }

    /** Drains what the handler left of the body, within the configured limit. */
    method Drain() returns (exit: Exit)
      requires Valid()
      modifies `recvBuffer, `network, `wire, `log, `expectingContinue, `keepAlive
      modifies `body, `requestBytes, `bytesLeft, `maxSize
      ensures Valid() && SameHistory()
      ensures log == old(log).(cancelled := log.cancelled, handed := log.handed, turn := log.turn)
      ensures exit.Looping? && keepAlive ==> body.Absent? && log.cancelled == old(log).cancelled
      // What is drained is within the configured limit, and a whole body within it never costs the connection.
      ensures log.handed == old(log).handed || Within(|log.handed|, Capped(old(maxSize), requestMaxSize))
      ensures old(Drainable()) ==> exit.Looping? && keepAlive == old(keepAlive)
      ensures old(CleanOutput()) ==> CleanOutput()
      ensures !exit.Returned?
    {
      exit := Looping;
      if !body.Absent? {
        maxSize := Capped(maxSize, requestMaxSize);
        var rest := ReceiveBody();
        if rest.Err? {
          if rest.exc.PayloadTooLarge? {
            keepAlive := false;
          } else {
            exit := Propagated(rest.exc);
          }
        }
      }
    }

    /** One round of the connection loop. If the loop goes on, then the response is complete, was
        announced as keeping the connection, and the stream stands right behind the request message. */
    method ServeOne(env: Env) returns (exit: Exit, ghost t: Turn)
      requires Deliverable() && Reusable()
      modifies this
      ensures Deliverable()
      ensures wire == old(wire) + t.output && t.input == old(Stream())
      ensures t.reused == (exit.Looping? && Reusable())
      ensures t.reused ==> t.after == Stream() && |Stream()| < |old(Stream())|
      ensures Exact(t, Config())
      ensures t.env == env
    {
      ghost var input := Stream();
      InitForRequest();
      var ready := AnyInput();
      if ready.Err? {
        exit := Propagated(ready.exc);
        t := Turn(input, [], input, [], false, HeaderFunc, 0, stage, [], env, false, false);
        return;
      }
      stage, responseFunc := REQUEST, HeaderFunc;
      exit := ServeStarted(env);
      t := ThisTurn(input, env, exit.Looping? && Reusable());
      TurnIsExact(t, Config(), log.expected);
    }

    ghost function ThisTurn(input: Bytes, env: Env, reused: bool): Turn
      reads this
    {
      Turn(input, log.handed, Stream(), log.turn, headOnly, responseFunc, responseBytesLeft, stage, log.blocks, env,
           reused, log.headless)
    }

    /** The round from the moment input has arrived. */
    method ServeStarted(env: Env) returns (exit: Exit)
      requires Starting() && response == null && maxSize == AtMost(requestMaxSize)
      modifies this
      ensures Deliverable() && wire == old(wire) + log.turn
      ensures TidyEnv(env) ==> CleanOutput()
      ensures !log.headless ==> Progress(log.turn, headOnly, responseFunc, responseBytesLeft, log.blocks)
      ensures var t := ThisTurn(old(Stream()), env, exit.Looping? && Reusable());
        MustHandOn(t, Config()) ==> t.reused
      ensures exit.Looping? && Reusable() ==>
        && (!log.headless ==> (responseFunc.Ended? || responseFunc.IgnoredFunc?) && HeadOf(log.turn).keepAlive)
        && log.expected == Message(old(Stream()), headerMaxSize, keepAliveAllowed, env.accepts)
        && Leaves(log.expected, log.handed, Whole([], Stream(), 0))
    {
      exit := ServeHandled(env);
      if exit.Looping? {
        exit := CleanUp();
      }
    }

    /** Behind the `try` block: drains the body and disconnects the response. */
    method CleanUp() returns (exit: Exit)
      requires Valid()
      modifies `recvBuffer, `network, `wire, `log, `expectingContinue, `keepAlive
      modifies `body, `requestBytes, `bytesLeft, `maxSize, response
      ensures Valid() && SameHistory()
      ensures log == old(log).(cancelled := log.cancelled, handed := log.handed, turn := log.turn)
      ensures exit.Looping? && keepAlive ==> body.Absent? && log.cancelled == old(log).cancelled
      ensures log.handed == old(log).handed || Within(|log.handed|, Capped(old(maxSize), requestMaxSize))
      ensures old(Drainable()) ==> exit.Looping? && keepAlive == old(keepAlive)
      ensures old(CleanOutput()) ==> CleanOutput()
      ensures !exit.Returned? && (response != null ==> response.stream == null)
    {
      exit := Drain();
      if response != null {
        response.stream := null;
      }
    }

    /** The `try` block with its `except` clauses. */
    method ServeHandled(env: Env) returns (exit: Exit)
      requires Starting() && response == null && maxSize == AtMost(requestMaxSize)
      modifies this
      ensures Valid() && log.before == old(log).before
      ensures response == null || fresh(response)
      ensures TidyEnv(env) ==> CleanOutput()
      ensures exit.Looping? && keepAlive ==>
        && !log.cancelled && !stage.REQUEST?
        && log.expected == Message(old(Stream()), headerMaxSize, keepAliveAllowed, env.accepts)
      ensures CalmEnv(env) && CanBeRead(old(Stream()), env.accepts) ==>
        && exit.Looping? && !stage.FAILED? && Drainable()
        && (stage.IDLE? && !log.headless && !(headOnly && responseFunc.Ended?) ==>
              keepAlive == HeadOfInput(old(Stream()), env.accepts).keepAlive)
    {
      exit := Looping;
      var r, objs := Handle(env);
      if r.Err? {
        if r.exc.Cancelled? {
          if !env.transport {
            return Returned;
          }
          keepAlive := false;
        }
        var e := ErrorResponse(env, objs);
        if e.Err? {
          exit := Propagated(e.exc);
        }
      }
    }

    /** The connection loop, for any input cut in any way and any behaviour of the handlers. */
    method Http1(env: nat -> Env) returns (exit: Exit, ghost turns: seq<Turn>)
      requires Deliverable() && Reusable()
      modifies this
      ensures exit.Looping? ==> !Reusable()
      ensures wire == old(wire) + Output(turns)
      ensures Run(turns, old(Stream()), Config())
      ensures Uses(turns, env)
      ensures |turns| > 0 && !turns[|turns| - 1].reused
    {
      exit, turns := Looping, [];
      var served := 0;
      while exit.Looping? && Reusable()
        invariant Deliverable()
        invariant served == |turns|
        invariant wire == old(wire) + Output(turns)
        invariant Run(turns, old(Stream()), Config())
        invariant exit.Looping? && Reusable() ==> HandsOn(turns, old(Stream()), Stream())
        invariant Uses(turns, env)
        invariant (exit.Looping? && Reusable()) == (turns == [] || turns[|turns| - 1].reused)
        decreases if exit.Looping? && Reusable() then 1 + |Stream()| else 0
      {
        ghost var t;
        ghost var was := turns;
        exit, t := ServeOne(env(served));
        served := served + 1;
        turns := turns + [t];
        OutputSnoc(old(wire), was, t);
        RunSnoc(was, t, old(Stream()), Config());
      }
    }
  }

  // ---------------------------------------------------------------- consequences and limits

  /** Chunked coding survives every fragmentation: whatever the deliveries, a chunked body written with
      size lines of at most 61 digits and within the limit is returned exactly, and exactly the
      pipelined suffix is left. */
  method ReadBackChunks(h: Http, ghost blocks: seq<Bytes>, ghost suffix: Bytes) returns (r: Outcome<Bytes>)
    requires h.Valid() && h.body.Chunked? && h.bytesLeft == 0
    requires h.Stream() == Framing.ChunkedBody(blocks, suffix)
    requires forall i :: 0 <= i < |blocks| ==> |Hex(|blocks[i]|)| <= 61
    requires Within(|h.log.handed| + |Flat(blocks)|, h.maxSize)
    modifies h
    ensures r == Ok(Flat(blocks)) && h.Stream() == suffix && h.body.Absent?
  {
    ChunkedRoundTrip(blocks, suffix);
    SizeLinesFit(blocks);
    r := h.ReceiveBody();
  }

  lemma SizeLinesFit(blocks: seq<Bytes>)
    requires forall i :: 0 <= i < |blocks| ==> |Hex(|blocks[i]|)| <= 61
    ensures LongestSizeLine(blocks) < 64
  {
    if |blocks| > 0 {
      SizeLinesFit(blocks[1..]);
    }
  }

  /** A request whose handler has connected a response and sent nothing. */
  ghost predicate ReadyToSend(h: Http, res: Response, toHead: bool)
    reads h, res
  {
    h.Valid() && h.response == res && res.stream == h && h.stage.HANDLER? && h.responseFunc.HeaderFunc?
    && h.log.turn == [] && h.headOnly == toHead
  }

  /** A status of 1000 or more has no status line: the first send raises after the response state has
      changed. If the stream was not ended by it, what is sent next is body data without any response head,
      in chunks or up to a declared length, and a connection that could be kept counts as reusable. */
  method HeadlessResponse(h: Http, res: Response, first: Bytes, ends: bool, second: Bytes)
      returns (r1: Outcome<()>, r2: Outcome<()>)
    requires ReadyToSend(h, res, false) && first != []
    requires res.status >= 1000 && !res.length.Garbled?
    modifies h, res
    ensures r1 == Err(IndexError) && !Started(h.log.turn) && h.keepAlive == old(h.keepAlive)
    ensures var fits := !ends && (old(res.length).Declared? ==> old(res.length).n == |first| + |second|);
      var out := if old(res.length).Declared? then second else ChunkedOut(second, true);
      && h.log.turn == (if fits then [Data(out)] else [])
      && h.stage == (if fits then IDLE else HANDLER)
      && (r2.Ok? <==> fits || (ends && second == []))
  {
    r1 := res.Send(Some(first), Some(ends));
    r2 := res.Send(Some(second), Some(true));
  }

  /** A streamed response to a HEAD request: the handler leaves the stream open, so it is ended behind the
      handler, where the send raises. The response is complete, and yet the connection is lost, whatever
      the error handlers do. */
  method StreamedHeadResponse(h: Http, res: Response, objs: seq<Response>, block: Bytes, env: Env)
      returns (sent: Outcome<()>, ended: Outcome<()>)
    requires ReadyToSend(h, res, true) && h.Connected(objs)
    requires 200 <= res.status < 1000 && HasMessageBody(res.status) && res.body == []
    modifies h, objs
    ensures sent.Ok? && ended == Err(TypeError)
    ensures CompleteResponse(h.log.turn, true, h.log.blocks) && h.stage.IDLE? && !h.keepAlive
  {
    sent := h.SendOn(res, Some(block), Some(false), objs);
    ended := h.Finish(objs);
    var e := h.ErrorResponse(env, objs);
  }

  /** A response object with a Transfer-Encoding of its own, sent whole: the head announces two framings,
      the connection stays reusable, and the client does not get the body, whatever it is. */
  method AmbiguousResponse(h: Http, res: Response, data: Bytes) returns (r: Outcome<()>)
    requires ReadyToSend(h, res, false)
    requires 200 <= res.status < 1000 && HasMessageBody(res.status) && res.coding.Some? && res.body == []
    modifies h, res
    ensures r.Ok? && Started(h.log.turn) && Ambiguous(HeadOf(h.log.turn), false)
    ensures BodyOf(h.log.turn) == data
    ensures ClientReads(FramingOf(HeadOf(h.log.turn), false), BodyOf(h.log.turn)) != Some(data)
    ensures h.stage.IDLE? && h.keepAlive == old(h.keepAlive)
  {
    r := res.Send(Some(data), Some(true));
    FlatSnoc([], data);
    AmbiguousIsMisread(HeadOf(h.log.turn), data);
  }

  /** The first block of a streamed response with a declared length `n` goes out unchecked. A client can
      still get a whole body exactly if the block fits. If it does not, then whatever the handler does next
      is refused or has no effect: nothing more is written, and the connection is not reusable. */
  method DeclaredLengthKept(h: Http, res: Response, objs: seq<Response>, n: nat, block: Bytes, next: Script)
      returns (r: Outcome<()>, ghost sent: seq<Sent>)
    requires ReadyToSend(h, res, false) && h.Connected(objs)
    requires 200 <= res.status < 1000 && HasMessageBody(res.status)
    requires res.length == Declared(n) && res.coding.None? && res.body == []
    modifies h, objs
    ensures r.Ok? && Started(sent) && BodyOf(sent) == block && FramingOf(HeadOf(sent), false) == FixedBody(n)
    ensures |block| <= n <==> exists more: Bytes :: ClientReads(FixedBody(n), BodyOf(sent) + more).Some?
    ensures |block| > n ==> h.log.turn == sent && !h.Reusable()
  {
    r := FirstBlock(h, res, n, block);
    sent := h.log.turn;
    FitsIfReadable(n, block);
    assert h.Connected(objs);
    var end, objs' := h.RunScript(next, objs);
  }

  method FirstBlock(h: Http, res: Response, n: nat, block: Bytes) returns (r: Outcome<()>)
    requires ReadyToSend(h, res, false)
    requires 200 <= res.status < 1000 && HasMessageBody(res.status)
    requires res.length == Declared(n) && res.coding.None? && res.body == []
    modifies h, res
    ensures h.Valid() && h.stage.RESPONSE? && h.response == res && res.stream == h
    ensures r.Ok? && Started(h.log.turn) && BodyOf(h.log.turn) == block
    ensures FramingOf(HeadOf(h.log.turn), false) == FixedBody(n)
    ensures |block| > n ==> h.Stuck()
  {
    r := res.Send(Some(block), Some(false));
  }

  lemma FitsIfReadable(n: nat, block: Bytes)
    ensures |block| <= n <==> exists more: Bytes :: ClientReads(FixedBody(n), block + more).Some?
  {
    if |block| <= n {
      var more: Bytes := seq(n - |block|, i => 0 as byte);
      assert ClientReads(FixedBody(n), block + more).Some?;
    }
  }

  lemma NowhereYet(buf: Bytes, pos: nat)
    requires Find(CRLF_CRLF, buf, pos) == -1
    requires forall i: nat :: i < pos ==> !OccursAt(CRLF_CRLF, buf, i)
    ensures Find(CRLF_CRLF, buf, 0) == -1
  {
  }

  /** With no end of head among the first octets, the whole stream's is not before the last three. */
  lemma LateHead(buf: Bytes, later: Bytes)
    requires Find(CRLF_CRLF, buf, 0) == -1
    ensures var p := Find(CRLF_CRLF, buf + later, 0); p < 0 || p >= |buf| - 3
  {
    var p := Find(CRLF_CRLF, buf + later, 0);
    if 0 <= p < |buf| - 3 {
      NotInPrefix(CRLF_CRLF, buf, later, 0, p);
    }
  }

  /** Cutting the front off the buffer cuts it off the stream. */
  lemma CutStream(buf: Bytes, later: Bytes, k: nat)
    requires k <= |buf|
    ensures (buf + later)[..k] == buf[..k] && (buf + later)[k..] == buf[k..] + later
  {
  }

  /** With no CRLF among more than 64 octets, a size line's CRLF is at 64 or later. */
  lemma LateLine(buf: Bytes, later: Bytes)
    requires Find(CRLF, buf, 3) == -1 && |buf| > 64
    ensures var p := Find(CRLF, buf + later, 3); p < 0 || p >= 64
  {
    var p := Find(CRLF, buf + later, 3);
    if 0 <= p < 64 {
      NotInPrefix(CRLF, buf, later, 3, p);
    }
  }

  lemma EarlyPart(buf: Bytes, more: Bytes, pos: nat)
    requires Find(CRLF_CRLF, buf, 0) == -1
    requires pos == if |buf| < 3 then 0 else |buf| - 3
    ensures forall i: nat :: i < pos ==> !OccursAt(CRLF_CRLF, buf + more, i)
  {
    forall i: nat | i < pos
      ensures !OccursAt(CRLF_CRLF, buf + more, i)
    {
      NotInPrefix(CRLF_CRLF, buf, more, 0, i);
    }
  }
}
