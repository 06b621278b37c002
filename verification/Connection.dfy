/** The environment of a connection and the record of a run: what the handlers do, how a round of the
    connection loop ends, and what every run of the loop guarantees. */
module Connection {
  import opened Sequences
  import opened Octets
  import opened Framing
  import opened RequestHead
  import opened ResponseWire

  /** `request_max_size`, which a streaming route lifts to infinity. */
  datatype Limit = AtMost(n: nat) | Unlimited

  predicate Within(k: nat, m: Limit) {
    m.Unlimited? || k <= m.n
  }

  predicate NoHigher(a: Limit, b: Limit) {
    b.Unlimited? || (a.AtMost? && a.n <= b.n)
  }

  /** The limit, but at most `n`. */
  function Capped(a: Limit, n: nat): Limit {
    if a.AtMost? && a.n < n then a else AtMost(n)
  }

  function Higher(a: Limit, b: Limit): Limit {
    if NoHigher(a, b) then b else a
  }

  /** A response object's Content-Length header, as `int()` sees it. */
  datatype Declared = Undeclared | Declared(n: int) | Garbled

  /** What a response object says. */
  datatype ResponseValue = ResponseValue(status: int, body: Bytes, length: Declared, coding: Option<TransferCoding>)

  /** The outcome of a first send, by what the response object says: refused for an impossible status,
      a length that is not a number, or a status without a status line. */
  function FirstSend(v: ResponseValue, toHead: bool, ends: bool): Outcome<()> {
    if v.status < 200 then Err(RuntimeError)
    else if HasMessageBody(v.status) && !ends && !toHead && v.length.Garbled? then Err(ValueError)
    else if v.status >= 1000 then Err(IndexError)
    else Ok(())
  }

  /** The response state behind a first send. */
  function NextFunc(v: ResponseValue, toHead: bool, ends: bool): Func {
    if toHead then IgnoredFunc
    else if !HasMessageBody(v.status) || ends then Ended
    else if v.length.Undeclared? then ChunkedFunc
    else NormalFunc
  }

  /** How the body of a response should be delimited: by its size when it is sent whole, by the length
      declared for it, and by chunks when neither is known. */
  predicate IntendedFraming(f: ResponseFraming, v: ResponseValue, toHead: bool, ends: bool, block: Bytes) {
    if toHead || !HasMessageBody(v.status) then f.NoBody?
    else if ends then f == FixedBody(|block|)
    else match v.length
      case Undeclared => f.ChunkedBody?
      case Declared(n) => n >= 0 ==> f == FixedBody(n)
      case Garbled => false
  }

  /** A first send announces two framings: the response object has a transfer coding of its own, and the
      engine adds, or finds, a length beside it. */
  predicate SaysTwice(v: ResponseValue, toHead: bool, ends: bool) {
    !toHead && HasMessageBody(v.status) && v.coding.Some? && (ends || v.length.Declared?)
  }

  // ---------------------------------------------------------------- handlers as scripts

  /** What a handler can do with the engine. Response objects are named by their order of creation. */
  datatype Op =
    | ReadOp
    | SetLimit(limit: Limit)
    | RespondOp(status: int, body: Bytes, length: Declared, coding: Option<TransferCoding>)
    | RespondAgain(index: nat)
    | ResetResponse
    | SendOp(index: nat, data: Option<Bytes>, end: Option<bool>)
    | RaiseOp(exc: Exc)

  /** One action; `caught` is whether the handler guards it with `except Exception`. */
  datatype Step = Step(op: Op, caught: bool)

  /** Any run of a handler, an error handler or an error handler's error handler is such a list. */
  type Script = seq<Step>

  /** The handler leaves Transfer-Encoding to the engine and uses statuses that have a status line. */
  predicate TidyOp(op: Op) {
    op.RespondOp? ==> op.coding.None? && op.status < 1000
  }

  predicate TidyScript(script: Script) {
    forall i :: 0 <= i < |script| ==> TidyOp(script[i].op)
  }

  /** The handler leaves the request body alone. */
  predicate ReadsNothing(script: Script) {
    forall i :: 0 <= i < |script| ==> !script[i].op.ReadOp?
  }

  predicate Responds(op: Op) {
    op.RespondOp? || op.RespondAgain?
  }

  predicate SendsNothing(script: Script) {
    forall i :: 0 <= i < |script| ==> !script[i].op.SendOp?
  }

  lemma SendsNothingSnoc(script: Script, i: nat)
    requires i < |script|
    ensures SendsNothing(script[..i + 1]) <==> SendsNothing(script[..i]) && !script[i].op.SendOp?
  {
    assert script[..i + 1] == script[..i] + [script[i]];
  }

  /** The handler lets no exception out: it guards every action, and raises no cancellation. It does not
      lower the limit, and is done with `respond` when it begins to send. */
  predicate Calm(script: Script) {
    forall i :: 0 <= i < |script| ==>
      CalmStep(script[i]) && (Responds(script[i].op) ==> SendsNothing(script[..i]))
  }

  predicate CalmStep(step: Step) {
    && step.caught && step.op != RaiseOp(Cancelled)
    && (step.op.SetLimit? ==> step.op.limit.Unlimited?)
  }

  /** What surrounds one request: whether its Request object can be built, the handler's run, the runs
      of the application's exception handler, and whether the transport is still there. */
  datatype Env = Env(accepts: bool, handler: Script, onError: Script, onErrorAgain: Script, transport: bool)

  predicate TidyEnv(env: Env) {
    TidyScript(env.handler) && TidyScript(env.onError) && TidyScript(env.onErrorAgain)
  }

  // ---------------------------------------------------------------- whole runs

  /** The configuration of a connection: the limits of heads and bodies, and whether KEEP_ALIVE is set. */
  datatype Settings = Settings(maxHead: nat, maxBody: nat, allowed: bool)

  /** Where the engine stands with the current request. */
  datatype Stage = IDLE | REQUEST | HANDLER | RESPONSE | FAILED

  /** How a round of the loop ends: normally, by `return`, or by an exception that leaves `http1`. */
  datatype Exit = Looping | Returned | Propagated(exc: Exc)

  /** One round of the connection loop: the stream before and after it, what was handed out, what was
      written and in which response state and stage that left the engine. `headless` marks a response head
      that could not be formatted. */
  datatype Turn = Turn(input: Bytes, payload: Bytes, after: Bytes, output: seq<Sent>, toHead: bool,
                       func: Func, left: int, stage: Stage, blocks: seq<Bytes>, env: Env, reused: bool,
                       headless: bool)

  function MessageOf(t: Turn, c: Settings): Rest {
    Message(t.input, c.maxHead, c.allowed, t.env.accepts)
  }

  /** The request asks to keep the connection, and can be read to its end within the limits. */
  predicate AsksToBeKept(input: Bytes, c: Settings, accepts: bool) {
    var p, m := Find(CRLF_CRLF, input, 0), Message(input, c.maxHead, c.allowed, accepts);
    && 0 <= p < c.maxHead
    && ParseHead(input[..p], c.allowed, accepts).Ok? && ParseHead(input[..p], c.allowed, accepts).value.keepAlive
    && m.Whole? && m.line < 64 && |m.payload| <= c.maxBody
  }

  /** No exception disturbs the handlers. */
  predicate CalmEnv(env: Env) {
    Calm(env.handler) && Calm(env.onError)
  }

  /** The response is complete and no late send disturbed it. To a HEAD request it went out in one send:
      ending a streamed one raises. */
  predicate Answered(t: Turn) {
    !t.headless && if t.toHead then t.func.IgnoredFunc? && t.stage.IDLE? else t.func.Ended?
  }

  /** The round must hand the connection on. */
  predicate MustHandOn(t: Turn, c: Settings) {
    AsksToBeKept(t.input, c, t.env.accepts) && CalmEnv(t.env) && Answered(t)
  }

  /** What every round guarantees. */
  ghost predicate Exact(t: Turn, c: Settings) {
    && (TidyEnv(t.env) ==> TidyTurn(t))
    && (!t.headless ==> Progress(t.output, t.toHead, t.func, t.left, t.blocks))
    && (t.reused ==> MessageOf(t, c).Whole? && MessageOf(t, c).payload == t.payload && MessageOf(t, c).rest == t.after)
    && (t.reused && !t.headless ==> (t.func.Ended? || t.func.IgnoredFunc?) && HeadOf(t.output).keepAlive)
    && (MustHandOn(t, c) ==> t.reused)
  }

  predicate TidyTurn(t: Turn) {
    !t.headless && (Started(t.output) ==> !Ambiguous(HeadOf(t.output), t.toHead))
  }

  function Output(turns: seq<Turn>): seq<Sent> {
    if |turns| == 0 then [] else Output(turns[..|turns| - 1]) + turns[|turns| - 1].output
  }

  lemma OutputSnoc(wire: seq<Sent>, turns: seq<Turn>, t: Turn)
    ensures wire + Output(turns + [t]) == wire + Output(turns) + t.output
  {
    assert (turns + [t])[..|turns|] == turns;
    assert wire + (Output(turns) + t.output) == wire + Output(turns) + t.output;
  }

  /** A run of the loop: every round but the last hands the connection on, and each starts where the
      one before it left the stream. */
  ghost predicate Run(turns: seq<Turn>, input: Bytes, c: Settings) {
    && (forall i :: 0 <= i < |turns| ==> Exact(turns[i], c))
    && (|turns| > 0 ==> turns[0].input == input)
    && (forall i :: 0 <= i < |turns| - 1 ==> turns[i].reused && turns[i + 1].input == turns[i].after)
  }

  /** After these rounds the loop goes on, with `stream` to read. */
  ghost predicate HandsOn(turns: seq<Turn>, input: Bytes, stream: Bytes) {
    if turns == [] then stream == input
    else turns[|turns| - 1].reused && stream == turns[|turns| - 1].after
  }

  /** Round by round, the environment is the given one. */
  ghost predicate Uses(turns: seq<Turn>, env: nat -> Env) {
    forall i :: 0 <= i < |turns| ==> turns[i].env == env(i)
  }

  /** A round is exact if the stream stands where the one-shot reader of the message says. */
  lemma TurnIsExact(t: Turn, c: Settings, expected: Rest)
    requires !t.headless ==> Progress(t.output, t.toHead, t.func, t.left, t.blocks)
    requires TidyEnv(t.env) ==> TidyTurn(t)
    requires t.reused ==>
      expected == MessageOf(t, c) && Leaves(expected, t.payload, Whole([], t.after, 0))
      && (!t.headless ==> (t.func.Ended? || t.func.IgnoredFunc?) && HeadOf(t.output).keepAlive)
    requires MustHandOn(t, c) ==> t.reused
    ensures Exact(t, c) && (t.reused ==> |t.after| < |t.input|)
  {
    if t.reused {
      assert t.payload + [] == t.payload;
      MessageShrinks(t.input, c.maxHead, c.allowed, t.env.accepts);
    }
  }

  lemma RunSnoc(turns: seq<Turn>, t: Turn, input: Bytes, c: Settings)
    requires Run(turns, input, c) && Exact(t, c)
    requires HandsOn(turns, input, t.input)
    ensures Run(turns + [t], input, c)
    ensures t.reused ==> HandsOn(turns + [t], input, t.after)
  {
    var all := turns + [t];
    forall i | 0 <= i < |all|
      ensures Exact(all[i], c)
    {
      if i < |turns| {
        assert all[i] == turns[i];
      }
    }
    forall i | 0 <= i < |all| - 1
      ensures all[i].reused && all[i + 1].input == all[i].after
    {
      assert all[i] == turns[i];
    }
  }

  // ---------------------------------------------------------------- pipelining

  /** A request as a client writes it. */
  datatype Request = Request(head: Bytes, body: ClientBody)

  function Pipeline(requests: seq<Request>, tail: Bytes): Bytes {
    if |requests| == 0 then tail
    else MessageBytes(requests[0].head, requests[0].body) + Pipeline(requests[1..], tail)
  }

  /** If a client writes well-formed requests one after the other, then however the bytes are delivered
      and whatever the handlers do, round i reads exactly request i: it starts at its first byte, and if
      the connection is kept, its payload was handed out whole and the next round starts right behind
      it. No round ever reads a byte of another request. */
  lemma {:induction false} PipelinedExactly(turns: seq<Turn>, requests: seq<Request>, tail: Bytes,
                                            c: Settings, i: nat)
    requires Run(turns, Pipeline(requests, tail), c)
    requires i < |turns| && i <= |requests|
    requires forall k :: 0 <= k < i ==>
      Announces(requests[k].head, requests[k].body, c.maxHead, c.allowed, turns[k].env.accepts)
    ensures turns[i].input == Pipeline(requests[i..], tail)
    ensures forall k :: 0 <= k < i ==> turns[k].payload == BodyPayload(requests[k].body)
  {
    if i > 0 {
      PipelinedExactly(turns, requests, tail, c, i - 1);
      var r, rest := requests[i - 1], Pipeline(requests[i..], tail);
      assert requests[i - 1..][1..] == requests[i..];
      MessageRoundTrip(r.head, r.body, rest, c.maxHead, c.allowed, turns[i - 1].env.accepts);
      assert Exact(turns[i - 1], c);
    } else {
      assert requests[0..] == requests;
    }
  }

  /** A request that asks to keep the connection, within the limits. */
  ghost predicate WellBehaved(r: Request, c: Settings, accepts: bool) {
    && Announces(r.head, r.body, c.maxHead, c.allowed, accepts)
    && ParseHead(r.head, c.allowed, accepts).value.keepAlive
    && |BodyPayload(r.body)| <= c.maxBody && BodyLine(r.body) < 64
  }

  lemma AsksFor(r: Request, rest: Bytes, c: Settings, accepts: bool)
    requires WellBehaved(r, c, accepts)
    ensures AsksToBeKept(MessageBytes(r.head, r.body) + rest, c, accepts)
  {
    MessageRoundTrip(r.head, r.body, rest, c.maxHead, c.allowed, accepts);
  }

  /** The rounds up to `n` take up requests that ask to keep the connection, and are answered by handlers
      that no exception disturbs. */
  ghost predicate ServedWell(turns: seq<Turn>, requests: seq<Request>, c: Settings, n: nat) {
    n <= |turns| && n <= |requests| && forall k :: 0 <= k < n ==>
      WellBehaved(requests[k], c, turns[k].env.accepts) && CalmEnv(turns[k].env) && Answered(turns[k])
  }

  lemma RoundHandsOn(turns: seq<Turn>, requests: seq<Request>, tail: Bytes, c: Settings, i: nat, n: nat)
    requires Run(turns, Pipeline(requests, tail), c)
    requires i < n && ServedWell(turns, requests, c, n)
    ensures turns[i].reused
  {
    PipelinedExactly(turns, requests, tail, c, i);
    assert requests[i..][0] == requests[i] && requests[i..][1..] == requests[i + 1..];
    AsksFor(requests[i], Pipeline(requests[i + 1..], tail), c, turns[i].env.accepts);
    assert Exact(turns[i], c);
  }

  /** A whole pipeline is served: if every request a client writes asks to keep the connection, and every
      round that takes one up is answered by handlers that no exception disturbs, then the loop does not
      end before it has waited for a request behind the last one. */
  lemma PipelineIsServed(turns: seq<Turn>, requests: seq<Request>, tail: Bytes, c: Settings)
    requires Run(turns, Pipeline(requests, tail), c) && |turns| > 0 && !turns[|turns| - 1].reused
    requires ServedWell(turns, requests, c, if |turns| < |requests| then |turns| else |requests|)
    ensures |turns| > |requests|
  {
    var n := |turns|;
    if n <= |requests| {
      RoundHandsOn(turns, requests, tail, c, n - 1, n);
    }
  }

  /** What the client can rely on: a connection is kept only behind a response that said "keep-alive",
      and unless its head could not be formatted, the client reads exactly the blocks the handler sent if
      and only if the head announces one framing. Handlers that leave Transfer-Encoding and impossible
      statuses alone never write any other. */
  lemma KeptConnectionIsReadable(turns: seq<Turn>, input: Bytes, c: Settings, i: nat)
    requires Run(turns, input, c) && i < |turns| && turns[i].reused
    ensures !turns[i].headless ==>
      var t := turns[i];
      && Started(t.output) && HeadOf(t.output).keepAlive
      && var f := FramingOf(HeadOf(t.output), t.toHead);
         ClientReads(f, BodyOf(t.output)) == Some(if f.NoBody? then [] else Flat(t.blocks))
         <==> !Ambiguous(HeadOf(t.output), t.toHead)
    ensures TidyEnv(turns[i].env) ==> !turns[i].headless && !Ambiguous(HeadOf(turns[i].output), turns[i].toHead)
  {
    var t := turns[i];
    assert Exact(t, c);
    if !t.headless {
      CompleteIsReadable(t.output, t.toHead, t.blocks);
    }
  }

  /** Any response, also the last of a connection: while its head announces one framing, the client has
      been sent nothing wrong, and can still get a whole body exactly unless the first block was longer
      than a declared length. A connection is never kept behind such a block. */
  lemma EveryResponseIsAPrefix(turns: seq<Turn>, input: Bytes, c: Settings, i: nat)
    requires Run(turns, input, c) && i < |turns| && !turns[i].headless && !turns[i].func.HeaderFunc?
    ensures Started(turns[i].output)
    ensures var t := turns[i]; var f := FramingOf(HeadOf(t.output), t.toHead);
      && (t.func.NormalFunc? ==> !t.reused)
      && (!Ambiguous(HeadOf(t.output), t.toHead) && (t.func.NormalFunc? ==> |BodyOf(t.output)| + t.left >= 0) ==>
            ((exists more: Bytes :: ClientReads(f, BodyOf(t.output) + more).Some?)
             <==> !(t.func.NormalFunc? && t.left < 0)))
  {
    var t := turns[i];
    assert Exact(t, c);
    if !Ambiguous(HeadOf(t.output), t.toHead) && (t.func.NormalFunc? ==> |BodyOf(t.output)| + t.left >= 0) {
      ProgressIsPrefix(t.output, t.toHead, t.func, t.left, t.blocks);
    }
  }
}
