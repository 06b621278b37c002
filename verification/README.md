# Sanic: a verified model of its protocol core

This project models, in Dafny, the parts of the Sanic web server whose correctness depends on more than
one function at a time, and proves what they promise. Its centre is the HTTP/1.1 connection engine: one
object per connection that reads requests from a receive buffer, runs handlers and writes responses, for
pipelined requests, on input cut in any way. Around it are the cookie writer, parser and jar, the
registry of exception handlers with its memory, the Accept and Forwarded headers, multipart forms,
middleware ordering and ranged files.

`dafny verify dfyconfig.toml` checks everything.

## How it is laid out

| file | what it holds |
|---|---|
| `Sequences.dfy`, `Texts.dfy`, `Octets.dfy`, `Grouping.dfy`, `Sorting.dfy` | Python's `find`, `split`, `join`, `strip`, numerals, dictionaries of lists, and the stable sort |
| `Framing.dfy` | the chunk writer, and `Unread`: a reader that sees the whole stream at once |
| `RequestHead.dfy` | request heads, and `Message`: the one-shot reading of a whole request |
| `ResponseWire.dfy` | what a client sees of the output, framed by section 6.3 of RFC 9112 |
| `Connection.dfy` | handlers as scripts, rounds and runs of the connection loop, pipelines |
| `Http1.dfy` | the engine itself: classes `Http` and `Response` |
| `CookieQuoting.dfy`, `CookieJars.dfy` | cookies out and in, and deletion |
| `ErrorHandlers.dfy` | the handler registry and when its memory can be seen |
| `AcceptHeaders.dfy`, `Forwarded.dfy` | content negotiation, and the right-to-left scan |
| `MultipartForms.dfy` | the form parser |
| `Middlewares.dfy` | registration and finalisation |
| `FileRanges.dfy` | `Range` headers, `file` and `file_stream` |

## The engine

`Http` has the fields of the source's class. `network` is the input not yet delivered, as the list of
deliveries it will come in; when it is exhausted, the next wait ends in `CancelledError`. `wire` is what
was handed to the transport: interim responses, final heads and body data. A handler, the application's
exception handler and its second run are arbitrary scripts of reads, changes of the size limit,
`respond`, `reset_response`, `send` on any response object, and raised exceptions, each action guarded by
`except Exception` or not. `CancelledError` is never caught by such a guard. Whether the `Request` object
can be built, and whether the transport is still there after a cancellation, are inputs too.

The reference is not the engine's own steps but two one-shot definitions. `RequestHead.Message` reads one
request off a complete byte stream. `ResponseWire.ClientReads` is a client that delimits a body by section
6.3 of RFC 9112, using the same one-shot reader for chunks. The ghost record `log` keeps what was handed
out and written for the current request, and the invariants `ReaderInv` and `WriterInv` hold in every
reachable state:

* bytes handed out plus bytes left are the bytes announced, and what was handed out is within the largest
  limit that was in force;
* while the connection can still be kept, the stream stands exactly where the one-shot reader says;
* the output is at most one 100 Continue, then at most one final head, then body data in the framing that
  the engine has chosen (`ResponseWire.WrittenFraming`), complete whenever the stage is IDLE.

The main result is the contract of `Http1.Http.Http1` with the lemmas about `Connection.Run`. Whenever the
loop starts another request, the response before it was complete and announced keep-alive, a client reads
it as exactly the blocks sent if and only if its head announces one framing, and exactly the previous
message was removed from the input. Conversely, the loop must start another request behind a complete
response when the request asks for it, its body can be read within the limits, and no exception disturbs
the handlers, whether they read the body or not (`Connection.MustHandOn`); and it only ends behind a round
that does not hand on. So a pipeline of such requests is served to its end (`Connection.PipelineIsServed`).
Every wait for input requires that no 100 Continue is outstanding, so an expected one is written before the
first wait.

## Where the code and expectations differ

* **Sends after the head of a HEAD response raise `TypeError`.** The docstring says the data is ignored
  (`sanic/http/http1.py:374-378`), but the function is not a coroutine and its caller awaits its result. The
  state is updated, then the send fails. The model follows the code (`Http1.Http.SendIgnored`). A response
  sent whole keeps the connection; a streamed one is ended behind the handler, where the error costs it
  although the response is complete (`Http1.StreamedHeadResponse`).
* **A status of 1000 or more** has no status line, and formatting raises after `response_func` was changed.
  If the stream was not ended by that send, what is sent next goes out without any head and the connection
  counts as reusable: `Http1.HeadlessResponse`, for every such status. The framing theorems carry the flag `headless`, which
  only such a status sets, and `Connection.TidyEnv`, a condition on what handlers do, rules it out.
* **A Transfer-Encoding header set by the handler** gives a head with two framings exactly when the first
  send is the last one or finds a declared length (`Connection.SaysTwice`); streamed without a length, the
  header is overwritten and all is well. The engine writes such a body plain, and a client never gets it,
  whatever it is: `ResponseWire.AmbiguousIsMisread`, and at the engine `Http1.AmbiguousResponse`. A kept
  response is readable if and only if it has one framing: `Connection.KeptConnectionIsReadable`.
* **The first block of a streamed response is not checked against the declared length.** A client can
  still get a whole body exactly when the block fits. If it does not, then nothing the handler does
  afterwards writes anything, and the connection is never reused: `Http1.DeclaredLengthKept`.
* **Cookies round trip if and only if** no name holds a colon and no value is empty:
  `CookieQuoting.CookieRoundTrip`; what becomes of the others is `CookieQuoting.HeaderRoundTrip`.
* **`delete_cookie` can lose cookies.** It takes them out before the checks of the tombstone, so a deletion
  that raises there has lost the cookies it was to replace, and with both prefixes the whole jar. Exactly
  when the jar survives is `CookieJars.FailedDeletionLosesCookies`, a jar that does not is
  `CookieJars.LostCookie`, and exactly when a deletion succeeds is `CookieJars.DeletionSucceeds`.
* **The handler registry's memory can be seen**, because an answer remembered for one class is found by
  searches for others. `ErrorHandlers.MemoryIsInvisible` gives the exact condition on the registrations,
  for any inheritance: no search comes, before any registration, to an unclaimed ancestor whose own answer
  is another one, and the class's own answer for all routes, if it has one, is its answer on the route.
  `ErrorHandlers.MemoryIsInvisibleWithoutRoutes` is the same for lookups without a route, and
  `ErrorHandlers.SafeWithOneParent` what the condition means with single inheritance. One handler for all
  routes is enough to violate it (`ErrorHandlers.FailedLookupHidesHandler`), and with two parents no route
  is needed (`ErrorHandlers.TwoParentsHideHandler`).
* **`file_stream` can run past the range**: it reads whole steps of `min(size, chunk_size)`, also the last
  one. It is exact if and only if the range reaches the end of the file or the step divides its size
  (`FileRanges.RangeIsServed`); otherwise it sends less than one step too much. `file` is always exact.
* **A suffix longer than the file** becomes a negative start that is not refused; the seek then fails.
* **Middleware priority**: the docstring of `register_middleware` says that lower numbers run first
  (`sanic/app.py:476-477`); the code runs higher priorities first for requests
  (`Middlewares.HigherPriorityRunsFirst`).
* **No Accept header** accepts only offers without parameters, because the parameters of an offer must be
  met: `AcceptHeaders.NoHeaderAcceptsFirstPlainOffer`. An offer that cannot be parsed raises as soon as a
  media type of the header is compared with it, and is not looked at otherwise.
* **White space in front of a semicolon** breaks a Forwarded element in two; in front of a comma or at the
  end it changes nothing (`Forwarded.Elements`).
* **Accept negotiation**: the docstring of `match` lists specificity before the order of the arguments; the
  code compares the q values, then the order of the arguments, then specificity
  (`AcceptHeaders.OfferOrderBeatsSpecificity`, and at one header `AcceptHeaders.WildcardWins`).

## Model

| member | source | states |
|---|---|---|
| Http1.Http.Http1 | sanic/http/http1.py:105-174 | for every input, every cutting into deliveries and every handler behaviour: at least one round is served, every round is exact, also in what a round that does not hand on has written, each but the last hands on the stream right behind its message, the last one does not hand on, and the wire holds the outputs of the rounds in order |
| Http1.Http.ServeOne | sanic/http/http1.py:108-174 | one round: if the loop goes on, the response is complete and keep-alive, exactly one whole message was removed, its payload is what was handed out, and the stream got shorter; in any case the output is a prefix of one response; and the loop must go on behind a complete response to a request that asks for it, if no exception disturbs the handlers |
| Http1.Http.ServeStarted | sanic/http/http1.py:113-174 | the same from the moment input has arrived, with handlers that leave Transfer-Encoding alone never producing an ambiguous or missing head |
| Http1.Http.ServeHandled | sanic/http/http1.py:114-149 | a connection that is kept after the `try` block had no cancelled wait, left the REQUEST stage, and its expectation is the message at the front of the input; with handlers that let no exception out, what is left of a body within the limits can still be drained, and the request head decides keep-alive |
| Http1.Http.Handle | sanic/http/http1.py:114-130 | a cancelled wait ends the block with the cancellation; at most the current response object is connected; a handler that lets no exception out, reading the body or not, leaves keep-alive to the head and the rest of the body drainable |
| Http1.Http.TakeRequest | sanic/http/http1.py:116-120 | the HANDLER stage is reached iff the head is accepted, with the whole body still to be read |
| Http1.Http.Finish | sanic/http/http1.py:125-130 | a handler without a response is an error, nothing changed; an open stream is sent its ending block with that send's effect; any other is left alone |
| Http1.Http.RunHandler | sanic/http/http1.py:123-130 | a handler that lets no exception out does not end in FAILED, keeps the body drainable, and an ended response means success unless it was streamed to a HEAD request |
| Http1.Http.RunScript | sanic/http/http1.py:123-123 | any handler run keeps the invariants, cannot revive the connection, leaves it alone if it reads nothing or the body is within the limits, passes a cancellation on, and writes nothing behind an oversized first block |
| Http1.Http.Perform | sanic/http/http1.py:123-123 | any single handler action does, with its own outcome; a read of a body that is within the limits succeeds and keeps it so |
| Http1.Http.PerformOnResponse | sanic/http/http1.py:123-123 | any action on a response object does, leaving the input alone |
| Http1.Http.Drain | sanic/http/http1.py:151-168 | if the connection is still kept afterwards, the body is used up and no wait was cancelled; what is drained is within the configured limit, and a whole body within it, with size lines below 64, never costs the connection |
| Http1.Http.CleanUp | sanic/http/http1.py:151-174 | the same with the response disconnected |
| Http1.Http.ErrorResponse | sanic/http/http1.py:416-441 | the connection survives only an error in the HANDLER stage, and exactly that when the error handlers read nothing; in a later stage nothing else changes |
| Http1.Http.HandleException | sanic/http/http1.py:436-441 | the application's handler runs; only a cancellation, or what its second run raises, gets out |
| Http1.Http.FindHead | sanic/http/http1.py:178-194 | the head is accepted iff the first empty line of the whole stream starts below the limit, at that index; before every wait fewer than limit + 3 octets and no empty line were buffered |
| Http1.Http.RequestHeader | sanic/http/http1.py:176-293 | refines the one-shot parse of the whole stream; on success the rest of the stream is exactly the announced body and what follows |
| Http1.Http.TakeHead | sanic/http/http1.py:196-293 | the head, and nothing of the body, is cut off; one CRLF stays in front of a chunked body; a failure cuts nothing |
| Http1.Http.ReadHead | sanic/http/http1.py:197-288 | agrees with the one-shot parser on acceptance, error, keep-alive, HEAD, upgrade, expectation and body framing |
| Http1.Http.ScanHeaders | sanic/http/http1.py:217-234 | the last Connection field decides keep-alive; a line without a colon or a second length field refuses the head |
| Http1.Http.ReadBodyHeaders | sanic/http/http1.py:266-288 | the expectation and the framing, or the error, that the fields call for |
| Http1.Http.Read | sanic/http/http1.py:502-581 | takes exactly what it returns off the body the one-shot reader sees; fails only for a body that is not whole, too long a size line or too large; over the limit hands out nothing and, past the chunk header, takes nothing; the connection is lost exactly on a failure other than a cancellation |
| Http1.Http.SendContinue | sanic/http/http1.py:505-508 | a 100 Continue goes out once, only if expected |
| Http1.Http.ReadBody | sanic/http/http1.py:510-581 | bytes handed out plus bytes left stay equal to the bytes announced, and are handed out only within the limit |
| Http1.Http.ReadChunkHeader | sanic/http/http1.py:512-552 | takes a chunk header and no payload; refuses only a size that is not a number or a size line that cannot be found in time |
| Http1.Http.FindSizeLine | sanic/http/http1.py:514-524 | finds the CRLF of the whole stream, whatever the deliveries; refuses only when it is at index 64 or later or missing |
| Http1.Http.EndChunks | sanic/http/http1.py:533-546 | removes the last chunk with its final CRLF, waiting for it |
| Http1.Http.ReadData | sanic/http/http1.py:564-581 | hands out a non-empty front of the payload, never more than is left |
| Http1.Http.ReceiveBody | sanic/http/http1.py:494-500 | if a whole body with size lines below 64 within the limit is in front, returns exactly its payload and removes exactly it |
| Http1.ReadBackChunks | sanic/http/http1.py:512-552 | the chunked encoding of any blocks with sizes of at most 61 digits, followed by any suffix and delivered in any pieces, is read back as the payload, leaving exactly the suffix |
| Http1.Http.Dispatch | sanic/http/http1.py:604-606 | each send has the effect of the response state it meets, keeps the framing invariant and touches no input |
| Http1.Http.SendHeader | sanic/http/http1.py:295-372 | the outcome by the response object, one head in front of the first block, an outstanding 100 Continue in front of it unless the status is 417 |
| Http1.Http.SendFirst | sanic/http/http1.py:310-372 | nothing is written on an error; otherwise the head announces the intended framing and the first block opens it |
| Http1.Http.ChooseFraming | sanic/http/http1.py:313-348 | the head is ambiguous exactly when the object has a transfer coding and a length is added or found beside it; the framing written is the one the response object calls for, and what goes out first fits it |
| Http1.Http.SendOpening | sanic/http/http1.py:350-372 | exactly one final head, the block as its body, at most one interim response in front |
| Http1.Http.SendChunked | sanic/http/http1.py:380-395 | accepts every block, writes nothing for an empty one, and reaches IDLE exactly at the end |
| Http1.Http.SendNormal | sanic/http/http1.py:397-414 | refuses before writing what would exceed or fall short of the declared length, and reaches IDLE exactly at the declared length |
| Http1.Http.SendIgnored | sanic/http/http1.py:374-378 | writes nothing, ends the stage if asked to, and raises |
| Http1.Http.Respond | sanic/http/http1.py:585-602 | connects the object and disconnects the earlier one before anything was sent; afterwards fails and marks the stage FAILED |
| Http1.Http.Reset | sanic/request/types.py:293-316 | disconnects the response only in the HANDLER stage |
| Http1.Response.Send | sanic/response/types.py:92-120 | without a stream an error; after the end an empty end is tolerated, anything else refused and nothing written; else the send of the stream |
| Http1.HeaderMaxSize | sanic/http/http1.py:608-613 | the greatest size that exceeds neither the ceiling nor any configured size |
| Http1.HeadlessResponse | sanic/http/http1.py:339-357 | for every status of 1000 or more, length and data: nothing is written by the first send, and body data without a head by the second exactly when the stream was left open and the data fits, on a connection that stays reusable |
| Http1.StreamedHeadResponse | sanic/http/http1.py:345-378 | any streamed response to a HEAD request that the handler leaves open: complete, and yet the connection is lost, whatever the error handlers do |
| Http1.AmbiguousResponse | sanic/http/http1.py:331-348 | any response object with its own transfer coding, sent whole: two framings, a reusable connection, and a body that the client does not get |
| Http1.DeclaredLengthKept | sanic/http/http1.py:335-338 | for every declared length and first block: a client can still get a whole body iff the block fits; if not, no later handler action writes anything and the connection is not reusable |
| Connection.PipelinedExactly | sanic/http/http1.py:105-174 | in every run over well-formed pipelined requests, round i starts at the first byte of request i and the payloads handed out are the requests' own |
| Connection.PipelineIsServed | sanic/http/http1.py:105-174 | in every run over pipelined requests that ask to keep the connection, each answered by handlers that no exception disturbs, the loop does not end before a round behind the last request |
| Connection.KeptConnectionIsReadable | sanic/http/http1.py:295-414 | in every run, a connection is kept only behind a keep-alive response, which a client reads as exactly the blocks sent iff its head announces one framing; handlers that leave Transfer-Encoding alone write no other |
| Connection.EveryResponseIsAPrefix | sanic/http/http1.py:295-414 | in every run, also the last response of a connection with one framing can be completed to a readable one, iff its first block was not oversized; a round left inside a declared length never hands on |
| Connection.TurnIsExact | sanic/http/http1.py:151-174 | a round that hands on, by the one-shot reader, handed out the whole payload and consumed input |
| Connection.RunSnoc | sanic/http/http1.py:105-108 | adding an exact round that starts where the last one left the stream extends a run |
| ResponseWire.FramedIsReadBack | sanic/http/http1.py:380-414 | a complete body, of whatever framing, is read by a client as the blocks sent |
| ResponseWire.ProgressIsPrefix | sanic/http/http1.py:295-414 | in every response state, the bytes written of a response with one framing can be completed to a readable one iff the first block was not oversized |
| ResponseWire.AmbiguousIsMisread | sanic/http/http1.py:331-343 | for every head with two framings and every body: the client does not get that body |
| ResponseWire.CompleteIsReadable | sanic/http/http1.py:331-343 | a complete response is read as exactly its blocks iff it has one framing |
| ResponseWire.NormalStep | sanic/http/http1.py:397-414 | a block that fits keeps body and declared length in step, and completes it exactly at zero left |
| ResponseWire.ChunkedStep | sanic/http/http1.py:380-395 | a chunk keeps the body the encoding of the blocks, the last one completes it |
| ResponseWire.SendHead | sanic/http/http1.py:357-371 | interim, head and first data make a started response with that head and body |
| RequestHead.FramingIsUnambiguous | sanic/http/http1.py:217-288 | an accepted head has no length field and no body, or exactly one length field, which alone decides the framing |
| RequestHead.MessageRoundTrip | sanic/http/http1.py:176-293 | a well-formed message followed by anything is read as its payload, leaving exactly what follows |
| RequestHead.MessageShrinks | sanic/http/http1.py:290-291 | every whole message takes something off the stream |
| Framing.ChunkedRoundTrip | sanic/http/http1.py:380-395 | the one-shot reader undoes the chunk writer for all blocks and suffixes (section 7.1 of RFC 9112) |
| Framing.SizeLine | sanic/http/http1.py:512-528 | a printed size line ends where it should and reads back as the size |
| Framing.UnreadTake | sanic/http/http1.py:568-573 | taking part of a chunk takes exactly these octets off the payload |
| Framing.HeaderLeaves | sanic/http/http1.py:533-552 | taking a chunk header, or the last chunk, takes nothing off the payload and nothing of what follows |
| Framing.UnreadShrinks | sanic/http/http1.py:540-549 | a whole body, what follows it and for a chunked one the last chunk are all in the stream, and at least what was announced is payload |
| Octets.SafeIntOfHex | sanic/http/http1.py:615-619 | what the chunk writer prints the chunk reader reads: the two are inverse on all sizes |
| CookieQuoting.Unquote | sanic/cookies/request.py:16-47 | total, and equal to one left-to-right decoder on every string |
| CookieQuoting.PairComesFirst | sanic/cookies/request.py:28-43 | the octal search never finds a match in front of the quote search |
| CookieQuoting.QuoteRoundTrip | sanic/cookies/response.py:33-42 | reading undoes quoting for every text, except that the empty text comes back as two quotes |
| CookieQuoting.ReadToken | sanic/cookies/request.py:75-91 | what one token means, or that it is skipped |
| CookieQuoting.ParseCookie | sanic/cookies/request.py:50-98 | the dictionary groups exactly the accepted pairs by name, in order, and holds no other name |
| CookieQuoting.TokenRoundTrip | sanic/cookies/request.py:75-91 | a written token is read as its pair, and skipped iff its name holds a colon |
| CookieQuoting.HeaderRoundTrip | sanic/cookies/request.py:74-96 | what becomes of every pair of a written header, in order |
| CookieQuoting.CookieRoundTrip | sanic/cookies/request.py:50-98 | a written header is read as the pairs written iff no name holds a colon and no value is empty |
| CookieJars.CookieJar.GetCookie | sanic/cookies/response.py:76-107 | the first cookie with that key, path and domain |
| CookieJars.CookieJar.HasCookie | sanic/cookies/response.py:109-140 | whether there is one |
| CookieJars.AddedCookieIsFound | sanic/cookies/response.py:200-229 | an added cookie is found again unless one with its identity was there, finding others is unaffected, and its name and flags meet the prefix asked for |
| CookieJars.CookieJar.DeleteCookie | sanic/cookies/response.py:266-315 | the jar and the outcome are those of the deletion the next lemmas describe, errors included |
| CookieJars.DeletionLeavesTombstone | sanic/cookies/response.py:276-315 | after a success the others are there in order, then one expired cookie with the first match's flags, the only one with its key, path and domain; deleting again changes nothing |
| CookieJars.DeletionSucceeds | sanic/cookies/response.py:403-450 | exactly when a deletion succeeds |
| CookieJars.FailedDeletionLosesCookies | sanic/cookies/response.py:266-287 | for every jar, a deletion that raises leaves the jar as it was iff it was refused at once or had nothing to take out |
| CookieJars.LostCookie | sanic/cookies/response.py:276-303 | a jar whose only cookie is lost: stored without the secure flag under a name with the secure prefix |
| ErrorHandlers.ErrorHandler.AddOne | sanic/handlers/error.py:37-52 | a key already there, be it only remembered, is refused and nothing changes |
| ErrorHandlers.ErrorHandler.Add | sanic/handlers/error.py:54-71 | the table after registering on each route, up to the first duplicate |
| ErrorHandlers.AddRegisters | sanic/handlers/error.py:66-71 | before any lookup, registering adds exactly the handler's keys and keeps all others |
| ErrorHandlers.ErrorHandler.Lookup | sanic/handlers/error.py:73-108 | the answer and the memory of one lookup, by the first entry on the way up |
| ErrorHandlers.LookupKeepsRegistrations | sanic/handlers/error.py:95-108 | no lookup ever changes a registered handler |
| ErrorHandlers.LookupAgrees | sanic/handlers/error.py:73-108 | with a memory of right answers of which none misleads the search, a lookup gives the answer of the registrations and keeps the memory right, failed searches included |
| ErrorHandlers.MemoryIsInvisible | sanic/handlers/error.py:73-108 | for any inheritance and registrations, every sequence of lookups agrees with the uncached search iff no lookup can be misled |
| ErrorHandlers.MemoryIsInvisibleWithoutRoutes | sanic/handlers/error.py:73-108 | the same for lookups without a route |
| ErrorHandlers.SafeWithOneParent | sanic/handlers/error.py:87-106 | with single inheritance, a lookup cannot be misled iff no handler for all routes lies below an unclaimed ancestor, and the route's answer does not compete with the one for all routes |
| ErrorHandlers.Exposed | sanic/handlers/error.py:87-106 | whenever a lookup can be misled, two lookups show it, without a route if it has none |
| ErrorHandlers.LookupsWithoutRouteAgree | sanic/handlers/error.py:73-108 | with single inheritance, lookups without a route always agree |
| ErrorHandlers.RouteHandlersAloneAgree | sanic/handlers/error.py:73-108 | with single inheritance and no handler for all routes, all lookups agree |
| ErrorHandlers.FailedLookupHidesHandler | sanic/handlers/error.py:87-106 | the condition violated with one handler: a failed search for the base class on a route hides a handler of a class in between |
| ErrorHandlers.TwoParentsHideHandler | sanic/handlers/error.py:87-106 | the condition violated without a route: with two parents a failed search hides the second parent's handler |
| AcceptHeaders.ListIsOrdered | sanic/headers.py:316-324 | the list is the header's media types by q, parameters and wildcards, equals in header order |
| AcceptHeaders.Candidates | sanic/headers.py:284-290 | exactly the compatible pairs of an entry and an offer |
| AcceptHeaders.MatchIsLeast | sanic/headers.py:284-291 | unless an offer raises, the match precedes every candidate, and there is one whenever there is a candidate |
| AcceptHeaders.NegotiationIsOptimal | sanic/headers.py:257-326 | for every header text and offers: an error iff the header is refused or an unparsable offer is compared; no match iff nothing is compatible; otherwise the one pair better than every other by q, offer, parameters, wildcards and header position |
| AcceptHeaders.OfferOrderBeatsSpecificity | sanic/headers.py:284-291 | of two media types at the same q, the less specific one decides when it alone is compatible with the first offer |
| AcceptHeaders.WildcardWins | sanic/headers.py:284-291 | so it is for HTML and a wildcard in the header, and JSON offered before HTML |
| AcceptHeaders.EmptyHeaderAcceptsNothing | sanic/headers.py:313-315 | an empty header matches nothing and looks at no offer |
| AcceptHeaders.NoHeaderAcceptsFirstPlainOffer | sanic/headers.py:313-324 | without a header the match is the first offer without parameters, and none iff there is no such offer |
| Sorting.SortIsStable | sanic/headers.py:324-324 | equals keep their order of arrival |
| Forwarded.ParseForwarded | sanic/headers.py:368-403 | the normalised parameters of the selected element, or nothing |
| Forwarded.ScanHits | sanic/headers.py:382-401 | the right-to-left loop over the matches computes the recursive scan |
| Forwarded.FwdNormalize | sanic/headers.py:444-488 | for every name the last option that has a normal form, and no other name |
| Forwarded.FindHeader | sanic/headers.py:360-385 | in any header, read backwards, the pattern matches exactly the parameters, in reverse, with their separators, adjacent unless white space follows one |
| Forwarded.ScanHeader | sanic/headers.py:382-401 | the scan over them stops at the rightmost element with the secret, an element ending at a comma or at white space in front of a semicolon |
| Forwarded.RightmostIs | sanic/headers.py:368-371 | an element holding the secret with none to its right, or nothing iff there is none |
| Forwarded.ForwardedSelection | sanic/headers.py:368-403 | for every header, with any white space, the parameters of that element, left to right, and nothing iff there is none |
| Forwarded.TextOnTheLeftIsIgnored | sanic/headers.py:378-403 | whatever text stands to the left, the selection is the same as long as the elements to the right hold the secret |
| Forwarded.WrittenElements | sanic/headers.py:382-387 | the elements seen are the elements written iff white space stands nowhere in front of a semicolon |
| MultipartForms.ParseHeaders | sanic/request/form.py:51-91 | the inner loop reads the lines of the part up to the empty one, or raises at the first that is not UTF-8 or has no colon |
| MultipartForms.ParsePart | sanic/request/form.py:45-112 | what a part contributes: a decoded field, a file or nothing, or that it raises |
| MultipartForms.ParseMultipartForm | sanic/request/form.py:32-114 | the two dictionaries group exactly the parts' fields and files by name, in order; it raises iff a part does |
| MultipartForms.ContentHeaderIsRead | sanic/headers.py:343-357 | a value with any list of token or quoted parameters and any white space around them is read as the lower-case value and, for each name, its last parameter |
| MultipartForms.PartRoundTrip | sanic/request/form.py:46-107 | a rendered part with any headers, in any order and spelling, with any parameters, is read back as what they say and its data, byte for byte |
| MultipartForms.EscapedNameIsRead | sanic/headers.py:350-356 | every name without percent signs and carriage returns, written with quotes as %22 and line feeds as %0D%0A, is read back |
| MultipartForms.ClientNamesAreRead | sanic/request/form.py:70-86 | a name and a file name so written, in either order, are what the part is named by |
| MultipartForms.FormRoundTrip | sanic/request/form.py:45-112 | a rendered form whose boundary occurs only as a delimiter is read back as exactly its parts, in order, and raises iff one cannot be decoded |
| Middlewares.App.RegisterMiddleware | sanic/app.py:463-506 | the object called for, new or given, once, at the end for requests and at the front for responses; identities stay distinct |
| Middlewares.App.RegisterNamedMiddleware | sanic/app.py:508-560 | the same on each named route |
| Middlewares.RegistrationKeepsIdentities | sanic/app.py:483-498 | what is registered has the function and the priority asked for, is a new object or the given one, and no two objects share a number |
| Middlewares.NamedRoutesGetItOnce | sanic/app.py:546-559 | each named route gets the object once, no other route changes |
| Middlewares.App.FinalizeMiddleware | sanic/mixins/middleware.py:186-232 | every route gets the order of the global and its named middleware; definition numbers stay distinct |
| Middlewares.RequestOrderIsDetermined | sanic/mixins/middleware.py:197-203 | the list is the only arrangement by higher priority, then earlier definition |
| Middlewares.ResponseOrderIsDetermined | sanic/mixins/middleware.py:204-210 | the list is the only arrangement by lower priority, then later definition |
| Middlewares.SameBagSameOrder | sanic/middleware.py:58-67 | the order depends only on what is registered |
| Middlewares.HigherPriorityRunsFirst | sanic/middleware.py:58-67 | of any two request middlewares the one with the higher number runs first, in either order of registration |
| Middlewares.FinalizingAgainChangesNothing | sanic/mixins/middleware.py:186-232 | finalising from ordered deques gives the same lists |
| FileRanges.ContentRange.Init | sanic/handlers/content_range.py:29-76 | refuses exactly the headers that are missing, unreadable or select nothing forwards; otherwise the bounds delimit the positions asked for; truthy iff accepted |
| FileRanges.ContentRange.InitBounds | sanic/handlers/content_range.py:39-72 | the same for the value behind the unit |
| FileRanges.RangeHeaderRead | sanic/handlers/content_range.py:34-51 | a header written as unit and two bounds is read back as them |
| FileRanges.StreamSpan | sanic/response/convenience.py:379-386 | terminates having written, in non-empty pieces of at most the chunk size, the available bytes up to the size rounded up to whole steps |
| FileRanges.StreamFile | sanic/response/convenience.py:376-392 | the same for the whole function, the unranged branch writing the whole file |
| FileRanges.FileBody | sanic/response/convenience.py:281-290 | the range, or the whole file; an error iff the start is negative |
| FileRanges.StreamedIsExact | sanic/response/convenience.py:380-386 | exact iff the file ends with the range or the step divides the size, else less than one step too much |
| FileRanges.RangeIsServed | sanic/response/convenience.py:376-386 | `file` sends exactly the positions asked for; `file_stream` does iff the range reaches the end of the file or the step divides its size, hence always for open-ended and suffix ranges |
| FileRanges.LongSuffixStartsBeforeTheFile | sanic/handlers/content_range.py:60-63 | a start is negative iff a suffix longer than the file was asked for |

## Left out

- Http1.Http.ServeOne: that the connection must be kept is not stated for handlers that lower the size limit or leave an action unguarded.
- Http1.Http.RunScript: a handler that catches CancelledError itself is outside the model; a wait cancelled behind the last chunk has already marked the body as read, so a connection kept then could be misaligned.
- RequestHead.FramingIsUnambiguous: field names and values are octets, stripped and lower-cased as ASCII; the source works on decoded text, where a few other characters count as white space or have ASCII lower case.
- CookieJars.DeletionSucceeds: assumes the jar's cookies have a valid samesite, as every cookie that was constructed does.
- Forwarded.ForwardedSelection: quoted values hold no quote, and every name is followed at once by its equals sign and value.
- Forwarded.FwdNormalize: `int` and `unquote` are parameters, and lower-casing is that of ASCII.
- MultipartForms.PartRoundTrip: what a parameter's text means is the source's own unescaping, of which the round trip is stated for names without percent signs and carriage returns; lower-casing is that of ASCII.
- MultipartForms.FormRoundTrip: UTF-8, the charset decoder of field values, RFC 2231 and NFC are parameters, of which only that UTF-8 decodes what the client encoded is used.
- AcceptHeaders.NegotiationIsOptimal: q values are reals, and `float` is a parameter.
- FileRanges.ContentRange.Init: Python's `int` on a bound is a parameter.
- FileRanges.StreamFile: a file is its content and a position; reads of a regular file are taken to be full.
- Sockets, asyncio scheduling, timeouts, failing writes to the transport and access logs: waits and writes are the model's only contact with the outside.
- Signal dispatch inside the engine, and the request object but for the fields the engine reads.
- WebSocket upgrades (only the flag is kept), HTTP/3 and ASGI.
- Chunk trailers, which the reader does not support; the branch for a negative chunk size, which cannot be reached because the sign is refused before.
- Non-ASCII digits and white space in `int()`, and Python's limit on the length of numerals.
- Cookie setters after construction, `expires` formatting, and other headers beside Set-Cookie in the jar.
- The class hierarchy of exceptions is a function from a class to its ancestors; handlers are taken to be truthy.
- Raw functions in the middleware deques, which only code outside the two registration methods could put there.
- Routing, the worker manager, error pages, TLS, the command line and configuration: separate systems, or not part of this model.
