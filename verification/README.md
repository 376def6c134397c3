# Verified models of the WebRTC samples

This project models, in Dafny, the parts of the samples whose behaviour is hardest to see from
any one function, and proves what they do for every input and every run.

- **HTTP wire codecs** (`samples/httplib.h`): the multipart parser and serializer, chunked
  transfer coding, the buffered socket reader and the line reader, query strings, byte ranges
  and base64. Where the source has an object that updates its fields or a loop, so has the model;
  each such method is proved against a function on values, and the laws are proved of that
  function.
- **HTTP concurrency** (`samples/httplib.h`): the worker pool, and `send`/`stop` on one client.
  Each section under a mutex is one atomic step, a run is any sequence of steps by any threads,
  and a step that is not enabled does nothing.
- **Session registry** (`samples/Common.c`): offers, ICE candidates, terminations and cleanup
  passes on a master. Every handler runs under one lock, so each is one atomic step. The class
  `SampleConfiguration`, with its array, index and queues updated in place, refines the state
  machine of module `Registry`.
- **Wire-format walkers** (`samples/pcapDump.c`): transport-wide congestion control feedback, SCTP
  chunks and compound RTCP packets; and the sender of that feedback
  (`src/source/PeerConnection/Rtcp.c`), against which the reader is checked.
- **Bitrate loop** (`samples/Common.c`, `samples/kvsWebrtcClientMasterGstSample.c`).

| file | contents |
|---|---|
| `Basics.dfy`, `Bytes.dfy` | options, powers of two, facts about sequences; octets, searching for a pattern, cutting sequences |
| `Multipart.dfy`, `FormDataParser.dfy` | the form-data format and its round trip; the parser with its sliding buffer |
| `FormHeaders.dfy`, `MultipartSafety.dfy` | what the header lines of a part say, and the round trip of the items themselves; what the parser does with any input |
| `SocketStream.dfy`, `Hex.dfy`, `Chunked.dfy` | socket, buffered stream, line reader; hexadecimal numbers; chunked coding |
| `FormUpload.dfy` | a form on its whole way through all of these |
| `Query.dfy`, `QueryParams.dfy`, `Params.dfy` | components, splitting, normalising; parameters and queries |
| `Ranges.dfy`, `Base64.dfy` | byte ranges; base64 |
| `ThreadPool.dfy`, `InFlight.dfy` | the two concurrency protocols |
| `Registry.dfy`, `RegistryInvariant.dfy`, `CandidateDelivery.dfy`, `PendingExpiry.dfy`, `CleanupPass.dfy`, `SampleConfiguration.dfy` | the session registry |
| `Twcc.dfy`, `TwccFeedback.dfy` | feedback reader, feedback sender and the round trip between them |
| `TwccVectors.dfy` | status vectors, and the round trip of feedback in any mix of chunks |
| `TwccDrift.dfy`, `TwccSpace.dfy` | the clock that the reader rebuilds; the space that the sender reserves |
| `Walkers.dfy` | the walks over SCTP chunks and RTCP packets |
| `Bitrate.dfy` | the bitrate loop |

## What does not hold of the code

Ten properties that one would expect fail. The model keeps the code as it is, shows the failure,
and states exactly when the property does hold.

- The index does not always list exactly the sessions: when a session refuses one of its early
  candidates, the index entry stays (`LeakHappens`, for any hash, peer and candidate). The index is
  exact if and only if no admitted offer of the run met that case (`RegistryInvariant.EveryRun`).
  Nothing ever clears such an entry, so no peer with its hash is admitted again
  (`NeverAdmittedAgain`).
- One cleanup pass does not remove every terminated session, since the element swapped in is not
  looked at (`PassCanSkip`, on a run). With t terminated sessions it does so if and only if t is at
  most one or the last t - 1 sessions are all live (`PassClearsExactly`). A pass removes at least
  half of them, and as many passes as it takes for a power of two to exceed their number remove all
  (`PassesClear`).
- Coalesced ranges may overlap (`EqualRangesStayTwo`, a request that is accepted). They are apart,
  however `std::sort` orders equal keys, if and only if every repeated range starts inside or right
  after another (`SeparatesExactly`).
- A suffix range longer than the content is refused, where section 14.1.2 of RFC 9110 serves the
  whole content (`LongSuffixRefused`). A range can be satisfied if and only if it asks for anything
  and is not such a suffix (`SatisfiableExactly`).
- A stop can be forgotten. The comment in `send_` takes the flag for a message from another thread,
  set during the request; a redirect sends again from inside the request and clears it
  (`RedirectForgetsStop`). In every run a stop is on record if and only if one went on record and no
  attempt has started since (`StopStandsExactly`), and the end of a request closes the connection if
  and only if it asks to itself, the connection is closed already, or a stop stands (`EndCloses`).
- The clock rebuilt from congestion control feedback can fall behind without bound
  (`ClockFallsBehind`): a packet whose delta is too large to send is reported as lost, but the next
  delta is measured from its arrival. At every packet the clock is off by the time so missed, give
  or take less than a tick for every packet received (`ClockDrift`); it is within those ticks at
  every packet if and only if no delta was too large (`InStepExactly`).
- The first packet of a feedback report is measured from the reference time of the report, and should
  have a small delta. The milliseconds are cut to 32 bits first, so that it has one if and only if the
  clock has not passed 2^32 milliseconds; after that it is reported as lost (`FirstIsSmall`).
- A form item does not always arrive as it was sent, although the serializer takes any name: a name or
  file name is cut at semicolons and equals signs, even between quotes, and blanks at the ends of a
  type are lost. The item arrives if and only if there is no semicolon, equals sign or line end in
  its name and file name, and no blank at the ends of its type (`ReadExactly`). Quotes do no harm.
- An early candidate waits for twenty seconds (`WaitsItsTime`), but not near the end of the 64-bit
  clock, where the sum wraps around and any pass that comes to expiry forgets it (`LostAtWrap`).
- The space reserved for a feedback packet counts two octets for seven packets, while the sender
  writes two for every run of equal statuses. It suffices if and only if the status changes seldom
  enough (`SpaceSuffices`), and not when every other packet is lost, from some number of packets on
  (`SpaceFallsShort`).

## Model

| member | source | states |
|---|---|---|
| Multipart.SerializeFormData | samples/httplib.h:6774-6817 | the loop over items builds exactly the format of RFC 7578, with or without the closing delimiter |
| Multipart.RoundTrip | samples/httplib.h:6494-6638 | however a serialized body is cut into pieces, the parser accepts each piece, ends valid, and has delivered the same parts in order with exactly the header lines written for them and their contents |
| FormHeaders.FormRoundTrip | samples/httplib.h:6494-6817 | however a serialized form is cut into pieces, the receiver reads off the parts delivered the very items sent, each with its name, file name, type and content, if and only if the item is one that header lines can carry |
| FormHeaders.ReadExactly | samples/httplib.h:6546-6587 | reading the header lines written for an item gives the item back if and only if its name and file name hold no semicolon, equals sign or line end and its type no blank at its ends |
| FormHeaders.ParseDispositionParams | samples/httplib.h:6277-6299 | the loop, with its cache of pieces met, reads each different piece once, in order |
| FormHeaders.ReadParam | samples/httplib.h:6284-6297 | of a piece cut at equals signs the key is the first part and the value the last, both without the quotes around them |
| MultipartSafety.OnlyAccepted | samples/httplib.h:6494-6638 | of any input in any pieces, every part delivered has only header lines that were accepted, and was accepted itself |
| MultipartSafety.HoldsBackLittle | samples/httplib.h:6594-6616 | between calls no more of a part's content is held back than the delimiter is long |
| MultipartSafety.NothingAfterGarbage | samples/httplib.h:6617-6632 | after a delimiter that neither a line end nor dashes follow, input is taken but nothing is delivered, and a valid end is not reached |
| MultipartSafety.BoundaryCharsAre | samples/httplib.h:6762-6772 | the boundaries accepted are those of letters, digits, dashes and underscores |
| Multipart.EntriesTravel | samples/httplib.h:6494-6638 | the same for parts with any number of header lines |
| Multipart.StepOn | samples/httplib.h:6499-6634 | one turn of the parser's loop, in any of its five states, keeps buffer plus input to come equal to the text of its stage; it asks for more input only when there is more |
| Multipart.FeedAllOn | samples/httplib.h:6494-6638 | from any stage, any segmentation of the remaining text completes exactly the remaining parts |
| FormDataParsers.FormDataParser.StartsWith | samples/httplib.h:6670-6677 | true exactly when the pattern stands at that position of the window |
| FormDataParsers.FormDataParser.BufFind | samples/httplib.h:6689-6710 | the first occurrence of the pattern in the window, or the window's length |
| FormDataParsers.FormDataParser.BufAppend | samples/httplib.h:6712-6728 | compaction in place and growth leave the window as it was, followed by the new input |
| FormDataParsers.FormDataParser.ParseHeaders | samples/httplib.h:6516-6592 | takes header lines as the specified header loop does, up to the blank line, a refusal, or the end of the window |
| FormDataParsers.FormDataParser.ParseBody | samples/httplib.h:6594-6616 | delivers content up to the delimiter, or all but what could be its beginning |
| FormDataParsers.FormDataParser.Turn | samples/httplib.h:6500-6634 | one turn on the sliding buffer is one step of the parser on values |
| FormDataParsers.FormDataParser.Parse | samples/httplib.h:6494-6638 | one call refines the parser on values, whatever earlier calls left over |
| Streams.SocketStream.Read | samples/httplib.h:8233-8293 | returns the socket's next octets in order, none lost or repeated, at most as many as asked; 0 for a positive size only when the peer has closed |
| Streams.LineReader.Append | samples/httplib.h:4053-4064 | the held line grows by one octet whether it is in the fixed or the growable buffer |
| Streams.LineReader.GetLine | samples/httplib.h:4013-4051 | yields the next line of the stream and leaves the stream right after it; fails only on a faulty socket, at the end of input, or past the length limit |
| Streams.FetchLine | samples/httplib.h:10563-10564 | a line reader of its own on a fixed buffer takes exactly the next line off the stream |
| Streams.LineIsShortest | samples/httplib.h:4042-4047 | that line is the shortest non-empty segment that ends in CRLF |
| Hex.FromIToHex | samples/httplib.h:3472-3480 | prints the hexadecimal digits of the number |
| Hex.StrToULReadsDigits | samples/httplib.h:10563-10569 | reading the printed digits gives the number back and uses exactly those octets |
| Hex.SignRead | samples/httplib.h:10563-10569 | a sign before digits is used, and a minus sign negates modulo 2^64 |
| Hex.PrefixRead | samples/httplib.h:10563-10569 | so is 0x or 0X |
| Hex.BlanksSkipped | samples/httplib.h:10563-10569 | blanks before a number are used along with it |
| Chunked.SizeTaken | samples/httplib.h:10566-10569 | a printed size is taken if and only if it is less than the largest number that can be read |
| Chunked.ChunkSink.Write | samples/httplib.h:6069-6091 | an emitted chunk per non-empty piece |
| Chunked.WriteChunked | samples/httplib.h:6060-6157 | the wire holds the chunks of all the pieces and the last chunk |
| Chunked.ChunkedDecoder.NextChunk | samples/httplib.h:10562-10582 | reads a size line and enters the announced chunk, or finishes |
| Chunked.ChunkedDecoder.ReadPart | samples/httplib.h:10584-10593 | reads inside a chunk and moves offset and remainder together, so that they add up to the chunk's size |
| Chunked.ChunkedDecoder.ReadPayload | samples/httplib.h:10557-10602 | what is returned, followed by what is still owed, is what was owed before; 0 exactly when nothing is owed; chunk offset plus remainder is the chunk total throughout |
| Chunked.ReadContent | samples/httplib.h:5776-5808 | reading with any sizes yields exactly the pieces, on a socket that does not fail whenever they are within the payload limit; otherwise a prefix of them |
| Chunked.RoundTrip | samples/httplib.h:6060-6157 | what is written in chunks is read back, for every list of non-empty pieces and every delivery, if and only if it is within the payload limit |
| FormUploads.NextRead | samples/httplib.h:9095-9098 | no part of a form is refused as it arrives |
| FormUploads.ReadForm | samples/httplib.h:9079-9098 | decoder and parser together: on a socket that does not fail the form is accepted exactly when it is within the payload limit, and then the parser is valid and the items read off it are the items sent, in the sense above |
| FormUploads.Upload | samples/httplib.h:11412-11453 | end to end: however a form is cut into chunks and delivered, the items read are the items sent, each if and only if header lines can carry it |
| Query.EncodeComponent | samples/httplib.h:7737-7789 | the loop computes the percent-encoding, octet by octet, for either treatment of spaces |
| Query.DecodeComponent | samples/httplib.h:7791-7814 | the loop computes the decoding, with escapes exactly where `strtoul` uses both octets, for either treatment of plus signs |
| Query.DecodeEncode | samples/httplib.h:7737-7814 | decoding undoes encoding, for every octet string and either treatment of spaces |
| Query.MarksAre | samples/httplib.h:7745-7781 | the octets that stand for themselves are letters, digits and sixteen marks |
| Query.EncodedForms | samples/httplib.h:7749-7787 | what every octet becomes, in either mode, with upper-case digits in escapes |
| Query.DecodeLiteral | samples/httplib.h:7791-7814 | a text without percent and plus signs decodes to itself |
| Query.MalformedStays | samples/httplib.h:7796-7806 | a percent sign without two octets after it of which the second is a digit stays |
| Query.TrimInPlace | samples/httplib.h:3880-3889 | trimming with bounds of the whole text equals trimming the field alone |
| Query.Split | samples/httplib.h:3929-3949 | the scan yields exactly the non-empty stripped fields between separators |
| QueryParams.PiecesJoin | samples/httplib.h:3929-3949 | the pieces of two queries joined by a separator are those of the one and then the other |
| QueryParams.NormalizeQueryString | samples/httplib.h:6238-6264 | the loop prints the decoded parameters again |
| QueryParams.ReadPrinted | samples/httplib.h:6238-6264 | printed parameters are read back, less those without a key |
| QueryParams.NormalizingKeepsPairs | samples/httplib.h:6234-6264 | the ordered list of decoded parameters read off the result equals the one read off the input, for every octet string |
| QueryParams.NormalizingIsIdempotent | samples/httplib.h:6234-6264 | normalising twice is normalising once |
| ParamsMaps.ParamsToQueryStr | samples/httplib.h:6195-6205 | the loop prints the entries of the multimap in order |
| ParamsMaps.ParseQueryText | samples/httplib.h:6207-6228 | the loop, with its cache of pieces met, adds each different piece with a key once to the multimap passed in |
| ParamsMaps.ParamsRoundTrip | samples/httplib.h:6195-6228 | parsing the printed multimap gives it back with repeated entries collapsed and, what a query cannot carry, entries with an empty key dropped |
| ParamsMaps.CollapsedIsASet | samples/httplib.h:6207-6228 | collapsing keeps exactly the entries with a key, each once |
| ParamsMaps.EmplaceSorts | samples/httplib.h:6225 | an entry is added after those with a key that is not greater, so that the order of keys is kept, and among equal keys the order of adding |
| ParamsMaps.ParsedIsSorted | samples/httplib.h:6207-6228 | what is read into a multimap in key order is in key order |
| ParamsMaps.LeqAtDifference | samples/httplib.h:6225 | keys are compared at the first octet in which they differ |
| Ranges.ResolveIsExact | samples/httplib.h:6891-6921 | an accepted range resolves to exactly the positions it asks for by section 14.1.2 of RFC 9110 |
| Ranges.SatisfiableExactly | samples/httplib.h:6894-6921 | a well-formed range passes the bounds test if and only if it asks for anything and is not a suffix longer than the content |
| Ranges.LongSuffixRefused | samples/httplib.h:6899-6921 | every request for a suffix longer than the content is refused, although it asks for every position |
| Ranges.Validate | samples/httplib.h:6876-6935 | refuses exactly too many ranges, an unsatisfiable one, or more than two that overlap an earlier one |
| Ranges.OverlapsWhereShared | samples/httplib.h:6923-6931 | a range counts as overlapping an earlier one if and only if both ask for some position |
| Ranges.DisjointAccepted | samples/httplib.h:6876-6935 | at most 1024 ranges that can be satisfied, of which no two ask for the same position, are accepted |
| Ranges.CoalesceRanges | samples/httplib.h:6819-6873 | computes the merge of some arrangement of the ranges ordered by first position |
| Ranges.MergeKeeps | samples/httplib.h:6829-6870 | merging keeps the positions covered, the order, and the bounds |
| Ranges.MergeSeparates | samples/httplib.h:6853-6869 | merged ranges neither overlap nor touch when every repeated range starts inside or right after another |
| Ranges.SeparatesExactly | samples/httplib.h:6819-6873 | that condition is also necessary: without it some outcome of the sort leaves two overlapping ranges |
| Ranges.EqualRangesStayTwo | samples/httplib.h:6853-6869 | a request that is accepted and whose merged ranges overlap |
| Ranges.RangeError | samples/httplib.h:6875-6941 | when accepted, the ranges cover exactly the positions asked for, in order and within the content, and are apart under the condition above, in particular when no two resolved ranges are the same |
| Ranges.OffsetAndLength | samples/httplib.h:6943-6951 | under its assertions, which all coalesced ranges meet, offset and length describe exactly the positions of the range |
| Base64.Base64Encode | samples/httplib.h:3602-3628 | the shifting 32-bit accumulator, with its wrap-around, computes the encoding by groups of section 4 of RFC 4648 |
| Base64.DecodeEncode | samples/httplib.h:3602-3628 | the group decoder recovers every octet string |
| Base64.LetterIs | samples/httplib.h:3603-3604 | the alphabet is that of table 1 of RFC 4648 |
| Base64.EncodeLength | samples/httplib.h:3623-3625 | the length is four letters for every three octets begun |
| Base64.SettleOne | samples/httplib.h:3612-3619 | the letters emitted after one more octet are exactly those newly settled |
| ThreadPool.EveryRun | samples/httplib.h:941-1024 | in every interleaving: jobs accepted are those taken followed by those waiting, the limit holds, a job taken is running or has run and never both, workers leave only after the queue was drained |
| ThreadPool.TakenInOrder | samples/httplib.h:955-1004 | jobs are taken in the order accepted, and a positive limit is never exceeded |
| ThreadPool.DrainedExactlyOnce | samples/httplib.h:968-981 | with a worker, each job accepted before shutdown has run exactly once when shutdown returns |
| ThreadPool.AcceptsAll | samples/httplib.h:955-966 | on every run without a limit, the jobs accepted are exactly those enqueued, in order |
| ThreadPool.AcceptsExactly | samples/httplib.h:958-961 | with a limit, after any run, a job is accepted if and only if fewer jobs are accepted and not taken than the limit |
| ThreadPool.DrainedBeforeReturn | samples/httplib.h:955-1004 | with a worker, whatever the steps before and after the call of shutdown, each job accepted before it has run exactly once when it returns |
| ThreadPool.ShutdownCanReturn | samples/httplib.h:968-1004 | from every reachable state there is a continuation in which shutdown returns |
| ThreadPool.JobCanBeTaken | samples/httplib.h:983-1004 | on every run with a worker and before shutdown, a job that waits can be taken by notifications on their way and by workers that are up, alone |
| ThreadPool.NoticesArrive | samples/httplib.h:964 | every notification on its way can arrive, whether or not anyone sleeps |
| ThreadPool.WakesByItself | samples/httplib.h:989-997 | a worker that wakes without a notification takes a job that waits |
| ThreadPool.NoLostWakeup | samples/httplib.h:955-994 | while jobs wait, a worker is up or a notification is on its way |
| ThreadPool.ShutdownProgresses | samples/httplib.h:968-1004 | after everyone was notified, a worker that has not left has a step, and every step that a worker has brings the end nearer |
| InFlight.StepAgrees | samples/httplib.h:10147-10267 | every atomic section keeps the request mutex, the call stacks and the in-flight fields in agreement and meets the client's assertions |
| InFlight.EveryRun | samples/httplib.h:10091-10267 | in every interleaving of sends, nested redirect sends and stops, the counter is the nesting depth in flight of the one thread holding the request mutex, and no assertion fails |
| InFlight.StopStandsExactly | samples/httplib.h:10157-10165 | in every run a stop is on record if and only if one went on record during a request, or was at the start, and no attempt has started since |
| InFlight.EndCloses | samples/httplib.h:10238-10253 | the end of a request closes the connection if and only if it asks to itself, the connection is closed already, or a stop stands |
| InFlight.ClosesSafely | samples/httplib.h:10091-10108 | on every run, whichever step closes the connection, no request is in flight then or those that are belong to the thread that took the step |
| InFlight.MisuseIsCaught | samples/httplib.h:10098-10099 | the assertions fail where the connection of another thread's request is closed or used, or more requests end than were begun |
| InFlight.AtMostTwoAttempts | samples/httplib.h:10147-10155 | between entering send and leaving it a call starts at most two attempts |
| InFlight.RequestRuns | samples/httplib.h:10157-10267 | a request on a client at rest leaves it at rest, with the connection open exactly when it did not ask to close it |
| InFlight.SecondAttemptRuns | samples/httplib.h:10147-10155 | the same when only the second attempt connects |
| InFlight.StopClosesWhenDone | samples/httplib.h:12246-12267 | after a stop, in every continuation in which no attempt starts, the connection is closed as soon as no request is in flight or fewer are than at the stop |
| InFlight.StopTakesEffect | samples/httplib.h:12246-12267 | the same after every run |
| InFlight.ClosedStays | samples/httplib.h:10091-10108 | a closed connection stays closed until an attempt starts |
| InFlight.CloseTakesEffect | samples/httplib.h:10650-10663 | a response that asks to close the connection closes it, until an attempt starts |
| InFlight.RedirectForgetsStop | samples/httplib.h:6167-6193 | a redirect that sends again clears the stop: the outer request is back where it was, with an open connection |
| Registry.ExpirySplits | samples/Common.c:1707-1737 | a queue survives exactly when unexpired, is released exactly when expired, and none is lost or doubled |
| Registry.ExpiryKeepsOrder | samples/Common.c:1707-1737 | the surviving queues keep their relative order |
| RegistryInvariant.StepKeeps | samples/Common.c:1464-1627 | every event keeps the registry consistent, and keeps its index exact unless an admitted offer loses an early candidate |
| RegistryInvariant.EveryRun | samples/Common.c:1464-1627 | on every run: at most ten sessions with distinct hashes and each under its hash in the index, no hash with two pending queues or with both a queue and an index entry; the index is exact if and only if no admitted offer lost an early candidate |
| RegistryInvariant.AdmittedExactly | samples/Common.c:1489-1534 | an offer leads to a session if and only if its hash is not in the index, fewer than ten sessions are listed, the session is created and answered, and it takes every early candidate |
| RegistryInvariant.LeakHappens | samples/Common.c:1516-1522 | for any hash, peer and candidate that is refused: a run of two events that leaves an index entry without a session |
| RegistryInvariant.StaleStays | samples/Common.c:1464-1627 | no event clears an index entry without a session |
| RegistryInvariant.NeverAdmittedAgain | samples/Common.c:1489-1492 | after such an entry, whatever else happens, offers and candidates under its hash change nothing |
| RegistryInvariant.SessionsConserved | samples/Common.c:1346-1371 | on every run, each session created is listed or was freed, and freed once |
| CandidateDelivery.StepGrew | samples/Common.c:1432-1455 | what a hash holds after an event is what it held before, followed by the candidate received |
| CandidateDelivery.DeliveredInOrder | samples/Common.c:1501-1588 | on every run, a session or queue holds exactly the candidates received for its hash since the hash became known, each once, in arrival order |
| CandidateDelivery.SinceBreaks | samples/Common.c:1563-1588 | that moment is the last one at which the hash was not known |
| CandidateDelivery.Forgotten | samples/Common.c:1501-1512 | a hash is forgotten only by expiry of its queue, by termination of its session, or by an offer refused at capacity or losing an early candidate |
| PendingExpiry.WaitsItsTime | samples/Common.c:1707-1737 | after any run, a candidate that arrives at clock t for an unknown hash is held, followed by those after it, through any events of other peers and any passes that expire queues up to t + 200 000 000, if that sum does not wrap around |
| PendingExpiry.ForgottenInTime | samples/Common.c:1720-1730 | the first pass that expires queues at a later clock forgets the hash |
| PendingExpiry.LostAtWrap | samples/Common.c:1725 | where the sum wraps around, a pass at the same clock or later forgets it at once |
| CleanupPass.SweepConserves | samples/Common.c:1346-1371 | a pass only moves sessions from the list to the freed ones |
| CleanupPass.SweepFreesTerminated | samples/Common.c:1346-1371 | whatever a pass frees was terminated |
| CleanupPass.SweepKeepsLive | samples/Common.c:1346-1371 | a live session stays listed |
| CleanupPass.SweepHalves | samples/Common.c:1346-1371 | a pass leaves at most half of the terminated sessions |
| CleanupPass.PassesHalve | samples/Common.c:1340-1371 | k passes leave at most one in two to the power of k |
| CleanupPass.PassesClear | samples/Common.c:1340-1371 | logarithmically many passes remove them all |
| CleanupPass.PassClearsExactly | samples/Common.c:1346-1371 | one pass removes every terminated session if and only if there are t with t at most one or the last t - 1 sessions live |
| CleanupPass.PassCanSkip | samples/Common.c:1346-1371 | a run of two offers, two disconnects and one pass after which a terminated session is still listed |
| SampleConfigurations.SampleConfiguration.GetPendingQueue | samples/Common.c:1673-1705 | finds the first queue of the hash, and removes exactly it on request |
| SampleConfigurations.SampleConfiguration.SubmitPending | samples/Common.c:1432-1462 | hands over the queued candidates in order, up to the first one refused |
| SampleConfigurations.SampleConfiguration.OnOffer | samples/Common.c:1489-1534 | the handler on shared objects is the offer step of the state machine |
| SampleConfigurations.SampleConfiguration.OnCandidate | samples/Common.c:1563-1588 | likewise for a candidate, with a session reached through the index |
| SampleConfigurations.SampleConfiguration.OnTerminate | samples/Common.c:57-65 | a failed, closed or disconnected connection sets the flag of its session and of no other: the terminate step |
| SampleConfigurations.SampleConfiguration.SweepTerminated | samples/Common.c:1346-1371 | the scan that swaps in place is the specified sweep |
| SampleConfigurations.SampleConfiguration.RemoveExpired | samples/Common.c:1707-1737 | dequeuing and re-enqueuing in the same list leaves exactly the unexpired queues, in order, and releases the others once |
| SampleConfigurations.SampleConfiguration.OnCleanup | samples/Common.c:1340-1408 | sweep and expiry together are the cleanup step, which ends before the expiry when a signaling call fails |
| Twcc.ExpandedIsPrefix | samples/pcapDump.c:87-152 | the symbols used are the first ones of all that the payload's chunks hold |
| Twcc.FindDeltas | samples/pcapDump.c:67-79 | the first walk ends where the chunks needed end |
| Twcc.CountPackets | samples/pcapDump.c:87-152 | the second walk stops where the first one does, and accounts for each symbol wanted |
| Twcc.DumpFeedback | samples/pcapDump.c:42-160 | both walks together compute the report, for every payload, also a short or malformed one |
| Twcc.ChunksConsumed | samples/pcapDump.c:67-79 | the chunks up to where both walks stop are exactly those that the symbols wanted take: the symbols used are those of these chunks alone, without the last one there are too few, and with it there are enough or no chunk follows |
| Twcc.ReportIsFaithful | samples/pcapDump.c:62-153 | packet base+k gets the k-th symbol, the packets lost are those with symbol 0, received plus lost is the smaller of the announced count and the symbols available, and deltas are read from right after the last chunk consumed, in that sense, and never past the payload |
| Twcc.DeltasInPlace | samples/pcapDump.c:104-112 | of every payload long enough for them, the delta of each packet is the one that stands after those of the packets before it |
| Twcc.ArrivalsAddUp | samples/pcapDump.c:58-112 | of every payload, arrivals count from the reference time and go on by the deltas |
| TwccVectors.WordReads | src/source/PeerConnection/Rtcp.h:55-69 | a run-length chunk, seven two-bit symbols or fourteen one-bit symbols, packed with the first symbol highest as section 3.1 of draft-holmer-rmcat-transport-wide-cc-extensions-01 has it, are read as the symbols packed |
| TwccVectors.MixReads | samples/pcapDump.c:67-152 | both walks take any mix of such chunks for the statuses it carries, and end after it |
| TwccVectors.MixedRoundTrip | samples/pcapDump.c:42-160 | of a payload whose statuses are sent in any mix of chunks, and with anything after its deltas, every packet is reported with the sequence number, status and delta sent |
| TwccFeedback.ClassifyExactly | src/source/PeerConnection/Rtcp.c:1339-1361 | by the time since the last arrival: which status a packet gets, and its delta in whole ticks cut off toward zero |
| TwccFeedback.FirstIsSmall | src/source/PeerConnection/Rtcp.c:1455-1463 | the first packet of a report has a small delta if and only if the clock has not passed 2^32 milliseconds, and counts as lost otherwise |
| TwccFeedback.BuildFeedback | src/source/PeerConnection/Rtcp.c:1364-1598 | the sender's loops write the specified feedback, and none when nothing has arrived |
| TwccFeedback.ChunksRead | src/source/PeerConnection/Rtcp.c:1565-1580 | the run-length chunks written are read back as the statuses, and end where the reader looks for deltas |
| TwccFeedback.DeltasRead | src/source/PeerConnection/Rtcp.c:1582-1591 | the deltas written are read back, packet by packet |
| TwccFeedback.FeedbackRoundTrip | src/source/PeerConnection/Rtcp.c:1565-1598 | the reader reports of any feedback exactly what the sender put into it |
| TwccFeedback.SentIsRead | src/source/PeerConnection/Rtcp.c:1460-1598 | the same from the arrival times on |
| TwccDrift.DriftBound | src/source/PeerConnection/Rtcp.c:1468-1492 | for any arrivals, the sum of the deltas is off by the time missed, give or take less than a tick for every packet received |
| TwccDrift.ClockDrift | src/source/PeerConnection/Rtcp.c:1339-1361 | the arrival that the reader rebuilds for every packet is off by the time missed so far, give or take less than a tick for every packet received so far |
| TwccDrift.InStepExactly | src/source/PeerConnection/Rtcp.c:1468-1492 | the rebuilt clock is within those ticks at every packet if and only if no delta was too large to send |
| TwccDrift.ClockFallsBehind | src/source/PeerConnection/Rtcp.c:1471-1486 | any gap too long to send leaves the reader's clock behind by all of the gap |
| TwccSpace.Reserve | src/source/PeerConnection/Rtcp.c:1503-1519 | the loop computes the space reserved |
| TwccSpace.ChunksAreRuns | src/source/PeerConnection/Rtcp.c:1565-1580 | the sender writes one chunk for every run of equal statuses |
| TwccSpace.SpaceSuffices | src/source/PeerConnection/Rtcp.c:1503-1598 | the packet fits into the space reserved if and only if the status changes fewer times than there is room for runs |
| TwccSpace.SpaceFallsShort | src/source/PeerConnection/Rtcp.c:1503-1580 | for arrivals of which every other one is missing it does not fit, from some number of packets on |
| Walkers.WalkSctpChunks | samples/pcapDump.c:280-373 | the loop visits exactly the units of the specified walk, after the common header |
| Walkers.WalkRtcpPackets | samples/pcapDump.c:451-568 | likewise for a compound RTCP packet |
| Walkers.WalkStaysInside | samples/pcapDump.c:282-372 | on arbitrary octets every unit visited lies inside the buffer and starts where the one before it ends, so offsets strictly grow |
| Walkers.WalkVisitsAll | samples/pcapDump.c:280-373 | walking well-formed units sent one after the other visits exactly those, octet for octet, in order |
| Walkers.SctpVisited | samples/pcapDump.c:280-373 | walking an SCTP packet built by section 3.2 of RFC 9260 visits its chunks, octet for octet without their padding, in order |
| Walkers.RtcpVisited | samples/pcapDump.c:451-564 | walking a compound built by section 6.4.1 of RFC 3550 visits its packets in order, and takes for feedback exactly those of type 205 and format 15 that are long enough |
| Walkers.FeedbackInCompound | samples/pcapDump.c:545-564 | feedback inside any compound packet is found, recognised, and reported as it was sent |
| Bitrate.SuggestionBounded | samples/Common.c:719-738 | a suggestion made from a rate within the limits is within them, whatever the loss |
| Bitrate.StepInBounds | samples/kvsWebrtcClientMasterGstSample.c:63-107 | every atomic section keeps the encoder, the rates seen and the suggestions within the limits |
| Bitrate.EveryRun | samples/kvsWebrtcClientMasterGstSample.c:63-107 | in every interleaving over any number of sessions, an encoder that starts within its limits stays within them, and every pending suggestion is none or within them |
| Bitrate.RoundApplies | samples/kvsWebrtcClientMasterGstSample.c:68-82 | after a suggestion and two frames the encoder runs at the suggestion and the session has seen it: the rate seen lags by one frame |
| Bitrate.StepUp | samples/Common.c:723-727 | up to five percent loss the rate rises by five percent, and by at least 25, up to the limit |
| Bitrate.StepDown | samples/Common.c:728-733 | above five percent loss the rate falls by the loss, and by at least 25, down to the limit |
| Bitrate.FallsToLimit | samples/Common.c:711-738 | while the loss stays above, rounds of a suggestion and two frames take the encoder to its lower limit and keep it there |
| Bitrate.TooSoon | samples/Common.c:711-716 | within a second of the last adjustment nothing is adjusted |
| Bitrate.AverageFollows | samples/Common.c:708-709 | k measurements of the same loss leave of the average's distance from it 95 percent to the power of k |
| Bitrate.PercentIs | samples/Common.c:699-700 | the loss is counted in percent of what was sent, rounded down, as long as the product fits into 32 bits |
| Bitrate.ReadingStands | samples/kvsWebrtcClientMasterGstSample.c:63-107 | what a frame callback has read stands, whatever else happens, until it applies it |
| Bitrate.MembersChange | samples/Common.c:1346-1371 | a session that joins is added to the others, and one that leaves is the only one to go |
| Bitrate.ClimbsToLimit | samples/Common.c:711-738 | while the loss is small, rounds of a suggestion and two frames take the encoder to its limit, by at least 25 a round, and keep it there |

## Left out

- Sockets, DNS, polling, memory mapping, TLS and compression: foreign calls; a socket is a byte stream with short reads of any size that may fail at any moment, and compression is the identity.
- Regular expressions: the disposition and the extended file name are matched by tests on prefixes that accept the same lines.
- Multipart.RoundTrip: does not cover an empty list of items, an epilogue other than the one the serializer writes, header lines at the length limit, or contents that hold the delimiter, because the format does not carry the last and the parser's outcome for the others depends on the segmentation.
- `open_stream`, the destructor of the client, and proxies: they do not follow the discipline of the request mutex.
- InFlight.EveryRun: shutting down a socket under a request in flight is not modelled, only closing it; whether the next attempt finds the socket alive is a parameter.
- FormDataParsers.FormDataParser.ParseHeaders: whether a header line is accepted is a parameter; what the lines say is read off them in `FormHeaders`.
- FormHeaders.ReadExactly: how an extended file name is decoded is a parameter, of which only is asked that the result is not longer than the text.
- Chunked.ChunkSink.Write: does not model a write that fails, after which the source writes nothing more.
- Chunked.WriteChunked: does not model the content provider and its shutdown test; the pieces it would write are given.
- Chunked.ReadContent: does not parse trailers after the last chunk.
- FormUploads.ReadForm: does not parse trailers after the last chunk.
- Query.Split: the optional limit on the number of fields is not modelled.
- The getters, setters and request overloads of the client and server: thin wrappers.
- The SDK calls of the registry: the checksum of a client id and whether a session takes a candidate are parameters, and whether a session can be created and an offer answered is part of the event.
- Allocation and container failures: containers are sequences and maps whose operations succeed.
- RegistryInvariant.EveryRun: covers the master role; the viewer's ANSWER handling indexes by a different id. Signaling calls change none of the modelled state; that one of them fails is part of the cleanup event.
- Registry handles are never used twice, while the allocator may reuse an address; what a stale index entry points to after reuse is not captured.
- Ranges.CoalesceRanges: `std::sort` is any arrangement in order of first positions; the model's own sort only shows that there is one.
- TwccFeedback.BuildFeedback: the packet is built as a value; its buffer, its RTCP header fields other than the length, and the removal of reported packets from the receiver's table are not captured.
- TwccSpace.Reserve: the space set aside for SRTP, which a foreign header defines, is a parameter.
- Twcc.DumpFeedback: returns all rows where the program prints ten; times are whole ticks of a quarter millisecond.
- Jitter, round-trip times and the text printed by the packet dump: reporting without a deep property.
- Bitrate.EveryRun: floating point is real arithmetic.
- Viewer samples, GStreamer pipelines, data-channel benchmarks, metrics and configuration: glue around foreign libraries.
