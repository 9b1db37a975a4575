# httplib: verified models

This project models the parts of the C++ library httplib whose behaviour does not depend on
Boost, and proves what they promise:

- the multipart/form-data writer and its incremental reader (RFC 7578 section 4, RFC 2046
  section 5.1.1): `MultipartHeader`, `MultipartReader`, `MultipartWriter` and, for what they
  promise together, `MultipartHeaderProofs`, `MultipartRoundTrip` and `MultipartBoundary`; for
  messages by other clients, `MultipartMessages`;
- the routing trie: `RouterTrie` (nodes, insertion, search), `RouterTable` (registration
  against a flat table of routes), `RouterSearch` (the search: priority, verbs seen),
  `RouterBindings` (the search: parameters bound and erased), `Router` (the decision on a
  request), `RouterPatterns` (what the texts of routes mean), `RouterImpl` (the router and
  matcher objects);
- two concurrent protocols, as step machines over every interleaving: `ActionQueueProtocol`
  and `SessionProtocol`, with the code of each atomic section in `ActionQueue` and in the class
  `SessionProtocol.Session`;
- the splitter, the URL codec and the query multimap: `Splitter`, `UrlCodec`, `QueryParams`;
- static files: `PathCheck` (is a path confined), `HttpRanges` (the Range header),
  `FileTransfer` (sending a file or a part of it), `RangeService` (both together).

`Text` holds the string operations the code takes from the C++ and Boost libraries. Where the
source changes an object or a buffer in place, a class or a method over an array does so here,
and each method is tied to a specification function about which the theorems are proved.
`std::regex_match` is a parameter: any predicate on (regex, segment). A character stands for
one byte; the round trips of the URL codec and the query string, where its value matters, are
stated for strings of characters below 256 (`Bytes`). The classes `ActionQueue` and `Session`
have one method for each atomic section, whose contract is the step of the protocol; the table
lists those that branch.

## Main results

- **Multipart round trip** (`MultipartRoundTrip.RoundTrip`). However the writer's output is cut
  into chunks, the reader ends with exactly the fields written, if and only if there is a field
  and every field is clean. A field is clean when its name and filename close their quotes (no
  quote that is not escaped, no unfinished escape at the end) and hold no CRLF, its content type
  is trimmed and holds no CRLF, and no delimiter starts inside its content.
  `SimpleFieldIsClean` gives conditions on the strings alone. From the Content-Type header on
  (`MultipartBoundary.FormRoundTrip`): the reader's `init` succeeds with the boundary announced
  and the parse gives the fields written, if and only if also the boundary is not empty, is
  trimmed, and holds neither `;` nor `=` (`BoundaryAgreed`).
- **Messages by any client** (`MultipartMessages.AnyClient`). Any header lines, in any order,
  with parameters in any form (`ItemsMeaning`, `ParametersRead`): the message is read as the
  fields its lines describe if every Content-Disposition is form-data, and otherwise stops in the
  first part with another one. A body cut off is never complete (`CutOffIsPartial`), and nothing
  may follow one (`TrailingIsRefused`).
- **Chunk independence** (`ChunkIndependence`, `AnyChunking`) from every parser configuration and
  on every input; **the streaming delimiter search is the naive one** (`ContentSearch`).
- **The trie is the flat table** (`TrieIsTable`), **the search returns the best candidate of the
  table** (`SearchIsTable`), and **the decision is the one the table dictates**
  (`DecisionIsTable`: dispatch, 405 with the exact set of verbs, or 404), also told from the texts
  of the routes alone (`RequestIsRouted`, `SocketIsRouted`, `PatternMeaning`). The bindings passed on are
  exactly the pattern's if and only if no path tried in vain before it binds a name that the
  pattern has bound by then and does not bind again (`KeepsNames`), which holds whenever no
  pattern repeats a name (`DistinctKeeps`); a failed search then leaves the map as it was
  (`FailureRestores`).
- **Action queue**: `Safety` in every run; `NoLostWakeup` in every run without cancellation; in
  every run with one, the queue has its performer all along if and only if no performer sees its
  cancellation while actions are queued (`LostExactlyByAbandoning`), which a shutdown of a busy
  queue can always bring about (`ShutdownStrands`); `Drains`, `ClearedForGood`,
  `QuietShutdownDrains`, `CancelledStartNothing`, `ShutdownClosesQueue`.
- **Session**: `AbortWorks` (once every abort call has returned, at most one more task begins),
  `AfterAbort`, `SessionLives` and `EveryLifeIsLived` (exactly four sequences of tasks),
  `AtMostFourTasks`, `RunnerIsBounded`.
- **A file served**: `TransferIsExact` for every file, range and buffer size; a single range,
  whatever its ends, sends as many bytes as Content-Length announces if and only if it is inside
  the file or ends one byte before it starts (`ServedExactly`), and so for every header the
  parser turns into one range (`ParsedRangeServed`, `PrintedRangeServed`); without one the whole file
  (`NoRangeServed`).
- **Round trips with their exact condition**: `QueryRoundTrip`, `UrlRoundTrip`,
  `RangeRoundTrip`, `SuffixExactly`; and `ValidPathIsConfined`, `ValidPathCounts`,
  `SegmentsAreTextbook`, `StarBindsRest`.

## Where the code differs from what one would expect

The model follows the code. `url_decode` does not turn `+` back into a space although
`url_encode` writes one, so a space does not survive (`UrlRoundTrip`). A query pair with an empty
key loses its value to the key (`QueryRoundTrip`). A form without fields prints nothing
(`RoundTrip`). A boundary with `=` in it is not found again, nor is an empty one
(`BoundaryAgreed`, `NoBoundary`). A parameter name used twice in one pattern can cost another
pattern its binding (`RepeatedNameLosesBinding`). The reader compares header names as they are
written, so a `content-disposition` in lower case is skipped like any other line
(`UnknownLineSkipped`); and after a quoted value and white space a semicolon is taken for the start
of the next key (`ParametersRead`). A query item with three parts, as in `token=abc==`, is dropped
(`ItemOfParts`).
`http_ranges::parse` accepts a range that ends before it starts, as it stands, and refuses one of
a single byte unless it is byte 0 (`ParseText`, `RangeRoundTrip`). Although section 14.1.2 of
RFC 9110 gives `bytes=-n` the last n bytes, `split` drops the leading hyphen, so the parser reads
`n-`; the two agree only on half of a file (`SuffixExactly`). In files of more than 2^31 bytes a
range without an end stops short or is inverted (`LargeFile`). For an inverted range the
length announced wraps around 64 bits while at most one buffer goes out (`InvertedTransfer`).

## Model

| member | source | states |
|---|---|---|
| `Splitter.Split` | include/httplib/util/misc.hpp:100-136 | the loop computes the textbook split with one leading and one trailing delimiter forgotten and every piece trimmed |
| `Splitter.JoinPieces` | include/httplib/util/misc.hpp:100-136 | joining the pieces of the textbook split gives the string back |
| `Splitter.PiecesJoin` | include/httplib/util/misc.hpp:100-136 | splitting a join on one character gives the parts back exactly when no part holds the character |
| `Splitter.TokensLack` | include/httplib/util/misc.hpp:100-136 | no token holds the delimiter, and every token is trimmed |
| `Splitter.SplitsJoin` | include/httplib/util/misc.hpp:100-136 | parts joined by one character come back trimmed, but for one empty part in front and one at the end |
| `MultipartHeader.ParseContentDisposition` | lib/body/form_data_body.cpp:12-63 | the one-index scan yields exactly the recursively specified key and value pairs |
| `MultipartHeader.ScanQuoted` | lib/body/form_data_body.cpp:27-44 | the scan stops at the first quote that no backslash escapes, or at the end |
| `MultipartHeader.SplitHeaderFieldValue` | lib/body/form_data_body.cpp:64-87 | the key and value of every non-empty header line; an error when one has no colon |
| `MultipartHeader.ReadHeaderField` | lib/body/form_data_body.cpp:221-258 | the loops over the header lines build the specified field or report an unexpected body |
| `MultipartHeaderProofs.ParametersExact` | lib/body/form_data_body.cpp:109-112 | printed name and filename parameters are read back exactly when both values close their quotes |
| `MultipartHeaderProofs.ParametersLack` | lib/body/form_data_body.cpp:12-63 | no parameter value spans a line break |
| `MultipartHeaderProofs.HeaderFieldOneLine` | lib/body/form_data_body.cpp:221-258 | whatever header block is read, the field has no line break in its strings and a trimmed content type |
| `MultipartHeaderProofs.HeaderEnds` | lib/body/form_data_body.cpp:215-221 | the reader cuts a printed header block exactly where the writer ended it, whatever follows |
| `MultipartHeaderProofs.HeaderExact` | lib/body/form_data_body.cpp:106-121 | printed and read back, a header gives the same name, filename and content type if and only if the field is readable |
| `MultipartReader.Reader.constructor` | lib/body/form_data_body.cpp:154-158 | a new reader stands before the first boundary line with nothing read |
| `MultipartReader.Reader.Init` | lib/body/form_data_body.cpp:160-186 | the last boundary parameter of the content type is taken; bad_field when it is empty |
| `MultipartReader.Reader.Put` | lib/body/form_data_body.cpp:187-304 | one put changes step, partial field and fields, and returns count and error, as the parser step does |
| `MultipartReader.Reader.Finish` | lib/body/form_data_body.cpp:306-312 | partial_message unless the end was reached |
| `MultipartReader.Reader.FeedChunk` | lib/body/form_data_body.cpp:187-304 | calling put while there is data ends, and gives the parse of tail and chunk together |
| `MultipartReader.TakeProgress` | lib/body/form_data_body.cpp:187-304 | a put on data takes between one byte and all of it, or takes none, changes nothing and reports an error |
| `MultipartRoundTrip.DriveSplit` | lib/body/form_data_body.cpp:187-304 | driving with x and then y is driving with their concatenation, from every parser state |
| `MultipartRoundTrip.ChunkIndependence` | lib/body/form_data_body.cpp:187-304 | two chunks give the same step, fields, partial field, error and tail as their concatenation |
| `MultipartRoundTrip.AnyChunking` | lib/body/form_data_body.cpp:187-304 | every way of cutting a message into chunks gives the same parse |
| `MultipartRoundTrip.ContentSearch` | lib/body/form_data_body.cpp:261-285 | the content read is exactly what stands before the first delimiter; without one, all but a kept start of a delimiter |
| `MultipartRoundTrip.FieldsOnlyGrow` | lib/body/form_data_body.cpp:270-273 | fields once read stay read, on every input |
| `MultipartRoundTrip.DriveHeader` | lib/body/form_data_body.cpp:214-260 | a printed header leads to its content if it is readable, and otherwise the next field read is not the one written |
| `MultipartRoundTrip.DriveContent` | lib/body/form_data_body.cpp:261-285 | a printed content is read whole if no delimiter starts in it, and otherwise the next field read is not the one written |
| `MultipartRoundTrip.DriveBody` | lib/body/form_data_body.cpp:187-304 | a whole body is read as its fields if all are clean, and otherwise as something else |
| `MultipartRoundTrip.RoundTrip` | lib/body/form_data_body.cpp:96-304 | once the reader has the boundary, whatever the chunking, reading what was written ends at eof with exactly the same fields if and only if there is one and all are clean |
| `MultipartRoundTrip.SimpleFieldIsClean` | lib/body/form_data_body.cpp:106-121 | names without CR, quote and backslash, a trimmed one-line content type and a content without the delimiter make a clean field |
| `MultipartMessages.BlockEnds` | lib/body/form_data_body.cpp:215-221 | a block of whole lines, whatever they say, is cut at its blank line |
| `MultipartMessages.BlockRead` | lib/body/form_data_body.cpp:64-87 | its lines are read as keys and values cut at the first colon and trimmed, in order |
| `MultipartMessages.NoColonStops` | lib/body/form_data_body.cpp:75-79 | a line that is not blank and has no colon stops the reader with unexpected_body |
| `MultipartMessages.ItemsMeaning` | lib/body/form_data_body.cpp:224-256 | a block is refused exactly when some Content-Disposition is not form-data; else the last name, filename and Content-Type count, and other lines are skipped |
| `MultipartMessages.UnknownLineSkipped` | lib/body/form_data_body.cpp:224-256 | a line with any other key, wherever it stands, makes no difference |
| `MultipartMessages.ExtraLineRead` | lib/body/form_data_body.cpp:224-256 | a readable header as the writer prints it, with such a line put in anywhere, is read as its field |
| `MultipartMessages.ParametersRead` | lib/body/form_data_body.cpp:12-63 | parameters are read in any order and number, quoted or not, with any white space and separators the scan skips |
| `MultipartMessages.DispositionRead` | lib/body/form_data_body.cpp:229-244 | a form-data value gives exactly the parameters written after its first semicolon |
| `MultipartMessages.DriveBlock` | lib/body/form_data_body.cpp:214-260 | a header block leads to its content, or stops the reader with unexpected_body and nothing changed |
| `MultipartMessages.AnyClient` | lib/body/form_data_body.cpp:187-304 | a message by any client, however cut into chunks, is read as the fields its lines describe if every Content-Disposition is form-data, and otherwise stops in the first part with another one |
| `MultipartMessages.CutOffIsPartial` | lib/body/form_data_body.cpp:187-312 | a body cut off anywhere leaves the reader before its end, without a hard error and without a field that was not written |
| `MultipartMessages.TrailingIsRefused` | lib/body/form_data_body.cpp:286-304 | whatever follows a complete body is refused with unexpected_body, and its fields stay |
| `MultipartMessages.NoBoundaryLineRefused` | lib/body/form_data_body.cpp:190-213 | anything else where a boundary line is due, or after the closing one, is refused with unexpected_body |
| `MultipartWriter.Writer.Get` | lib/body/form_data_body.cpp:96-146 | one get returns the buffer and the next state of the step machine |
| `MultipartWriter.WriterPrintsBody` | lib/body/form_data_body.cpp:96-146 | the buffers of a non-empty form are, joined, its multipart body, three for each field |
| `MultipartWriter.MoreIsExact` | lib/body/form_data_body.cpp:124-142 | each buffer uses up one of those left, and `more` says exactly whether any is left |
| `MultipartWriter.EmptyFormPrintsNothing` | lib/body/form_data_body.cpp:99-101 | a form without fields prints nothing, not even the closing delimiter |
| `MultipartWriter.OneFieldMessage` | lib/body/form_data_body.cpp:103-142 | the bytes of a form with one field, without and with file name and type |
| `MultipartBoundary.BoundaryAgreed` | lib/server/response.cpp:146-157 | the reader's `init` succeeds with the boundary announced in Content-Type if and only if that boundary is not empty, is trimmed, and holds neither semicolon nor equals sign |
| `MultipartBoundary.FormRoundTrip` | lib/body/form_data_body.cpp:96-304 | from the Content-Type header and the writer's buffers, however cut, `init` finds the boundary and the parse gives the fields written, if and only if the boundary can be announced, there is a field, and all fields are clean |
| `MultipartBoundary.NoBoundary` | lib/body/form_data_body.cpp:160-186 | the header announcing an empty boundary has none to be found, which is bad_field |
| `MultipartBoundary.LastBoundaryFound` | lib/body/form_data_body.cpp:160-186 | whatever parameters stand before it, and whatever others after it, the last boundary parameter is the one found |
| `Router.SplitSegments` | lib/server/router_impl.cpp:10-18 | the tokens of the path, and an empty segment for a final slash |
| `Router.SegmentsAreTextbook` | lib/server/router_impl.cpp:10-18 | the segments are the trimmed textbook split without one leading slash, on every path but the empty one and the slash alone |
| `Router.ShortestPaths` | lib/server/router_impl.cpp:10-18 | the empty path has no segment, and the slash alone two empty ones |
| `RouterTable.ElemsInjective` | lib/server/router_impl.cpp:38-100 | two patterns name the same node exactly when their segment lists are equal |
| `RouterTable.InsertEndpoint` | lib/server/router_impl.cpp:27-100 | a registration changes the endpoint of its own pattern and of no other |
| `RouterTable.InsertNodes` | lib/server/router_impl.cpp:38-100 | a registration makes the nodes along its pattern and no other |
| `RouterTable.InsertKeys` | lib/server/router_impl.cpp:57-92 | a registration adds at most one regex or parameter child below each pattern, at the end, and only a new one |
| `RouterTable.InsertGood` | lib/server/router_impl.cpp:38-100 | sibling keys stay distinct, and each child's parameter name and regex stay those of its key |
| `RouterTable.TrieIsTable` | lib/server/router_impl.cpp:27-100 | after any registrations the trie answers every pattern as the flat table does, and a node stands exactly where a registration passes |
| `RouterTable.LastHandlerWins` | lib/server/router_impl.cpp:34-34 | the last handler registered for a pattern and verb is the one kept |
| `RouterTable.LastRegistrationWins` | lib/server/router_impl.cpp:27-35 | for each verb, and for WebSocket connections, a pattern holds the handler of the last registration for just that, and none without one |
| `RouterTable.CreationOrder` | lib/server/router_impl.cpp:57-92 | regex and parameter siblings stand in the order of their first registration |
| `RouterSearch.BestSound` | lib/server/router_impl.cpp:214-277 | the node found is under a pattern that matches the segments, and the callback accepts it |
| `RouterSearch.BestLeast` | lib/server/router_impl.cpp:214-277 | whenever some pattern matches and is accepted, the search finds one, and none is before it in the order of the children |
| `RouterSearch.SeenSound` | lib/server/router_impl.cpp:113-118 | a verb collected belongs to a pattern that matches |
| `RouterSearch.SeenComplete` | lib/server/router_impl.cpp:113-118 | a search that fails has collected every verb of every matching pattern |
| `RouterBindings.NodeErases` | lib/server/router_impl.cpp:242-276 | a search that fails erases from the map exactly the names that its attempts have bound |
| `RouterBindings.NodeWins` | lib/server/router_impl.cpp:230-276 | a search that succeeds enters the winning child with the map less the names its earlier attempts touched |
| `RouterBindings.BindingsExactly` | lib/server/router_impl.cpp:242-276 | a search that succeeds adds exactly the bindings of its pattern if and only if no failed attempt touches a name already bound and not bound again |
| `Router.OutranksAsymmetric` | lib/server/router_impl.cpp:230-276 | the priority told from the registrations alone never ranks two patterns both ways |
| `Router.KindsInOrder` | lib/server/router_impl.cpp:230-276 | where two patterns part, text outranks a regex, a regex a parameter, and a parameter the final star |
| `Router.OlderFirst` | lib/server/router_impl.cpp:242-258 | of two regexes, or two parameters, the one registered first below the common part outranks the other |
| `Router.BeforeOutranks` | lib/server/router_impl.cpp:230-276 | being tried first in the trie is having priority in the list of registrations |
| `Router.KeepsIsFlat` | lib/server/router_impl.cpp:242-276 | whether a pattern keeps its names can be told from the list of registrations alone |
| `Router.DistinctKeeps` | lib/server/router_impl.cpp:242-276 | when no registered pattern repeats a name, every pattern keeps its names |
| `Router.FailureRestores` | lib/server/router_impl.cpp:242-276 | when no registered pattern repeats a name, a search that fails leaves the map as it found it |
| `Router.SearchIsTable` | lib/server/router_impl.cpp:214-277 | the search fails exactly when no registered pattern is a candidate, and otherwise finds the candidate that outranks all others |
| `Router.DecisionIsTable` | lib/server/router_impl.cpp:104-134 | dispatch to the best candidate, with its bindings if and only if it keeps its names; else 405 with exactly the verbs of all matching patterns; else 404 |
| `Router.PreRoutingAgrees` | lib/server/router_impl.cpp:173-212 | a verb that is searched for goes on exactly when it would be dispatched, and is refused with the answer it would get |
| `Router.RepeatedNameLosesBinding` | lib/server/router_impl.cpp:249-258 | a pattern that repeats a name, tried first, makes another pattern lose its outer binding |
| `RouterPatterns.RegexText` | lib/server/router_impl.cpp:69-92 | `{name:rx}` is a regex child with exactly that name and expression, cut at the first colon; `{rx}` names itself |
| `RouterPatterns.ParameterText` | lib/server/router_impl.cpp:57-67 | `:name` is a parameter with that name, the empty one included |
| `RouterPatterns.StarText` | lib/server/router_impl.cpp:47-55 | `*` is a wildcard in last place and plain text elsewhere |
| `RouterPatterns.PlainText` | lib/server/router_impl.cpp:47-100 | a segment is plain text if and only if it is none of these |
| `RouterPatterns.PatternMeaning` | lib/server/router_impl.cpp:38-100 | the trie reads a route as its text says: a request fits segment by segment |
| `RouterPatterns.BindingsMeaning` | lib/server/router_impl.cpp:242-270 | on a request that fits, a route binds exactly the names in its text, each to the segment of its last place |
| `RouterPatterns.RequestIsRouted` | lib/server/router_impl.cpp:104-134 | told from the registered texts: a handler runs if and only if a route for the verb fits, and it is the last registered for its route; else 405 with exactly the verbs of the routes that fit, or 404 |
| `RouterPatterns.SocketIsRouted` | lib/server/router_impl.cpp:158-172 | a WebSocket request finds a handler if and only if a WebSocket route fits, and one registered last for its route |
| `RouterPatterns.SearchedVerbs` | lib/server/router_impl.cpp:173-212 | GET, HEAD, TRACE, CONNECT and OPTIONS always go on, any other verb exactly when a route for it fits |
| `RouterPatterns.StarBindsRest` | lib/server/router_impl.cpp:261-270 | the star is bound to the rest of the path without its leading slashes if and only if no segment of it is padded with white space |
| `RouterImpl.RestOf` | lib/server/router_impl.cpp:262-269 | the loop binds `*` to the slash-join of the remaining segments without leading empty ones |
| `RouterImpl.Matcher.Callback` | lib/server/router_impl.cpp:113-118 | accepts as the query asks, and notes the verbs of the node |
| `RouterImpl.Matcher.MatchNodes` | lib/server/router_impl.cpp:214-277 | the in-place backtracking search returns the node, the parameter map and the verbs of the specification |
| `RouterImpl.Matcher.MatchChildren` | lib/server/router_impl.cpp:242-259 | the loop over regex or parameter children sets and erases bindings as specified |
| `RouterImpl.InsertSegments` | lib/server/router_impl.cpp:38-100 | the recursive insertion over segments is the insertion of the classified pattern |
| `RouterImpl.RouterImpl.constructor` | lib/server/router_impl.cpp:22-25 | a new router has no routes |
| `RouterImpl.RouterImpl.SetHttpHandler` | lib/server/router_impl.cpp:27-35 | the trie stays the one built from all registrations, of which this is the last |
| `RouterImpl.RouterImpl.SetWsHandler` | lib/server/router_impl.cpp:141-156 | the same for a WebSocket entry |
| `RouterImpl.RouterImpl.ProcRouting` | lib/server/router_impl.cpp:104-134 | returns the decision for the routes registered |
| `RouterImpl.RouterImpl.PreRouting` | lib/server/router_impl.cpp:173-212 | returns the early decision for the routes registered |
| `RouterImpl.RouterImpl.QueryWsHandler` | lib/server/router_impl.cpp:158-172 | returns the WebSocket entry of the best matching pattern that has one |
| `ActionQueueProtocol.OnePerformerKept` | lib/util/action_queue_impl.hpp:33-46 | performers spawned or about to be number one while running and zero otherwise, after every step |
| `ActionQueueProtocol.ConservedKept` | lib/util/action_queue_impl.hpp:28-54 | accepted pushes stay exactly what is gone and what is queued, in order, each once |
| `ActionQueueProtocol.SerialKept` | lib/util/action_queue_impl.hpp:73-92 | started actions stay those finished followed by the one running |
| `ActionQueueProtocol.Safety` | lib/util/action_queue_impl.hpp:28-92 | in every run: one action at a time, started in lock order, and started, cleared and queued actions are the accepted pushes |
| `ActionQueueProtocol.AwakeKept` | lib/util/action_queue_impl.hpp:28-92 | no step but the cancellation leaves a non-empty queue without a performer |
| `ActionQueueProtocol.WakeupLostExactly` | lib/util/action_queue_impl.hpp:79-83 | a non-empty queue loses its performer exactly when that performer sees its cancellation |
| `ActionQueueProtocol.NeverLostExactly` | lib/util/action_queue_impl.hpp:28-92 | in a run from any state whose queue has its performer, the queue has it all along if and only if no performer sees its cancellation while actions are queued |
| `ActionQueueProtocol.LostExactlyByAbandoning` | lib/util/action_queue_impl.hpp:28-92 | the same for every run from the empty queue; without such a step an idle queue is empty and every accepted action was finished or cleared |
| `ActionQueueProtocol.NoLostWakeup` | lib/util/action_queue_impl.hpp:28-92 | in every run without cancellation, an idle queue is empty and every accepted action was finished or cleared |
| `ActionQueueProtocol.ShutdownStrands` | lib/util/action_queue_impl.hpp:57-83 | from every state in which an action runs, a shutdown can end idle with everything still queued |
| `ActionQueueProtocol.CancellationLeavesQueue` | lib/util/action_queue_impl.hpp:57-83 | a run with a cancellation that ends idle with an action still queued |
| `ActionQueueProtocol.CancelledStartNothing` | lib/util/action_queue_impl.hpp:73-92 | after a cancellation the performers there start nothing more, in every run |
| `ActionQueueProtocol.QuietShutdownDrains` | lib/util/action_queue_impl.hpp:57-69 | in every run whose shutdowns do not cancel, an idle queue is empty and every accepted action was finished or cleared |
| `ActionQueueProtocol.PushIsAccepted` | lib/util/action_queue_impl.hpp:28-47 | a push on an open queue is accepted at its end and has a performer; on a closed one it never reaches the lock |
| `ActionQueueProtocol.ClearedForGood` | lib/util/action_queue_impl.hpp:49-54 | what is queued at a clear leaves the queue and is never started, in every run after it |
| `ActionQueueProtocol.WorkShrinks` | lib/util/action_queue_impl.hpp:73-92 | each performer step uses up exactly one unit of the work left |
| `ActionQueueProtocol.WorkIsEnabled` | lib/util/action_queue_impl.hpp:73-92 | while work is left some performer step is possible |
| `ActionQueueProtocol.Drains` | lib/util/action_queue_impl.hpp:73-92 | performers alone make exactly as many steps as there is work, and are idle with an empty queue exactly then |
| `ActionQueueProtocol.ShutdownClosesQueue` | lib/util/action_queue_impl.hpp:30-34 | after the shutdown flag only pushes already past its check are accepted |
| `ActionQueueProtocol.ShutdownRaises` | lib/util/action_queue_impl.hpp:57-66 | a shutdown raises the flag, idle or not, with or without its cancellation, unless it is idle and the flag is up already |
| `ActionQueueProtocol.OnlyShutdownCancelsKept` | lib/util/action_queue_impl.hpp:57-69 | a cancellation is emitted, and seen by a performer, only with the flag up, after every step |
| `ActionQueue.ActionQueue.PushCheck` | lib/util/action_queue_impl.hpp:30-31 | the flag check before the lock is the protocol's first push step |
| `ActionQueue.ActionQueue.PushLocked` | lib/util/action_queue_impl.hpp:33-46 | the locked section of push is the protocol's step, and says whether to spawn |
| `ActionQueue.ActionQueue.ShutdownCheck` | lib/util/action_queue_impl.hpp:59-61 | the early return of a shutdown is the protocol's step |
| `ActionQueue.ActionQueue.TakeLocked` | lib/util/action_queue_impl.hpp:78-88 | the locked section of perform is the protocol's step: the next action, or the end of the performer |
| `SessionProtocol.AbortSeenKept` | lib/server/session.cpp:103-122 | a task about to be entered after an abort left its lock has received that abort, after every step |
| `SessionProtocol.DescendingKept` | lib/server/session.cpp:114-122 | tasks begun stay strictly descending in kind, after every step |
| `SessionProtocol.AtMostFourTasks` | lib/server/session.cpp:132-153 | in every interleaving at most four tasks begin, of strictly descending kinds, none twice |
| `SessionProtocol.AbortStopsSession` | lib/server/session.cpp:103-122 | after an abort left its lock at most one more task begins, the one the runner was committed to, already aborted |
| `SessionProtocol.AfterAbort` | lib/server/session.cpp:103-122 | the same for every run from the start, split where an abort leaves its lock |
| `SessionProtocol.AbortingKept` | lib/server/session.cpp:103-112 | an abort that has returned found or left the flag up, and once it is up some abort has been in the locked section or is on its way there, after every step |
| `SessionProtocol.AbortWorks` | lib/server/session.cpp:103-122 | in every interleaving, once abort was called and all calls have returned, the flag is up and at most one more task begins, already aborted |
| `SessionProtocol.FirstAbort` | lib/server/session.cpp:103-112 | the first abort raises the flag and aborts the current task |
| `SessionProtocol.SessionLives` | lib/server/session.cpp:114-153 | in every interleaving the kinds of tasks begun are the start of one of four sequences; without an abort a session ends only when every task created has begun |
| `SessionProtocol.EveryLifeIsLived` | lib/server/session.cpp:114-122 | each of the four is lived to its end by a run without an abort, the longest in seventeen steps |
| `SessionProtocol.RunnerDescends` | lib/server/session.cpp:114-122 | every runner step brings it nearer its end and no abort step moves it back |
| `SessionProtocol.RunnerIsBounded` | lib/server/session.cpp:114-122 | the runner makes at most seventeen steps, and at most four after an abort left its lock |
| `SessionProtocol.Session.SwapLocked` | lib/server/session.cpp:118-119 | the swap under the lock is the protocol's step |
| `SessionProtocol.Session.CheckAbort` | lib/server/session.cpp:105-106 | the early return of abort is the protocol's step |
| `SessionProtocol.Session.AbortTask` | lib/server/session.cpp:109-111 | the locked section aborts the current task, if there is one |
| `UrlCodec.OrNibbles` | include/httplib/util/misc.hpp:67-68 | or-ing a digit below a shifted one adds it |
| `UrlCodec.UnescapeDigits` | include/httplib/util/misc.hpp:35-47 | the byte decoded from its two hexadecimal digits is that byte |
| `UrlCodec.UnescapeHex` | include/httplib/util/misc.hpp:35-47 | two hexadecimal digits of either case are decoded to the byte they write |
| `UrlCodec.MalformedEscape` | include/httplib/util/misc.hpp:35-47 | a byte that is no such digit stands for itself |
| `UrlCodec.UrlDecodeInPlace` | include/httplib/util/misc.hpp:61-73 | decoding in place with a read and a write index, the second never ahead, is decoding front to back |
| `UrlCodec.UrlDecode` | include/httplib/util/misc.hpp:74-79 | the copying form decodes the same |
| `UrlCodec.UrlEncode` | include/httplib/util/misc.hpp:80-99 | the loop encodes character by character |
| `UrlCodec.EncodedByte` | include/httplib/util/misc.hpp:80-99 | letters, digits and `-._~` stay, a space becomes a plus sign, and every other byte a percent sign and two lower-case digits |
| `UrlCodec.DecodedConcat` | include/httplib/util/misc.hpp:61-73 | between whole escapes, decoding goes part by part |
| `UrlCodec.DecodedParts` | include/httplib/util/misc.hpp:61-73 | text without a percent sign is kept, plus signs included; an escape gives its byte, and one cut short reads the zero after the string |
| `UrlCodec.DecodeEncode` | include/httplib/util/misc.hpp:61-99 | decoding what was encoded gives every byte string back with its spaces turned into plus signs |
| `UrlCodec.UrlRoundTrip` | include/httplib/util/misc.hpp:61-99 | a byte string comes back exactly when it has no space |
| `QueryParams.Params.Decode` | lib/html/query_params.cpp:31-51 | the container is cleared and refilled with the pairs of the query string |
| `QueryParams.Params.Encode` | lib/html/query_params.cpp:53-64 | the string written is that of the container's pairs in some order |
| `QueryParams.QueryOfItems` | lib/html/query_params.cpp:31-37 | a query string is read item by item |
| `QueryParams.ItemOfParts` | lib/html/query_params.cpp:37-49 | an item with one part is a key, with two a key and its value, and with more is dropped; one empty part in front and one at the end do not count |
| `QueryParams.DecodeWritten` | lib/html/query_params.cpp:31-64 | reading what was written gives each pair back in order: spaces as plus signs, the value of an empty key as a key |
| `QueryParams.QueryRoundTrip` | lib/html/query_params.cpp:31-64 | the same multimap comes back if and only if no key or value has a space and no value stands under an empty key |
| `PathCheck.IsValidPath` | lib/server/mount_point_entry.cpp:9-55 | the index and level loops accept exactly the paths without NUL and backslash whose naive stack resolution never pops an empty stack |
| `PathCheck.ValidPathIsConfined` | lib/server/mount_point_entry.cpp:9-55 | a path is valid exactly when below any directory no stretch of it leaves that directory |
| `PathCheck.ValidPathCounts` | lib/server/mount_point_entry.cpp:9-55 | a path is valid exactly when it has no NUL and no backslash and at no point more `..` than names |
| `PathCheck.ComponentsOfJoin` | lib/server/mount_point_entry.cpp:15-24 | the components are the non-empty pieces between slashes |
| `HttpRanges.Ranges.Parse` | lib/html/http_ranges.cpp:7-81 | the loop clears and fills the ranges as specified, and leaves none on failure |
| `HttpRanges.ParseOne` | lib/html/http_ranges.cpp:28-79 | one item: its numbers, the range check, clamping, and counting from the end when the first part is empty |
| `HttpRanges.FromCharsDecimal` | lib/html/http_ranges.cpp:37-42 | a printed number is read back, or refused when it does not fit an int |
| `HttpRanges.ParseText` | lib/html/http_ranges.cpp:28-79 | a printed range gives its clamped bytes inside the file if it is acceptable, itself if it starts inside the file and ends before its start, and nothing otherwise |
| `HttpRanges.RangeRoundTrip` | lib/html/http_ranges.cpp:7-81 | a printed list is taken if and only if every range is acceptable or inverted inside the file; it gives only ranges inside the file if and only if every range is acceptable, and then exactly those ranges clamped |
| `HttpRanges.BlankHeader` | lib/html/http_ranges.cpp:11-13 | a blank header asks for no range |
| `HttpRanges.OtherUnit` | lib/html/http_ranges.cpp:14-16 | any other unit is refused |
| `HttpRanges.DoubleDash` | lib/html/http_ranges.cpp:19-21 | two hyphens in a row are refused |
| `HttpRanges.LoneDashHeader` | lib/html/http_ranges.cpp:23-26 | `bytes=-` is the whole file |
| `HttpRanges.SuffixExactly` | lib/html/http_ranges.cpp:28-79 | a suffix `-n` gets the last n bytes if and only if they are half of the file and more than one |
| `HttpRanges.SpacedSuffix` | lib/html/http_ranges.cpp:74-77 | with a blank between two hyphens a suffix counts from the end |
| `HttpRanges.LoneDashItem` | lib/html/http_ranges.cpp:74-77 | a hyphen alone is everything but the first byte |
| `HttpRanges.JunkIgnored` | lib/html/http_ranges.cpp:28-61 | text after either number, and a third part, are ignored |
| `HttpRanges.BlankEnd` | lib/html/http_ranges.cpp:50-53 | a blank second part is as none |
| `HttpRanges.EmptyFile` | lib/html/http_ranges.cpp:63-77 | what each printed range gives for an empty file |
| `HttpRanges.LargeFile` | lib/html/http_ranges.cpp:46-77 | for a file whose last byte has no int number, a range with an end is taken as it stands and one without never reaches the end |
| `FileTransfer.Writer.constructor` | lib/body/file_body.cpp:6-14 | the transfer starts at the first byte of the range, whatever its ends |
| `FileTransfer.Writer.Get` | lib/body/file_body.cpp:16-48 | one get, in unsigned 64-bit arithmetic, reads the next buffer, moves the position by its size and says whether more follow |
| `FileTransfer.File.Read` | include/httplib/body/file_body.hpp:24-28 | reading returns the bytes there are and moves past them |
| `FileTransfer.TransferIsExact` | lib/body/file_body.cpp:19-48 | the buffers are the bytes asked for in order, none empty or too large and all but the last full; failure exactly when the file is too short; `more` false on exactly the last buffer |
| `FileTransfer.InvertedTransfer` | lib/body/file_body.cpp:19-48 | of a range that ends more than one byte before it starts, one buffer is sent from its start, as far as the file goes |
| `FileTransfer.WholeFileServed` | lib/server/response.cpp:119-127 | without a range the file is sent, as long as Content-Length says |
| `FileTransfer.ServedExactly` | lib/server/response.cpp:119-136 | a single range, whatever its ends, sends as many bytes as Content-Length says if and only if it is inside the file or ends one byte before it starts; then they are its bytes and nothing fails |
| `RangeService.ParsedFits` | lib/html/http_ranges.cpp:7-81 | the ranges of every header parsed stay within signed 64 bits, their ends plus one too |
| `RangeService.ParsedRangeServed` | lib/server/response.cpp:119-136 | for every header that parses to one range, as many bytes are sent as Content-Length says if and only if the range is inside the file or ends one byte before it starts |
| `RangeService.PrintedRangeServed` | lib/body/file_body.cpp:19-48 | a printed range is parsed if it is acceptable or inverted inside the file; an acceptable one is sent as announced, an inverted one only when it ends one byte before it starts |
| `RangeService.NoRangeServed` | lib/server/response.cpp:89-127 | without a Range header, or with a blank one, the whole file is sent, as long as announced |
| `RangeService.LoneDashServed` | lib/server/response.cpp:128-136 | so it is for `bytes=-` |
| `RangeService.EmptyFileServed` | lib/server/response.cpp:128-136 | in an empty file `0-` is served, with nothing; `0-0` announces a byte and fails |

## Left out

- Sockets, TLS, the Beast parser and serializer, timers, coroutines and logging: foreign code;
  only the step boundaries they impose are modelled.
- Trie nodes are values, not heap objects: the source owns every node through one `unique_ptr`,
  so no aliasing is lost, but updates in place and node addresses are not modelled.
- `std::regex` syntax and the exception it throws on a malformed pattern.
- The order of verbs in the text of the Allow header: the verbs are a set here.
- Handlers that throw, in the action queue and in a session: they are taken to return.
- The data race on `running_` in `async_shutdown`: the read is one atomic step here, and each
  later access of a shutdown is a step of its own.
- That `async_shutdown` waits for the performer: its timer is not modelled.
- The cancellation that a handler may itself notice: a performer sees it only between actions.
- The moved-from field that the reader keeps after storing a part: taken to be empty.
- UrlCodec.UrlDecodeInPlace: requires that no escape is cut off right after its `%`, because
  `url_decode` then reads outside the string and its terminating zero.
- QueryParams.Params.Decode: requires the same of the keys and values it decodes.
- HttpRanges.Ranges.Parse: requires that no item of the list is empty, because the parser then
  indexes an empty vector; the sign `std::from_chars` knows is left out, as no part has one.
- The multi-range branch of the file writer, and files that change while they are sent. File
  sizes are those of a signed 64-bit stream position.
- The compressed path of `any_body`, the client, client pools, aspects, accept-encoding parsing,
  the mime table, directory listings and date formatting.
