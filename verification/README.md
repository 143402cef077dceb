# Verification of simpleserv

simpleserv is a small static-file HTTP server. An accept loop reads the text of a request from a
socket and pushes it, with its socket, on a lock-free ring buffer; worker threads pop it, parse it,
look the file up through a cache, print a response and close the socket. This project models that
path in Dafny and proves what it keeps.

| part | modules |
|---|---|
| ring buffer as interleaved atomic steps of one producer and N consumers | `RingIndex`, `QueueProtocol`, `QueueSafety`, `QueueRuns`, `QueueProgress`, `QueueBound` |
| ring buffer as an object, refining a FIFO and tied to the steps above | `LockFreeQueue` |
| worker pool over the queue, as steps and as objects | `Pool`, `Threadpool` |
| cursor, request parser, header map, printers | `StringParser`, `OrderedMap`, `HttpMessage`, `HttpParser` |
| printing against parsing, prefixes, refusals and faults, the accepted language | `HttpRoundTrip`, `HttpPrefix`, `HttpRejection`, `HttpGrammar` |
| index of files, encoded representations, cache, handler, the answers in full text | `FileIndex`, `FileCache`, `HttpHandler`, `HttpAnswers` |
| the pool with the handler in it, from pushed request to closed socket | `Serving` |
| query splitting and percent coding | `Url`, `PercentCoding`, `PercentDecoding` |

Code that updates state is modelled as classes and loops. Each method is proved to compute a function
of the old state, and the properties below are proved of these functions, or of the transition
systems built from them.

Three readings recur:

* `Outcome` has three ends: `Ok`, `Err` (the code reports an error) and `Fault` (the code leaves what
  C++ or its library defines: `at(0)` on an empty view, `remove_prefix` beyond the end, an uncaught
  exception of `std::stoi`).
* Tickets are unbounded numbers: the k-th element stored and, separately, the k-th successful
  exchange of the head. The queue itself holds only indices, that is tickets modulo the capacity.
  Tickets and the record of what was pushed, claimed and delivered are kept by an observer; no step
  reads them.
* `LagBound` is the one hypothesis on the environment. `push` consults neither `full()` nor the
  consumers, so the safety of the queue needs each tail store to leave the tail less than one lap
  ahead of the head and of every ticket on which a `pop` is still working. The bound is shown to be
  exact wherever the consumers stand (`QueueBound.LagBoundIsExact`), and `full()` being false before each push is shown not to
  be enough (`QueueBound.FullIsNotEnough`).

Where the code and what is said about it differ, the model follows the code:

* The version recogniser ignores failed expectations. It reads the canonical names of HTTP/1.1 and
  HTTP/2.0 in full but takes `HTTP/1.0` for 1.1 with a `0` left over, so every request printed with
  version 1.0 is refused (`HttpRoundTrip.Version10IsRejected`).
* tests/parser_test.cpp:72-77 wants a header line without a space to be refused. Its end is looked up
  with `remove_prefix(npos)`, which is undefined. `HttpRejection.RequestFaultsExactly` says for every text
  whether the parser leaves its input, `HttpRejection.RefusedExactly` when it refuses a header block;
  `HttpRejection.WordFaults` is the concrete request, `HttpRejection.CutBreakFaults` another.
* `percent_encode` writes decimal codes where section 2.1 of RFC 3986 has hexadecimal ones
  (`PercentCoding.RoundTripExactly`).
* `searchpart` looks for `=` beyond the next `&`; the length of the value then wraps around
  (`Url.ScanMeansSplitExactly`).

Checking everything: `dafny verify dfyconfig.toml --resource-limit 2000000`.

## Model

| member | source | states |
|---|---|---|
| RingIndex.NextOfTicket | include/simpleserv/utility/lock_free_queue.hpp:110-120 | the successor of a ticket's slot is the slot of the next ticket, round the end of the array |
| QueueProtocol.StepKeepsIndices | include/simpleserv/utility/lock_free_queue.hpp:66-94 | every atomic step of `push` and `pop` keeps head and tail equal to their tickets modulo the capacity, and each working consumer's index equal to its ticket's |
| QueueProtocol.StepKeepsSize | include/simpleserv/utility/lock_free_queue.hpp:71-72 | every step keeps `size_` equal, modulo 2^32, to stored minus claimed, minus 1 between tail store and increment, plus the consumers between exchange and decrement |
| QueueProtocol.StepKeepsLedger | include/simpleserv/utility/lock_free_queue.hpp:86-93 | every claimed ticket is held by its claimer or was delivered to it, once; no ticket is delivered twice or both held and delivered |
| QueueProtocol.StepKeepsConsistent | include/simpleserv/utility/lock_free_queue.hpp:55-94 | these three hold after every step whatever the producer does, without any bound |
| QueueSafety.ClaimIsSound | include/simpleserv/utility/lock_free_queue.hpp:86-88 | a successful exchange means the ticket has not moved since the head was loaded and its element was stored, although indices are reused |
| QueueSafety.EmptyIsSound | include/simpleserv/utility/lock_free_queue.hpp:80-83 | the boundary check sees equal indices exactly when the loaded ticket is the number of stored elements, and then no unclaimed element existed |
| QueueSafety.StepKeepsSlots | include/simpleserv/utility/lock_free_queue.hpp:70-71 | every live slot (queued, or claimed and unread) holds the element of its ticket, through the producer's writes and the consumers' moves |
| QueueSafety.StepKeepsSafe | include/simpleserv/utility/lock_free_queue.hpp:66-94 | bounds, slots and values are inductive over all steps; only the tail store needs the lag bound |
| QueueRuns.RunIsConsistent | include/simpleserv/utility/lock_free_queue.hpp:55-94 | indices, size counter and ledger are right in every reachable state of every run, bound or no bound |
| QueueRuns.RunIsSafe | include/simpleserv/utility/lock_free_queue.hpp:66-94 | safety in every reachable state of every run under the lag bound, for any number of consumers |
| QueueRuns.ExactlyOnce | include/simpleserv/utility/lock_free_queue.hpp:66-94 | each stored element is in exactly one of: queued, held by exactly one `pop`, delivered exactly once; what is delivered under ticket k is the k-th stored element, to the k-th claimer |
| QueueRuns.ElementsAreConserved | include/simpleserv/utility/lock_free_queue.hpp:66-94 | as bags, the claimed prefix of the stored elements is what was delivered plus what is held |
| QueueRuns.SlotIntegrity | include/simpleserv/utility/lock_free_queue.hpp:86-91 | a consumer whose exchange took ticket k later reads the k-th stored element, whatever happens between exchange and read |
| QueueRuns.QuietSizeIsLength | include/simpleserv/utility/lock_free_queue.hpp:71-92 | when nobody is between the two halves of a call, `size_` is the number of queued elements |
| QueueProgress.LostRaceHasWinner | include/simpleserv/utility/lock_free_queue.hpp:78-88 | in every run, an exchange that fails because the head moved has, between the head load that opened this very attempt and the attempt, a successful exchange of another consumer |
| QueueProgress.LossesArePaidFor | include/simpleserv/utility/lock_free_queue.hpp:78-88 | with N consumers, k successful exchanges admit at most (N - 1) * k lost ones, those already bound to be lost included |
| QueueBound.BoundedStoreNeverEndsBadly | include/simpleserv/utility/lock_free_queue.hpp:70-71 | after a tail store within the bound, no continuation up to the next store misbehaves |
| QueueBound.UnboundedStoreEndsBadly | include/simpleserv/utility/lock_free_queue.hpp:70-71 | after a tail store outside the bound, wherever the consumers stand, some continuation reports emptiness over an element, claims a stale ticket, or reads another element |
| QueueBound.LagBoundIsExactAt | include/simpleserv/utility/lock_free_queue.hpp:66-94 | state by state: in a safe state with two or more consumers the bound holds if and only if nothing that can follow before the next store misbehaves; a lone consumer must not be behind the head |
| QueueBound.AloneStaysCurrent | include/simpleserv/utility/lock_free_queue.hpp:78-88 | no run brings a lone consumer behind the head |
| QueueBound.LagBoundIsExact | include/simpleserv/utility/lock_free_queue.hpp:66-94 | at every pending tail store of every run that has kept the bound, with one consumer or more, inside or outside `pop`: the bound holds if and only if nothing that can follow before the next store misbehaves |
| QueueBound.FullIsNotEnough | include/simpleserv/utility/lock_free_queue.hpp:100-103 | a run in which `full()` was false before every push and a consumer yet reads the third element in place of the first |
| LockFreeQueue.LockFreeQueue.constructor | include/simpleserv/utility/lock_free_queue.hpp:37-46 | the queue is empty, and up to the limit the table built by the loop is `(i + 1) % capacity` |
| LockFreeQueue.LockFreeQueue.NextIndex | include/simpleserv/utility/lock_free_queue.hpp:110-120 | table and remainder give the same successor for every index |
| LockFreeQueue.LockFreeQueue.IsEmpty | include/simpleserv/utility/lock_free_queue.hpp:96-98 | true exactly when the queue holds nothing |
| LockFreeQueue.LockFreeQueue.IsFull | include/simpleserv/utility/lock_free_queue.hpp:100-103 | true exactly when the queue holds capacity - 1 elements, and exactly when `Full` holds of the protocol's state |
| LockFreeQueue.LockFreeQueue.Push | include/simpleserv/utility/lock_free_queue.hpp:66-75 | appends the element below capacity - 1; on a full ring it empties the queue; always true; the whole new state |
| LockFreeQueue.LockFreeQueue.Pop | include/simpleserv/utility/lock_free_queue.hpp:77-94 | returns and removes the oldest element, or nothing on an empty queue or a spurious failure, and then changes nothing |
| LockFreeQueue.LockFreeQueue.PushAlone | include/simpleserv/utility/lock_free_queue.hpp:66-75 | an undisturbed push leaves the state that the four protocol steps leave |
| LockFreeQueue.LockFreeQueue.PopAlone | include/simpleserv/utility/lock_free_queue.hpp:77-94 | an undisturbed pop leaves the state that the protocol steps leave and returns the value their consumer holds |
| LockFreeQueue.WindowPush | include/simpleserv/utility/lock_free_queue.hpp:68-71 | a store extends the window between head and tail by the element, except on a full ring, where the window becomes empty |
| LockFreeQueue.WindowPop | include/simpleserv/utility/lock_free_queue.hpp:86-91 | moving the head takes exactly the first element off the window, whatever is left in the slot |
| LockFreeQueue.RunCalls | include/simpleserv/utility/lock_free_queue.hpp:66-103 | every sequence of pushes and pops that never asks for more than capacity - 1 elements is answered as by a FIFO, and `size_` is its length |
| Pool.LifeInOrder | include/simpleserv/request_processing/connection_handler.hpp:57-63 | a life is the handler, then one send if it answered, with that answer, then one close |
| Pool.QueueStepKeepsInv | include/simpleserv/request_processing/connection_handler.hpp:45-50 | a step of the queue keeps: each busy worker holds a connection delivered to it alone, and each connection's effects fit its state |
| Pool.WorkStepKeepsInv | include/simpleserv/request_processing/connection_handler.hpp:53-64 | so does handling, sending or closing by any worker |
| Pool.ConnectionsAreConserved | include/simpleserv/request_processing/connection_handler.hpp:45-64 | at every moment of every run of the pool, what happened to the k-th added connection is a prefix of one life by one worker: handled, at most one send and that before the close, at most one close |
| Pool.AllClosedAtRest | include/simpleserv/request_processing/threadpool.hpp:46-48 | when queue and workers are at rest, every connection ever added was handled once, answered at most once and closed exactly once |
| Threadpool.HandlingStepsMakeALife | include/simpleserv/request_processing/connection_handler.hpp:53-64 | the pool's handling steps in a row log one whole life and free the worker |
| Threadpool.ConnectionHandler.HandleConnection | include/simpleserv/request_processing/connection_handler.hpp:53-64 | handles, sends if there is an answer, and closes: exactly one life is appended |
| Threadpool.ConnectionHandler.Round | include/simpleserv/request_processing/connection_handler.hpp:45-50 | one round serves the oldest connection wholly, or changes nothing |
| Threadpool.ConnectionHandler.Start | include/simpleserv/request_processing/connection_handler.hpp:35-51 | a missing queue is an assertion failure, an unready handler an exception; otherwise the oldest connections are served in order, as many as rounds without spurious failure allow |
| Threadpool.Threadpool.constructor | include/simpleserv/request_processing/threadpool.hpp:19-25 | every thread gets a ready handler over the one shared, empty queue, with the pool's one request handler and wire |
| Threadpool.Threadpool.AddTask | include/simpleserv/request_processing/threadpool.hpp:46-48 | the connection is appended; with 99 waiting connections the queue is emptied instead |
| Threadpool.RunPool | include/simpleserv/request_processing/threadpool.hpp:19-48 | a pool is built, at most 99 connections are added, its workers take turns in any order: the wire holds the lives of the oldest connections in order, each with the pool's answer to its own request, and the others still wait |
| StringParser.StringParser.Move | include/simpleserv/utility/string_parser.hpp:45-47 | drops that many characters, or faults beyond the end |
| StringParser.StringParser.ExpectChars | include/simpleserv/utility/string_parser.hpp:58-66 | drops the characters if the view starts with them; otherwise reports and leaves the view |
| StringParser.StringParser.ExpectTwoChars | include/simpleserv/utility/string_parser.hpp:68-74 | drops one of the two characters, reports another, faults on an empty view |
| StringParser.StringParser.ConsumeAllTwoChars | include/simpleserv/utility/string_parser.hpp:82-86 | the loop ends with the view of the recursion `ConsumeAllTwo` |
| StringParser.ConsumedIsPrefix | include/simpleserv/utility/string_parser.hpp:82-86 | what is consumed is a prefix made of the two characters only, and what remains is the rest of the view |
| StringParser.ConsumeAllTwo | include/simpleserv/utility/string_parser.hpp:82-86 | what remains does not start with either character |
| StringParser.StringParser.TakeToken | include/simpleserv/utility/string_parser.hpp:107-113 | the text before the first delimiter; faults without one |
| StringParser.FindFirst | include/simpleserv/utility/string_parser.hpp:107-113 | find_first_of: the first position holding one of the characters, or none |
| StringParser.ConsumeExtends | include/simpleserv/utility/string_parser.hpp:82-86 | skipping that stops inside the view is not changed by text appended to it |
| StringParser.SkipExtends | include/simpleserv/utility/string_parser.hpp:58-66 | an expectation is decided inside a view that holds a character the expected text lacks |
| OrderedMap.LessExactly | include/simpleserv/http/message.hpp:106 | the order of keys: a proper prefix, or the smaller character at the first difference |
| OrderedMap.SetKeepsSorted | include/simpleserv/http/message.hpp:106-112 | setting a header keeps the map's entries in strictly ascending order |
| OrderedMap.SetUpdatesMap | include/simpleserv/http/message.hpp:110-112 | setting a header updates that key of the map and nothing else |
| OrderedMap.SetAllRebuilds | src/simpleserv/http/parser.cpp:127-129 | setting a map's entries in its own order rebuilds the map |
| OrderedMap.SetAllIsLastWins | src/simpleserv/http/parser.cpp:127-129 | setting a list of headers gives each key its last value and leaves other keys alone |
| OrderedMap.StoredOneWay | include/simpleserv/http/message.hpp:106 | maps with equal contents are stored equally |
| HttpMessage.HTTPMessage.SetHeader | include/simpleserv/http/message.hpp:110-112 | updates exactly one key and keeps the order |
| HttpMessage.HTTPMessage.Write | include/simpleserv/http/message.hpp:137-141 | the printing loop appends all header lines in order, the empty line and the body |
| HttpMessage.HTTPRequest.Print | include/simpleserv/http/message.hpp:134-144 | prints the request as `PrintRequest`, the partner of the parser |
| HttpMessage.HTTPResponse.Print | include/simpleserv/http/message.hpp:167-177 | prints the response as `PrintResponse` |
| HttpParser.MethodStringToEnum | include/simpleserv/http/message.hpp:30-70 | the trie accepts exactly the views starting with the name of a method, and otherwise refuses or faults as stated by `ParseMethod` |
| HttpParser.VersionStringToEnum | include/simpleserv/http/message.hpp:77-101 | the recogniser with its ignored expectations, two characters always consumed |
| HttpGrammar.VersionExactly | include/simpleserv/http/message.hpp:77-101 | for every view, which version is read and what is left: optional `HTTP/`, then `2` and optional `.0`, or another character, optional `1.`, and `0` or another character and optional `1` |
| HttpParser.ParseRequestLineAt | src/simpleserv/http/parser.cpp:23-59 | outcome, request and remaining view of the request line, errors and faults included |
| HttpParser.ParseHeaderLine | src/simpleserv/http/parser.cpp:61-74 | name up to the first space, colon required, the value behind the space; faults without a space or name |
| HttpParser.ParseMessageHeaders | src/simpleserv/http/parser.cpp:80-106 | the header loop ends and computes the recursive `ParseHeaders`, with the view behind the empty line |
| HttpParser.ParseHttpRequest | src/simpleserv/http/parser.cpp:108-133 | the whole parser computes `ParseRequest`: headers set in order, the rest as body |
| HttpRoundTrip.RequestIsPrinted | include/simpleserv/http/message.hpp:134-144 | the literal text of a printed request line for each method and version, with single spaces |
| HttpRoundTrip.HeadersArePrinted | include/simpleserv/http/message.hpp:137-139 | each header is printed as key, colon, space, value and CRLF |
| HttpRoundTrip.PrintedHeadersParse | src/simpleserv/http/parser.cpp:80-106 | the header loop undoes the header printer, for every list of clean headers and every rest |
| HttpRoundTrip.AcceptedBlock | src/simpleserv/http/parser.cpp:87-99 | what remains is the end of the input, the headers are clean, and each round consumes at least four characters |
| HttpRoundTrip.ReprintIsConsumed | src/simpleserv/http/parser.cpp:87-105 | printing the parsed headers gives back exactly the consumed characters if and only if each CR and LF among them is in a CRLF pair |
| HttpRoundTrip.CanonicalVersions | include/simpleserv/http/message.hpp:74-101 | HTTP/1.1 and HTTP/2.0 are read in full, HTTP/1.0 as 1.1 with a digit left over |
| HttpRoundTrip.PrintThenParse | src/simpleserv/http/parser.cpp:108-133 | for all eight methods, versions 1.1 and 2.0, clean path, clean header map and any body, parsing the print gives the request back |
| HttpRoundTrip.Version10IsRejected | include/simpleserv/http/message.hpp:86-98 | every print with version 1.0 and a clean path is refused |
| HttpRoundTrip.AcceptedIsClean | src/simpleserv/http/parser.cpp:108-133 | whatever is accepted has a clean path, clean headers in map order and a valid version |
| HttpRoundTrip.RoundTripExactly | include/simpleserv/http/message.hpp:134-144 | a request comes back from its print if and only if it is clean and its version is not 1.0 |
| HttpRoundTrip.PrintIsInjective | include/simpleserv/http/message.hpp:134-144 | different clean requests print differently |
| HttpRoundTrip.HeadersAreLastWins | src/simpleserv/http/parser.cpp:119-129 | the header map of an accepted request holds the keys of the block, each with its last value |
| HttpRoundTrip.ResponseIsReadable | include/simpleserv/http/message.hpp:167-177 | behind the status line of a printed response the header parser recovers the header map and leaves the body |
| HttpPrefix.VersionExtends | include/simpleserv/http/message.hpp:77-101 | a recognised version followed by CRLF is not changed by appended text: every ignored expectation was decided inside the view |
| HttpPrefix.LineExtends | src/simpleserv/http/parser.cpp:23-59 | an accepted request line is accepted alike in front of any text |
| HttpPrefix.HeadersExtend | src/simpleserv/http/parser.cpp:80-106 | so is an accepted header block |
| HttpPrefix.AcceptingIsPrefixDetermined | src/simpleserv/http/parser.cpp:108-133 | if s is accepted then s + t is, with the same method, path, version and headers and with t at the end of the body |
| HttpPrefix.LongerTextLongerBody | src/simpleserv/http/parser.cpp:108-133 | of two accepted texts, one a prefix of the other, the longer differs only in its longer body |
| HttpRejection.HeaderOutcome | src/simpleserv/http/parser.cpp:61-74 | a line is accepted exactly when it is the print of a clean header, and faults exactly when its first space is missing or comes first |
| HttpRejection.BlockEndsExactly | src/simpleserv/http/parser.cpp:80-106 | for every view: accepted, refused or faulting exactly when, after some lines that are read, comes the empty line, a line to refuse (or no break at all), or a line to fault on, which includes a good line whose break is the last character |
| HttpRejection.LineFaultsExactly | src/simpleserv/http/parser.cpp:23-59 | for every text: the request line faults exactly when it ends in the method, behind it, before the space after the path, or where the recogniser looks at a digit |
| HttpRejection.RequestFaultsExactly | src/simpleserv/http/parser.cpp:108-133 | for every text: the parser reads outside it exactly when its request line runs out or its header block reaches a line to fault on |
| HttpRejection.RefusedExactly | src/simpleserv/http/parser.cpp:80-106 | after any accepted request line, the request is refused exactly when a line to refuse, or a rest without a break, comes behind some lines that are read |
| HttpRejection.BlockAcceptedExactly | src/simpleserv/http/parser.cpp:80-106 | for every view: the block is accepted with these headers and this rest exactly when it is lines of these headers, the empty line and the rest |
| HttpGrammar.LineAcceptedExactly | src/simpleserv/http/parser.cpp:23-59 | for every text: it begins with this accepted request line exactly when it begins with a method, a gap, a path, a gap, a version text and CRLF |
| HttpGrammar.RequestAcceptedExactly | src/simpleserv/http/parser.cpp:108-133 | for every text and request: accepted as this request exactly when it is such a line, header lines, the empty line and the body, the headers being set in order |
| HttpGrammar.ShortVersionIsAccepted | include/simpleserv/http/message.hpp:82-85 | `GET / HTTP/2` is accepted as HTTP/2.0 although `.0` is missing |
| HttpRejection.WordFaults | tests/parser_test.cpp:72-77 | a request whose first header line is a bare word, as in the unit test, faults instead of being refused |
| HttpRejection.CutBreakFaults | src/simpleserv/http/parser.cpp:98 | a request cut off behind the CR of its only header line faults |
| FileIndex.DiskFileFetcher.ConstructFileDescriptors | include/simpleserv/utility/file_manager.hpp:167-192 | for every finite tree the stack loop ends and adds exactly the index of the recursive traversal; `BelowExactly` and `IndexedByName` say which paths and what they hold |
| FileIndex.BelowExactly | include/simpleserv/utility/file_manager.hpp:170-190 | the indexed paths are exactly those spelled by the ways from the root down to a file |
| FileIndex.TypeBySuffix | src/simpleserv/utility/file_manager.cpp:33-60 | stem + "." + suffix has the type of its suffix, for eight literal suffixes and plain text otherwise, whatever the stem |
| FileIndex.TypeWithoutSuffix | src/simpleserv/utility/file_manager.cpp:52-60 | a name without a dot, or with only a leading one, is plain text |
| FileIndex.IndexedByName | include/simpleserv/utility/file_manager.hpp:178-187 | the descriptor of a path holds its last component, the type of that name, and the path itself |
| FileIndex.OnePathPerFile | include/simpleserv/utility/file_manager.hpp:174-189 | a tree has as many file paths as files: no two share a path |
| FileIndex.OneEntryPerFile | include/simpleserv/utility/file_manager.hpp:181-187 | a fresh index has exactly one entry per file |
| FileIndex.DiskFileFetcher.GenerateEncodedFiles | include/simpleserv/utility/file_manager.hpp:194-211 | in whatever order the map is walked, exactly the HTML, CSS and JS descriptors are tried and those that compress gain a Brotli path |
| FileIndex.EveryPassKeepsIndexOk | include/simpleserv/utility/file_manager.hpp:167-211 | after any sequence of passes each plain entry is its own key and a Brotli entry exists only for compressible types and names key + ".br" |
| FileIndex.DiskFileFetcher.GetFile | src/simpleserv/utility/file_manager.cpp:106-137 | a missing descriptor is an error; the Brotli path is read when there is one |
| FileIndex.ServedFromOneOfTwo | src/simpleserv/utility/file_manager.cpp:116-136 | a served file comes from its own path or, marked Brotli, from that path + ".br" |
| FileIndex.EncodeDirectory | src/simpleserv/utility/content_coding.cpp:79-101 | the stack loop ends; each file below the directory whose last component is a non-empty stem and .html, .css or .js is encoded exactly once, and no other |
| FileIndex.SameSelection | src/simpleserv/utility/content_coding.cpp:94-97 | on one snapshot the encoder and the pass over a fresh index select the same files, those with a stem and one of the three suffixes |
| FileCache.CacheFileFetcher.GetFile | src/simpleserv/utility/file_manager.cpp:78-103 | a hit is answered from the cache; a miss is fetched, and remembered unless it failed |
| FileCache.Uninterrupted | src/simpleserv/utility/file_manager.cpp:85-102 | the steps find, fetch, insert, read of one undisturbed request give the answer and the cache of that method |
| FileCache.StepKeepsCacheOk | src/simpleserv/utility/file_manager.cpp:85-102 | under any interleaving of requests, what is cached and what requests carry was returned by the disk fetcher |
| FileCache.ReadNeverInserts | src/simpleserv/utility/file_manager.cpp:101 | the final `operator[]` never default-inserts |
| FileCache.CacheIsTransparent | src/simpleserv/utility/file_manager.cpp:79-103 | in every run each answer was returned by the disk fetcher for that path earlier in the run, a failure since the request began; failures are never cached |
| FileCache.UnchangedFilesUncached | src/simpleserv/utility/file_manager.cpp:79-103 | while the files do not change, every request is answered as without the cache |
| FileCache.NeverEvicted | include/simpleserv/utility/file_manager.hpp:117-119 | a cached path stays cached |
| HttpHandler.PrepareResponse | src/simpleserv/http/http_handler.cpp:44-70 | status, headers and body of the response from what the cache answers, and the cache afterwards |
| HttpHandler.Handle | src/simpleserv/http/http_handler.cpp:29-42 | the text answered to a request text: none when it is refused |
| HttpHandler.HeadMirrorsGet | src/simpleserv/http/http_handler.cpp:52-67 | the HEAD response followed by the content is the GET response; for a missing file they are equal |
| HttpHandler.HeadRequestMirrorsGet | src/simpleserv/http/http_handler.cpp:29-70 | the same through the whole handler, from the text of a clean request |
| HttpHandler.CleanIsHandled | src/simpleserv/http/http_handler.cpp:29-42 | every clean request is answered as the fetcher answers for its path |
| HttpHandler.ResponseTellsEncoding | src/simpleserv/http/http_handler.cpp:60-67 | a client reading the header block finds `Content-Encoding: br` exactly when the Brotli path was read, and then that file's content |
| HttpHandler.QueryIsRemoved | src/simpleserv/http/http_handler.cpp:16-27 | a query behind a path does not change the file that is looked up |
| HttpHandler.AgreeingCacheIsUnseen | src/simpleserv/http/http_handler.cpp:29-42 | while the cache holds what the disk fetcher answers, every text is answered as without it, and the cache goes on doing so |
| HttpHandler.EveryAnswerIsUncached | src/simpleserv/http/http_handler.cpp:29-42 | in every sequence of texts handled over one cache, each is answered as without the cache |
| HttpAnswers.MissingFileIsAnswered | src/simpleserv/http/http_handler.cpp:50-56 | under every agreeing cache and by every method, an accepted text asking for what is not below the root is answered exactly `HTTP/1.1 404 Not Found` and two CRLFs |
| HttpAnswers.SuffixedFileIsAnswered | src/simpleserv/http/http_handler.cpp:29-70 | index, encoding pass, cache, parser and printer together: an accepted text asking for a file below the root named stem.suffix is answered in full text: 200, `Content-Encoding: br` exactly for compressed web text, the literal media type of the suffix, the content of the file or of its Brotli representation, left out for HEAD |
| HttpAnswers.PlainFileIsAnswered | src/simpleserv/http/http_handler.cpp:29-70 | the same for names without a dot or with only a leading one: text/plain, never encoded |
| HttpAnswers.StartsWithOk | src/simpleserv/http/http_handler.cpp:45-46 | these answers begin with `HTTP/1.1 200 OK` and CRLF |
| HttpAnswers.FoundIsPrinted | include/simpleserv/http/message.hpp:167-177 | the literal text of the response for a found file |
| HttpAnswers.AsksForOne | src/simpleserv/http/http_handler.cpp:16-27 | every accepted text asks for exactly one file, with or without a query behind it |
| Serving.RunLogAnswered | include/simpleserv/request_processing/connection_handler.hpp:57 | every answer a worker has logged is the HTTP handler's answer to that request, over a state the files were in |
| Serving.RequestsAreAnswered | include/simpleserv/request_processing/connection_handler.hpp:45-64 | at rest, every connection ever added has lived one whole life by its claimer, whose answer is the HTTP handler's answer to that connection's own request |
| Serving.EachGetsItsOwn | include/simpleserv/request_processing/connection_handler.hpp:53-64 | at rest, a refused request was closed unanswered and an accepted one was sent once exactly the printed response to it |
| Serving.EveryClientGetsItsFile | src/simpleserv/http/http_handler.cpp:29-70 | at rest, with unchanged files, every client that asked for a file below the root named stem.suffix was sent that file or its Brotli representation, in the literal text above, once, and then closed |
| Serving.PlainFilesAreServedToo | src/simpleserv/http/http_handler.cpp:29-70 | the same for the other names |
| Serving.OthersGetNotFound | src/simpleserv/http/http_handler.cpp:52-56 | at rest, every client that asked for anything else was sent the literal 404, once, and then closed |
| Url.Path | src/simpleserv/utility/url.cpp:11-18 | the text before the first `?` |
| Url.Searchpart | src/simpleserv/utility/url.cpp:20-44 | on every string and start the loop ends, no substr starts out of range, and the map is the fold of the scanned pairs |
| Url.WrappedLength | src/simpleserv/utility/url.cpp:36 | the unsigned length of a value wraps around when the `&` comes first, and the value then runs to the end |
| Url.FromString | src/simpleserv/utility/url.cpp:46-52 | path and query together |
| Url.ScanIsSplit | src/simpleserv/utility/url.cpp:25-41 | without a gap, scanning makes the assignments of the segments between `&`, split at their first `=`, in order |
| Url.NoGapMeans | src/simpleserv/utility/url.cpp:25-41 | "no gap" means every segment up to the last one with `=` has `=` |
| Url.SplitExactly | src/simpleserv/utility/url.cpp:26-29 | the segments hold no `&`, and joined by `&` they are the text |
| Url.JoinedSegment | src/simpleserv/utility/url.cpp:35-40 | a pair before an `&` is assigned and scanning goes on behind it |
| Url.LastSegment | src/simpleserv/utility/url.cpp:29-38 | a pair without an `&` behind it is assigned whole |
| Url.ScanAcrossAmp | src/simpleserv/utility/url.cpp:35-40 | when no `=` comes before the first `&`, the key runs across it and the value to the end of the text |
| Url.FoldIsLastWins | src/simpleserv/utility/url.cpp:38 | a key has the value assigned to it last |
| Url.ParsedExactly | src/simpleserv/utility/url.cpp:46-52 | the path ends at the first `?`, and what follows is scanned |
| Url.ScanMeansSplitExactly | src/simpleserv/utility/url.cpp:20-44 | the map is that of splitting and folding if and only if there is no gap |
| Url.JoinThenParse | src/simpleserv/utility/url.cpp:46-52 | a path without `?` joined with clean pairs is parsed into the path and the map in which the last value of each key wins |
| PercentCoding.PercentEncode | src/simpleserv/utility/url.cpp:71-107 | the loop computes `Encode`, which is pinned by the next four rows |
| PercentCoding.EncodesPointwise | src/simpleserv/utility/url.cpp:74-104 | every string is encoded character by character |
| PercentCoding.EncodedCharacter | src/simpleserv/utility/url.cpp:75-102 | a character with one of the 21 literal codes becomes `%` and its two decimal digits, any other itself |
| PercentCoding.EncodingAvoidsReserved | src/simpleserv/utility/url.cpp:75-98 | an encoding holds none of the 21 characters but `%` |
| PercentCoding.EncodesToItselfExactly | src/simpleserv/utility/url.cpp:71-107 | a string is its own encoding if and only if it holds none of the 21 characters |
| PercentCoding.PercentDecode | src/simpleserv/utility/url.cpp:54-69 | the loop with its index jumps computes `Decode`, stoi's exceptions included |
| PercentDecoding.NumeralsExactly | src/simpleserv/utility/url.cpp:60 | for every text of at most two characters, what stoi makes of it, in literal digits, signs and spaces |
| PercentDecoding.DecodedExactly | src/simpleserv/utility/url.cpp:54-69 | for every string: decoded to d exactly when it is plain characters and `%` numerals that mean d, codes taken modulo 256 |
| PercentDecoding.DecodeFaultsExactly | src/simpleserv/utility/url.cpp:58-60 | for every string: the decoder throws exactly when a `%` that no numeral follows comes after pieces that are read |
| PercentDecoding.BareEndFaults | src/simpleserv/utility/url.cpp:58-60 | a `%` at the end of an otherwise plain string throws, as in 100% |
| PercentCoding.DecodeAfterEncode | src/simpleserv/utility/url.cpp:54-107 | decoding what was encoded never fails; it keeps every character but the 21, whose code c becomes 16*(c/10) + c%10 |
| PercentCoding.RoundTripExactly | src/simpleserv/utility/url.cpp:54-107 | it gives the string back if and only if it holds none of the 21 characters |
| PercentCoding.EncodeIsInjective | src/simpleserv/utility/url.cpp:71-107 | different strings are encoded differently |
| PercentCoding.DecodeReadsHex | src/simpleserv/utility/url.cpp:57-66 | every string of plain characters and two-digit hexadecimal octets, of either case, is decoded to its meaning |

## Left out

- Sockets, TLS, accept loops, signals, server start and stop, logging and debug output: they supply only the fact that each queue has a single producer.
- Memory orders weaker than sequential consistency: each step is one atomic access, in one global order.
- File reading and Brotli compression: the content of a path and the success of compressing it are parameters; what the encoder writes, and exceptions it throws, are not modelled.
- include/simpleserv/utility/expected.hpp: `Outcome` and `Option` stand for it.
- include/simpleserv/cache.hpp: unfinished and included nowhere.
- src/simpleserv/http/request_handler.cpp, headers.hpp and the status strings other than the two the handler uses: tables without logic.
- `HTTPRequest::to_string`: it prints a pointer. The stream operator is the request printer here.
- `Threadpool::add_connection`, `createRef`: they do not compile once used.
- `StringParser::consume_all` and `expect(char)`: not called by the parser.
- Texts and source locations of errors: `Err` carries none.
- The static `file_manager` exists once per translation unit; one shared instance is modelled.
- The mutexes declared in the file manager: they are never locked, but each operation on the cache map is one atomic step here, as if they were.
- Handlers that throw: in `Pool` a handler always returns. In `Serving` this leaves out the runs in which a worker handles a request on which the parser faults (`HttpRejection.RequestFaultsExactly`).
- Directory roots that end in a slash, do not exist, or contain symbolic links to directories: a root is a name joined to its entries by a slash, over a finite tree read in one snapshot.
- The stack of directories: it holds each directory together with its listing, which a directory iterator would read later.
- `std::map` of the query: a Dafny map, since its order is not observed. The header map is a sorted sequence, since its order is printed.
- Threads: `Threadpool` builds the handlers; the interleaving of their loops is `Pool`.
- Threadpool.ConnectionHandler.Start: the endless loop is cut off after a given number of rounds, one for each element of the list that says which exchanges fail spuriously.
- QueueBound.LagBoundIsExact: is about a queue with at least one consumer and an element type with at least two values; without either nothing can be seen to go wrong.
- Serving.EachGetsItsOwn: each handler sees one state of the files; that a cache filled by interleaved requests answers alike while the files do not change is `FileCache.UnchangedFilesUncached`.
- Threadpool.RunPool: does not interleave the workers, which take turns on the objects; their interleaving is `Pool`.
- LockFreeQueue.LockFreeQueue.constructor: a capacity above 100 does not compile in the source, because the table then has type void; here the table is empty instead.
- LockFreeQueue.LockFreeQueue.Pop: called alone it cannot lose a race; races are in `QueueProtocol`.
- Url.Searchpart: strings are shorter than 2^63 characters, as every std::string is.
- FileIndex.EncodeDirectory: does not state the order in which the files are encoded, which the file system decides.
- Printing a request whose version is invalid: the source indexes its table out of range there.
