# Proofs about the server framework, the file reader and the shared map

The project models the logic of four parts of the repository in Dafny and
proves what they promise.

- **HTTP messages and one connection.** `Text` has the string operations
  (`find`, the order of `std::map` keys, decimal text, `sscanf`, `stoi`).
  `HttpFormat` gives `HTTPRequest::fromString` and `toString` on values and
  shows that the parser accepts exactly an unambiguous grammar; `HttpLaws` and
  `ResponseFormat` draw the round trips, the retraction and self-delimitation
  from that; `HttpTexts` says what the printed and the rejected texts are,
  character by character; `HttpMessage` has the message objects that change in
  place.
  `Session` is the machine of one connection, driven by the results of its
  `read` and `write` calls; `HttpSession` instantiates it for HTTP and ties the
  loops of `readRequest`, `writeResponse` and `connectionCallback` to it.
- **The cached file reader.** `LruCache` is the list with the map into it,
  `Reader` the binary search with its inclusive right end, the cache in front
  of it, and the histories of calls.
- **The coroutine pool and the worker thread.** `Coroutine` is the pool,
  `IdleTime` the time-ordered set, `Worker` the event loop's bookkeeping with
  the sessions of all connections running in pool routines, `ThreadWork` the
  object that performs it.
- **The shared map.** `Allocator` is the linear allocator with the memory layout
  around it, `SharedMap` the lock protocol between processes, and `set_value`
  beside it.

A byte is a `char`; the statements hold for all characters. HTTP terms are those
of RFC 7230 (request line, section 3.1.1; status line, section 3.1.2; header
fields, section 3.2; Content-Length, section 3.3.2); the code accepts only a
part of that format and the model follows the code.

Where the code and its evident intention differ:

- `getEntry` passes `end()` as an inclusive bound, so the slot behind the file can
  be read and returned. `Reader.LookupIsScan` gives the exact condition,
  `Reader.SlotBehindIsReturned` the failing family, `Reader.FullPagesShowIt` an
  instance.
- `dropTimeoutedConnections` advances an iterator whose node was just erased. The
  model takes the next oldest entry instead.
- Two equal clock readings cannot both be in the idle set, and a failing
  `addToEpoll` leaves a connection without routine: `Worker.AcceptBooks` and
  `Worker.ResetBooks` say exactly when the books stay in order.
- A routine that ends by an exception leaves its id with the connection while the
  pool hands it out again. The end of the stream is such an exception, so a client
  that hangs up while its routine reads is enough. `Worker.HandleKeepsExactly` and
  `Worker.ExceptionFreeExactly` give the exact condition on the results of the calls,
  `Worker.HangUpSharesRoutine` and `Worker.HangUpLosesRoutine` a run. An event on the
  stale descriptor then does harm to the connection that got the id exactly if the
  resume does not end with EAGAIN (`Worker.SharedResumeExactly`); until that happens
  the connection is served right (`Worker.RunKeepsOwn`, `Worker.ServerEndToEnd`).
- handleConnection gives a connection with an empty buffer a new routine even if the
  old one still waits. Each event that brings no bytes therefore leaves one routine
  behind for good: `Worker.IdleWakeupAbandons`, `Worker.WakeupsPileUp`.
- The response parser lets a space into the version if the status line has a space
  before its first slash and another one behind it: `ResponseFormat.RetractionExactly`,
  `ResponseFormat.VersionMayBeASpace`.
- `set_value` takes no lock. It breaks the agreement with the logged order exactly
  when it assigns a key between another process's vain lookup of it and the link
  (`SharedMap.StepConsistentExactly`, `SharedMap.LostUpdateExactly`). Earlier operations
  may still explain such a run, a clear before which the assignment can be put for
  example; `SharedMap.SetValueLosesUpdate` is a run that no order explains.
- A Content-Length without a number counts as zero, and characters behind a number are
  ignored: `HttpTexts.LengthIsCompared`, `Text.ScansExactly`.
- Bytes after a complete request are never separated: they are dropped
  (`HttpLaws.TrailingBytesDropped`) or block the connection
  (`HttpSession.PipelinedRequestStalls`).

## Model

| member | source | states |
|---|---|---|
| HttpFormat.ParseAcceptsExactly | hw7-Shared_Memory_File/src/HTTP/HTTPMessage.cpp:80-138 | fromString returns normally exactly on the texts of the grammar (parts free of their own separators) whose body has the announced size |
| HttpFormat.GrammarIsUnambiguous | hw7-Shared_Memory_File/src/HTTP/HTTPMessage.cpp:80-138 | a text is cut into method, target, version, header lines and body in at most one way |
| HttpFormat.DecomposeSound | hw7-Shared_Memory_File/src/HTTP/HTTPMessage.cpp:81-129 | what the index-driven parser cuts out are grammatical parts that spell the text again |
| HttpFormat.DecomposeOfRender | hw7-Shared_Memory_File/src/HTTP/HTTPMessage.cpp:81-129 | grammatical parts, put together, are cut out again |
| HttpFormat.ParseOfRender | hw7-Shared_Memory_File/src/HTTP/HTTPMessage.cpp:80-138 | the object holds exactly those parts afterwards, later header lines overwriting earlier ones, the body only if a length was given |
| HttpFormat.ReadLinesSound | hw7-Shared_Memory_File/src/HTTP/HTTPMessage.cpp:109-127 | the header loop stops at the blank line and the lines it took are the text in between |
| HttpLaws.RoundTripExactly | hw7-Shared_Memory_File/src/HTTP/HTTPMessage.cpp:66-138 | parsing a printed request gives it back with the inserted Content-Length if and only if it is well formed |
| HttpLaws.Retraction | hw7-Shared_Memory_File/src/HTTP/HTTPMessage.cpp:66-138 | every accepted text yields a well-formed request, and printing and parsing it again changes nothing |
| HttpLaws.PrintIsInjective | hw7-Shared_Memory_File/src/HTTP/HTTPMessage.cpp:66-78 | well-formed requests with the same text are the same up to the inserted length |
| HttpLaws.EntriesRebuild | hw7-Shared_Memory_File/src/HTTP/HTTPMessage.cpp:28-38 | the sorted header lines contain the whole header map |
| HttpLaws.SelfDelimiting | hw7-Shared_Memory_File/src/HTTP/HTTPMessage.cpp:129-137 | if one of two accepted texts, one a prefix of the other, carries a Content-Length, they are equal |
| HttpLaws.AcceptedPrefixes | hw7-Shared_Memory_File/src/HTTP/HTTPMessage.cpp:80-138 | exactly which prefixes of an accepted text are accepted |
| HttpLaws.PrefixDecomposes | hw7-Shared_Memory_File/src/HTTP/HTTPMessage.cpp:80-129 | a prefix is cut like the whole from the blank line on and rejected before it |
| HttpLaws.PrintedPrefixRejected | hw7-Shared_Memory_File/src/HTTP/HTTPMessage.cpp:66-138 | no strict prefix of a printed well-formed request is accepted, with or without a body |
| HttpLaws.TrailingBytesDropped | hw7-Shared_Memory_File/src/HTTP/HTTPMessage.cpp:129-138 | without Content-Length, what follows the blank line has no effect |
| HttpTexts.PrintedRequest | hw7-Shared_Memory_File/src/HTTP/HTTPMessage.cpp:66-78 | the printed request, character by character, with the header lines in any listing that follows the order of character codes |
| HttpTexts.PrintedResponse | hw7-Shared_Memory_File/src/HTTP/HTTPMessage.cpp:176-188 | the printed response likewise, with the status in decimal and the text that goes with it |
| HttpTexts.LengthIsAnnounced | hw7-Shared_Memory_File/src/HTTP/HTTPMessage.cpp:67-69 | toString adds the header Content-Length, with the size of the body, exactly if there is a body and no such header |
| HttpTexts.LastFieldWins | hw7-Shared_Memory_File/src/HTTP/HTTPMessage.cpp:109-127 | of several lines with one name the last one counts, other headers of the object stay |
| HttpTexts.LengthIsCompared | hw7-Shared_Memory_File/src/HTTP/HTTPMessage.cpp:130-137 | a body is taken exactly if the announced text reads as its size; a text without a number counts as zero, a negative number fits no body |
| HttpTexts.NoLineNoRequest | hw7-Shared_Memory_File/src/HTTP/HTTPMessage.cpp:80-85 | a text without CRLF leaves the object as it was |
| HttpTexts.BrokenRequestLine | hw7-Shared_Memory_File/src/HTTP/HTTPMessage.cpp:80-107 | ArgumentError in the request line leaves in the object the parts before the break and nothing else |
| HttpTexts.BrokenHeaders | hw7-Shared_Memory_File/src/HTTP/HTTPMessage.cpp:108-127 | ArgumentError in the header lines leaves the request line and the lines before the break; the body stays |
| HttpTexts.WrongBodySize | hw7-Shared_Memory_File/src/HTTP/HTTPMessage.cpp:129-137 | ArgumentError for a wrong size leaves everything but the body |
| HttpTexts.NoStatusLine | hw7-Shared_Memory_File/src/HTTP/HTTPMessage.cpp:198-206 | a status line without a slash or without a space says nothing |
| HttpTexts.UsualStatusLine | hw7-Shared_Memory_File/src/HTTP/HTTPMessage.cpp:198-214 | version, status and which exception the code causes (not a number, out of the range of int), if the slash stands before the first space |
| HttpTexts.EarlySpaceStatusLine | hw7-Shared_Memory_File/src/HTTP/HTTPMessage.cpp:198-214 | the same if a space stands before the first slash: the version is all that follows the slash |
| HttpTexts.BrokenStatusLine | hw7-Shared_Memory_File/src/HTTP/HTTPMessage.cpp:190-214 | a broken status line leaves at most the version in the object |
| HttpTexts.BrokenResponseHeaders | hw7-Shared_Memory_File/src/HTTP/HTTPMessage.cpp:216-233 | header lines that break off leave the status line and the lines before the break |
| HttpTexts.WholeResponse | hw7-Shared_Memory_File/src/HTTP/HTTPMessage.cpp:190-245 | with all header lines, the object afterwards and the outcome by the size of the body |
| Text.SortedIsUnique | hw7-Shared_Memory_File/src/HTTP/HTTPMessage.cpp:28-38 | there is one increasing order of header names, so the printed text is canonical |
| Text.BeforeExactly | hw7-Shared_Memory_File/src/HTTP/HTTPMessage.cpp:28-38 | that order decides by the first difference of character codes, a prefix coming first |
| Text.FindPairExactly | hw7-Shared_Memory_File/src/HTTP/HTTPMessage.cpp:80-127 | find returns the first place from its start on where the two characters stand, and npos exactly if there is none |
| Text.LeastExists | hw7-Shared_Memory_File/src/HTTP/HTTPMessage.cpp:28-38 | the order of header names is total: each non-empty set of them has a first |
| Text.ScanSizeOfDecimal | hw7-Shared_Memory_File/src/HTTP/HTTPMessage.cpp:130-133 | the printed body size is read back as the same number exactly below 2^63 |
| Text.ScanSignedDecimal | hw7-Shared_Memory_File/src/HTTP/HTTPMessage.cpp:181-214 | a printed status code is read back as the same number |
| Text.DecimalIsCanonical | hw7-Shared_Memory_File/src/HTTP/HTTPMessage.cpp:66-68 | std::to_string writes decimal digits without a leading zero, and a minus sign exactly in front of negative numbers |
| Text.DecimalIsUnique | hw7-Shared_Memory_File/src/HTTP/HTTPMessage.cpp:66-68 | it is the only such text with that value |
| Text.OneMoreDigit | hw7-Shared_Memory_File/src/HTTP/HTTPMessage.cpp:130-133 | reading is positional: one more digit multiplies by ten, any other character ends the number |
| Text.ScansExactly | hw7-Shared_Memory_File/src/HTTP/HTTPMessage.cpp:130-133 | a number is found exactly in a text of white space, an optional sign and at least one digit, whatever follows |
| Text.IntegerIsRead | hw7-Shared_Memory_File/src/HTTP/HTTPMessage.cpp:190-214 | and is then the one that the digits and the sign spell |
| Text.SizeOfInteger | hw7-Shared_Memory_File/src/HTTP/HTTPMessage.cpp:130-133 | as a size, a number below 2^63 is itself, a negative one at least 2^63, and no number is zero |
| ResponseFormat.RoundTripExactly | hw7-Shared_Memory_File/src/HTTP/HTTPMessage.cpp:176-245 | parsing a printed response gives it back with the inserted length if and only if it is well formed and its version has no space |
| ResponseFormat.SpacedVersionExactly | hw7-Shared_Memory_File/src/HTTP/HTTPMessage.cpp:198-207 | a status line puts a space into the version if and only if its first space stands before its first slash and another space after that slash |
| ResponseFormat.RetractionExactly | hw7-Shared_Memory_File/src/HTTP/HTTPMessage.cpp:190-245 | an accepted response survives printing and parsing if and only if its status line is not of that kind |
| ResponseFormat.VersionMayBeASpace | hw7-Shared_Memory_File/src/HTTP/HTTPMessage.cpp:198-207 | an accepted text whose version is a space |
| ResponseFormat.AcceptedReading | hw7-Shared_Memory_File/src/HTTP/HTTPMessage.cpp:190-245 | apart from spaces in the version, what the response parser accepts is well formed |
| HttpMessage.GetHeaders | hw7-Shared_Memory_File/src/HTTP/HTTPMessage.cpp:28-38 | the loop prints the entries of the map in key order |
| HttpMessage.ReadHeaderLines | hw7-Shared_Memory_File/src/HTTP/HTTPMessage.cpp:109-127 | the loop of fromString: headers, position and failure are those of the value-level parser |
| HttpMessage.HTTPRequest.ToString | hw7-Shared_Memory_File/src/HTTP/HTTPMessage.cpp:66-78 | the text, and the length inserted into the object |
| HttpMessage.HTTPRequest.FromString | hw7-Shared_Memory_File/src/HTTP/HTTPMessage.cpp:80-138 | the object afterwards, also after a failure, and whether ArgumentError was thrown |
| HttpMessage.HTTPRequest.DoKeepAlive | hw7-Shared_Memory_File/src/HTTP/HTTPMessage.cpp:156-168 | whether the Connection header, in lower case, is keep-alive |
| HttpMessage.KeepAliveExactly | hw7-Shared_Memory_File/src/HTTP/HTTPMessage.cpp:156-168 | that is so exactly if the header has ten characters that spell keep-alive, each letter in either case |
| HttpMessage.HTTPResponse.ToString | hw7-Shared_Memory_File/src/HTTP/HTTPMessage.cpp:176-188 | the text, and the length inserted into the object |
| HttpMessage.HTTPResponse.FromString | hw7-Shared_Memory_File/src/HTTP/HTTPMessage.cpp:190-245 | the object afterwards and which exception, if any, was thrown |
| Session.RunFaithful | hw7-Shared_Memory_File/src/HTTP/BaseHTTPServer.cpp:287-336 | for any protocol with delimited texts: every run of a lockstep connection keeps bytes sent plus rest of the message equal to the responses so far |
| Session.ChunksOfDelimited | hw7-Shared_Memory_File/src/HTTP/BaseHTTPServer.cpp:302-319 | however a delimited text is chunked, the request is returned at the first EAGAIN after its last byte |
| Session.WritesAddUp | hw7-Shared_Memory_File/src/HTTP/BaseHTTPServer.cpp:321-336 | however a message is cut by partial writes, once their counts add up to its length it is fully sent, the buffer is empty and the connection closed or kept as the request says |
| Session.RunAccounted | hw7-Shared_Memory_File/src/HTTP/BaseHTTPServer.cpp:287-336 | in every lockstep run the bytes received are the texts of the requests taken plus what is in the buffer while reading, and the bytes sent are those the writes counted |
| Session.AllTaken | hw7-Shared_Memory_File/src/HTTP/BaseHTTPServer.cpp:287-336 | for any delimited protocol: once the bytes of all requests have arrived and one more call answers EAGAIN, all requests have been taken |
| Session.AllSent | hw7-Shared_Memory_File/src/HTTP/BaseHTTPServer.cpp:287-336 | and once the counts of the writes add up to the responses, exactly these were sent and the buffer is empty |
| Session.ThrowsExactly | hw7-Shared_Memory_File/src/tcp/ConnectionAsync.cpp:13-62 | a resume ends by an exception if and only if its last call met the end of the stream or an error |
| Session.EndsExactly | hw7-Shared_Memory_File/src/tcp/ConnectionAsync.cpp:13-62 | return, yield, DescriptorError and IOError each happen for exactly one kind of last call, and only the end of the stream closes the connection |
| Session.DeliveriesNeeded | hw7-Shared_Memory_File/src/HTTP/BaseHTTPServer.cpp:302-306 | n bytes need at least n / 256 calls of read that bring some |
| Session.DeliveriesSuffice | hw7-Shared_Memory_File/src/HTTP/BaseHTTPServer.cpp:302-306 | and n / 256, rounded up, are enough for any text |
| Session.ActivationIsRun | hw7-Shared_Memory_File/src/HTTP/BaseHTTPServer.cpp:161-177 | one resume of the routine, followed by handleConnection's swap, is a stretch of the session |
| Session.ActivateBusy | hw7-Shared_Memory_File/src/HTTP/BaseHTTPServer.cpp:302-336 | a routine that stops while answering still has the request's bytes in the buffer |
| HttpSession.EndToEnd | hw7-Shared_Memory_File/src/HTTP/BaseHTTPServer.cpp:287-336 | end to end on one connection: at every moment the bytes sent and the rest of the response are the responses in order, whatever the chunks, partial writes, pauses, end of file or errors |
| HttpSession.AllAnswered | hw7-Shared_Memory_File/src/HTTP/BaseHTTPServer.cpp:287-336 | from bytes alone: once the printed requests have all arrived and one more call answers EAGAIN, all were taken; once the write counts add up to the responses, exactly these were sent |
| HttpSession.ChunkingIndependence | hw7-Shared_Memory_File/src/HTTP/BaseHTTPServer.cpp:302-319 | the buffer equals the bytes received, no return before the last byte, then the printed request with its length |
| HttpSession.OneExchange | hw7-Shared_Memory_File/src/HTTP/BaseHTTPServer.cpp:287-336 | one request in any pieces, one response in any pieces: exactly the printed response was sent, the buffer is empty, and the connection is open exactly if the request says Connection: keep-alive in letters of either case |
| HttpSession.PipelinedRequestStalls | hw7-Shared_Memory_File/src/HTTP/BaseHTTPServer.cpp:302-319 | a byte behind a complete request with Content-Length blocks the connection for all later input |
| HttpSession.HttpUnderstands | hw7-Shared_Memory_File/src/HTTP/BaseHTTPServer.cpp:307-316 | printed well-formed requests are delimited for the try-and-yield loop |
| HttpSession.ConnectionAsync.Read | hw7-Shared_Memory_File/src/tcp/ConnectionAsync.cpp:13-28 | result, exception and open flag for each result of the system call |
| HttpSession.ConnectionAsync.ReadToBuffer | hw7-Shared_Memory_File/src/tcp/ConnectionAsync.cpp:30-46 | the buffer grows by exactly the bytes read; an exception leaves it unchanged |
| HttpSession.ConnectionAsync.Write | hw7-Shared_Memory_File/src/tcp/ConnectionAsync.cpp:48-62 | the bytes handed to the kernel, and the count or exception |
| HttpSession.ReadRequest | hw7-Shared_Memory_File/src/HTTP/BaseHTTPServer.cpp:302-319 | the loop follows the session and returns the request that the session answers |
| HttpSession.SendAll | hw7-Shared_Memory_File/src/HTTP/BaseHTTPServer.cpp:321-334 | the loop sends the text once, in order, over any partial writes |
| HttpSession.WriteResponse | hw7-Shared_Memory_File/src/HTTP/BaseHTTPServer.cpp:321-336 | on return the printed response is out and the buffer is empty |
| HttpSession.ConnectionCallback | hw7-Shared_Memory_File/src/HTTP/BaseHTTPServer.cpp:287-300 | one request and its response leave the connection where the session is |
| LruCache.LRUCache.Get | hw7-Shared_Memory_File/include/data/LRUCache.hpp:38-47 | the entry of the key, moved to the front; map and list stay in agreement |
| LruCache.LRUCache.Add | hw7-Shared_Memory_File/include/data/LRUCache.hpp:49-55 | the entry in front, the last one evicted when full; map and list stay in agreement |
| LruCache.LRUCache.Remove | hw7-Shared_Memory_File/include/data/LRUCache.hpp:57-63 | exactly the key's node leaves list and map |
| LruCache.LRUCache.RemoveLRU | hw7-Shared_Memory_File/include/data/LRUCache.hpp:24-28 | exactly the last node leaves list and map |
| LruCache.LRUCache.Insert | hw7-Shared_Memory_File/include/data/LRUCache.hpp:30-33 | the new node is in front and the map points to it |
| Reader.BinSearchEntry | hw7-Shared_Memory_File/include/bigFile/Reader.hpp:17-32 | the loop returns and reads what the search on values does |
| Reader.ProbeBounds | hw7-Shared_Memory_File/include/bigFile/Reader.hpp:17-40 | probes stay in 0..n, are at most floor(log2(n+1))+1, and reach slot n exactly when all stored keys are smaller |
| Reader.LookupIsScan | hw7-Shared_Memory_File/include/bigFile/Reader.hpp:38-40 | getEntry agrees with a front-to-back scan if and only if the slot behind the file does not hold the key while all stored keys are smaller |
| Reader.SlotBehindIsReturned | hw7-Shared_Memory_File/include/bigFile/Reader.hpp:38-40 | whenever the slot behind the file holds a key above all stored ones, getEntry returns that slot |
| Reader.FullPagesShowIt | hw7-Shared_Memory_File/include/bigFile/Reader.hpp:38-40 | an instance with a file of 28-byte entries that ends at a page boundary |
| Reader.ZeroTailIsHarmless | hw7-Shared_Memory_File/src/bigFile/Mmap.cpp:35-37 | with zero bytes behind a non-empty file getEntry is always right |
| Reader.CacheExact | hw7-Shared_Memory_File/include/bigFile/Reader.hpp:56-66 | after any history the list is the first capacity entries of all found ones by recency |
| Reader.RecentMeaning | hw7-Shared_Memory_File/include/data/LRUCache.hpp:38-55 | that recency list has exactly the found keys of the history, each once, ordered by last use |
| Reader.RecencyIsUnique | hw7-Shared_Memory_File/include/data/LRUCache.hpp:38-55 | no other list fits that description |
| Reader.CacheInclusion | hw7-Shared_Memory_File/include/data/LRUCache.hpp:24-55 | after the same history a smaller cache is a prefix of a larger one, so its hits are hits there |
| Reader.CacheCoherent | hw7-Shared_Memory_File/include/bigFile/Reader.hpp:56-66 | every cached entry is the one the uncached search returns, and the list never exceeds the capacity |
| Reader.LRUCacheReader.GetEntry | hw7-Shared_Memory_File/include/bigFile/Reader.hpp:56-66 | in every reachable state the result is that of the uncached getEntry |
| Coroutine.CreateSound | hw7-Shared_Memory_File/src/coroutines/coroutine.cpp:59-75 | create returns an id that no unfinished routine holds and touches no other slot |
| Coroutine.ResumeSound | hw7-Shared_Memory_File/src/coroutines/coroutine.cpp:77-136 | the queue keeps listing exactly the finished slots, each once; the routine is current while it runs and the main context afterwards; a finished or unknown id does nothing |
| Coroutine.SlotsArePeak | hw7-Shared_Memory_File/src/coroutines/coroutine.cpp:59-75 | after any run the number of slots is the peak number of simultaneously unfinished routines |
| Coroutine.OldestIdFirst | hw7-Shared_Memory_File/src/coroutines/coroutine.cpp:59-75 | first in, first out: in every run ids are reused in the order in which their routines ended |
| Coroutine.RunsLatestBody | hw7-Shared_Memory_File/src/coroutines/coroutine.cpp:36-42 | resume(id) runs the function given to the latest create that returned id |
| Coroutine.EndsOnce | hw7-Shared_Memory_File/src/coroutines/coroutine.cpp:77-136 | no function ends twice, and resume rethrows exactly the exceptions that ended functions, once each and in order |
| Coroutine.Ordinator.Create | hw7-Shared_Memory_File/src/coroutines/coroutine.cpp:59-75 | the pool afterwards and the id |
| Coroutine.Ordinator.Resume | hw7-Shared_Memory_File/src/coroutines/coroutine.cpp:77-98 | the pool afterwards, and whether the call resumed, rethrew or did nothing |
| Coroutine.Ordinator.SwitchBack | hw7-Shared_Memory_File/src/coroutines/coroutine.cpp:100-136 | the pool after a yield, a return or an escaping exception |
| IdleTime.EmplacedMeaning | hw7-Shared_Memory_File/src/HTTP/BaseHTTPServer.cpp:10-12 | the set stays in time order, and the new descriptor is in it exactly if its time was free |
| IdleTime.ErasedMeaning | hw7-Shared_Memory_File/src/HTTP/BaseHTTPServer.cpp:215-222 | exactly the descriptor's entry leaves the set |
| IdleTime.ExpiredExactly | hw7-Shared_Memory_File/src/HTTP/BaseHTTPServer.cpp:195-196 | a connection has expired exactly if it was idle for at least one whole second more than the timeout says |
| IdleTime.SweepIsExact | hw7-Shared_Memory_File/src/HTTP/BaseHTTPServer.cpp:192-205 | what the sweep takes had expired at its reading, and nothing it leaves had expired at the last one, despite the early break |
| Worker.AcceptBooks | hw7-Shared_Memory_File/src/HTTP/BaseHTTPServer.cpp:104-124 | accept keeps the three structures in agreement exactly if epoll takes the descriptor and the clock reading is new |
| Worker.ResetBooks | hw7-Shared_Memory_File/src/HTTP/BaseHTTPServer.cpp:179-190 | resetting the time does so exactly if no other connection has the new time |
| Worker.DisconnectBooks | hw7-Shared_Memory_File/src/HTTP/BaseHTTPServer.cpp:207-225 | disconnecting keeps the three structures in agreement |
| Worker.HandleBooks | hw7-Shared_Memory_File/src/HTTP/BaseHTTPServer.cpp:161-177 | handling a connection does so however the routine ends |
| Worker.AcceptedIsYoungest | hw7-Shared_Memory_File/src/HTTP/BaseHTTPServer.cpp:119-123 | an accepted connection is the youngest entry, all others keep their times |
| Worker.HandledIsYoungest | hw7-Shared_Memory_File/src/HTTP/BaseHTTPServer.cpp:261-271 | a handled connection that is still there becomes the youngest entry; an exception leaves the idle set as it was |
| Worker.RunKeepsBooks | hw7-Shared_Memory_File/src/HTTP/BaseHTTPServer.cpp:236-279 | in every run of the event loop, however routines end, connections, routine ids and idle set name the same descriptors, each once and in time order |
| Worker.SweepTakesOldest | hw7-Shared_Memory_File/src/HTTP/BaseHTTPServer.cpp:192-205 | the sweep removes a first part of the idle set and those connections only |
| Worker.SweepIsFilter | hw7-Shared_Memory_File/src/HTTP/BaseHTTPServer.cpp:192-205 | for a clock that never goes back, a connection survives the sweep if and only if at the last reading that the sweep made it was idle for less than one whole second more than the timeout |
| Worker.OwnersDiffer | hw7-Shared_Memory_File/src/HTTP/BaseHTTPServer.cpp:161-177 | distinct connections hold distinct routines |
| Worker.HandleKeepsExactly | hw7-Shared_Memory_File/src/HTTP/BaseHTTPServer.cpp:161-177 | handling a connection leaves it disconnected or with an unfinished routine of its own if and only if its last call met neither the end of the stream nor an error |
| Worker.BreakSharesRoutine | hw7-Shared_Memory_File/src/HTTP/BaseHTTPServer.cpp:165-177 | otherwise, with no other id to recycle, the next accepted connection gets the same routine id |
| Worker.HangUpSharesRoutine | hw7-Shared_Memory_File/src/HTTP/BaseHTTPServer.cpp:104-177 | a run from the start that shows it: accept, hang up, accept |
| Worker.SharedResumeExactly | hw7-Shared_Memory_File/src/HTTP/BaseHTTPServer.cpp:161-177 | an event on the descriptor that still holds an id given away resumes the other connection's routine, and that connection keeps it if and only if the resume ends with EAGAIN |
| Worker.HangUpLosesRoutine | hw7-Shared_Memory_File/src/HTTP/BaseHTTPServer.cpp:161-177 | the harm in that run, for any request of one read: an event on the stale descriptor answers it, and its own connection is left with an ended routine that the pool gives away next |
| Worker.SwapIsSafe | hw7-Shared_Memory_File/src/HTTP/BaseHTTPServer.cpp:170-176 | a routine is replaced only when finished or waiting in readRequest without bytes |
| Worker.SwapsExactly | hw7-Shared_Memory_File/src/HTTP/BaseHTTPServer.cpp:170-176 | the connection gets a new routine exactly if it is open with an empty buffer, whether or not the old one has ended; otherwise it keeps its routine |
| Worker.IdleWakeupAbandons | hw7-Shared_Memory_File/src/HTTP/BaseHTTPServer.cpp:161-177 | so an event without bytes on a connection that waits for a request leaves its routine behind, unfinished and held by no connection |
| Worker.WakeupsPileUp | hw7-Shared_Memory_File/src/HTTP/BaseHTTPServer.cpp:161-177 | n such events leave n more unfinished routines |
| Worker.RunKeepsOwn | hw7-Shared_Memory_File/src/HTTP/BaseHTTPServer.cpp:104-279 | in every run, a connection owns its routine and is exactly where its own calls lead, provided its own routine ends by no exception and an event on another descriptor resumes a routine made for it only if it holds that one and the resume ends with EAGAIN; the other connections are unrestricted |
| Worker.ExceptionFreeExactly | hw7-Shared_Memory_File/src/HTTP/BaseHTTPServer.cpp:104-279 | every connection holds its own routine in every state of a run if and only if no routine ends by an exception in it |
| Worker.ExceptionFreeSparesAll | hw7-Shared_Memory_File/src/HTTP/BaseHTTPServer.cpp:104-279 | without any exception every connection is spared as above, and all routine ids differ |
| Worker.SparedIsFaithful | hw7-Shared_Memory_File/src/HTTP/BaseHTTPServer.cpp:104-336 | the same as the next row for any protocol whose request texts are delimited |
| Worker.ServerEndToEnd | hw7-Shared_Memory_File/src/HTTP/BaseHTTPServer.cpp:104-336 | in every run of the server from its start, a lockstep connection that was spared as above since it was accepted has sent exactly its responses so far, even if other clients hang up |
| Worker.ServerAnswersAll | hw7-Shared_Memory_File/src/HTTP/BaseHTTPServer.cpp:104-336 | and complete: once all bytes of its printed requests have arrived and one more call answered EAGAIN, all were taken; once its write counts add up to the responses, exactly these were sent and its buffer is empty |
| ThreadWork.ThreadWork.Accept | hw7-Shared_Memory_File/src/HTTP/BaseHTTPServer.cpp:104-124 | maps, idle set and pool afterwards, also when addToEpoll throws |
| ThreadWork.ThreadWork.HandleConnection | hw7-Shared_Memory_File/src/HTTP/BaseHTTPServer.cpp:161-177 | maps, idle set and pool afterwards, and whether an exception escaped |
| ThreadWork.ThreadWork.ResetConnectionTime | hw7-Shared_Memory_File/src/HTTP/BaseHTTPServer.cpp:179-190 | the idle set afterwards |
| ThreadWork.ThreadWork.FindIdle | hw7-Shared_Memory_File/src/HTTP/BaseHTTPServer.cpp:180-186 | the first entry of the descriptor, or the end |
| ThreadWork.ThreadWork.DropTimeoutedConnections | hw7-Shared_Memory_File/src/HTTP/BaseHTTPServer.cpp:192-205 | the loop performs the sweep on values |
| ThreadWork.ThreadWork.DisconnectClient | hw7-Shared_Memory_File/src/HTTP/BaseHTTPServer.cpp:207-225 | the descriptor leaves all three structures |
| Allocator.LeakLaw | hw5-Shared_Memory_IPC/include/Allocator.hpp:53-66 | in every run the used stretch is live plus leaked bytes; leaked bytes never decrease, and stay the same exactly if every free hits the top |
| Allocator.BackToBase | hw5-Shared_Memory_IPC/include/Allocator.hpp:53-66 | the pointer is back at the start if and only if nothing is in use and every free hit the top |
| Allocator.LostForever | hw5-Shared_Memory_IPC/include/Allocator.hpp:62-66 | a block freed out of order is never reclaimed and the pointer never falls below its end |
| Allocator.RunIsSafe | hw5-Shared_Memory_IPC/include/Allocator.hpp:53-66 | in every run each block, in use or leaked, lies inside the arena below the pointer and apart from all others |
| Allocator.SucceedsExactly | hw5-Shared_Memory_IPC/include/Allocator.hpp:53-60 | in every run an allocation succeeds if and only if live bytes, leaked bytes and the new ones together fit the arena, and then moves the pointer by its size |
| Allocator.FreeExactly | hw5-Shared_Memory_IPC/include/Allocator.hpp:62-66 | in every run a free moves the pointer if and only if it is given the topmost block, back to its start; any other free only marks the block lost |
| Allocator.FreeUndoesAllocate | hw5-Shared_Memory_IPC/include/Allocator.hpp:53-66 | an allocation freed at once leaves no trace |
| Allocator.LayoutTiles | hw5-Shared_Memory_IPC/include/Map.hpp:43-50 | for every size, the five header objects follow each other without gap or overlap up to the arena, which ends where the mapping ends |
| Allocator.BlocksClearOfHeaders | hw5-Shared_Memory_IPC/include/Map.hpp:43-50 | no allocated block ever overlaps a header object or leaves the mapping |
| Allocator.Allocator.Allocate | hw5-Shared_Memory_IPC/include/Allocator.hpp:53-60 | the address or bad_alloc, and the pointer afterwards |
| Allocator.Allocator.Deallocate | hw5-Shared_Memory_IPC/include/Allocator.hpp:62-66 | the pointer afterwards |
| Allocator.SharedMemory.Destroy | hw5-Shared_Memory_IPC/src/SharedMemory.cpp:28-35 | only the creator unmaps, and exactly the stretch that the constructor mapped |
| SharedMap.LockProtocol | hw5-Shared_Memory_IPC/include/Map.hpp:52-76 | for any number of processes in the locked operations and any interleaving of their lookups, links and removals, semaphore value plus processes inside is one, results are those logged, and with nobody inside the map is that of the operations one by one in the order of acquisition |
| SharedMap.ApplySeen | hw5-Shared_Memory_IPC/include/Map.hpp:52-80 | what later calls see of each operation: keys, values and answer; insert changes no value, a new key of operator[] has the empty value, erase counts what it removed |
| SharedMap.HolderEnds | hw5-Shared_Memory_IPC/include/Map.hpp:52-98 | progress: the holder of the lock, running alone, ends after a number of steps fixed by operation and map, and earlier only by bad_alloc |
| SharedMap.SetterEnds | hw5-Shared_Memory_IPC/include/Map.hpp:78-98 | set_value ends after its two copies and the assignment |
| SharedMap.HarmlessProtocol | hw5-Shared_Memory_IPC/include/Map.hpp:52-80 | the same with set_value mixed in, as long as no assignment hits a key that somebody has looked for in vain and is about to link |
| SharedMap.StepConsistentExactly | hw5-Shared_Memory_IPC/include/Map.hpp:52-80 | that guard is exact for agreement with the logged order: from a state in order, a step leads out of order if and only if it is such an assignment |
| SharedMap.OverwritingIsHarmless | hw5-Shared_Memory_IPC/include/Map.hpp:78-80 | assigning a key that is in the map is never such a step |
| SharedMap.FailedSetIsClean | hw5-Shared_Memory_IPC/include/Map.hpp:78-98 | a set_value that runs out of memory, while copying or for a new node, changes nothing |
| SharedMap.OverwritingSucceeds | hw5-Shared_Memory_IPC/include/Map.hpp:78-80 | and cannot fail for want of memory |
| SharedMap.LostUpdateExactly | hw5-Shared_Memory_IPC/include/Map.hpp:52-80 | after such a step, with all earlier operations in their order, the operation and the assignment fit behind them in one of the two orders if and only if the link fails or writes the same value |
| SharedMap.SetValueLosesUpdate | hw5-Shared_Memory_IPC/include/Map.hpp:66-80 | a run of two processes from the empty map that loses an update, and no order of the calls explains it |
| SharedMap.RunConsistent | hw5-Shared_Memory_IPC/include/Map.hpp:52-80 | in every intermediate state the map is midway through the holder's operation, what the holder has looked up is still true, and nothing else has changed |
| SharedMap.OnlyOneInside | hw5-Shared_Memory_IPC/src/Semaphore.cpp:18-36 | mutual exclusion |

## Left out

- System calls: only their results appear, as events, clock readings and parameters. onRequest is a function that returns.
- HttpMessage.HTTPResponse.ToString: the table of status texts is a parameter; all that is used is that no text holds a CR.
- Text.ScanSizeOfDecimal: for a length of 2^63 and more the model saturates as glibc does, where the C standard leaves sscanf undefined.
- HttpSession.ReadRequest: a yield changes nothing in the loop, so the loop goes on with the next event; the switch to the main context and handleConnection's part are in Session and Worker.
- Worker.ServerEndToEnd: says nothing about a connection after its own routine ended, by an exception or in a resume by an event on another descriptor, or after such an event resumed an earlier routine that was made for it and replaced without ending; resuming a routine whose connection is gone is not modelled.
- Worker.RunKeepsBooks: runs in which addToEpoll throws are excluded; Worker.AcceptBooks shows that the books are then out of order.
- ThreadWork.ThreadWork.HandleConnection: connections are values in a map, so the reference that a routine holds is modelled by the descriptor it was created for, and its stack by the frame kept under its id.
- ThreadWork.ThreadWork.DropTimeoutedConnections: takes the oldest entry each time instead of advancing an erased iterator.
- Reader.LRUCacheReader.GetEntry: the file length is a multiple of the entry size, memory does not change, and the capacity is at least one because add evicts from an empty list at zero.
- Coroutine.Ordinator.Resume: a failing swapcontext, and create or resume called from inside a routine.
- Allocator.LeakLaw: zero-sized allocations, alignment, and overflow of n * sizeof(Type).
- SharedMap.LockProtocol: a failing sem_post, and the allocator's state during the operations, which only decides where a step may run out of memory.
- SharedMap.HarmlessProtocol: the map is a value without tree nodes, and set_value's own lookup and assignment are one step, so what its missing lock does to the pointers of the tree is not captured; a set_value that runs out of memory is not logged.
- SharedMap.LostUpdateExactly: orders that also move the assignment in front of earlier operations are not considered; where those returned before set_value was called, they cannot be meant.
- SharedMap.OnlyOneInside: the lock and the map's operations are steps of a machine, not methods of an object, since several processes are inside them at once.
- HttpSession.ConnectionAsync.Read: the event mask, socket options, connect and the address queries of the connection class.
- epoll itself, edge-triggered liveness, shutdown, thread start and join, and the final disconnect loops that erase while iterating.
- Logging, exception classes, descriptors, the process wrapper, the blocking and the hw4 servers, the example programs, and the hw6 copies of the HTTP and coroutine code.
