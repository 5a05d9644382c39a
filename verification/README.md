# Crotalus, verified

Crotalus is a single-process HTTP server descended from Boa. Its C core is a set of hand-written state
machines over shared buffers, intrusive lists and fixed tables, driven by a loop that sees reads and
writes of any length. This project models that core, and two self-contained pieces the repository
carries with it (libxml2's growable buffer and the PHP test runner's line diff), and proves what they do.

- `ReplyStream` – one reply on the wire. `io_shuffle` refills and drains one 4096-byte buffer,
  `complete_response` opens and closes multipart parts, `req_flush` sends, `process_requests` and
  `free_request` give the turns. For every schedule of short reads, short writes, blocks, end of file
  and errors, what the socket has accepted, what is buffered and what is owed make up one fixed stream:
  the header, then every range's bytes behind its part head, then the closing boundary.
- `RangeSpecs`, `RangeLists` – the byte-range automaton of `range_parse` against a recursive-descent
  reading of the header, the fixup against the meaning section 14.35.1 of RFC 2616 gives a spec, and
  the same steps on linked nodes that move between a pool and a request's list.
- `RangeReply` – the branches of `init_get` that join them: from the text of a Range line, or none, to
  the exact bytes on the socket.
- `HeaderLines`, `HeaderFates`, `HeaderReader` – the header scanner, which stops wherever a read stops
  and writes NULs into the bytes it has passed, against a one-pass reading of everything received: what
  is handed over and when the connection is closed, across pipelined requests.
- `BodySpool` – the request body, copied to a temporary file up to its Content-Length.
- `RequestQueues`, `Scheduler` – three doubly-linked lists, the connection count, the two poll arrays
  and the pass over a list that changes while it is walked.
- `MmapCache`, `AliasTable` – tables that must agree with something simpler: an open-addressed,
  reference-counted cache without tombstones, and a first-segment hash against a scan of all aliases.
- `UriText`, `HtmlText`, `PathClean` – percent and HTML escaping, the in-place decoder and the in-place
  path cleaner, with round trips and a specification by segments.
- `XmlBuf` – libxml2's buffer under four growth policies and with a content pointer that slides inside
  its block, refining a plain byte sequence.
- `LineDiff` – the test runner's diff, whose edit script is right whatever its bounded lookahead decides.
- `Numerals` – decimal conversion, used by the replies and by Content-Length. `Sequences` and `Options`
  hold what all modules share.

Conventions. Code that changes state is a class or a method with loops, proved against functions on
plain sequences; the laws are lemmas about those functions and the invariants. The outcome of a system
call (bytes moved, would block, failed), of a clock reading and of the code outside the model is a
parameter, so a statement holds for every outcome. A `char` is one octet. `int`, `unsigned` and `long`
have 32 bits, written out where it matters. `hide` statements only narrow what the solver looks at.

## What the code does not do

Where the code departs from its documentation or from the standard, the model follows the code and a
member says exactly when.

- A suffix range at least as long as the file loses the file's first byte, and is refused for a file of
  one byte (src/range.c:156-180); section 14.35.1 of RFC 2616 asks for the whole entity. `FixIsMeaning`
  is the exact condition, `LongSuffixLosesAByte` the outcome for every such suffix.
- `free_request` goes on when its last flush reports a block (src/request.c:320-328), so the reply is
  cut short. `FreeRequest` decides from the state before the call and the flush when the request is let
  go and when its reply is whole; `Truncated` and `TruncatedReply` are inputs on which the client gets
  the header and none of the body.
- `complete_response` declares a multipart reply done even when its closing boundary found no room
  (src/response.c:175-179). `CloseMultipart` says when. It cannot happen to a GET; a HEAD reply piles up
  in the buffer, and every willing client gets it whole if and only if it fits the buffer
  (`ServeWilling`, `Crawl`). `LostBoundary` is an input that loses the boundary.
- An alias named "/" is found only for URIs that hash like "/" (src/alias.c:53-72). `Find` is the exact
  condition.
- `add_alias` does not compare with the last entry of a bucket (src/alias.c:106-124), so a repeated name
  can get in; `Add` and `Repetition` show it never changes what is found.
- `escape_string` lets a question mark through, which `unescape_uri` takes for the query.
  `DecodeUndoesEscape` is the exact condition.
- Ranges dropped by `ranges_fixup` still count in `numranges`, so a single remaining range is sent as a
  multipart reply with one part (src/range.c:191-203) exactly if more than one was asked for:
  `MultipartByCount`, with `OneOfTwoIsMultipart` as the input.
- A poll interrupted by a signal leaves its server slot in the poll array, which nothing bounds
  (src/poll.c:88-112). k interrupted rounds stay inside the array if and only if the server is not
  watched or the slots in use plus k are at most its length (`InsideIff`, `Interrupt`); `Run` stops
  exactly where the next slot would lie outside, and `InterruptedTooOften` reaches that state.
- `xmlBufErase` of nothing writes a NUL through the content pointer even of a buffer without a block
  (lib/libxml2/buf.c:632-642). `Run` meets it if and only if such an erasure comes before any operation
  that would give the buffer a block; `BlindErase` is an input.
- A first block that comes from growing or resizing has no NUL (lib/libxml2/buf.c:784-825). `Run` says
  exactly after which operations the block is still blank (`BareAfter`): then, and only then, the NUL is
  missing, unless the allocator left one. `MissingNul` is an input.
- The margin the exact policy of `xmlBufResize` adds can wrap (lib/libxml2/buf.c:761-763).
  `NewSizeSuffices` is the exact condition.

## Model

| member | source | states |
|---|---|---|
| ReplyStream.Reply.Serve | src/request.c:465-604 | For every sequence of turns with any outcomes, all of them given until the request is released, the client has a prefix of the prescribed reply; once released it has all of it exactly if the reply ended DONE, empty-buffered and with no block left out |
| ReplyStream.Reply.ServeWilling | src/request.c:465-604 | If every read and write moves at least one byte, save the flush at the head of a turn, which may move none, a reply whose blocks find room (one part; a GET whose part heads fit; a multipart HEAD no longer than the buffer) is served in finitely many turns and the client has exactly the prescribed reply |
| ReplyStream.Reply.Turn | src/request.c:479-567 | One turn keeps conservation (accepted + buffered + owed = reply), never takes bytes back, and makes progress when the outcomes allow it; what it does exactly to a multipart HEAD whose client takes part of the buffer, and to a GET whose range is read at once |
| ReplyStream.Reply.FlushFirst | src/request.c:482-499 | A block alone holds the request back, a failed write alone kills it, otherwise what the socket took left the front of the buffer and the status is as before |
| ReplyStream.Reply.FreeRequest | src/request.c:305-329 | The last flush, decided from the state before it: the request is kept exactly if a partial write leaves bytes of a DONE reply; a released reply is whole exactly if it was DONE with no block lost and the buffer was empty or is written out; a block here releases a truncated reply |
| ReplyStream.Reply.IoShuffle | src/pipe.c:265-366 | Any read and write outcome preserves conservation; 0 is returned with the request unfinished only when the file ended early |
| ReplyStream.Reply.ReadHalf | src/pipe.c:280-330 | The refill takes exactly what the read returned of the smaller of the rest of the range and what keeps 256 bytes free; those file bytes follow what was buffered, the range advances by them, and it is finished exactly when all its bytes were taken; when it is starved or broken |
| ReplyStream.Reply.Drain | src/pipe.c:332-365 | The drain passes exactly the bytes the write took to the socket, from the front, and counts them; which of -1, 0 and 1 it returns; an emptied buffer is rewound |
| ReplyStream.Reply.CompleteResponse | src/response.c:161-185 | The list loses exactly its first range; a multipart reply gets the next part's head appended or, after the last range, its closing boundary, lost exactly if it has no room; any other reply is DONE with its buffer untouched |
| ReplyStream.Reply.CloseMultipart | src/response.c:150-185 | The closing boundary is appended or lost exactly if it did not fit, and the reply is DONE either way |
| ReplyStream.Reply.PrintPartHead | src/response.c:139-174 | Boundary, content type and content range are appended whole, or the connection is given up for lack of room |
| ReplyStream.Reply.PrintContentRange | src/response.c:128-137 | Appends exactly "Content-Range: bytes first-last/size" in decimal |
| ReplyStream.Reply.ReqWrite | src/buffer.c:35-61 | Appends the whole message or marks the request dead exactly when it does not fit |
| ReplyStream.Reply.ReqFlush | src/buffer.c:242-286 | -2 exactly on a dead request or a failed write with bytes waiting, -1 exactly on a block, which changes nothing, otherwise 0 or the buffer mark, after exactly the bytes written left the front of the buffer |
| ReplyStream.Reply.constructor | src/pipe.c:265-366 | A reply whose header is queued owes header plus payload and has sent nothing |
| ReplyStream.PartHeadFits | src/pipe.c:280-285 | The block between two parts fits the 256 bytes the refill keeps free, for every pair of numbers, if the content type line has at most 172 bytes |
| ReplyStream.ShortTypeIsRoomy | src/pipe.c:280-285 | A GET with a content type line of at most 172 bytes finds room for every part head, for every list of ranges |
| ReplyStream.Truncated | src/request.c:305-329 | A small GET whose client takes the header and then blocks is released with the header sent and none of the body |
| ReplyStream.TruncatedReply | src/request.c:305-329 | A file of two bytes and one turn on which this happens |
| ReplyStream.Crawl | src/response.c:161-185 | A client of a multipart HEAD that takes at most a byte a turn never gets a reply longer than the buffer; the closing boundary is lost and the reply declared DONE exactly if all before it fits, else the request is dead |
| ReplyStream.LostBoundary | src/response.c:150-185 | Forty-eight ranges over a one-byte file lose the closing boundary, for every header of 167 to 195 bytes |
| ReplyStream.PartPlaced | src/response.c:139-185 | In the prescribed stream the i-th later range's head is followed by exactly that range's file bytes, and those parts come in list order |
| ReplyStream.LastIsClosing | src/response.c:150-155 | A multipart stream ends with the closing boundary |
| ReplyStream.DefaultRangeIsWhole | src/range.c:119-229 | Without a Range header the default range fixes up to the whole entity and the payload is the file, or nothing for HEAD |
| ReplyStream.FixedRangesAreServable | src/range.c:119-229 | Whatever was parsed, the ranges the fixup leaves are a list the reply machine can serve |
| ReplyStream.MultipartByCount | src/response.c:161-185 | A list fixed up to one range is sent as a multipart reply, with a closing boundary, exactly if more than one range was asked for |
| ReplyStream.OneOfTwoIsMultipart | src/range.c:191-203 | Two ranges asked of a one-byte file: one is left and the reply is multipart |
| RangeReply.Answer | src/get.c:259-350 | From a Range line or none, through parse and fixup on linked nodes, to the socket: there is a range reply exactly if the line is read, a range is satisfiable and the header fits; the client has a prefix of exactly that reply, and on release, where every block has room, all of it exactly if it ended DONE with nothing buffered |
| RangeReply.AnswerWilling | src/get.c:259-350 | A willing client and a file that keeps its bytes: where every block has room (see UsuallyRoomy), exactly the bytes the line asks for arrive |
| RangeReply.Respond | src/get.c:259-350 | The reply set up from the line: its stream is the 200 header and the whole file, or the 206 header and the satisfiable ranges in order; none exactly for a 416 or a header that does not fit |
| RangeReply.Settle | src/get.c:266-340 | Parsed and fixed up, or replaced by the default range exactly when none is listed |
| RangeReply.AnsweredAsMeant | src/range.c:119-376 | A printed line without a suffix as long as the file is answered with the ranges RFC 2616 says it means |
| RangeReply.OneRangeAnswered | src/range.c:119-376 | bytes=a-b of a longer file is answered with the bytes a to b, of a shorter one with those from a to its end |
| RangeReply.WholeAnswered | src/get.c:314-321 | Without a Range line, or with one that lists nothing, the whole file follows the 200 header |
| RangeReply.LengthIsTrue | src/response.c:256-285 | The Content-Length announced for a single range is the number of bytes that follow the header |
| RangeReply.UsuallyRoomy | src/pipe.c:280-285 | No block can be lost with a content type line of at most 172 bytes on a GET, or with a single range; on a multipart HEAD exactly if the reply fits the buffer |
| RangeSpecs.AutomatonIsReference | src/range.c:241-376 | The table automaton accepts exactly the headers the recursive-descent reading of the grammar accepts, with the same ranges in the same order |
| RangeSpecs.PrintedListIsRead | src/range.c:241-376 | Printing any list of specs with numbers below the marker and reading it back gives the list |
| RangeSpecs.HeaderMeansWhatItSays | src/range.c:119-229 | From text to bytes: for suffixes shorter than the file, parse and fixup yield the satisfiable RFC meanings of the specs, in order |
| RangeSpecs.FixIsMeaning | src/range.c:156-191 | The fixup gives a spec its RFC meaning exactly unless it is a suffix at least as long as the file |
| RangeSpecs.LongSuffixLosesAByte | src/range.c:156-180 | Every suffix at least as long as the file: the RFC means the whole file, the code leaves out its first byte and so refuses the range on a file of one byte |
| RangeSpecs.AllSubmitted | src/range.c:241-376 | A text read to its end has submitted exactly the ranges it lists |
| RangeSpecs.FixedAreInside | src/range.c:119-229 | Every surviving range has start <= stop < filesize, and none is added |
| RangeSpecs.FixAllConcat | src/range.c:119-229 | The fixup works range by range: it commutes with concatenation |
| RangeLists.RangeState.Parse | src/range.c:241-376 | On the linked list: a well-formed header appends its ranges in order, a malformed one leaves the single flagged range, a foreign unit changes nothing; numranges grows by the ranges submitted, before an abort too; no node is lost |
| RangeLists.RangeState.Fixup | src/range.c:119-229 | The list becomes the fixed-up ranges in order, dropped nodes go to the pool, no node is lost, false exactly when nothing is left |
| RangeLists.RangeState.FixNode | src/range.c:156-191 | The in-place rewriting of one node computes the fixup of one range |
| RangeLists.RangeState.DropRange | src/range.c:191-203 | Splicing a node out, at the head or inside, keeps both lists acyclic and disjoint |
| RangeLists.RangeState.KeepRange | src/range.c:212-216 | Keeping a node links it behind those already kept |
| RangeLists.RangeState.Add | src/range.c:90-113 | The range is appended behind the last one, on a pooled or a new node |
| RangeLists.RangeState.Abort | src/range.c:80-88 | The list is replaced by one flagged node; every old node is in the pool |
| RangeLists.RangeState.Reset | src/range.c:33-45 | All listed nodes return to the pool and none is lost |
| RangeLists.RangeState.PoolPop | src/range.c:47-64 | A spare node, cleared, or a new one exactly when the pool is empty |
| RangeLists.RangeState.PoolPush | src/range.c:74-78 | The node becomes the pool's head |
| RangeLists.RangeState.PopFirst | src/response.c:165-168 | The first range leaves the list, its node returns to the pool |
| RangeLists.RangeState.Listed | src/range.c:119-229 | Following the nodes reads off what the list holds |
| HeaderReader.Reader.Converse | src/read.c:39-289 | However the socket cuts the stream: the bytes taken, where the current request starts, the headers handed over, whether it is closed and whether the last read blocked are those of driving the one-pass judge over the arrivals; the headers are the first of those a reading of all bytes received finds, and all of them once it is closed or has scanned everything |
| HeaderReader.Reader.ReadHeader | src/read.c:39-289 | The outcome of one call is exactly what a one-pass judge of the bytes at hand and the one read say: refused, complete, simple, more, blocked or closed; the lines delivered are the header's, and the read takes no more than fits |
| HeaderReader.Reader.ScanBuffered | src/read.c:45-217 | The six-state scan ends exactly as the one-pass judge of the bytes at hand does: on completion with the header's lines and length, with a close exactly on an illegal byte, a line of 1024 or more or a refused one, otherwise with everything scanned |
| HeaderReader.Reader.DeliverLine | src/read.c:117-144 | A NUL stands where the carriage returns before the line feed start and no byte outside the line changes; what the handler finds up to the first NUL is the stripped line; a line of 1024 or more or a refused one closes the connection, and nothing else does |
| HeaderReader.Reader.ReadMore | src/read.c:225-287 | A read appends exactly what came, up to the room left; the connection closes exactly on a full buffer, an error or the end of the stream |
| HeaderReader.Reader.Sanitize | src/request.c:260-296 | Keep-alive compaction: unread bytes move to the front unchanged and the scanner starts over on them |
| HeaderReader.StatusStep | src/read.c:70-107 | The scanner's state is a function of the unfinished line: its length and its trailing carriage returns |
| HeaderReader.ScanIsReference | src/read.c:45-217 | The scanner's state mid-header agrees with the one-pass reading of the bytes scanned |
| HeaderLines.HeaderOfJoin | src/read.c:45-217 | Reading a text that starts with given raw lines yields their stripped forms first |
| HeaderLines.HeaderExtends | src/read.c:45-217 | Bytes behind a complete header do not change it |
| HeaderLines.RequestsSnoc | src/request.c:260-296 | Another complete header behind fully consumed bytes adds exactly its lines |
| HeaderReader.Reader.Terminate | src/read.c:117-118 | A NUL at the end of the stripped line; every other byte is unchanged |
| HeaderReader.Reader.CString | src/read.c:117-144 | What a handler reads from a place on is what stands before the first NUL |
| HeaderReader.DriveClosed | src/read.c:39-289 | A closed connection takes nothing more |
| HeaderReader.UpToFirst | src/read.c:117-144 | A C string ends at the first NUL |
| HeaderReader.Reader.Turn | src/read.c:39-289 | One call with its keep-alive continuation: its outcome, the bytes taken, the header handed over and where the next request starts are what the one-pass judge of the bytes at hand and the arrival say |
| HeaderReader.SameBytesSameHeaders | src/read.c:39-289 | Two connections, each driven by its own arrivals, that received the same bytes, however cut, and scanned them hand over the same headers; more bytes never take one back |
| HeaderFates.FateOfJoin | src/read.c:45-217 | Accepted raw lines in front of a text are judged first and shift its fate |
| HeaderFates.FateExtends | src/read.c:45-217 | Once the bytes at hand decide (ended, refused or simple), later bytes change nothing |
| HeaderFates.FateIsHeader | src/read.c:45-217 | Judging agrees with the one-pass reading as long as nothing is refused |
| HeaderFates.ConversationConcat | src/request.c:260-296 | A stream cut behind fully consumed requests reads as its two halves do |
| HeaderFates.ConversationGrows | src/read.c:39-289 | More bytes never take a header back |
| HeaderFates.ConversationIsRequests | src/request.c:260-296 | The headers of a judged conversation are the first of the one-pass reading, and all of it while nothing is refused |
| BodySpool.AnnouncedLength | src/read.c:181-213 | A POST is accepted exactly if Content-Length is a canonical numeral within int and the configured limit |
| BodySpool.Spool.constructor | src/read.c:157-207 | Bytes read with the header are the start of the body, cut at the announced length |
| BodySpool.Spool.Run | src/read.c:310-430 | Any interleaving of reads and writes ends where driving the two steps over the outcomes ends: the file holds a prefix of the body, no byte past the length is read from the socket, and the CGI starts only on exactly that many bytes |
| BodySpool.Spool.RunWilling | src/read.c:310-430 | A client that keeps sending and a file that keeps accepting bring the CGI up with the whole body |
| BodySpool.Spool.WriteBody | src/read.c:368-430 | The file takes exactly the bytes the write took, from the front of those pending; with nothing pending the CGI starts exactly at the announced length; which of -1, 0 and 1 is returned |
| BodySpool.Spool.ReadBody | src/read.c:310-356 | Takes from an arrival exactly what is missing, what the buffer holds and what came allow, and spools nothing itself; which of -1, 0 and 1 is returned |
| RequestQueues.Queue.Enqueue | src/queue.c:136-145 | The request becomes the head of a list that stays well linked both ways |
| RequestQueues.Queue.Dequeue | src/queue.c:116-128 | The request is unlinked wherever it stands, the others keep their order, and its own links are cleared |
| RequestQueues.Queue.Unlink | src/queue.c:118-124 | The two links around a request are joined at the head, in the middle and at the end |
| RequestQueues.LinkedSplit | src/queue.c:116-128 | A list cut at a member: both links of the member and both halves |
| Scheduler.Loop.Run | src/poll.c:33-147 | The loop's invariant holds after any number of rounds with any outcomes, and the states between the rounds form a course in which each follows from the one before as Follows prescribes; the run stops early exactly where the server's next slot would lie outside the poll array, which takes as many interrupted rounds in a row as there are slots not in use |
| Scheduler.InsideIff | src/poll.c:88-112 | k interrupted polls in a row stay inside the poll array if and only if the server is not watched or the slots in use plus k are at most its length |
| Scheduler.Loop.Interrupt | src/poll.c:88-112 | Under that condition k interrupted rounds take one slot each exactly if the server is watched, and change nothing else |
| Scheduler.InterruptedTooOften | src/poll.c:88-112 | A reachable state in which the next slot lies outside the array |
| Scheduler.Loop.Watch | src/poll.c:88-98 | The server takes a slot behind the others exactly if another connection may be taken |
| Scheduler.Loop.Guarantees | src/request.c:244-257 | What the invariant says: every request ever allocated is on exactly one list once; at most max_connections + 1 are ready or blocked; each blocked one owns a distinct slot below pfd_len holding what it waits for; none has answered more than ka_max requests before its current one |
| Scheduler.Loop.Iterate | src/poll.c:48-146 | A round leads from one state to the next as Follows prescribes: unless interrupted, every request that was ready and every blocked one something happened to has exactly one turn on record, in list order, found as the poll left it, and is then on the list its turn takes it to, plus at most one new connection; an interrupted one changes only the poll array, by exactly one slot if the server is watched |
| Scheduler.Loop.ProcessRequests | src/request.c:465-604 | A pass terminates and puts exactly one turn on record for each request on the ready list at its start, in order, with the outcomes of the schedule and what the switch returns for them; at most one more, let in first, has one too; afterwards each is on the list its turn takes it to |
| Scheduler.Loop.Walk | src/request.c:477-604 | The walk puts one turn on record for each node in order, although handlers move the current node away and accepts push new heads, and leaves each request on the list its turn takes it to |
| Scheduler.Loop.Step | src/request.c:479-604 | A turn goes on record, the request ends on the list it calls for, the other ready requests look as before and the blocked ones stay blocked; the next request is the one that followed, wherever the current one and newcomers went |
| Scheduler.Loop.Dispatch | src/request.c:579-602 | Blocked requests go to the blocked list; complete ones stay, are kept alive or are closed exactly by what is left, the status, keep-alive and quota; unknown results mark the request dead |
| Scheduler.PlaceIs | src/request.c:305-329 | The list a turn takes a request to, read off its fields: by the return value, by what one more flush leaves and by its claim to be kept alive |
| Scheduler.Handle | src/request.c:480-567 | What a turn returns and leaves is a function of what the request looks like and of the outcomes: the handler runs only after a flush that neither blocked nor failed; DONE completes only with an empty buffer; TIMED_OUT and DEAD complete and lose keep-alive |
| Scheduler.Flush | src/buffer.c:242-286 | As the scheduler sees it: -2 exactly for dead or failed, -1 exactly for blocked, otherwise what remains, and the marks exactly as the write left them |
| Scheduler.Loop.FreeRequest | src/request.c:305-453 | Exactly when a finished request stays to flush, goes back to the blocked list or is closed, with the lists, the count, the slot and the quota in each case |
| Scheduler.Loop.KeepAlive | src/request.c:396-407 | A kept-alive connection loses one from its quota and waits for input in a fresh slot |
| Scheduler.LastFlush | src/request.c:311-329 | The request stays exactly if a partial write leaves bytes; otherwise its claim to keep-alive survives exactly if the write did not fail |
| Scheduler.Loop.GetRequest | src/request.c:81-258 | A connection is taken exactly if accepted, given a request and prepared; it becomes the head of the ready list with a full quota; the one too many is answered 503 and stops accepting; the count stays within max_connections + 1 |
| Scheduler.Loop.NewRequest | src/request.c:53-72 | The head of the free list or a new allocation, cleared; none exactly if the list is empty and memory is out |
| Scheduler.Loop.BlockRequest | src/queue.c:36-68 | The request moves to the blocked list and takes the next slot, which holds the descriptor and direction its status and buffer require |
| Scheduler.Loop.Wait | src/queue.c:41-67 | The switch fills the slot with what a request waits for: out while anything is to be sent, on the client's descriptor unless a body moves with an empty buffer |
| Scheduler.Loop.ReadyRequest | src/queue.c:76-107 | The request moves from the blocked to the ready list |
| Scheduler.Loop.UpdateBlocked | src/poll.c:165-209 | The list is split by what the poll showed: those that stay keep their order and own the slots 0.. of the other array, the rest are ready in reverse order; each has exactly the status its error or timeout calls for, and the ready ones are untouched |
| Scheduler.Loop.Visit | src/poll.c:172-208 | One blocked request: its status is settled by error, timeout and keep-alive timeout, and it stays or wakes |
| Scheduler.Loop.Unblock | src/poll.c:131-142 | After the swap the poll array holds exactly the blocked requests' slots |
| Scheduler.Loop.PollOnce | src/poll.c:88-129 | The server's slot never displaces a blocked request's; a connection is accepted in this round exactly if the server was watched, which is below max_connections, and reported ready; an interrupted poll leaves one more slot in use exactly if the server was watched, and accepts none |
| Scheduler.SortedAll | src/poll.c:165-209 | The two lists of the split hold every request exactly as often as the requests gone through do: none is lost and none doubled |
| MmapCache.Cache.Find | src/mmap_cache.c:36-119 | A handle on the probed slot: shared if it holds the file, mapped anew exactly if the cache has room and mmap succeeds, otherwise none and no change |
| MmapCache.Cache.Search | src/mmap_cache.c:42-70 | Probing always ends at a match or a free slot, so the full-table branch is unreachable |
| MmapCache.Cache.Release | src/mmap_cache.c:121-135 | The last handle undoes the mapping, others only count down, a stale handle is ignored |
| MmapCache.ProbeIsFirst | src/mmap_cache.c:42-70 | All slots the probe passes are live and hold other files, whatever was freed in between |
| MmapCache.UnmappedExactlyOnce | src/mmap_cache.c:121-135 | In every reachable state a mapping was undone at most once and never while a live slot owns it |
| MmapCache.OwnersDiffer | src/mmap_cache.c:36-135 | No two live slots own the same mapping |
| MmapCache.OwnedIffPending | src/mmap_cache.c:36-135 | A mapping is owned by exactly one live slot if and only if it was made and not yet undone |
| AliasTable.Table.Find | src/alias.c:159-216 | The bucket's first match is the first match of a scan of all aliases in configuration order, exactly unless the alias "/" is first and the URI hashes elsewhere |
| AliasTable.Table.FindWithoutRoot | src/alias.c:159-216 | Without an alias "/" the table answers like the scan for every URI |
| AliasTable.Table.Add | src/alias.c:81-147 | The alias is appended unless an entry before the last has its name; either way the table keeps answering like the scan |
| AliasTable.Table.Repetition | src/alias.c:106-124 | A repeated name finds nothing its first occurrence does not |
| AliasTable.HashValue | src/alias.c:53-72 | The hash is the sum of the first segment's characters modulo the table size, computed by the loop |
| AliasTable.MatchHashesAlike | src/alias.c:53-72 | An alias other than "/" hashes like every URI it matches |
| AliasTable.BucketFirst | src/alias.c:159-216 | Looking in one bucket finds what looking everywhere finds, if that hashes there |
| AliasTable.RootAliasIsMissed | src/alias.c:53-72 | A configuration with one alias and a URI on which table and scan differ |
| UriText.Bitmap.constructor | src/escape.c:46-80 | The bitmap decides membership in the safe set for all 128 codes and escapes every other octet |
| UriText.SpecialIsSafe | src/escape.c:46-80 | The listed characters are the unreserved ones of RFC 3986, section 2.3, and the server's own additions |
| UriText.DecodeUndoesEscape | src/buffer.c:307-335 | unescape_uri undoes escape_string on printable text exactly when it has no question mark |
| UriText.DecodeUndoesHttpEscape | src/index_dir.c:118-153 | unescape_uri undoes http_escape_string on all printable text, up to the "./" a later colon adds |
| UriText.HttpEscapeFits | src/index_dir.c:118-153 | The escaped name never exceeds three times the name, the "./" included |
| UriText.EscapeString | src/buffer.c:307-335 | Writes the escaped text and a NUL within 3n + 1 bytes |
| UriText.HttpEscapeString | src/index_dir.c:118-153 | The loop with its mid-way shift writes the escaped name, with "./" in front exactly if a colon stands behind the first character |
| UriText.WriteEscaped | src/buffer.c:75-116 | All of the text is appended exactly if its last character was reached with three bytes free; otherwise an escaped prefix was |
| UriText.UnescapeUri | src/util.c:401-451 | Decoding in place yields the decoded path, refuses exactly the malformed and unprintable, and leaves the raw query and its NUL where they were received |
| PathClean.CleanPathname | src/util.c:45-69 | The in-place loop yields the cleaned path and leaves everything behind the old NUL alone |
| PathClean.CleanIsBySegments | src/util.c:45-69 | Cleaning is: split at slashes, drop interior segments that are empty, "." or "..", rejoin |
| PathClean.CleanTwice | src/util.c:45-69 | Cleaning is idempotent and never lengthens a path |
| PathClean.NoIdleInside | src/util.c:45-69 | Between the first and last segment of a cleaned path there is no empty, "." or ".." segment |
| PathClean.SkipDropsLeading | src/util.c:51-64 | The inner loop behind a slash drops exactly the leading idle segments |
| PathClean.DecodeAndClean | src/request.c:823-832 | Decoding then cleaning in one buffer: the cleaned decoded path in front, and the query still the raw text behind the question mark with its NUL |
| HtmlText.ShownIsOriginal | src/index_dir.c:52-103 | Read as HTML, the escaped text is the original |
| HtmlText.EscapedIsHarmless | src/index_dir.c:52-103 | Escaped text holds no character that opens a tag or closes an attribute |
| HtmlText.EscapeString | src/index_dir.c:52-103 | Six bytes a character and one for the NUL are always enough |
| HtmlText.WriteEscaped | src/buffer.c:125-195 | All of the text is appended exactly if its last character was reached with six bytes free; otherwise an escaped prefix was |
| Numerals.SimpleItoa | src/util.c:505-521 | Filling the scratch buffer backwards yields the canonical decimal numeral |
| Numerals.BoaAtoi | src/util.c:527-544 | Accepts exactly the canonical numerals within int, and returns their value |
| Numerals.RoundTrip | src/util.c:527-544 | If converting back agrees as far as the text goes, the text was the canonical numeral |
| Numerals.CanonicalIsDecimal | src/util.c:505-521 | Digit strings without a leading zero are exactly the numerals |
| XmlBuf.Buffer.Run | lib/libxml2/buf.c:353-953 | Any run of add, add-head, shrink, erase, empty, grow and resize refines the same operations on a byte sequence, under every policy, with or without a block; it stops exactly at an operation whose allocation is refused or at an erasure of nothing that no operation giving a block precedes; the NUL is there exactly unless the block is still blank; an obliging allocator with sizes in range takes it to the end |
| XmlBuf.Buffer.OpGranted | lib/libxml2/buf.c:731-830 | An allocation granted within int is never the cause of a failed operation |
| XmlBuf.Buffer.Step | lib/libxml2/buf.c:353-953 | One operation fails exactly if it had failed before or its allocation is refused, writes through null exactly if it erases nothing without a block, and otherwise has the effect on the sequence |
| XmlBuf.Buffer.MakeRoom | lib/libxml2/buf.c:868-877 | Room for n more bytes exactly unless the allocation it needs is refused |
| XmlBuf.Buffer.AppendAll | lib/libxml2/buf.c:845-881 | Under doubling, resizing copies over any run no more bytes than the size grows by, and the size stays below twice the largest request; the strings before the first refused allocation are appended, all of them if there is none |
| XmlBuf.Buffer.Resize | lib/libxml2/buf.c:731-830 | The contents survive, the new size is the policy's and holds the request; it fails exactly if the policy has no size or the block is refused, and then changes nothing |
| XmlBuf.Buffer.NewBlock | lib/libxml2/buf.c:784-825 | The new block keeps everything up to the end of the contents, and is missing exactly if refused; in IO mode the branch that moves the contents back instead is unreachable |
| XmlBuf.Buffer.GrowInternal | lib/libxml2/buf.c:435-482 | On success the free space exceeds the request and is what is returned; 0 exactly if the block it needs is refused or an error came before |
| XmlBuf.Buffer.AddBytes | lib/libxml2/buf.c:845-881 | Appends all bytes, or none exactly if the block it needs is refused or an error came before |
| XmlBuf.Buffer.Add | lib/libxml2/buf.c:845-881 | A length of -1 means up to the NUL, a smaller one is refused, otherwise that many bytes are appended unless the block needed is refused |
| XmlBuf.Buffer.AddHead | lib/libxml2/buf.c:896-953 | Prepends all bytes, by sliding the window down or by moving the contents up, or none exactly if the block it needs is refused; sliding never fails |
| XmlBuf.Buffer.Shrink | lib/libxml2/buf.c:386-421 | Drops bytes from the front by moving or by sliding, with the compaction of a far window |
| XmlBuf.Buffer.MoveToBase | lib/libxml2/buf.c:406-414 | The compaction moves the contents to the base of the block unchanged |
| XmlBuf.Buffer.Erase | lib/libxml2/buf.c:632-642 | Drops bytes from the end exactly if there are that many; without a block, erasing nothing writes through a null pointer |
| XmlBuf.Buffer.Empty | lib/libxml2/buf.c:353-371 | Empties the contents and slides the window back |
| XmlBuf.ChooseSize | lib/libxml2/buf.c:747-782 | The policy's size, computed by the doubling loop with its overflow check |
| XmlBuf.Buffer.SetScheme | lib/libxml2/buf.c:287-317 | IO mode is entered for good; the contents are not touched |
| XmlBuf.Buffer.CreateSize | lib/libxml2/buf.c:155-182 | An empty terminated buffer of the size plus two, without a block exactly for size zero, or none without memory |
| XmlBuf.BlindErase | lib/libxml2/buf.c:632-642 | A buffer without a block from which nothing is erased |
| XmlBuf.MissingNul | lib/libxml2/buf.c:435-482 | A buffer without a block that is grown: terminated exactly if the allocator left a NUL |
| XmlBuf.GroundedIsMarked | lib/libxml2/buf.c:784-825 | When the first block comes with contents it is never blank |
| XmlBuf.ErasedSettled | lib/libxml2/buf.c:632-642 | Whether anything is erased from a missing block is settled by the first operation that would give one |
| XmlBuf.Buffer.constructor | lib/libxml2/buf.c:121-182 | A new buffer stands for the empty sequence |
| XmlBuf.Buffer.WriteQuoted | lib/libxml2/buf.c:1070-1112 | Appends the string as a literal: in double quotes, or single ones if only double occur, or with the double ones replaced; an obliging allocator and sizes in range make it succeed |
| XmlBuf.Buffer.AddChar | lib/libxml2/buf.c:986-1012 | A one-character string is appended and terminated, or nothing happens, exactly if the block it needs is refused or an error came before |
| XmlBuf.QuotedIsLiteral | lib/libxml2/buf.c:1070-1112 | The literal opens and closes with one kind of quote and holds none of it inside |
| XmlBuf.NewSizeSuffices | lib/libxml2/buf.c:747-782 | A granted size holds the request exactly unless the exact policy's margin wraps |
| XmlBuf.DoublingIsGeometric | lib/libxml2/buf.c:748-760 | Doubling at least doubles and stays below twice the request |
| LineDiff.Generate | php/run-tests.php:2190-2255 | The reported lines are those a complete walk passes alone, each once and in order on its side; applied to the wanted lines they give the output |
| LineDiff.WalkBoth | php/run-tests.php:2190-2220 | The two-index walk, whatever the lookahead returns, reports each skipped line once |
| LineDiff.Merge | php/run-tests.php:2222-2244 | The interleaving keeps each side's lines, each once and in order |
| LineDiff.RewrittenIsOutput | php/run-tests.php:2190-2255 | With equality as the line test, the rewritten lines are the output lines |
| LineDiff.DropMissingAlong | php/run-tests.php:2190-2255 | Removing the '-' lines leaves the wanted lines the walk matched |
| LineDiff.PutExtraAlong | php/run-tests.php:2190-2255 | Inserting the '+' lines at their numbers rebuilds the rewritten lines |
| LineDiff.CountDiff | php/run-tests.php:2148-2188 | Terminates and returns the length of an actual common subsequence of the two suffixes, so never more than the longest |
| LineDiff.LcsBounds | php/run-tests.php:2148-2188 | No common subsequence is longer than the reference length |
| LineDiff.LcsAttained | php/run-tests.php:2148-2188 | Some common subsequence has the reference length |

## Left out

- Real sockets, `poll`, `stat`, `mmap`, CGI start, the PHP runtime, logging, clocks and the date, server and connection lines of response headers: their outcomes are parameters.
- `process_get` in src/get.c and the CGI pipe writers, which write past the output buffer; `io_shuffle_sendfile`; compression filters (`req->filter`); the copy of mapped bytes in src/get.c:363-399.
- SIGTERM and SIGHUP handling in src/poll.c:60-86, the exit on an error of the server socket, and src/select.c, which repeats the poll loop.
- Retries of a call interrupted by a signal are folded into the call's outcome, except the poll's.
- Files of 2^31 bytes or more, and a file that changes while it is sent.
- ReplyStream.Reply.Serve: the count `bytes_written` kept for the log is only bounded by what was sent, because the code counts the drain's bytes and not those of a flush.
- ReplyStream.Reply.ServeWilling: a HEAD's first part is completed by `init_get` before any flush, which is the case of a first flush that moves nothing; that a GET whose part heads do not fit can lose one to some client is not shown; for HEAD it is.
- RangeLists.RangeState.Parse: one request's list beside the pool; the lists of other requests, which share no node with either, are not in view.
- RangeReply.Respond: an empty file, which `init_get` answers before it looks at the ranges, and the reply body of a 416; a list that was flagged by an earlier Range line does not come back, because the request ends there.
- HeaderReader.Reader.Converse: keep-alive after a POST, whose body bytes `parse_pos` does not count, is not modelled; the judgement of a line and the handlers' edits inside their own line are parameters.
- HeaderReader.Reader.DeliverLine: the HTTP/0.9 request is an outcome, its reply is not modelled.
- Scheduler.Loop.Run: handlers, flushes and accepts are arbitrary outcomes here; what they do to one request's bytes is in the other modules. Configuration changes at run time are left out, and a new connection's bytes of the 503 reply are only counted.
- Scheduler.Loop.FreeRequest: closing of descriptors, freeing of strings, releasing of ranges and mappings and the log entry are not repeated here.
- XmlBuf.Buffer.Run: `size_t` is wide enough for every sum; requests stop short of the last sixteen values of `int`; a block above INT_MAX bytes is always refused.
- XmlBuf.Buffer.AddChar: longer strings through `xmlBufCCat`, whose loop advances `use` without the mirror `xmlBufResize` reads back, do not refine appending.
- `xmlBufAddLen`, `xmlBufDetach`, static and immutable buffers, and the rest of libxml2.
- LineDiff.Generate: the padding and numbering of reported lines by `sprintf`, and the shift of the merged list's keys, are not modelled.
- AliasTable.Table.Add: the branch that aborts on an empty name is a requirement on the caller.
- UriText.EscapeString: the buffer is given; the allocation when none is passed is not modelled, and neither is it in the two directory-index escapers.
- Configuration parsing, MIME tables, directory listings, dates, descriptor passing and the other test harness code.
