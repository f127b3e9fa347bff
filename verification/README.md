# A verified model of http-user-filesystem

The system mounts a remote directory over HTTP. A C client cuts reads and writes into chunks of one MiB, each with a
sparse MD5 checksum; a multi-threaded C server checks, stores, reads back and re-checks them. This project models the
parts of it that are hard to get right and proves what they promise. `dafny verify dfyconfig.toml` checks all of it.

| module | what it models | main results |
|---|---|---|
| `Md5Compression` | the hand-unrolled `md5_transform` | equals the 64-step loop of section 3.4 of RFC 1321 for every state and block |
| `Md5Stream` | `md5_init`, `md5_update`, `md5_final` in place, over any compression | however the message is cut, the context is the fold over its whole blocks plus the rest, even when the 64-bit counter wraps; the result is the padded digest |
| `SparseMd5`, `Md5Suite` | sampling every tenth absolute offset, hashing byte by byte, hex text; the test suite of RFC 1321 | equals the RFC digest of the collected sample; samples split over chunks; the digests of section A.5 come out |
| `Files`, `Transfer` | `pwrite_full`, `pread_full`, `handle_write`, `handle_read`, the client's two loops | chunked write refines one write; what a write leaves behind when requests, bodies or answers are lost or spoilt is stated exactly, and so is what a chunked read returns |
| `Integrity` | the same with bytes altered in transit or on disk | what an accepted write leaves on the disk, and what an accepted read returns, is right at every sampled offset, barring collisions; exactly when a write and a read are accepted |
| `DisjointWriters` | any number of chunked writers, one system call at a time | every interleaving of writers of disjoint ranges verifies and ends in the same file; an overlap that is noticed |
| `PendingQueue`, `Handoff` | the linked queue, the wake pipe, acceptor and workers | no lost wake-up, conservation and order of connections in every run; connections go round the workers; a pending connection is taken in every schedule |
| `Framing`, `Connections` | the receive loop and its growing buffer | what becomes of any stream with a header, however it is fragmented: dispatched, too large, invalid, waiting or closed, each with its exact condition; the buffer stays in bounds |
| `RequestParser`, `RequestText` | the second parser and requests written line by line | exactly when the two parsers agree; what header lines mean |
| `Arrivals` | a client's call, its request in any fragments, the handler's reading of it | the handler reads the call that the client made, or refuses it |
| `JsonBody`, `Requests`, `JsonStrings` | JSON bodies, escaped by the client, searched and unescaped by the server | bodies are unambiguous; numbers exact, strings exact or rejected; both sides against the strings of RFC 8259 |
| `Query` | percent-encoded queries | round trip for every endpoint that fits; exactly what any query text decodes to |
| `Paths` | `resolve_path` | exactly which paths are accepted, and that they stay under the root |
| `JsonTree`, `Jsmn`, `JsonTexts`, `TokenSearch` | the tokenizer and the searches over its tokens | exactly the texts that spell values are accepted, each in one way, every text of RFC 8259 among them, and the tokens are the flattening; how many tokens any text takes; searching them is looking up in the tree, and exactly when the search leaves the tokens |
| `Listing`, `ListReply`, `ErrorReply` | `handle_list`, `send_error_json` and `httpfs_list_dir` | what the client makes of any response; it ends up with the whole directory exactly when it has at most 101 entries that fit, and with the number and message of any error |

System calls, the network and the scheduler are finite scripts of outcomes or sequences of steps that the theorems
quantify over: short transfers, `EINTR`, failures, lost requests and answers, any split of a byte stream, any
interleaving. A script that is used up means that everything asked for is transferred, so every run that ends is a run
of some script. Descriptors are replaced by fresh identifiers. Text is a sequence of characters that stand for bytes; a
C string is a text without NUL.

## Findings

* `handle_read` calls `pread` once. If the kernel transfers less than it was asked for, the client takes the short
  answer for the end of the file and reports success with fewer bytes. `Transfer.ReadReturnsExactly` says what is
  returned for every sequence of outcomes, `Transfer.ReadIsComplete` when that is all, and `Transfer.ShortRead` is an
  instance: two bytes asked for, success with one.
* A `Content-Length:` inside the request line is believed by the incremental check and skipped by the second parser,
  which takes the first one after the request line instead, be it in the header or in the body.
  `RequestParser.ParsedExactly` says when a complete request is then answered with "request body truncated";
  `RequestText.OddLineTruncates` and `RequestText.OddBodyTruncates` are two families of such requests.
* `json_escape_string` emits `\b`, `\f` and `\uXXXX`, which `json_get_string` rejects. `JsonBody.TextRecovered` states
  exactly which strings arrive.
* `parse_ok_response` allows 512 tokens and an entry takes five, so a directory with more than 101 entries, of which two
  are `.` and `..`, cannot be listed although the callers offer room for 512 (`ListReply.ListingReceived`). Names that
  need escaping are listed in escaped form (`ListReply.NameIsExact`).
* `parse_ok_response` allows 512 tokens also to callers whose arrays have 128 or 256, and the tokenizer stores tokens
  before it knows whether the text is well formed. Such an array is overrun exactly if the response, whatever text it
  is, needs more tokens than the array has (`Listing.CallerArraySuffices`): those of its values if it spells any, and
  one for each bracket of a row of opening brackets, so that 129 of them are too many
  (`Listing.CallerArrayInstances`).
* `find_object_value` skips what follows a key without looking whether anything does. In an object that ends in a key
  without a value, at the end of the document, it reads one token more than there are, exactly if no key matches
  (`TokenSearch.StraysExactly`; `Listing.LoneKeyStrays` is an instance). A response with the status "error" is searched
  for a number and a message too, so one that ends in a lone key and lacks either is such a document
  (`Listing.ErrorStraysExactly`, `Listing.LoneErrorStrays`).
* Nothing but the sampled checksum protects the length of a read answer. An answer that is cut short is taken for the
  end of the file exactly if no sampled byte is lost (`Integrity.CutAnswerTaken`); `Integrity.CutAnswer` is an instance:
  three bytes asked for and served, success with one. Which answers are taken in general is
  `Integrity.AnswerTakenExactly`.
* `resolve_path` accepts `..` as the last component of a path of at least two components (`Paths.AcceptedExactly`); the
  result is then still at or below the root (`Paths.ResolvedStaysUnderRoot`).
* Writers of overlapping ranges can spoil each other's read-back, and then a write that was carried out is answered with
  an error (`DisjointWriters.OverlapIsRejected`).
* `send_error_json` allows an escaped message of 1023 bytes and the client one of 511; a longer one is replaced by the
  client's own (`ErrorReply.ErrorRemotely`).
* docs/http-api.md says at line 11 that file contents are transferred as hexadecimal text, and at lines 128, 146 and
  161 that they are raw bytes. The code sends and receives raw bytes, and the model follows the code.

## Model

| member | source | states |
|---|---|---|
| Md5Compression.ShiftOrRotates | src/hash_utils.c:32-37 | the shift-or of the rotation macro is a left rotation for every shift amount used |
| Md5Compression.FChooses | src/hash_utils.c:27-27 | bit by bit the first auxiliary function is y where x is set and z where not |
| Md5Compression.GChooses | src/hash_utils.c:28-28 | the second chooses by z |
| Md5Compression.HIsParity | src/hash_utils.c:29-29 | the third is the parity of the three bits |
| Md5Compression.IFlips | src/hash_utils.c:30-30 | the fourth is y, flipped exactly where x is set or z is not |
| Md5Compression.UnrolledSteps | src/hash_utils.c:52-118 | the 64 hand-written steps, registers renamed by hand, compute the loop of RFC 1321 with schedules i, 5i+1, 3i+5, 7i mod 16 and rotating registers |
| Md5Compression.LoopStepsCompose | src/hash_utils.c:52-118 | running the loop over a range in two parts is running it once |
| Md5Compression.MacroCompressesAsRfc | src/hash_utils.c:27-124 | compression with the program's macros equals compression with the rotations of RFC 1321 |
| Md5Compression.WordHolds | src/hash_utils.c:47-50 | a block word holds its four bytes from the low-order end up |
| Md5Compression.Transform | src/hash_utils.c:39-124 | md5_transform leaves in the state array the RFC compression of the block |
| Md5Stream.FoldAppend | src/hash_utils.c:134-149 | folding whole blocks and then more input is folding all of it |
| Md5Stream.PadLength | src/hash_utils.c:151-163 | the padding is the only length from 1 to 64 that brings the message to 56 modulo 64 |
| Md5Stream.LengthValue | src/hash_utils.c:158-165 | the eight length bytes spell the length in bits modulo 2^64, low-order byte first |
| Md5Stream.IndexFromCounter | src/hash_utils.c:134-136 | the buffer index computed from the wrapped bit counter is the message length modulo 64 |
| Md5Stream.CounterAdds | src/hash_utils.c:134-140 | the bit counter modulo 2^64 after an update is that of the longer message |
| Md5Stream.Context.constructor | src/hash_utils.c:126-132 | a fresh context holds the empty message |
| Md5Stream.Context.Update | src/hash_utils.c:134-149 | the context then holds the message followed by the input: state is the fold over whole blocks, buffer prefix the rest, counter its bits modulo 2^64 |
| Md5Stream.Context.Final | src/hash_utils.c:151-173 | yields the digest of the message padded as in sections 3.1 and 3.2 of RFC 1321 |
| SparseMd5.ProgramDigestIsRfc | src/hash_utils.c:126-173 | the program's arithmetic gives the RFC 1321 digest for every message |
| Md5Suite.EmptyDigest | src/hash_utils.c:126-199 | the digest of the empty message is that of section A.5 of RFC 1321 |
| Md5Suite.ADigest | src/hash_utils.c:126-199 | so is that of "a" |
| Md5Suite.AbcDigest | src/hash_utils.c:126-199 | and that of "abc" |
| SparseMd5.BytesOfWord | src/hash_utils.c:167-172 | writing a word out gives the bytes that it was read from |
| SparseMd5.WordOfBytes | src/hash_utils.c:47-50 | and reading them gives the word |
| SparseMd5.Hash | src/hash_utils.c:126-173 | any way of cutting a message into updates gives the RFC 1321 digest of the whole |
| SparseMd5.SampleAppend | src/hash_utils.c:186-190 | the sample of a concatenation is the concatenation of the samples at shifted base offsets |
| SparseMd5.SampleSize | src/hash_utils.c:186-190 | a window of n bytes has at most n/10 + 1 sampled bytes |
| SparseMd5.SampleDetermines | src/hash_utils.c:186-190 | two windows of equal length have equal samples exactly when they agree at every offset divisible by ten |
| SparseMd5.SparseMd5Hex | src/hash_utils.c:175-199 | feeding sampled bytes one at a time gives the hex digest of the collected sample; negative offsets are refused |
| SparseMd5.SampledDigestIsValid | src/hash_utils.c:201-214 | every digest text passes httpfs_is_valid_md5_hex |
| SparseMd5.DigestTextInjective | src/hash_utils.c:193-198 | different digests have different texts |
| Files.WriteAtAppend | demo/service_provider/c/httpfs_server.c:189-207 | writing in two adjacent pieces is writing once, with zero fill past the end |
| Files.WriteIsSplice | demo/service_provider/c/httpfs_server.c:189-207 | a write keeps what is before and after it and fills a gap before it with zeros |
| Files.PwriteHonest | demo/service_provider/c/httpfs_server.c:189-207 | without alterations pwrite_full overwrites the file by exactly the prefix it counts |
| Files.PwriteKeepsBelow | demo/service_provider/c/httpfs_server.c:189-207 | whatever the calls store, nothing before the place written changes |
| Files.PwriteReliable | demo/service_provider/c/httpfs_server.c:189-207 | on a reliable disk all of the buffer is written, through short and interrupted calls |
| Files.PreadHonest | demo/service_provider/c/httpfs_server.c:209-227 | without alterations pread_full returns a prefix of the slice |
| Files.PreadReliable | demo/service_provider/c/httpfs_server.c:209-227 | on a reliable disk it returns all of the slice |
| Files.PwriteEnds | demo/service_provider/c/httpfs_server.c:189-207 | whatever the calls do, pwrite_full ends with an error exactly at a failed call, and short only at a call that wrote nothing |
| Files.PreadEnds | demo/service_provider/c/httpfs_server.c:209-227 | the same for pread_full, which is short also where the file ends |
| Files.Disk.PwriteFull | demo/service_provider/c/httpfs_server.c:189-207 | the loop on the disk is the run these lemmas are about: file, outcomes left, result |
| Files.Disk.PreadFull | demo/service_provider/c/httpfs_server.c:209-227 | the same for reading |
| Transfer.HandleWrite | demo/service_provider/c/httpfs_server.c:598-678 | digest check, write, read-back and re-check as a function of the drive: file, outcomes left and reply |
| Transfer.RefusedUntouched | demo/service_provider/c/httpfs_server.c:598-639 | a request with a negative offset, a bad header, a body whose checksum is not the header's, or a file that cannot be opened is refused and leaves the drive as it was |
| Transfer.ConfirmedExactly | demo/service_provider/c/httpfs_server.c:598-678 | it is confirmed if and only if it is in order, all of the body is written, and as many bytes with the same checksum are read back; the confirmation is that of the body |
| Transfer.SendChunk | src/http_client.c:784-839 | one chunk as a function of the drive and the delivery, with all checks on the reply |
| Transfer.WriteFile | src/http_client.c:764-849 | the client's loop as a function of drive and network; 0 bytes reported on failure |
| Transfer.WriteRefinesOneWrite | src/http_client.c:764-849 | on an honest path success leaves the file that one write leaves, failure one overwritten by a prefix of the buffer |
| Transfer.AcceptedReadBacks | src/http_client.c:764-849 | with any alterations: after success everything the server read back, as its reads gave it, has the buffer's chunk lengths and checksums |
| Transfer.AcceptedWriteIsStored | src/http_client.c:764-849 | with honest reads but altered bodies and pwrites: after success the file itself has the buffer's checksums, chunk by chunk, at the range written |
| Transfer.WriteSucceedsExactly | src/http_client.c:764-849 | on a reliable disk a write succeeds if and only if every body that arrives has its chunk's length and checksum; the file is then that of writing the bodies |
| Transfer.WriteLeavesExactly | src/http_client.c:764-849 | on a reliable disk, whatever becomes of requests, bodies and answers: which bodies are stored and whether the write succeeds |
| Transfer.WriteStopsAtRefusal | src/http_client.c:784-839 | if chunk i is the first that is lost, arrives with another checksum or finds no file, the write fails and the file is that of writing the bodies before it |
| Transfer.NegativeOffsets | src/http_client.c:672-849 | below offset zero nothing is written or read, and whatever was asked for fails |
| Transfer.MatchIsAgreement | src/http_client.c:784-839 | matching bodies are bodies of the right lengths that together agree with the buffer chunk by chunk |
| Transfer.HandleRead | demo/service_provider/c/httpfs_server.c:539-596 | a single pread as a function of the drive: content with its checksum, or an error |
| Transfer.ReadRefused | demo/service_provider/c/httpfs_server.c:559-586 | refused before it reads if out of range or not opened, and afterwards exactly if the pread is interrupted or fails |
| Transfer.ReadFile | src/http_client.c:672-762 | the client's loop as a function of drive and network; no bytes on failure |
| Transfer.ReadReturnsPrefix | src/http_client.c:672-762 | on an honest path a successful read returns a prefix of the slice from offset to end of file or size |
| Transfer.ReadReturnsExactly | src/http_client.c:672-762 | over any network that alters nothing it succeeds if and only if all of it gets through and no call is interrupted or fails, and returns exactly so many bytes as the outcomes of the calls determine |
| Transfer.ReadIsComplete | src/http_client.c:672-762 | it returns the whole slice if and only if all of it gets through and no call is interrupted, fails or is short |
| Transfer.ShortRead | demo/service_provider/c/httpfs_server.c:579-585 | a read of two bytes whose pread transfers one succeeds with one byte |
| Transfer.ReadUndoesWrite | src/http_client.c:672-849 | after a successful write a read of the range returns a prefix of the buffer, and the buffer exactly if all of it gets through and none of the reads left is short |
| Transfer.PlentifulRoundTrip | src/http_client.c:672-849 | on a disk that serves whole chunks a write succeeds and the read returns the buffer |
| Transfer.WriteThenRead | src/http_client.c:672-849 | the same of the two loops run one after the other |
| Integrity.HashBindsSampledBytes | src/http_client.c:798-836 | for any hash without collisions on the chunks, chunk checksums agree exactly when all sampled bytes agree |
| Integrity.ChecksumsBindSampledBytes | src/hash_utils.c:186-190 | the same for sparse MD5: a change at a sampled offset is refused, a length-preserving change elsewhere is accepted |
| Integrity.CheckedWrite | src/http_client.c:764-849 | an accepted write leaves on an honestly read disk the buffer's bytes at every sampled offset; on a reliable disk it is accepted exactly if every body has its chunk's length and sampled bytes |
| Integrity.AcceptedReadIsTrue | src/http_client.c:726-748 | whatever happens to the answers, an accepted read of an honest disk has the file's bytes at every sampled offset |
| Integrity.SampleSame | src/hash_utils.c:186-190 | windows of any two lengths have equal samples exactly when every sampled offset is in both with the same byte or in neither |
| Integrity.AnswerTakenExactly | src/http_client.c:726-748 | an answer that gets through is taken exactly if it is not longer than asked for and has the sampled bytes of what was served, barring a collision |
| Integrity.ReadTakenExactly | src/http_client.c:672-762 | so a whole read returns exactly the answers taken, up to the first that is refused or short, whatever they are altered to and whatever the disk serves |
| Integrity.CheckedRead | src/http_client.c:672-762 | both of the loop: accepted exactly if every answer is taken, with these bytes, and right at every sampled offset |
| Integrity.CutAnswerTaken | src/http_client.c:748-751 | an answer cut short is taken for the end of the file exactly if no sampled byte is lost |
| Integrity.CutRead | src/http_client.c:672-762 | on such an answer the loop succeeds with what is left of it |
| Integrity.CutAnswer | src/http_client.c:672-762 | three bytes asked for and served, one arrives: success with one |
| DisjointWriters.WritesCommute | demo/service_provider/c/httpfs_server.c:189-207 | writes to disjoint ranges commute |
| DisjointWriters.WriteAllGrows | demo/service_provider/c/httpfs_server.c:189-207 | a further piece of one job can be counted with the job, whatever the others wrote since |
| DisjointWriters.StepKeepsInv | demo/service_provider/c/httpfs_server.c:641-672 | every system call of every writer keeps the file equal to the stored parts of all jobs, and no writer is rejected |
| DisjointWriters.DisjointWritersDoNotInterfere | demo/service_provider/c/httpfs_server.c:626-677 | in every interleaving no read-back check fails, and the final file is that of the jobs one after the other |
| DisjointWriters.CheckedExactly | demo/service_provider/c/httpfs_server.c:664-672 | a chunk is rejected exactly if what was read back has another checksum |
| DisjointWriters.OverlapIsRejected | demo/service_provider/c/httpfs_server.c:641-672 | two writers of one byte: the first is rejected if the second overwrites it before the read-back |
| DisjointWriters.EffectiveStepDecreases | src/http_client.c:784-839 | every step that does something shrinks a measure, so runs end |
| DisjointWriters.UnfinishedCanStep | src/http_client.c:784-839 | a run that is not finished can go on |
| PendingQueue.Queue.Enqueue | demo/service_provider/c/httpfs_server.c:970-988 | appends to the sequence that the linked list stands for |
| PendingQueue.Queue.Dequeue | demo/service_provider/c/httpfs_server.c:990-1009 | removes its head, or returns -1 and changes nothing |
| Handoff.StepKeepsWakeups | demo/service_provider/c/httpfs_server.c:970-1028 | a pending connection always has a byte in the pipe, an acceptor about to write one, or a worker about to dequeue; also when the pipe is full |
| Handoff.StepConserves | demo/service_provider/c/httpfs_server.c:1030-1069 | every step keeps each accepted connection in exactly one place |
| Handoff.StepKeepsOrder | demo/service_provider/c/httpfs_server.c:1059-1069 | each worker takes connections in the order of acceptance |
| Handoff.EveryRunKeepsInv | demo/service_provider/c/httpfs_server.c:1168-1191 | all three hold in every reachable state, for any number of workers |
| Handoff.ConnectionsGoRound | demo/service_provider/c/httpfs_server.c:1379-1406 | while none is refused, the j-th connection of worker w of n is connection w + j * n, so no worker gets more than one more than another |
| Handoff.TurnMoves | demo/service_provider/c/httpfs_server.c:1394-1403 | a turn is used up by enqueuing or failing to, not by a connection refused before |
| Handoff.WhereConnectionsGo | demo/service_provider/c/httpfs_server.c:1030-1069 | which steps close a connection and which register it |
| Handoff.PipeMoves | demo/service_provider/c/httpfs_server.c:1021-1028 | only wake_worker adds a byte, only draining takes any, and it ends only when the pipe is empty; a worker dequeues until its queue is empty |
| Handoff.EveryScheduleServes | demo/service_provider/c/httpfs_server.c:1168-1191 | in every schedule of all threads a pending connection is taken once its worker has made a bounded number of steps of progress more than it had setbacks |
| Handoff.CanProgress | demo/service_provider/c/httpfs_server.c:1379-1406 | such a step is always possible, or the acceptor is about to wake the worker |
| Framing.GrowIsCapacity | demo/service_provider/c/httpfs_server.c:229-260 | capacities stay 8192 times a power of two up to 8 MiB; growth suffices and at least doubles |
| Framing.GrowIsLeast | demo/service_provider/c/httpfs_server.c:229-260 | and no smaller capacity would do |
| Framing.WidenedDoubles | demo/service_provider/c/httpfs_server.c:1117-1127 | before a recv a buffer with room stays as it is, and a full one is doubled up to 8 MiB |
| Framing.CheckBounded | demo/service_provider/c/httpfs_server.c:1071-1101 | the check keeps the bounds for any bytes, and header plus body plus one cannot wrap in 64 bits |
| Framing.EveryRunIsBounded | demo/service_provider/c/httpfs_server.c:1107-1166 | in every run on any bytes the received bytes stay below the capacity, which is 8192 doubled up to at most 8 MiB |
| Framing.FreshRunIsBounded | demo/service_provider/c/httpfs_server.c:1030-1057 | so it is for every connection from its start |
| Framing.SameLength | demo/service_provider/c/httpfs_server.c:1081-1090 | the Content-Length read is the same whatever part of the body has arrived |
| Framing.CheckStream | demo/service_provider/c/httpfs_server.c:1071-1101 | the check says More exactly as long as the header or the announced body is not complete, and then Invalid, TooLarge or Complete |
| Framing.HandleStream | demo/service_provider/c/httpfs_server.c:1107-1166 | one event, for any script of recv results: nothing is lost, and dispatched or refused exactly when decided |
| Framing.EveryStream | demo/service_provider/c/httpfs_server.c:1071-1166 | any stream that begins with a header of less than 8 MiB, in any fragments, trailing bytes included: invalid exactly if the length is negative, too large exactly if header, body and terminator exceed 8388608, else dispatched; until then waiting, or closed if recv reports the end or an error |
| Framing.DefiniteIsAnnounced | demo/service_provider/c/httpfs_server.c:1081-1090 | a header whose length field is not blank announces it whatever follows |
| Framing.KernelDecides | demo/service_provider/c/httpfs_server.c:1129-1143 | the end of the stream or an error closes the connection, EAGAIN leaves it as it is, EINTR is no event |
| Framing.FullBufferCloses | demo/service_provider/c/httpfs_server.c:1117-1132 | with 8 MiB less one received and no decision, the connection is closed |
| Framing.FramingIgnoresFragmentation | demo/service_provider/c/httpfs_server.c:1107-1166 | any arrivals, events and splits of a stream with one request dispatch exactly that request |
| Connections.Connection.EnsureCapacity | demo/service_provider/c/httpfs_server.c:229-260 | grows as specified, keeps the received bytes; all copying so far stays below the capacity |
| Connections.Connection.HasCompleteRequest | demo/service_provider/c/httpfs_server.c:1071-1101 | the buffer in place behaves as the check on the received bytes |
| Connections.Connection.HandleClientEvent | demo/service_provider/c/httpfs_server.c:1107-1166 | the receive loop in place refines the model, always with received below capacity |
| RequestParser.LineRoundTrip | demo/service_provider/c/httpfs_server.c:876-895 | method, path and query of a request line come back as they were written |
| RequestParser.RefusedLine | demo/service_provider/c/httpfs_server.c:876-882 | a line is refused exactly if it has no second word, where a word of more than seven characters makes two |
| RequestParser.LongWords | demo/service_provider/c/httpfs_server.c:876-882 | what is left of a method of more than seven characters is read as the URI |
| RequestParser.FoldsExactly | demo/service_provider/c/httpfs_server.c:168-169 | header names are the same exactly if they differ at most in the case of letters |
| RequestParser.FieldRead | demo/service_provider/c/httpfs_server.c:168-183 | a line with the name in any case, a colon and blanks gives exactly the value, or fails if the buffer does not hold it |
| RequestParser.FieldOnly | demo/service_provider/c/httpfs_server.c:168-169 | no other line answers |
| RequestParser.WithoutHeader | demo/service_provider/c/httpfs_server.c:909-913 | without a blank line there is no request |
| RequestParser.ExtractInto | demo/service_provider/c/httpfs_server.c:153-187 | the loop writes in bounds and finds what the specification finds |
| RequestParser.SecondLengthAgrees | demo/service_provider/c/httpfs_server.c:926-931 | the second parser reads the body's exact length |
| RequestParser.ParsedExactly | demo/service_provider/c/httpfs_server.c:897-944 | a complete request is taken for truncated if and only if the first Content-Length after its request line exceeds the body; otherwise line and digest come from the header alone and the body is exact |
| RequestParser.ParsersAgree | demo/service_provider/c/httpfs_server.c:897-944 | so without Content-Length in the request line the truncated branch is unreachable |
| RequestParser.EveryFragmentationMeansTheSame | demo/service_provider/c/httpfs_server.c:897-1166 | every fragmentation is dispatched with the same method, path, query, digest and body |
| RequestText.HeadIsHeader | demo/service_provider/c/httpfs_server.c:909-924 | lines ended by line breaks and a blank line are a header in the sense of both parsers |
| RequestText.AnswerIsFirst | demo/service_provider/c/httpfs_server.c:153-187 | a header value is that of the first line with the name |
| RequestText.AnnouncesLength | demo/service_provider/c/httpfs_server.c:1081-1090 | the length announced is that of the first length line, if no line before mentions one |
| RequestText.OddLineTruncates | demo/service_provider/c/httpfs_server.c:926-941 | with lengths in the request line and, larger, in the header a complete request is taken for truncated |
| RequestText.OddBodyTruncates | demo/service_provider/c/httpfs_server.c:926-941 | so is one with the length in the request line only and a body that begins with a larger one |
| JsonBody.EscapeString | src/json_utils.c:21-80 | writes in bounds, terminates the output, and succeeds exactly when every character finds its room |
| JsonBody.UnescapeOfEscape | demo/service_provider/c/httpfs_server.c:364-403 | unescaping undoes escaping exactly for strings whose only control characters are LF, CR and TAB and that fit |
| JsonBody.NoMatchInText | demo/service_provider/c/httpfs_server.c:357-361 | no key pattern matches inside or across the edge of an escaped string |
| JsonBody.FoundInBody | demo/service_provider/c/httpfs_server.c:352-423 | the first raw match of a key in a body is the real key |
| JsonBody.GetStringInto | demo/service_provider/c/httpfs_server.c:352-404 | json_get_string stays in its buffer and computes its specification |
| JsonBody.NumberRecovered | demo/service_provider/c/httpfs_server.c:406-423 | every number of a body is recovered exactly |
| JsonBody.TextRecovered | demo/service_provider/c/httpfs_server.c:352-404 | every string of a body is recovered exactly or rejected, as its control characters and length decide |
| JsonBody.AbsentKey | demo/service_provider/c/httpfs_server.c:352-423 | a key that a body does not have is not found in it, whatever its strings contain |
| JsonBody.TextIsNoNumber | demo/service_provider/c/httpfs_server.c:406-423 | a string does not pass for a number |
| JsonStrings.EscapeIsStandard | src/json_utils.c:21-80 | what json_escape_string writes is a string in the sense of section 7 of RFC 8259 that stands for its input |
| JsonStrings.ReadsStandard | demo/service_provider/c/httpfs_server.c:364-403 | on any such string json_get_string yields what it stands for, exactly if it has no escape b, f or u and fits |
| CText.StrtollReads | demo/service_provider/c/httpfs_server.c:417-419 | strtoll reads white space, a sign and the digits up to the first character that is none |
| CText.StrtollRefuses | demo/service_provider/c/httpfs_server.c:417-422 | anything else is no number |
| CText.Saturates | demo/service_provider/c/httpfs_server.c:417-419 | the value saturates at the ends of 64 bits |
| Requests.CreateRecovered | src/http_client.c:866-870 | path and mode of create-file and create-dir |
| Requests.RemoveRecovered | src/http_client.c:866-870 | path of remove-file and remove-dir |
| Requests.RenameRecovered | src/http_client.c:925-925 | neither path of a rename can pass for the other |
| Requests.TruncateRecovered | src/http_client.c:962-962 | path and size of truncate |
| Requests.UtimensRecovered | src/http_client.c:1004-1006 | path and all four times of utimens |
| Requests.BodiesFit | src/http_client.c:851-1006 | snprintf never truncates a body whose paths were escaped |
| Arrivals.PostArrives | demo/service_provider/c/httpfs_server.c:897-1166 | a request with a body, its length line anywhere among the header lines, is dispatched with its path, query, first digest and exact body, however fragmented |
| Arrivals.GetArrives | demo/service_provider/c/httpfs_server.c:897-1166 | the same without a body, if no line mentions a length |
| Arrivals.LengthLineDecides | demo/service_provider/c/httpfs_server.c:1071-1166 | the first length line decides over any stream with the header: refused if it cannot fit into 8 MiB, else dispatched when complete |
| Arrivals.WriteLinesServe | src/http_client.c:331-358 | the client's digest and length lines, in either order among lines that mention neither, are the first of their kinds |
| Arrivals.WriteRequestArrives | src/http_client.c:784-808 | a write request with digest and length lines at any places is dispatched to /v1/write with its path, offset, digest and body |
| Arrivals.ReadRequestArrives | src/http_client.c:699-710 | a read request is dispatched to /v1/read with its path, offset and size and no body |
| Arrivals.SimpleRequestArrives | src/http_client.c:567-618 | the same for meta and list |
| Arrivals.CallUnderstood | demo/service_provider/c/httpfs_server.c:680-824 | the handler of each of the seven calls with a JSON body reads the call that was made, or refuses it because a path cannot be read back, whatever the paths contain |
| Arrivals.CallArrives | src/http_client.c:851-1010 | from the call to the handler: in any fragments and with any header lines around the length, the handler dispatched to reads exactly the call that the client made, or refuses it |
| Query.UrlDecodeInto | demo/service_provider/c/httpfs_server.c:287-319 | decoding stays in its buffer and computes its specification |
| Query.QueryValueInto | demo/service_provider/c/httpfs_server.c:321-350 | the segment loop computes its specification |
| Query.DecodeOfEncode | demo/service_provider/c/httpfs_server.c:287-319 | decoding undoes percent-encoding exactly for the byte strings that fit |
| Query.DecodedExactly | demo/service_provider/c/httpfs_server.c:287-319 | the result is the string that the text writes in any of the ways, plus signs and both cases of digits included, if that fits; and none otherwise |
| Query.QueryRoundTrip | demo/service_provider/c/httpfs_server.c:321-350 | for any parameters with distinct keys, each key asked for gives its own value |
| Query.RawValueFound | demo/service_provider/c/httpfs_server.c:321-350 | of several segments with the key the first is taken |
| Query.RawValueMissing | demo/service_provider/c/httpfs_server.c:321-350 | without one there is no value |
| Query.BareSegment | demo/service_provider/c/httpfs_server.c:325-345 | a segment without an equals sign is passed over |
| Query.ReadQueryReceived | src/http_client.c:400-421 | path, offset and size of a read whose endpoint fits arrive exactly |
| Query.WriteQueryReceived | src/http_client.c:423-442 | path and offset of a write arrive exactly |
| Query.SimpleQueryReceived | src/http_client.c:444-464 | the path of meta and list arrives exactly |
| Query.ReceivedNumber | demo/service_provider/c/httpfs_server.c:559-560 | strtoll gives the sent number back |
| Paths.AcceptedExactly | demo/service_provider/c/httpfs_server.c:425-440 | a path is accepted if and only if it is absolute, only its last component is out of the ordinary and not alone, and the result fits; the result is the root for "/" and otherwise the path appended to it |
| Paths.AcceptableStaysBelow | demo/service_provider/c/httpfs_server.c:425-440 | following accepted components never leaves the directory at any prefix |
| Paths.ResolvedStaysUnderRoot | demo/service_provider/c/httpfs_server.c:425-440 | for every accepted path, "/" included, the walk to the resolved path passes the root and stays at or below it |
| Jsmn.NodeRuns | third_party/jsmn.h:140-214 | every value, wherever it stands, is tokenized to its flattening or runs out of tokens |
| Jsmn.DocumentParses | third_party/jsmn.h:140-214 | a text that spells values, one or several, yields exactly their preorder tokens with spans and parents, or the out-of-memory error when they exceed the array |
| Jsmn.ParsedIsFlattening | third_party/jsmn.h:140-214 | conversely every text that is accepted spells values, and its tokens are their flattening |
| JsonTexts.EveryTextParses | third_party/jsmn.h:140-214 | every text of RFC 8259, white space included, is accepted with the flattening of its value as tokens |
| Jsmn.OneCharacter | third_party/jsmn.h:140-214 | what becomes of any single character |
| Jsmn.OneInString | third_party/jsmn.h:94-137 | any character but quote and backslash stands for itself in a string |
| Jsmn.OneEscape | third_party/jsmn.h:94-137 | which characters make an escape |
| Jsmn.AnyFour | third_party/jsmn.h:94-137 | the escape u takes any four characters with it |
| Jsmn.OneAfterPrimitive | third_party/jsmn.h:59-92 | which characters end a primitive, belong to it, or are refused in it |
| Jsmn.TextsAreUnambiguous | third_party/jsmn.h:140-214 | no text spells two different sequences of values |
| Jsmn.ArraySuffices | third_party/jsmn.h:40-50 | for any text, accepted or not, the number of tokens stored is what the text needs, cut at the size announced; so when an array of another size is overrun |
| Jsmn.DocumentNeeds | third_party/jsmn.h:40-50 | a text that spells values needs as many tokens as they have |
| Jsmn.BracketsNeed | third_party/jsmn.h:40-50 | a row of opening brackets, which is refused, needs one token for each |
| Jsmn.Tokenizer.Parse | third_party/jsmn.h:140-214 | the loop over the caller's token array computes that, for any text |
| TokenSearch.NextTokenIndex | src/http_client.c:199-206 | the first token that starts at or after the end of the given one |
| TokenSearch.NextIsSibling | src/http_client.c:199-206 | on a flattened document that is the next sibling: exactly one subtree is skipped |
| TokenSearch.StraysExactly | src/http_client.c:221-223 | in any container the search leaves the tokens if and only if the last child is a lone key, no key matches and nothing follows the container |
| TokenSearch.ProbeIsLook | src/http_client.c:208-229 | in any container what the token search finds is the node that the search in the tree sees |
| TokenSearch.KeysAreStrings | src/http_client.c:212-219 | only a string among the direct children can be a key |
| TokenSearch.StringIsKey | src/http_client.c:212-225 | and a string child is one unless it stands right after another |
| TokenSearch.LookIsLookup | src/http_client.c:208-229 | in an object whose keys and values alternate that is lookup of the first direct member |
| JsonTexts.SearchFindsMember | src/http_client.c:208-229 | in every JSON object the search finds the first member with the key and never leaves the tokens |
| TokenSearch.FindObjectValue | src/http_client.c:208-229 | on any container the loop ends where the search in the tree ends; in an object it returns the value of the first direct member with the key, never a nested one, and -1 exactly when there is none |
| TokenSearch.LaidHolds | src/http_client.c:199-229 | the flattening of a document is one for every value inside it, so the searches work at any depth |
| Listing.WalkTokens | src/http_client.c:635-662 | the loop over the tokens of any array lists its objects in order, passing over anything else |
| Listing.ListTokens | src/http_client.c:250-281 | on the tokens of an object, with whatever values follow it: the entries, the error that is reported with its number and message, or which search leaves the tokens |
| Listing.ListDir | src/http_client.c:598-670 | for any text: an error if the tokenizer refuses it, and otherwise what the values that it spells say, stray searches included |
| Listing.CallerArraySuffices | src/http_client.c:532-544 | for any response a caller's smaller array suffices exactly if the text needs no more tokens |
| Listing.CallerArrayInstances | src/http_client.c:532-544 | that is the number of tokens of the values spelled, and of a row of opening brackets their number |
| Listing.ErrorStraysExactly | src/http_client.c:261-263 | for the status "error" the searches leave the tokens exactly if the object ends in a lone key at the end of the text and has no errno or no message |
| Listing.LoneErrorStrays | src/http_client.c:261-263 | tokenizer and searches on such a document, whatever its lone key |
| Listing.LoneKeyStrays | src/http_client.c:221-223 | asked for another key, the search in an object that is a lone key reads past the two tokens |
| ErrorReply.SendError | demo/service_provider/c/httpfs_server.c:262-272 | the response is whole for every message, with "internal error" for one that cannot be escaped |
| ErrorReply.ErrorRemotely | src/http_client.c:249-281 | server and client together: the client reports the number and the escaped message, or its own if that is too long |
| ErrorReply.ObjectAnswered | src/http_client.c:249-281 | which error any JSON object is, by its members, with number and message or their defaults |
| ListReply.BuildPayload | demo/service_provider/c/httpfs_server.c:503-536 | the response is complete, or an error when an entry's path, its escaped name or the whole does not fit |
| ListReply.EscapeIsRaw | src/json_utils.c:21-80 | whatever the escaper writes the tokenizer takes for one string |
| ListReply.PayloadIsText | demo/service_provider/c/httpfs_server.c:503-536 | the response spells the expected tree |
| ListReply.ListingReceived | src/http_client.c:598-670 | the client lists the whole directory, each name as escaped and each kind "dir" or "file", exactly when it has at most 101 entries and all fit; and which error it gets otherwise |
| ListReply.ListRemotely | src/http_client.c:598-670 | server loop and client loop together: an error of the server exactly if an entry does not fit its buffers, otherwise the list with "dir" for each directory and "file" for the rest, in order, exactly as above |
| ListReply.NameIsExact | src/http_client.c:650-657 | a listed name is the real one exactly when nothing in it needs escaping |

## Left out

- libcurl, sockets, epoll and pthread calls: foreign code, represented by outcomes and atomic steps; curl_easy_escape by its documented percent-encoding.
- Shutdown, memory allocation failure in buffers and tokens, timeouts and resource release: not modelled; the hand-off is modelled before shutdown.
- The handlers for meta, create, mkdir, unlink, rmdir, rename, truncate and utimens after their arguments are read: they resolve the path and forward to the kernel.
- httpfs_get_meta and the reply to a write: further uses of the token search of the same kind; the chunk loops take the reply as a value.
- Streams whose header holds a NUL or whose length field is blank: the framing theorems are about headers that announce a length, or none, by themselves; what follows the header is arbitrary.
- Epoll hang-up and error events in whole runs: such an event closes the connection at once (`Connections.Connection.HandleClientEvent`), and runs are of events without one.
- Which of its three errors handle_list reports for an entry that does not fit: only that it reports one.
- The child count `size` of a token: nothing reads it.
- Offsets and sizes are unbounded integers; overflow of off_t arithmetic is not modelled. Bit counts, block words and Content-Length are modelled with their widths.
- md5_transform is split into one method per round of sixteen steps, in the order of the source; pwrite_full, pread_full, httpfs_write_file, query_value, find_object_value and handle_list have their loop in a method of its own.
- The Go and Python providers, the FUSE adapter, argument parsing, hex_encode, hex_decode and normalize_base_url: easy or mostly library calls.
- Closing of connections in the end: conservation is proved, not eventual closing.
