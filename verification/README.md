# rpget: the parallel download, modelled and proved

rpget fetches one file as many byte ranges with a fixed pool of workers and hands the result to
a consumer as one in-order stream. This project models that path in Dafny, from the range plans
to the consumer's verdict, and proves what it guarantees for every file, every int64 size, every
pattern of errors and short answers and every interleaving, including when it cannot work.

| file | what it models |
|---|---|
| `Wrappers.dfy` | a value that may be missing |
| `Ranges.dfy` | requested ranges, what a server sends for them (sections 14.1.2 and 15.3.7 of RFC 9110), tilings of a file |
| `Planner.dfy` | the flat plan of `BufferMode` and the sliced plan of `ConsistentHashingMode`, in wrapping int64 arithmetic |
| `Header.dfy` | printing, parsing and advancing the Range header |
| `Resume.dfy` | `io.ReadFull`, the request, the resume loop; what becomes of a range as a function of the attempts made for it |
| `Promise.dfy` | `readerPromise`, as a protocol value and as the object that steps through it |
| `Worker.dfy` | the work items of both strategies: the two cache hosts, the chunk fallback, the first request |
| `Delivery.dfy` | the delivery protocol as a state machine over workers, reused buffers, submit loops and consumers |
| `DeliverySafety.dfy` | its invariant; reassembly, buffer ownership, exactly-once delivery, acceptance by count |
| `DeliveryProgress.dfy` | its measure; the exact condition under which a file is finished by every maximal run |
| `Consumer.dfy` | `io.Copy` over `io.MultiReader`, `FileWriter`, `NullWriter` |
| `EndToEnd.dfy` | plans and attempts as jobs of the protocol, work items as its steps, the protocol as the source of the consumers |
| `Download.dfy` | `Getter.DownloadFile` over `BufferMode.Fetch` and `FileWriter.Consume`, from request to disk |
| `Buckets.dfy`, `Routing.dfy`, `CacheHosts.dfy` | bucket choice with exclusion, the two-host retry, the host table |
| `Manifest.dfy` | manifest parsing and the total of a multi-file download |

`dafny verify dfyconfig.toml` checks everything.

## Main results

- **Progress, exactly** (`DeliveryProgress.FinishesIff`). For any number of workers and files and
  any outcome of every chunk, every maximal run finishes file f if and only if f has fewer
  *blockers* than there are workers. A blocker is a chunk that keeps its worker for good: every
  chunk of another file that is delivered with an error or lies behind one that ends its stream,
  and every chunk of f itself delivered with EOF before the chunk f's consumer stops at. The set
  depends on the outcomes alone. Runs are finite (`RunsAreFinite`), and without errors one worker
  completes everything (`ErrorFreeRunsComplete`).
- **End to end** (`DownloadIsExact`, `OverflowNeverAccepted`, `DownloadCompletes`,
  `InterruptionsAreHarmless`, `DownloadFile`, `DownloadFileCached`). In a pool of either strategy,
  for any attempts at the requests as the code computes them and any interleaving, a consumer
  accepts a file if and only if every request could be answered, its first answer named the whole
  chunk and its answers add up to it, and that is if and only if the stream was the file. A file
  whose sliced plan overflows int64 is therefore never accepted, whatever the attempts bring. If
  no plan overflows and every answer is at worst cut short after a byte or more, with one for
  every byte, every maximal run of any pool, down to a single worker, downloads and accepts every
  file.
- **Reassembly** (`ReassemblySafety`, `CountDecides`, `InterleavingsAgree`). Buffers are shared
  memory that workers overwrite and promises only point into. Still, in every state of every
  interleaving the consumer has read exactly the file up to its position if and only if it has
  passed no chunk delivered with EOF or short, and in the end it has what a sequential copy of
  the deliveries gives. With such a chunk what was read need not even begin like the file
  (`EofChunkSkipped`).
- **Exactly once** (`DeliveredOnce`, `DrainedOnce`, `TerminalDeliveries`, `PassedOnce`). For every
  pattern of outcomes, a maximal run calls `Deliver` once on every chunk it submitted and on no
  other; a chunk the consumer has passed was delivered once, and its producer released once if
  it had no error and never if it had one.
- **Acceptance** (`AcceptanceIsExact`). Chunks delivered with EOF vanish silently from the stream,
  and a response that names less than it was asked for is delivered as if that were all. The byte
  count alone still decides: it is right if and only if the stream is the file.
- **Plans** (`FlatPlanPartition`, `SlicePlanPartition`, `HashingPlanOverflow`,
  `FallbackFitsIff`). Both plans partition the file. The int64 arithmetic of the flat plan is
  right for every size; that of the sliced plan exactly when two sums fit.
- **Resume** (`ResumeDownload`, `FetchedEnds`, `FetchedFair`, `FetchedIff`). On every exit the buffer
  holds the first n bytes of the range, n is the sum of all answers to the attempts made, up to
  the length the first one named, and the error is that of the last attempt. The error is nil
  exactly when the answers, each cut short in a way the code resumes after, add up to the
  length the first one named; it is EOF exactly when an attempt on the way ends cleanly without a
  byte.
- **Exclusion and routing** (`ExclusionBijection`, `ChosenByRank`, `RetryEnumeration`, `DoRequest`,
  `FetchChunkCached`). Jump values map one to one and in order onto the buckets not tried. Which
  hosts a range is asked of, and whose attempts decide it, follows from the jump hash of its
  slice number, the host table and the attempts alone.
- **Manifest** (`LineKind`, `SaysIff`, `ManifestRoundTrip`, `FirstForOrder`). A line says an entry
  if and only if it is a URL, spaces and a destination with any spaces around them.

## Where the code does less than it says

- `pkg/download/reader_promise.go:12-14` says a producer is blocked until the consumer has read
  the data *or the error*. `Read` returns a delivered error at lines 40-42 without closing
  `finished`, so the producer is never released. This also holds for `io.EOF`, after which the
  consumer goes on to the next chunk: with one worker, a two-chunk file whose first chunk is
  delivered with EOF hangs (`EofChunkStalls`). `FinishesIff` says exactly when this happens.
- With a second worker the same file does not hang, but the chunk is skipped and the consumer
  reads the second byte as the first (`EofChunkSkipped`); `ReassemblySafety` gives the exact
  condition. A chunk is delivered with EOF when a response ends cleanly before its first byte
  (`EmptyAnswer`, `EofIsDelivered`), which `io.ReadFull` does not report as unexpected. Go's own
  transport turns a body shorter than its Content-Length into an unexpected EOF, so this takes
  one that does not.
- `pkg/download/buffer.go:187-195` takes the response's Content-Length for the length of the chunk
  and never compares it with the request. Section 15.3.7 of RFC 9110 lets a 206 carry less than
  was asked for; such a chunk is delivered short with a nil error (`ShortAnswer`,
  `ShortIsDelivered`), and a three-byte file loses a byte without an error anywhere
  (`ShortChunkLost`). Only the count in the consumer catches it, and it always does
  (`CountDecides`).
- `pkg/download/consistent_hashing.go:39-56` gives the fallback `BufferMode` workers whose
  buffers have the chunk size clamped to the slice size, but not the clamp. Its chunks fit if and
  only if the chunk size does not exceed the slice size or the file does not (`FallbackFitsIff`,
  `FallbackJobValidIff`). With the command line's 500 MiB slices, a 600 MiB chunk size and a
  600 MiB file do not fit (`FallbackDoesNotFit`).
- `pkg/consumer/write_file.go:17-25` truncates only with `Overwrite`. After an accepted download
  the file on disk is the stream if and only if it was truncated or was not longer before
  (`LeftoverIff`, `AcceptanceIsExact`); `LeftoverExample` is a file that keeps its old end.
- `pkg/download/consistent_hashing.go:218-230` can overflow: `HashingPlanOverflow` gives the
  exact condition, under which the last request ends before it starts. A file of 2^63-1 bytes
  meets it with 500 MiB slices and any chunk size (`LargestFileOverflows`). The straddle check of
  lines 313-315 catches such a request, except in the first slice when its end wraps to less
  than a slice below zero (`OverflowCaughtIff`; `OverflowUncaught` is one that is sent). Slices of
  up to 2^62 bytes, the command line's among them, cannot reach the exception
  (`SmallSlicesCatchAll`). Either way the download is refused (`OverflowNeverAccepted`).

## Model

| member | source | states |
|---|---|---|
| Ranges.TilesDisjoint | pkg/download/buffer.go:165-198 | spans of a tiling never share a byte |
| Ranges.StreamOfTiling | pkg/download/buffer.go:200 | the pieces of a tiling, joined in reader order, are the bytes they cover |
| Planner.BufferChunkSize | pkg/download/buffer.go:40-46 | the effective chunk size is positive; it is the option, or 125 MiB if that is zero |
| Planner.HashingChunkSize | pkg/download/consistent_hashing.go:60-69 | the effective chunk size is positive and never exceeds the slice size, being either the slice size or BufferMode's |
| Planner.WrapTwice | pkg/download/buffer.go:169-170 | wrapping int64 after each addition is wrapping once |
| Planner.RoundUpByDivision | pkg/download/buffer.go:147-148 | "(n-1)/c+1" is the least number of pieces of at most c bytes |
| Planner.RoundUpByRemainder | pkg/download/consistent_hashing.go:179-182 | dividing and adding one for a remainder is the same rounding up |
| Planner.LastSliceByModulo | pkg/download/consistent_hashing.go:192-195 | "(size-1)%slice+1" is the length of the last slice |
| Planner.PiecesCover | pkg/download/buffer.go:146-148 | that many pieces cover the size and one fewer do not |
| Planner.FlatPlanPartition | pkg/download/buffer.go:141-174 | the flat plan, as served, is non-empty pieces of at most a chunk that tile [0, fileSize); 1 + ceil((size-chunk)/chunk) of them, none past the end |
| Planner.WrappedFlatRangeExact | pkg/download/buffer.go:169-174 | a chunk's range computed with wrap-around is the intended one, for every int64 size |
| Planner.PlanBuffer | pkg/download/buffer.go:141-198 | the loop, in wrapping int64, computes the flat plan for all int64 sizes |
| Planner.SliceBounds | pkg/download/consistent_hashing.go:191-195 | slice k covers [k*slice, min((k+1)*slice, size)) |
| Planner.SlicedRangeFacts | pkg/download/consistent_hashing.go:225-230 | a chunk starts where it should, stays in its slice, and what is served of it ends at the next chunk, the slice end or the file end |
| Planner.SliceTiles | pkg/download/consistent_hashing.go:196-209 | the chunks of a slice, as served, tile the slice's part of the file |
| Planner.SlicePlanPartition | pkg/download/consistent_hashing.go:179-230 | the sliced plan, clamped by the server, is non-empty, disjoint and covers exactly [0, fileSize) |
| Planner.SlicePlanShape | pkg/download/consistent_hashing.go:217-230 | no range straddles a slice or exceeds a chunk, and only the last can pass the file's end |
| Planner.WrappedRangeIff | pkg/download/consistent_hashing.go:218-230 | with wrap-around a chunk's range is the intended one if its two sums fit in int64, and ends before it starts if not |
| Planner.HashingPlanOverflow | pkg/download/consistent_hashing.go:217-230 | the whole plan is right when slices*slice and the last start plus a chunk stay within 2^63; otherwise its last request is malformed |
| Planner.PlanSlice | pkg/download/consistent_hashing.go:220-230 | the inner loop gives a slice's ranges in chunk order, each as computed in wrapping int64 |
| Planner.FirstSlicedRequest | pkg/download/consistent_hashing.go:200-206 | the first computed request is the one made to learn the size, overflow or not |
| Planner.PlanHashing | pkg/download/consistent_hashing.go:172-230 | the nested loops compute every request in wrapping int64, which is the sliced plan exactly in the absence of that overflow |
| Planner.StrategiesAgree | pkg/download/consistent_hashing.go:172-212 | both plans stream the same bytes, the file, for any sizes |
| Planner.FallbackFitsIff | pkg/download/consistent_hashing.go:39-56 | the fallback's chunks fit the shared buffers if and only if chunk size <= slice size or the file is no longer than a slice |
| Planner.FallbackDoesNotFit | pkg/download/consistent_hashing.go:39-56 | a 600 MiB chunk size and file with 500 MiB slices: the first chunk exceeds its buffer |
| Planner.LargestFileOverflows | cmd/root/root.go:282 | with 500 MiB slices a file of 2^63-1 bytes overflows for every chunk size, and its last request ends before it starts |
| Header.ParsePrinted | pkg/download/common.go:85-96 | a printed number is read back if it fits int64, and not read at all if it does not |
| Header.HeaderRoundTrip | pkg/download/buffer.go:208 | parsing the printed header recovers any pair of non-negative int64 numbers |
| Header.ParseHeaderIff | pkg/download/common.go:70-93 | a header says two numbers iff it is the unit and two numbers without a minus sign with one between them; an empty header is missing, any other malformed |
| Header.AdvanceIff | pkg/download/common.go:95-104 | a printed range moves on by n if a byte is left, is an invalid range naming the new header if not, and beyond int64 wraps to a negative start |
| Header.HeaderExample | pkg/download/common_test.go:145-149 | two headers spelled out, the second three bytes on |
| Header.ParsedNonNegative | pkg/download/common.go:79-93 | a header that parses holds no negative number |
| Header.NegativeRejected | pkg/download/common.go:79-83 | a header printed with a negative number does not parse |
| Header.AdvanceAdditive | pkg/download/common.go:95-104 | advancing by a and then b is advancing by a+b, same header or same error, whenever the first advance succeeds and the sum stays in int64 |
| Resume.Request.UpdateRangeRequestHeader | pkg/download/common.go:68-105 | the header becomes the advanced one, or is untouched and the right error is returned |
| Resume.ReadFull | pkg/download/common.go:50 | the buffer gets the bytes there are; nil if full, unexpected EOF for a clean end after some bytes, the body's own error otherwise |
| Resume.FetchedFair | pkg/download/buffer.go:180-195 | whatever the attempts: the beginning of the range, nil error iff it is as long as the first response named, never an unexpected EOF or a header error |
| Resume.FetchedIff | pkg/download/common.go:50-63 | nil error iff the answers, each cut short in a way the code resumes after, add up to the named length; EOF iff an attempt on the way ends cleanly without a byte |
| Resume.FetchedWhole | pkg/download/buffer.go:187-195 | the whole range and a nil error iff the first response names all of it and the answers add up to it |
| Resume.FetchedEnds | pkg/download/common.go:36-65 | for every way a fetch can end: the bytes of all answers up to the last attempt made, as far as named, and the error of that attempt by its kind |
| Resume.FetchedSpent | pkg/download/common.go:42-45 | if every attempt was cut short: the bytes of all of them, and the error of getting no further response |
| Resume.LastOrSpent | pkg/download/common.go:36-65 | one of these two always applies |
| Resume.ResumedEnds | pkg/download/common.go:50-63 | the resume loop alone: the count is what was there plus all answers up to the last attempt, the error is that attempt's |
| Resume.ShortAnswer | pkg/download/buffer.go:187-195 | a response that names less than it owes is delivered as if that were all, with a nil error |
| Resume.EnoughAnswers | pkg/download/common.go:36-65 | as many answers as the range has bytes complete it, however short each is |
| Resume.EmptyAnswer | pkg/download/buffer.go:188-195 | a first response that ends cleanly before a byte is delivered with EOF, whatever further attempts would bring |
| Resume.OwedSuffix | pkg/download/common.go:95 | a request starting n bytes later is owed the rest of the original range |
| Resume.ReplyToPrinted | pkg/download/buffer.go:208 | whatever two int64 numbers are printed into the header, the server's reply is the one to that range |
| Resume.ResumeRound | pkg/download/common.go:37-65 | one round extends the correct prefix of the range in the buffer by what its attempt is answered with, keeps header and counters aligned, and ends with the error of that attempt |
| Resume.ResumeDownload | pkg/download/common.go:28-66 | on every exit, errors included, buf[0..n) is the first n bytes of the range and n is what was there plus what the attempts made were answered with, up to the named length; n and err are a function of the attempts; non-empty answers bound the rounds by the unread length |
| Resume.DoRequest | pkg/download/buffer.go:203-222 | for any int64 range: a response iff the range can be answered and the first attempt is; otherwise that attempt's error |
| Resume.ReadChunk | pkg/download/buffer.go:187-195 | reading with resume leaves in the buffer what becomes of the range with this answer and the attempts after it; the count is the sum of the answers of the attempts made, up to the named length, whatever the error |
| Worker.FetchChunk | pkg/download/buffer.go:168-196 | for any int64 range the promise is delivered once on every path, with exactly what becomes of the range with its attempts, out of the worker's buffer |
| Worker.ReadAndDeliver | pkg/download/buffer.go:187-195 | a response is read, resumed and delivered: the promise carries what becomes of the range |
| Worker.AskHost | pkg/download/consistent_hashing.go:297-358 | straddle check, bucket choice and exchange with the host: which bucket is asked and which error comes out |
| Worker.AskCaches | pkg/download/consistent_hashing.go:267-295 | first host, retry host if that failed over, status check: whose answer counts, which buckets were asked, a fallback error iff the first failed over and the retry did not reply |
| Worker.SourceIsRouted | pkg/download/consistent_hashing.go:267-295 | a work item asks the origin exactly when the router's DoRequest ends in the fallback error, and takes a host's answer exactly when that ends without an error |
| Worker.SourceDecides | pkg/download/consistent_hashing.go:238-246 | by the hash, the host table and the attempts alone: whose attempts decide a range, when the origin's do, and when none do |
| Worker.SuppliedWhole | pkg/download/consistent_hashing.go:238-246 | a range arrives whole iff the attempts at the first host, at the retry host if that fails over, or at the origin if neither replies, add up to it |
| Worker.SuppliedBy | pkg/download/consistent_hashing.go:225-262 | what becomes of a range is what becomes of it with the attempts that decide it |
| Worker.FetchChunkCached | pkg/download/consistent_hashing.go:225-262 | for any int64 range, overflowed ones included, the promise is delivered once with what becomes of it at the host whose answer counts; it carries all bytes without an error iff the script of the first bucket adds up to them or, if its host is not ready or fails over, that of the retry bucket if its host replies, else that of the origin; the origin is asked iff the hosts failed over |
| Worker.FetchFirst | pkg/download/buffer.go:90-127 | answered: the file size, zero included, and a delivery like any other; not answered: an error and an undelivered promise |
| Worker.FetchFirstCached | pkg/download/consistent_hashing.go:127-171 | the same at the cache hosts; the whole-file fallback iff the first bucket's host is not ready or fails over and the retry bucket's does not reply |
| Promise.ReaderPromise.constructor | pkg/download/reader_promise.go:28-33 | a new promise is not ready |
| Promise.ReaderPromise.Deliver | pkg/download/reader_promise.go:54-62 | the promise becomes ready with exactly the given buffer, length and error |
| Promise.ReaderPromise.Read | pkg/download/reader_promise.go:38-52 | returns the next bytes of the delivered buffer, and drains the promise exactly at the end of an error-free chunk |
| DeliverySafety.StepInv | pkg/download/work_queue.go:40-55 | every step keeps the invariant that ties workers, buffers, promises, submit loops and output |
| DeliverySafety.RunInv | pkg/download/reader_promise.go:38-62 | it holds in every state of every run |
| DeliverySafety.OneRead | pkg/download/reader_promise.go:38-52 | one Read of the MultiReader adds exactly the next bytes of the current chunk although its buffer is shared |
| DeliverySafety.AssembledLength | pkg/consumer/write_file.go:36-38 | what the first chunks add to the stream is as long as the stretch they come from exactly when none is missing or short, and then is that stretch |
| DeliverySafety.ReassemblySafety | pkg/download/buffer.go:150-200 | in every state of every interleaving what was read is the file up to the consumer's position iff no chunk was passed over with EOF or came short (or the file is empty); at the stream's end that position is the file's end |
| DeliverySafety.CountDecides | pkg/consumer/null.go:14-17 | when the consumer returns, the count is right iff the stream is the file iff every chunk came without an error and in full (or the file is empty) |
| DeliverySafety.BufferOwnership | pkg/download/work_queue.go:36-55 | a buffer backs at most one undrained promise, and no step writes a buffer that backs one |
| DeliverySafety.DeliveredOnce | pkg/download/reader_promise.go:54-62 | in any run Deliver is called on a chunk once if its promise is ready, never otherwise |
| DeliverySafety.DrainedOnce | pkg/download/reader_promise.go:45-50 | in any run `finished` is closed once if the promise is drained, never otherwise |
| DeliverySafety.PassedOnce | pkg/download/reader_promise.go:38-62 | in any run a chunk the consumer has passed was delivered once, and its producer released once if it had no error and never if it had one |
| DeliverySafety.ProbedOncePerFallback | pkg/download/consistent_hashing.go:157-171 | in any run a download that is streaming, stopped or refused has made exactly one first request per fallback and one more |
| DeliveryProgress.StepLowersRank | pkg/download/work_queue.go:40-55 | a measure falls at every step |
| DeliveryProgress.RunsAreFinite | pkg/download/work_queue.go:40-55 | no run is longer than the initial measure |
| DeliveryProgress.LastNeeded | pkg/download/reader_promise.go:40-42 | the chunk a consumer stops at: the first whose error ends the stream, or the last |
| DeliveryProgress.BlockerHolds | pkg/download/reader_promise.go:40-62 | a submitted blocker occupies its worker in every reachable state |
| DeliveryProgress.QuietFile | pkg/download/buffer.go:165-198 | when nothing can move, an unfinished consumer waits for a chunk not submitted yet: submission order is read order |
| DeliveryProgress.StuckNeedsBlockers | pkg/download/reader_promise.go:54-62 | a run that ends with f unfinished has as many blockers as workers |
| DeliveryProgress.BlockersStarve | pkg/download/reader_promise.go:40-42 | with that many blockers some maximal run leaves f unfinished |
| DeliveryProgress.FinishesIff | pkg/download/work_queue.go:34-55 | every maximal run finishes f if and only if its blockers are fewer than the workers |
| DeliveryProgress.TerminalDeliveries | pkg/download/reader_promise.go:54-62 | in any maximal run, whatever the outcomes, Deliver was called once on every submitted chunk and on no other |
| DeliveryProgress.MaximalRun | pkg/download/work_queue.go:40-55 | every run extends to a maximal one |
| DeliveryProgress.ErrorFreeRunsComplete | pkg/download/buffer.go:161-200 | without errors every maximal run reads every file to its end, each chunk delivered and drained exactly once, and has the file iff no chunk came short |
| DeliveryProgress.ErrorFreePoolIdle | pkg/download/work_queue.go:40-55 | and returns every worker to the pool |
| DeliveryProgress.EofChunkStalls | pkg/download/reader_promise.go:40-42 | a concrete file and pool that hang after a chunk delivered with EOF |
| DeliveryProgress.EofChunkSkipped | pkg/download/reader_promise.go:40-42 | the same file with two workers: the stream ends without an error and is not a prefix of the file |
| DeliveryProgress.ShortChunkLost | pkg/download/buffer.go:187-195 | a concrete file that loses a byte to a short answer without any error |
| Consumer.CopyOne | pkg/consumer/write_file.go:31 | copying one promise gives its bytes iff it has no error, up to a write that fails, and releases its producer exactly when all were written |
| Consumer.CopyAll | pkg/download/buffer.go:200 | copying the MultiReader gives what its deliveries say in order: EOF chunks are passed over, another error or a failed write ends it |
| Consumer.CopiedAppend | pkg/download/buffer.go:200 | the copy of one more chunk extends the copy unless an error ended it |
| Consumer.WrittenUpTo | pkg/consumer/write_file.go:31-35 | a destination that takes n bytes gets the copy up to n bytes, and a write fails iff there are more |
| Consumer.FileWriter.Consume | pkg/consumer/write_file.go:16-40 | nil iff the file opens, no write fails and the copy had no error and the expected length; the file holds what was written over what it held, and an unopened file is untouched |
| Consumer.NullWriter.Consume | pkg/consumer/null.go:12-19 | nil iff the copy had the expected length, whatever its error |
| Consumer.OverlayBytes | pkg/consumer/write_file.go:17-31 | byte by byte: the written bytes first, the old ones after them, the longer of the two lengths |
| Consumer.LeftoverIff | pkg/consumer/write_file.go:17-25 | the file is the stream iff it was not longer before |
| Consumer.LeftoverExample | pkg/consumer/write_file.go:17-25 | a two-byte file keeps its second byte after an accepted one-byte download |
| EndToEnd.SpansFit | pkg/download/work_queue.go:17-38 | the stretches of either strategy's readers cut up the file and are at most a chunk each |
| EndToEnd.PlannedJobValid | pkg/download/buffer.go:28-38 | a file planned by either strategy can be run by workers with buffers of its chunk size |
| EndToEnd.FallbackJobValidIff | pkg/download/consistent_hashing.go:39-56 | a fallback file can be run by the shared workers iff chunk size <= slice size or file <= slice size |
| EndToEnd.PoolValid | pkg/download/work_queue.go:17-38 | the files of either strategy, fallback files that fit included, can all be run by its pool |
| EndToEnd.FlatRequest | pkg/download/buffer.go:168-174 | every request of a flat plan fits int64, can be answered and is owed its reader's stretch |
| EndToEnd.SlicedRequest | pkg/download/consistent_hashing.go:217-230 | every sliced request as computed is owed its reader's stretch or, if it overflowed, ends below zero |
| EndToEnd.RequestFacts | pkg/download/consistent_hashing.go:217-230 | all requests of a plan can be answered unless it overflows, and then the last cannot |
| EndToEnd.WorkItemIsSteps | pkg/download/work_queue.go:40-55 | whatever a fetch makes of its attempts, a worker can receive those bytes and deliver them with that error as steps of the protocol |
| EndToEnd.InterleavingsAgree | pkg/download/buffer.go:200 | however workers interleave, the consumer gets what a sequential copy of the deliveries gives |
| EndToEnd.AcceptanceIsExact | pkg/consumer/write_file.go:31-38 | each consumer's acceptance holds iff the stream was the file (and, for FileWriter, unbroken); what is then on disk is the file iff truncated or not longer before |
| EndToEnd.DownloadIsExact | pkg/rpget.go:61-73 | in a pool of either strategy, for any attempts and interleaving, each consumer accepts iff every request as computed could be answered, was named in full and its answers add up, iff the stream was the file |
| EndToEnd.OverflowNeverAccepted | pkg/download/consistent_hashing.go:313-315 | a file whose sliced plan overflows is accepted by no run, whatever the attempts |
| EndToEnd.DownloadCompletes | pkg/rpget.go:61-73 | a file whose chunks' answers add up is finished and accepted by every maximal run if its blockers are fewer than the workers |
| EndToEnd.InterruptionsAreHarmless | pkg/download/common.go:28-66 | if no plan in a pool overflows, first answers name their chunks in full, all answers are at worst cut short and there are enough, every maximal run downloads and accepts every file |
| EndToEnd.EofIsDelivered | pkg/download/buffer.go:188-195 | the file that hangs or loses a byte is planned by BufferMode and comes of an empty first response |
| EndToEnd.ShortIsDelivered | pkg/download/buffer.go:187-195 | the file that loses a byte to a short answer is planned by BufferMode and comes of a response that names one byte of two |
| EndToEnd.StrategiesDeliverTheSame | pkg/download/consistent_hashing.go:172-261 | one file, planned and run by BufferMode's pool and by ConsistentHashingMode's: if both are accepted on their count, the streams are equal, whatever went wrong on the way |
| Download.CopyDecides | pkg/consumer/write_file.go:31-38 | the copy of a file's deliveries is the file when every chunk came without an error and in full, and is refused when one did not |
| Download.PlanAccepted | pkg/consumer/write_file.go:31-38 | either strategy's deliveries are accepted iff every chunk arrives, and then are the file |
| Download.AllArriveIff | pkg/rpget.go:61-73 | a plan is complete iff every request can be answered and the attempts that decide it, by the hash and the host table, add up to it |
| Download.FetchRest | pkg/download/buffer.go:161-198 | a submit loop leaves a promise for every request, in order, carrying what becomes of it |
| Download.FetchFlat | pkg/download/buffer.go:84-201 | Fetch succeeds iff the first request is answered; then the size is the file's and the readers carry the outcome of every planned request |
| Download.FetchCacheable | pkg/download/consistent_hashing.go:126-213 | a cacheable file: the fallback error iff both hosts failed over; otherwise the readers carry the outcome of every computed request |
| Download.FetchSliced | pkg/download/consistent_hashing.go:100-213 | the fallback strategy iff not cacheable or both hosts failed over; otherwise the same for the requests of the sliced plan as computed |
| Download.DownloadFile | pkg/rpget.go:54-95 | with BufferMode: succeeds iff for every request the attempts at the origin add up to its bytes and the disk takes them; then the size is right and the file is written over what was there |
| Download.DownloadFileCached | pkg/rpget.go:54-95 | with ConsistentHashingMode: the same, where a chunk arrives iff the script of its first bucket, of its retry bucket if the first fails over, or of the origin if neither replies, adds up to it; the fallback plan iff not cacheable or the first request's hosts failed over; never for a sliced plan that overflows |
| Buckets.SortedUnique | pkg/consistent/consistent.go:38 | sorting gives one result for all orders of the same elements |
| Buckets.ExclusionBijection | pkg/consistent/consistent.go:37-43 | jump values [0, n-k) map in order, one to one, onto exactly the buckets not excluded |
| Buckets.ChosenByRank | pkg/consistent/consistent.go:37-43 | jump value k stands for the bucket with exactly k of the buckets not tried below it |
| Buckets.ChooseSound | pkg/consistent/consistent.go:37-44 | in range and not excluded, even for repeated or out-of-range previous buckets |
| Buckets.ChooseOrderFree | pkg/consistent/consistent.go:38-43 | the order of the previous buckets makes no difference |
| Buckets.HashBucket | pkg/consistent/consistent.go:21-45 | fails iff no bucket is left or the key cannot be hashed; otherwise returns the chosen bucket and leaves the previous ones sorted |
| Buckets.RetryEnumeration | pkg/consistent/consistent.go:22-44 | feeding results back visits different buckets, and all of them after n attempts |
| Routing.Router.RewriteRequest | pkg/download/consistent_hashing.go:311-358 | refused if the range straddles by truncating division, no bucket is left or the key cannot be hashed; otherwise the bucket not tried with as many untried ones below it as the jump hash of start/sliceSize says, fallback-class if its host is not ready |
| Routing.Router.DoRequestToCacheHost | pkg/download/consistent_hashing.go:297-358 | for any range, negative ends included: refused if it straddles by truncating division, otherwise which bucket is asked, ranked by the jump hash of start/sliceSize, and which error class comes out |
| Routing.Router.DoRequest | pkg/download/consistent_hashing.go:267-295 | by the hash and the host table: the first bucket asked is the jump value of start/sliceSize, the second that of the second attempt stepping over the first; a fallback error iff the first attempt was fallback-class and the second failed; success iff the answer that counts is 2xx |
| Routing.Router.StraddlesIff | pkg/download/consistent_hashing.go:313-316 | a range that starts in the file is refused iff its ends lie in different slices or, if its end overflowed, not both are less than a slice from zero |
| Routing.Router.RouteIs | pkg/consistent/consistent.go:29-43 | the two buckets of a slice, by the jump values of its number alone |
| Routing.Router.AskedAtMostTwo | pkg/download/consistent_hashing.go:273-285 | at most two different hosts are asked, all of them ready |
| Routing.Router.SliceStaysTogether | pkg/download/consistent_hashing.go:311-322 | no planned request straddles a slice, and bytes of one slice are asked of the same hosts under the same exchanges, whichever requests they are part of |
| Routing.Router.OverflowCaughtIff | pkg/download/consistent_hashing.go:313-316 | a request whose end overflowed is refused and sent nowhere, except in the first slice when it ends less than a slice below zero |
| Routing.Router.SmallSlicesCatchAll | cmd/root/root.go:282 | with slices of at most 2^62 bytes, 500 MiB among them, every overflowed request is refused |
| Routing.Router.OverflowUncaught | pkg/download/consistent_hashing.go:313-316 | a plan whose second request overflows, passes the check and is sent |
| CacheHosts.OrderCacheHosts | pkg/cli/common.go:63-93 | fails iff a name has no index; otherwise a table up to the highest index, with the name of the last record of an index and gaps empty |
| CacheHosts.HostNameParts | pkg/cli/common.go:84-87 | taken apart at the colon, an entry gives the target without its last dot and, iff the port is not 80, a number that reads as the port |
| CacheHosts.LastRecordWins | pkg/cli/common.go:79-90 | an index several records have gets the last one's name |
| CacheHosts.OrderIndependent | pkg/cli/common.go:63-93 | the same table for every order of records with distinct indexes |
| Manifest.AddItem | cmd/multifile/manifest.go:93-112 | one entry: skipped if seen, an error if its destination has another URL or exists |
| Manifest.ParseManifest | cmd/multifile/manifest.go:67-116 | succeeds iff all lines are well formed, no destination has two URLs and all are free; yields the entries of the lines in order, each destination once |
| Manifest.LineOfEntry | cmd/multifile/manifest.go:48-53 | a URL, spaces and a destination, with any spaces around them, are read as that URL and that destination |
| Manifest.SaysIff | cmd/multifile/manifest.go:48-53 | and no other line is read as that entry |
| Manifest.LineKind | cmd/multifile/manifest.go:48-53 | every line is blank, an entry or malformed by its number of words; blank iff all its characters are spaces |
| Manifest.FieldsOfLine | cmd/multifile/manifest.go:49 | whatever the spaces between and around them, the fields of a line are its words |
| Manifest.ManifestRoundTrip | cmd/multifile/manifest.go:73-112 | lines that say entries are read as those entries, in order |
| Manifest.BlankLine | cmd/multifile/manifest.go:75-78 | blank lines make no difference |
| Manifest.FirstForFacts | cmd/multifile/manifest.go:56-65 | the manifest has distinct destinations, only listed entries, and every listed destination |
| Manifest.FirstForOrder | cmd/multifile/manifest.go:93-112 | each entry of the manifest is the first listed for its destination, and the entries stand in the order of those first listings |
| Manifest.DownloadFiles | pkg/rpget.go:97-146 | for files finishing in any order, succeeds iff all do, with the sum of the sizes |
| Manifest.SumJoin | pkg/rpget.go:97-146 | the total of nothing is zero, of one file its size, of two parts the sum of theirs |

## Left out

- HTTP transport, the retry library, TLS, DNS and redirects: an attempt is a response, a fallback-class error or another error.
- Jump hash and hashstructure: opaque values in range.
- URL rewriting, cacheable prefixes and the proxy authorisation header.
- Servers that ignore Range, or a Range header they cannot parse, and answer with the whole body; the only 2xx answer modelled is the 206 of RFC 9110, and of an empty file the 200.
- A 206 that starts elsewhere than asked: a short answer is the beginning of the range.
- Parsing Content-Range and Content-Length: the file size is the total the response names.
- Tar extraction, link creation and compression detection.
- Commands, flags, configuration, logging, metrics, PID files and version strings.
- The preference for the high-priority channel: `run` polls it first and then takes from either, so the protocol allows every order.
- The limit on concurrently downloading files: all files of a run are started together.
- In the protocol, consumers that stop reading because a write fails: there only errors delivered by the download end a stream. `FileWriter.Consume` has such writes.
- Servers that answer a range of an empty file with 416: an empty file is answered whole.
- The 64 KiB line limit of the manifest scanner, whose error the code does not look at.
- Goroutines and channels as such: the protocol is a state machine, and channel operations are the guards of its steps.
- Resume.ResumeDownload: the outcomes of attempts are a finite script, so an endless run of answers without a byte is cut off as a dropped attempt.
- Consumer.CopyAll: reads promises that are already delivered; waiting for a delivery is a guard of the protocol, and InterleavingsAgree ties the two together.
- Download.DownloadFile: has a worker for every chunk, all chunks fetched before the copy starts; InterleavingsAgree ties every other schedule to the same copy.
- Download.DownloadFileCached: the same, and requires that a fallback file fits the shared buffers, since the code panics where it does not (FallbackJobValidIff).
