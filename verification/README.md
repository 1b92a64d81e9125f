# audio2json core, modelled in Dafny

audio2json transcribes audio files to text. ffprobe measures each file. ffmpeg cuts and
converts the audio. A remote speech service does the recognition. The program prints a JSON
map from file basename to transcript, or `null` when a file fails. This project models the
pure rules inside that plumbing as functions over immutable data. It proves the properties
the code promises.

- `text.dfy` (module `Text`): Go's `strings.TrimSpace` (with `unicode.IsSpace`), and
  `strings.Split` on a newline together with its inverse `Join`.
- `json.dfy` (module `Json`): a decoded JSON value and the key lookup of a decoded object
  (a later duplicate key wins, as in Go's decoder).
- `types.dfy` (module `Types`): the program's errors. It also holds `Reply`, the Go
  `(*string, error)` pair, and the permutations that stand for worker completion orders.
- `transcribe.dfy` (module `Transcribe`): the transcription client. It picks the transcript
  out of a newline-delimited JSON response by scanning from the last line back. It also
  models the three-attempt retry with 1, 2, 3 second back-off and the status-200 check.
- `chunks.dfy` (module `Chunks`): the chunk pipeline of a file longer than 15 seconds. It
  covers the chunk count and the 15-second windows, the per-chunk worker, index-addressed
  slots filled in any completion order, and the partial-success reassembly.
- `pipeline.dfy` (module `Pipeline`): the file pipeline. It covers `uniqueFiles`, the
  fail-fast existence check, `filepath.Base`, routing by duration, and draining the results
  into the basename-keyed map in any completion order.

External effects are parameters. `parse` stands for `json.Unmarshal` of one line. A
sequence of `Transport` values gives the network's answer to each HTTP attempt. `present`
stands for the `os.Stat` existence check. A `FileEnv` per path gives the ffprobe result, the
reply of a whole-file transcription, and the `ChunkRun` outcome of each chunk. A worker
pool's completion order is a permutation of the job indices. Durations are exact `real`s.

Where the code's behaviour is easy to mistake, the model follows the code:
- Chunk texts are each followed by one space and the whole is trimmed. So "hello " and
  "world" combine to "hello  world" with two spaces (`Chunks.HelloWorld`), not "hello world".
- The chunk file is removed after a transcription attempt. It is not removed after an
  extraction failure.
- The retry loop also sleeps 3 seconds after the third failed attempt, before it returns
  the error.
- Every status other than 200 is an error, including other 2xx statuses. It is not retried.
- The output is keyed by basename. Two distinct paths with one basename leave one key, and
  it holds the result drained last (`Pipeline.BasenameCollision`).
- The "nil text" branches of `transcribeFile` and of the chunk worker are modelled, but the
  client never takes them (`Pipeline.DirectTranscriptionPassesThrough`,
  `Pipeline.ChunkNeverNilText`).

## Model

| member | source | states |
|---|---|---|
| Text.TrimSpace | transcribe/transcribe.go:82 | the result has no white space at either end, and it is empty exactly when the input is all white space |
| Text.TrimSpaceIsInfix | transcribe/transcribe.go:82 | what `TrimSpace` removes is white space only: the result sits in the input with only white space before and after it |
| Text.TrimSpaceIgnoresTrailingSpace | audio2json.go:256-259 | one more trailing space does not change the trimmed text |
| Text.Split | transcribe/transcribe.go:79 | at least one piece, no piece holds a newline, and joining the pieces with newlines restores the input |
| Text.SplitJoin | transcribe/transcribe.go:79 | splitting newline-free pieces joined by newlines gives the pieces back (the other round trip) |
| Json.Get | transcribe/transcribe.go:87-88 | a key lookup is absent iff no member has the key; otherwise it is the value of the last member with that key |
| Transcribe.ObjectTranscript | transcribe/transcribe.go:92-124 | a transcript found in a decoded object is non-empty and is the string `transcript` member of the first alternative (an object) of the first result (an object) |
| Transcribe.ObjectTranscriptFound | transcribe/transcribe.go:92-124 | conversely, when the decoded document holds the path (`results`, or `result` when `results` is absent; first element an object; non-empty `alternatives`, else `alternative`; first element an object) to a non-empty string `transcript`, the object yields exactly that string |
| Transcribe.LineTranscript | transcribe/transcribe.go:82-124 | a line yields only a non-empty transcript, only when the trimmed line is non-blank and decodes to an object, and then what that object carries |
| Transcribe.LineTranscriptFound | transcribe/transcribe.go:82-124 | a non-blank line decoding to an object that holds that document path to a non-empty `transcript` yields that transcript |
| Transcribe.BlankLineSkipped | transcribe/transcribe.go:82-85 | a line that is blank after trimming yields nothing |
| Transcribe.MalformedLineSkipped | transcribe/transcribe.go:87-90 | a line that does not decode to a JSON object yields nothing |
| Transcribe.ResultsTakesPrecedence | transcribe/transcribe.go:92-97 | once `results` is present, no `result` member can change the outcome |
| Transcribe.ResultsNotListSkipsLine | transcribe/transcribe.go:92-101 | a present `results` that is not a non-empty list skips the line, with no fallback to `result` |
| Transcribe.ResultUsedWhenResultsAbsent | transcribe/transcribe.go:95-97 | without `results`, the `result` list is read exactly as `results` would be |
| Transcribe.AlternativesTakesPrecedence | transcribe/transcribe.go:108-114 | a non-empty `alternatives` list hides any `alternative` member |
| Transcribe.AlternativeFallback | transcribe/transcribe.go:108-114 | an `alternatives` member that is missing, empty or not a list falls back to `alternative` |
| Transcribe.Lines | transcribe/transcribe.go:79 | at least one line, no line holds a newline, and the lines joined by newlines are the trimmed response |
| Transcribe.ScanBack | transcribe/transcribe.go:81-125 | the scan finds nothing iff no line yields; otherwise it finds the highest-index line that yields |
| Transcribe.LastTranscript | transcribe/transcribe.go:81-125 | nothing iff no line yields; otherwise the transcript of a line after which no line yields |
| Transcribe.ExtractTranscript | transcribe/transcribe.go:78-128 | "no transcription found" iff no line yields; otherwise a non-empty transcript from the last line that yields one |
| Transcribe.FallsBackPastMalformedLastLine | transcribe/transcribe.go:81-124 | a "partial" line followed by a malformed line yields "partial" |
| Transcribe.RetryFrom | transcribe/transcribe.go:51-60 | from attempt i: stop at the first delivered attempt; failed attempt j sleeps j+1 s; give up with the last transport error after attempt 3 |
| Transcribe.Retry | transcribe/transcribe.go:50-60 | 1 to 3 attempts, all but the last failed; succeeds iff some attempt of the three is delivered; sleeps 1, 2, ... after each failure, the third included |
| Transcribe.RetryStopsAtFirstDelivery | transcribe/transcribe.go:51-57 | after k transport failures, a delivered attempt k ends the loop after k+1 attempts with its response |
| Transcribe.AllAttemptsFailedBackoff | transcribe/transcribe.go:51-60 | three transport failures: three attempts, sleeps 1, 2 and 3 s, 6 s in all |
| Transcribe.TranscribeRequest | transcribe/transcribe.go:50-75 | text iff no error; a text comes from a delivered 200 response with a readable body; a 200 body whose extraction succeeds gives that transcript with no error; otherwise the error of the failing step: transport error after retries, unreadable body, API status with body, or no transcription |
| Transcribe.RequestSucceeds | transcribe/transcribe.go:50-75 | k transport failures followed by a 200 response whose body holds a transcript give that transcript with no error |
| Transcribe.RequestFailsAfterRetries | transcribe/transcribe.go:51-60 | three transport failures give the "after retries" error carrying the third failure's cause |
| Transcribe.NonOkStatusNotRetried | transcribe/transcribe.go:51-69 | a delivered non-200 response ends the loop at that attempt with an API error carrying status and body |
| Chunks.ChunkCount | audio2json.go:178-181 | the count is the ceiling of duration/15: n·15 ≥ d > (n−1)·15, zero only for d = 0, at least 2 above 15 s |
| Chunks.ChunkWindow | audio2json.go:192-196 | window i starts at 15·i, has length in (0, 15] and lies inside the file; all but the last are 15 s and the last ends at the end of the file |
| Chunks.WindowLengthsSumToDuration | audio2json.go:178-196 | the window lengths sum to exactly the duration |
| Chunks.FullWindowsLength | audio2json.go:192-196 | the windows before the last one cover exactly 15·k seconds |
| Chunks.WindowsPartitionTheFile | audio2json.go:178-196 | every instant lies in window floor(t/15), and windows do not overlap |
| Chunks.TwentySecondsTwoChunks | audio2json.go:178-196 | a 20 s file gives windows [0, 15) and [15, 20) |
| Chunks.ChunkWorker | audio2json.go:203-219 | a slot has a text iff it has no error iff the chunk was cut and transcribed to a text; each failing step records its own error: extraction, transcription, or a nil text |
| Chunks.ChunkSlots | audio2json.go:183-234 | slot i holds the outcome of chunk i |
| Chunks.FillSlots | audio2json.go:183-234 | after workers finish in a given order, a slot holds its chunk's outcome iff its index was processed, otherwise its old value |
| Chunks.CompletionOrderIrrelevant | audio2json.go:183-234 | every completion order gives the same slot array |
| Chunks.Combine | audio2json.go:236-260 | fails iff every slot holds an error, and then only with "all chunks failed"; text iff no error |
| Chunks.TranscribeInChunks | audio2json.go:177-261 | the call fails iff every chunk fails, and then with "all chunks failed"; otherwise its text is the successful chunk texts, in chunk order, joined by single spaces and trimmed |
| Chunks.CombinedIsTrimmedJoin | audio2json.go:253-259 | the text is the successful chunks' texts in index order, joined by single spaces, then trimmed |
| Chunks.CleanTextsJoinWithSingleSpaces | audio2json.go:253-259 | with non-empty trimmed chunk texts, the result is exactly those texts joined by single spaces |
| Chunks.DropFailedSlot | audio2json.go:237-259 | dropping a failed slot changes neither the successful texts nor whether all failed |
| Chunks.FailedChunkContributesNothing | audio2json.go:237-259 | the result is the same as if the failed chunk did not exist |
| Chunks.CombineHelloWorld | audio2json.go:253-259 | slots "hello " and "world" combine to "hello  world" |
| Chunks.HelloWorld | audio2json.go:177-260 | a 20 s file with chunk texts "hello " and "world" yields "hello  world" |
| Pipeline.Unique | audio2json.go:281-291 | no duplicates, exactly the input's elements, in the order of their first occurrences |
| Pipeline.ExtendUnique | audio2json.go:284-289 | keeping the next path only when it has not been seen keeps the result duplicate-free, equal as a set to the paths so far, and in first-occurrence order |
| Pipeline.UniqueFiles | audio2json.go:281-291 | the loop with its `seen` set computes `Unique` |
| Pipeline.UniqueOfDistinct | audio2json.go:281-291 | a duplicate-free input is returned unchanged |
| Pipeline.UniqueIdempotent | audio2json.go:281-291 | de-duplicating twice equals de-duplicating once |
| Pipeline.FirstMissing | audio2json.go:40-45 | no missing path iff every path exists; otherwise the first missing path in order |
| Pipeline.Basename | audio2json.go:69 | a basename is non-empty and holds no slash unless it is "/" |
| Pipeline.BasenameOfJoin | audio2json.go:69 | the basename of dir/name is name |
| Pipeline.TranscribeFile | audio2json.go:160-175 | text iff no error; an error passes through; neither text nor error becomes the nil-text error; a text without error is returned unchanged |
| Pipeline.ProcessFile | audio2json.go:66-85 | one result under the basename; text iff no error; a probe failure gives no text; ≤ 15 s goes direct and > 15 s goes to chunking |
| Pipeline.ShortFileNotChunked | audio2json.go:73-78 | a file of at most 15 s does not depend on any chunk outcome |
| Pipeline.LongFileOnlyChunked | audio2json.go:79-84 | a file over 15 s does not depend on a whole-file transcription |
| Pipeline.Drain | audio2json.go:102-108 | the keys are the drained names, and each key holds the text of the last result drained under it |
| Pipeline.DrainTwoSameName | audio2json.go:102-108 | two results under one name leave the later one's text |
| Pipeline.DrainedKeys | audio2json.go:94-108 | in any completion order, the drained names are exactly the basenames of the input paths |
| Pipeline.Output | audio2json.go:94-108 | in any completion order, the keys are exactly the basenames of the inputs, and each key holds the text of the last drained file with that basename |
| Pipeline.DrainedLastWins | audio2json.go:102-108 | when the k-th drained result belongs to path q[k], each key holds the text of the last path in q with that basename |
| Pipeline.Run | audio2json.go:38-108 | aborts iff some path is missing, at a missing path; otherwise completes with the drained output map |
| Pipeline.AbortsAtFirstMissingPath | audio2json.go:38-45 | the abort names the first missing path in input order |
| Pipeline.AbortIgnoresEnvironment | audio2json.go:40-45 | an aborted run does not depend on any probe or transcription outcome, or on the completion order |
| Pipeline.DistinctBasenamesOrderFree | audio2json.go:94-108 | with distinct basenames, each key holds its own file's text in every completion order |
| Pipeline.BasenameCollision | audio2json.go:102-108 | dir1/x and dir2/x leave the single key x, holding the text of the file drained last |
| Pipeline.DirectTranscriptionPassesThrough | audio2json.go:160-175 | `transcribeFile` returns a client reply unchanged |
| Pipeline.ChunkNeverNilText | audio2json.go:209-218 | a chunk transcribed by the client never gets the nil-text error |

## Left out

- ffmpeg and ffprobe calls, their arguments and the `%.2f` formatting (`getAudioDuration`, `extractChunk`, `convertToWav`, `checkFFmpegAndProbe`): these are foreign processes. Their outcomes enter as `FileEnv.probe` and `ChunkRun`.
- `Transcribe` before the retry loop (stat, temporary WAV, conversion, file read, request construction, URL and key) is not modelled. These are file and network I/O. `TranscribeRequest` starts at the retry loop.
- The real `time.Sleep`, the 15-second client timeout and the HTTP transport are I/O. Sleeps are recorded as seconds in `RetryTrace.sleeps`, and each attempt's result is a given `Transport`.
- Temporary chunk files are file-system effects. Their removal after a transcription attempt, and not after an extraction failure, is only noted on `ChunkRun`.
- Goroutines, WaitGroups, channels and the limit of 3 workers per pool are concurrency. The only observable effect, completion order, is a permutation parameter.
- `float64` arithmetic and `Sscanf` parsing are replaced by exact reals. Rounding in `int(duration / chunkDuration)` and in the window bounds is not modelled.
- Transcribe.Retry: requires a sequence of at least three transport outcomes, one per attempt the loop can make.
- Pipeline.Basename: only slash-separated paths are handled, as on Unix. Windows volume names and separators are not modelled.
- `json.Unmarshal` is the `parse` parameter. Its decoding of numbers and escapes is not modelled.
- The `log.Printf` calls for a failed probe and for every failed file are output only. They do not change the result map.
- Go strings are UTF-8 byte strings. The model treats them as sequences of Unicode characters, so `TrimSpace`, `Split` and basenames work on characters. Invalid UTF-8 is not modelled.
- Flag parsing, help text, stdin reading, the empty-input case (the program prints help instead of a map), debug logging and `json.MarshalIndent` output are CLI glue.
