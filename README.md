# VkRecorder core in Dafny

VkRecorder records the audio a music player plays and cuts it into one file per track. The model covers its two decision-making parts.

- **The ring-buffer recorder** (`RingBufferRecorder`). A fixed-size byte array holds the last ten minutes of captured PCM audio.
  - Each new chunk is written at the write cursor. The write is split in two when it runs past the end of the array.
  - `MarkSegmentStart` remembers where the current track began.
  - `ExportMarkedSegment` hands the bytes from the mark to the cursor to an MP3 encoder and then to an ID3 tag writer. It reads one slice, or two when the range wraps, and does nothing if the target file exists.
- **The track-boundary state machine** (the `while (true)` loop of `Program.Main`).
  - Every 100 ms the loop reads the player's elapsed-time label, artist and title.
  - It compares them with the previous pass.
  - It decides whether to export the segment just finished, mark a new one, or wait for the next track start.
  - Output names are built by `MakeFilenameSafe`.

Files:

- `wrappers.dfy`: `Option`, standing for C# nullable references.
- `filenames.dfy` (module `FileNames`):
  - `MakeFilenameSafe` as the source's loop; its specification `Sanitized` is a per-character map;
  - the `"{artist}_{title}.wav"` name and the `.mp3` name the loop checks, built with `Path.ChangeExtension`.
- `recorder.dfy` (module `Recorder`): the recorder as a class over an `array<byte>`.
  - `OnDataAvailable` runs its two `Array.Copy` branches as `RingWrite`, a method over the array, the cursor and the filled flag, and then assigns the results to its fields.
  - A ghost `History` holds every byte ever captured, and `MarkedAt` its length at the last mark.
  - `Valid()` ties the array to `History`: position `j % size` holds byte `j` for the last `size` bytes. The cursor is `|History| % size`, and the filled flag means `|History| >= size`.
  - The encoder and the tag writer are function parameters. The files on disk are a set of `FilePath(directory, name)` values.
- `boundary.dfy` (module `Boundary`):
  - `Step`: one pass over Main's loop variables (`State`) and what the pass reads (`Reading`), returning the new variables and the pass's actions (`SetMetadata`, `MarkSegmentStart`, `Export`, `AppendRecorded`);
  - `Run`: the loop over a sequence of passes;
  - `Pass` and `MainLoop`: the loop body and the loop written imperatively, with Main's locals and the early `continue`, proved equal to `Step` and `Run`;
  - the lemmas about identity changes, starts, stalls and the waiting state.
- `session.dfy` (module `Session`): performs the actions on a `RingBufferRecorder`, with recorded.txt as a sequence of lines.

Where the system's documented design and the code differ, the model follows the code:

- The stall debounce is 30 passes.
- The label `"unknown"` is compared like any other string (`UnknownArtistIsAnIdentityChange`).
- A mark equal to the cursor exports an empty segment, not the whole buffer (`SegmentLength`).
- An encoder failure after the output file was created leaves that partial file in place (`EncodingFailed(true)`).

Five behaviours of the code as written are stated as lemmas rather than corrected:

- **Two different names.** The loop checks for `Tracks/{artist}_{title}.mp3` under the application directory. The exporter writes `{artist}_{title}.wav` into the configured tracks directory. The two names never coincide (`CheckedNameIsNotExportedName`), so the loop's existence check never sees a file the exporter wrote. When a pair plays again, the gate still exports it and appends a second audit line (`ExportedFileDoesNotStopExport`). The exporter then finds the `.wav` and reports `SkippedExisting` without encoding anything (`Session.MainPass`).
- **The skip is undone.** When a start is seen for a track whose `.mp3` exists, the pass enters the waiting state and `continue`s without storing the new labels. The next pass that still shows `"0:00"` is then a start again: it leaves the waiting state and marks the segment anyway (`SkipUndoneOnNextPass`).
- **The first pass.** The pass compares with the empty labels Main starts from, so its only possible export is `_.wav` (`FirstPassExportsEmptyPair`).
- **The round trip needs less than a full buffer.** Exporting returns exactly the bytes written since the mark only while fewer than `size` bytes were written (`SegmentRecoversHistory`, `RecordSegment`). After that the mark has been overwritten.
- **The cursor can end at the array's length.** Both `Array.Copy` calls of `OnDataAvailable` stay inside the array for any chunk of up to `size + (size - cursor)` bytes. A chunk longer than the buffer keeps only its last `size` bytes, each at its ring offset. A chunk of exactly `size + (size - cursor)` bytes leaves the cursor at `size`, one past the last index, instead of wrapping it to 0 (`WrittenCursorAtLongestChunk`). Only an even longer chunk makes the second copy throw, and it does so after the first copy has already run.

## Model

| member | source | states |
|---|---|---|
| FileNames.MakeFilenameSafe | VkAudioRecorderCLI/Program.cs:179-186 | the result is the input with every character of Path.GetInvalidFileNameChars() replaced by '_', one invalid character after the other, and every other character kept |
| FileNames.Replace | VkAudioRecorderCLI/Program.cs:183 | String.Replace(char, char): same length, each occurrence of the old character becomes the new one, every other character is unchanged |
| FileNames.InvalidFileNameCharsListed | VkAudioRecorderCLI/Program.cs:181 | the invalid set is exactly the control characters U+0000 to U+001F together with the double quote, < > : * ? \ / and the vertical bar |
| FileNames.SanitizedLength | VkAudioRecorderCLI/Program.cs:179-186 | sanitising keeps the length |
| FileNames.SanitizedHasNoInvalidChar | VkAudioRecorderCLI/Program.cs:179-186 | no invalid file-name character survives sanitising |
| FileNames.SanitizedKeepsValidChars | VkAudioRecorderCLI/Program.cs:179-186 | a character is kept if and only if it is valid; an invalid one becomes '_' |
| FileNames.SanitizedIdempotent | VkAudioRecorderCLI/Program.cs:179-186 | sanitising twice equals sanitising once |
| FileNames.ExtensionDot | VkAudioRecorderCLI/Program.cs:62 | the dot Path.ChangeExtension replaces from, in both directions: a found dot has no later '.', '\' or '/'; when none is found, every '.' in the path is followed later by a '\' or '/' |
| FileNames.ExtensionDotOfSuffix | VkAudioRecorderCLI/Program.cs:62 | in stem + "." + ext, the extension dot is the one after the stem, provided ext contains no dot or separator |
| FileNames.Mp3FileNameSwapsExtension | VkAudioRecorderCLI/Program.cs:59-62 | the name checked in the Tracks folder is safe(artist) + "_" + safe(title) + ".mp3", that is the exported ".wav" name with only its extension changed |
| FileNames.FileNamesAreValid | VkAudioRecorderCLI/Program.cs:126-129 | neither the ".wav" name nor the ".mp3" name contains an invalid file-name character, whatever the artist and title |
| FileNames.CheckedNameIsNotExportedName | VkAudioRecorderCLI/Program.cs:61-62 | for every pair, the name the loop checks differs from the name it hands to the exporter |
| Recorder.RingBufferRecorder.constructor | VkAudioRecorderCLI/RingBufferRecorder.cs:90-123 | with a device: a fresh buffer of averageBytesPerSecond * 600 bytes, cursor 0, not filled, mark 0, empty tags; without one (the exception path): no buffer and no format |
| Recorder.RingBufferRecorder.OnDataAvailable | VkAudioRecorderCLI/RingBufferRecorder.cs:140-166 | for every chunk both copies accept except the longest: the cursor becomes what the source's two branches compute (WrittenCursor), which is (old + n) mod size. The flag becomes true exactly when old + n >= size and never becomes false. Byte i lands at (old + i) mod size; when a chunk longer than the buffer wraps onto itself, the later byte is kept. Positions the chunk does not reach are unchanged. The captured history grows by the chunk |
| Recorder.RingWrite | VkAudioRecorderCLI/RingBufferRecorder.cs:144-164 | the two branches of OnDataAvailable over the array, the cursor and the flag: the chunk is placed at the ring offsets from the cursor, with the later byte kept on overlap, and nothing else changes. The cursor becomes the source's value (WrittenCursor), which is (old + n) mod size, and the flag becomes true exactly when old + n >= size |
| Recorder.ArrayCopy | VkAudioRecorderCLI/RingBufferRecorder.cs:160-161 | Array.Copy: the target range receives the source range, and every other array position is unchanged |
| Recorder.OneCopyPlacesChunk | VkAudioRecorderCLI/RingBufferRecorder.cs:147-155 | a chunk that fits before the end, copied in one piece, lies at the ring offsets from the cursor |
| Recorder.TwoCopiesPlaceChunk | VkAudioRecorderCLI/RingBufferRecorder.cs:157-164 | the split write (the tail up to the end, then the rest from index 0) puts byte i at (old + i) mod size, with the later byte kept when a chunk longer than the buffer overlaps itself, and leaves the rest alone |
| Recorder.RingWriteKeepsHistory | VkAudioRecorderCLI/RingBufferRecorder.cs:144-164 | after a write at the cursor, the array still holds the last size bytes ever captured, each at its index mod size |
| Recorder.WrittenCursorWraps | VkAudioRecorderCLI/RingBufferRecorder.cs:144-164 | below the longest chunk both copies accept, the cursor the two branches compute is (old + n) mod size: the one-copy branch wraps at exactly size, and the split branch yields n - (size - old) |
| Recorder.WrittenCursorAtLongestChunk | VkAudioRecorderCLI/RingBufferRecorder.cs:157-163 | a chunk of exactly size + (size - old) bytes leaves the cursor at size, outside [0, size); for any longer chunk the second copy throws |
| Recorder.RingBufferRecorder.MarkSegmentStart | VkAudioRecorderCLI/RingBufferRecorder.cs:231-238 | the mark becomes the cursor and the mark time becomes now; the buffer, the cursor and the flag are unchanged |
| Recorder.RingBufferRecorder.SetMetadata | VkAudioRecorderCLI/RingBufferRecorder.cs:243-248 | sets title, artist and cover image and changes nothing else |
| Recorder.Segment | VkAudioRecorderCLI/RingBufferRecorder.cs:197-205 | the read from start to end: end - start bytes when start <= end, else size - start + end; byte i is data[(start + i) mod size] |
| Recorder.SegmentLength | VkAudioRecorderCLI/RingBufferRecorder.cs:189-205 | the segment has (end - start) mod size bytes, and start == end gives the empty segment |
| Recorder.SegmentRecoversHistory | VkAudioRecorderCLI/RingBufferRecorder.cs:189-205 | while fewer than size bytes have been captured since the mark, the marked-to-cursor read is exactly those bytes in order |
| Recorder.RingBufferRecorder.ExportMarkedSegment | VkAudioRecorderCLI/RingBufferRecorder.cs:168-225 | every outcome except an exception from creating the directory. No buffer: nothing happens. File exists: no encoder or tag call. Otherwise the encoder gets the marked range with the device format. An encoder failure skips tagging and leaves a file only if it was created. Tags use the current title, artist and cover, and a tag failure keeps the file. With fewer than size bytes since the mark, the encoded bytes are those written since the mark |
| Recorder.DeliverChunks | VkAudioRecorderCLI/RingBufferRecorder.cs:140-166 | the device delivering chunks one by one appends their concatenation to the captured history and keeps the buffer invariant |
| Recorder.RecordSegment | VkAudioRecorderCLI/RingBufferRecorder.cs:189-205 | mark, chunks totalling fewer than size bytes, export: unless the file exists, the encoder receives exactly the concatenation of the chunks in order |
| Boundary.Pass | VkAudioRecorderCLI/Program.cs:39-175 | one pass of the loop body over Main's locals, including the early continue, computes exactly Step |
| Boundary.MainLoop | VkAudioRecorderCLI/Program.cs:25-176 | the initialisations and the loop over a sequence of readings compute exactly Run from the initial state |
| Boundary.TrackFileName | VkAudioRecorderCLI/Program.cs:126-128 | the name built in the loop is safe(artist) + "_" + safe(title) + ".wav" |
| Boundary.ExportIfDueAt | VkAudioRecorderCLI/Program.cs:129-145 | the existence check on the ".mp3" name and the ≥ 15000 ms check, in that order, as the loop performs them |
| Boundary.ExportIfDueContents | VkAudioRecorderCLI/Program.cs:64-77 | the gate exports and logs the pair exactly when its ".mp3" is absent and the duration is at least 15000 ms (so 15000 is exported, 14999 is not); a skipped or too-short segment appends no line |
| Boundary.ExportedFileDoesNotStopExport | VkAudioRecorderCLI/Program.cs:59-74 | a ".wav" already present under the pair's name changes nothing in the gate: it still exports and appends the audit line, since only the ".mp3" name is checked |
| Boundary.IdentityChangeExportsPrevious | VkAudioRecorderCLI/Program.cs:51-77 | on a new artist or title while not waiting, the export is attempted under the previous pair's name, and happens exactly when that .mp3 is absent and the duration is at least 15000 ms, with its audit line |
| Boundary.IdentityChangeResetsCounters | VkAudioRecorderCLI/Program.cs:51-82 | after an identity change while not waiting, the segment clock restarts at now and the duration counter at 0. The unchanged counter restarts, cleared or at 1 after this pass's stall check, and the elapsed counter is 0 or 100 depending on a start |
| Boundary.StartMarksSegment | VkAudioRecorderCLI/Program.cs:84-107 | a transition into "0:00" for a track whose .mp3 is absent calls SetMetadata(title, artist) and then MarkSegmentStart after any identity-change export, and resets every counter and the start time |
| Boundary.KnownTrackSkipped | VkAudioRecorderCLI/Program.cs:84-96 | a transition into "0:00" for a track whose .mp3 exists enters the waiting state with no mark, and the previous labels are not overwritten |
| Boundary.SkipUndoneOnNextPass | VkAudioRecorderCLI/Program.cs:155-169 | after that skip, a next pass still showing "0:00" is a start again: it leaves the waiting state and tags and marks the segment |
| Boundary.StallCounting | VkAudioRecorderCLI/Program.cs:115-151 | while not waiting, an unchanged label increments the counter (from 0 after an identity change), any change resets it to 0, and waiting begins exactly when it reaches 30 |
| Boundary.StallExportsCurrentTrack | VkAudioRecorderCLI/Program.cs:118-145 | the pass that reaches 30 enters waiting and exports the current pair exactly when its .mp3 is absent and the duration is at least 15000 ms, with no mark |
| Boundary.WaitingPass | VkAudioRecorderCLI/Program.cs:153-169 | while waiting, only a "0:00" after a different label does anything: it leaves waiting, resets the counters and the start time, and tags and marks with no existence check. Any other pass acts on nothing and changes only the duration counter, which grows by 100, and the three labels, which take the pass's values |
| Boundary.AtMostOneExportPerPass | VkAudioRecorderCLI/Program.cs:49-152 | a pass exports at most one segment, appends exactly one audit line per export, and every export is immediately followed by its line |
| Boundary.FirstPassExportsEmptyPair | VkAudioRecorderCLI/Program.cs:25-35 | the initial labels are "", so the first pass with any artist or title takes the identity-change path, and its only possible export is "_.wav" |
| Boundary.UnknownArtistIsAnIdentityChange | VkAudioRecorderCLI/Program.cs:51 | an artist changing to "unknown" is an ordinary identity change that exports the previous track when due |
| Boundary.QuietWhileWaiting | VkAudioRecorderCLI/Program.cs:153-170 | once waiting, passes with no transition into "0:00" produce no action and keep waiting |
| Boundary.WaitingEndsAtNextStart | VkAudioRecorderCLI/Program.cs:155-169 | after entering waiting, the first actions are the SetMetadata and MarkSegmentStart of the next start, so a stall export fires at most once per start |
| Boundary.ExportsPrecedeChanges | VkAudioRecorderCLI/Program.cs:51-150 | in every pass, each export comes before the pass's SetMetadata and MarkSegmentStart: the identity-change export comes first, and a stall export never shares a pass with a start, because a start shows "0:00", which differs from the previous label |
| Boundary.RunLogsEveryExport | VkAudioRecorderCLI/Program.cs:68-74 | over any run, every export call is followed by exactly one audit line, every audit line follows an export, and there is at most one export per pass |
| Session.Perform | VkAudioRecorderCLI/Program.cs:64-106 | performing actions on the recorder. The lines appended are the audit lines in order. The i-th export goes to the file named by the i-th Export action, and every encoder and tag call it makes targets that file. It reports NoBuffer exactly when there is no buffer, and SkippedExisting exactly when its file was present before it. Exactly those two outcomes make no call. Otherwise the export calls the encoder, then the tag writer exactly when the encoder succeeded, and its outcome is the encoder's failure, with or without a partial file, or the tag writer's result. The files afterwards are the initial ones plus exactly those the exports created. Every export ahead of the first SetMetadata or MarkSegmentStart encodes the segment that was marked when the actions began, in the device format, and tags it with the title, artist and cover the recorder had then. The tags afterwards are those of the last SetMetadata, with no cover image. After a MarkSegmentStart the mark is the cursor; otherwise mark and tags are unchanged |
| Session.PerformAction | VkAudioRecorderCLI/Program.cs:64-106 | one action on the recorder: SetMetadata sets the tags with no cover, MarkSegmentStart marks at the cursor, Export exports under its own file name with ExportMarkedSegment's outcome and files: no call exactly when there is no buffer or the file exists, otherwise the encoder, then the tag writer exactly when encoding succeeded, with the outcome they decide. It encodes the marked segment in the device format and tags with the current title, artist and cover. AppendRecorded yields its line; each leaves everything else unchanged |
| Session.MainPass | VkAudioRecorderCLI/Program.cs:37-176 | one pass with its effects. The new loop variables are Step's. The recorder receives at most one export, under the file name Step chose, and one audit line per export. That export is skipped exactly when the file already exists, and the audit line is appended anyway. It creates that one file or none. Unless there is no buffer or the file exists, it calls the encoder on the segment marked before the pass, then the tag writer exactly when encoding succeeded, and the outcome is what they reported. It tags with the title, artist and cover the recorder had before the pass. Afterwards the tags are those of the pass's SetMetadata and the mark is at the cursor after a start; otherwise both are unchanged |
| Session.PerformPass | VkAudioRecorderCLI/Program.cs:64-106 | the actions of one pass, with at most one export that comes before any tagging or marking: the same outcome, calls, file, segment and tags as in MainPass, stated over the actions |

## Left out

- Capture is left out because it is device I/O: WASAPI loopback capture, the `DataAvailable` event wiring, `StartRecording`, `Dispose` and the 10-second RAM check timer. `OnDataAvailable` is a method called with the chunk's bytes.
- MemoryHelper.cs is not part of this model. The `availableMb >= 1024` check decides whether recording starts. `CheckRamUsage` repeats it every 10 seconds and disposes the recorder when it fails, which stops capture in the middle of a run. In the model, a recorder that never started or was stopped is one whose `OnDataAvailable` is no longer called.
- `lock` regions are left out: every operation is sequential and atomic.
- LAME and TagLib are foreign libraries and are left out. They are the `encoder` and `tagWriter` parameters, and their exceptions are the failure results.
- The metadata fetcher (Selenium) and the JSON configuration are left out. Readings and the tracks directory are inputs.
- Logging and `Thread.Sleep` are left out. `Directory.CreateDirectory` is taken to succeed. `File.AppendAllText` is the sequence of lines appended to recorded.txt. `File.Exists` is membership in a set of files, and `Path.Combine` is the `FilePath(directory, name)` pair.
- Time is an integer number of milliseconds, for both `DateTime.UtcNow` and the `TotalMilliseconds` double.
  - Boundary.Pass reads the clock once per pass. The source reads it separately, microseconds apart, for the duration and for the new start time.
- Boundary.Pass: the counters are unbounded integers. The source's `int` counters that add 100 per pass would wrap after about 24.8 days without a reset.
- The `millisecondsSinceStart % 1000 == 0` check only controls logging and is left out.
- Recorder.RingBufferRecorder.constructor: requires a positive byte rate with rate * 600 within `int` range. Also not modelled: the constructor failing after the format was read but before the buffer was allocated, which leaves a format with no buffer.
- Recorder.RingBufferRecorder.OnDataAvailable and Recorder.RingWrite: require a chunk shorter than `size + (size - cursor)`. The source also accepts a chunk of exactly that length, which leaves the cursor at `size` (`WrittenCursorAtLongestChunk`). The model excludes it because that state breaks the invariant that the cursor is `|History| mod size`. A longer chunk makes the second `Array.Copy` throw after the first copy has run, and that exception path is not modelled.
- Recorder.RingWrite: its contract does not cover the chunk of exactly `size + (size - cursor)` bytes. The source accepts it and leaves the cursor at `size`. `WrittenCursorAtLongestChunk` states that value for the source's arithmetic, but no method writes it into the array.
- Recorder.DeliverChunks: requires every chunk to be at most the buffer size. That bound holds wherever the cursor is, unlike `OnDataAvailable`'s bound, which depends on the cursor. `RecordSegment` only requires its chunks to total fewer than `size` bytes, which implies the per-chunk bound (`ChunkWithinConcat`).
- Recorder.RingBufferRecorder.ExportMarkedSegment: assumes that `Directory.CreateDirectory(outputDir)` (RingBufferRecorder.cs:178-179, before the `try`) succeeds. So does every audit line's `File.AppendAllText` (Program.cs:73 and 140). When one of them throws (for an empty or invalid directory name, say), nothing catches it and Main ends. The model has no such outcome.
- Recorder.RingBufferRecorder.ExportMarkedSegment: the round-trip clause covers only exports with fewer than size bytes since the mark. Beyond that the encoder receives the marked-to-cursor range of the array, which the clause relating `calls[0]` to `MarkedBytes()` states.
- `_segmentStartTime` is stored by `MarkSegmentStart`, but no modelled operation reads it.
