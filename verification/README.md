# DirectPackageInstaller: a verified model

DirectPackageInstaller sends packages from a desktop computer to a console. This project models the parts of it
whose behaviour over whole runs is hard to see from any one function, and proves what they promise:

- **The segmented download** (`Segments`, `SegmentsSafety`, `SegmentReads`, `SegmentRuns`, `SegmentRaces`,
  `SegmentFinish`, `SegmentBounds`, `SegmentProgress`). Several tasks download
  parts of one file into one local file, while a monitor splits segments, slow readers ask for priority, and
  the download may be cancelled. It is a state machine whose steps are the source's critical sections and the
  unlocked reads between them, so a run is any interleaving.
- **The message to the console** (`Wire`, `CStrings`, `Receiver`, `Delivery`). The sender's encoder, the payload's
  decoder on C buffers without explicit terminators, and the icon that is copied through short reads and writes.
- **The payload's service loop** (`Service`, `ServiceTurns`, `ServiceRuns`). Receive, register, register again in debug mode, start or
  report, until a quit or a fatal error, under every behaviour of the registration calls.
- **The stream self-test** (`SelfTest`, `SegmentedSelfTest`). Two hash passes and a chunked comparison, and what the
  comparison says about successive reads of a segmented download.
- **The self-update** (`Paths`, `UpdatePaths`, `SelfUpdate`, `UpdateChain`). Staging under `LastVersion`, finishing from the
  staged copy, the restart, and the clean-up, on path strings and on a disk.

`Bytes` holds little-endian numbers and C strings. Environment objects (`Socket`, `IconFile`, `ByteStream`,
`FileSystem`) answer every call in any way their contract allows; a field named `failed` records that a call has failed.

## Where the code does not keep a promise

Eight statements one would expect are false of the code. For each, the exact condition is proved.

- A segmented download can look finished while bytes are missing: a stretch is counted twice, and the task of
  the newest segment is not in the task list yet. A reader is then given zeros (`PrematureFinish`). When readers may be
  anywhere, reads are right in every run and a download that looks finished is complete exactly when the read buffer has
  no bytes, or the concurrency is zero or less, or both are one (`FinishIff`). The default of 1 MiB and 4 is not among
  them. For a single read, `ReadsAreRight` says when it can be relied on.
- The self-test is the only reader of its downloads, reads them in order, and asks for nothing but the place up to
  which it has seen bytes to be available. It always reports success on a faultless network exactly when the concurrency
  is at most one, or the read buffer has no bytes (`PassesIff`). It uses a concurrency of 4.
- A reader of a cancelled download can wait for ever: while it waits it does not look at the cancellation. Once nothing
  goes on any more, it does so exactly when what it asks for is not all there and the progress is below the size of the
  file (`FrozenWaitsIff`, `CancelStrands`).
- The segments divide the file in every run exactly when the read buffer is at most one byte larger than the
  2 MiB split limit, or the concurrency is at most one (`TilingIff`). Every use in the repository has
  a buffer of 1 MiB, given or by default; the constructor accepts any size.
- `get_string` accepts a string of exactly the buffer's size, which then has no terminator (`StringSurvivesIff`).
- The offset the self-test reports is the first difference exactly unless one stream ends early and the first
  differing byte lies in the chunk of its end (`OffsetIsFirstIff`, `OffsetDependsOnChunk`).
- The program started after an update takes itself for a staged copy again exactly when its file name, behind its
  separator, contains the marker, which takes a backslash on Unix (`RelaunchPendingIff`, `RelaunchFixedPoint`). It then
  copies each file onto itself, which deletes the first one and ends with an exception (`BackslashSelfCopy`, `CopyLoop`).
- The order in which the staging tree is listed is without influence exactly when any two files of the archive, of which
  one is copied onto the other, have equal contents (`OrderFreeIff`, `OrderMatters`).

Where code and comment disagree the code is followed: the field order in `Payload/info.c:132` leaves out the
package type, which is read, and `Payload/info.c:154` compares where it means to assign, without effect, because
the path is already empty then.

## Model

| member | source | states |
|---|---|---|
| SegmentsSafety.CutTiles | DirectPackageInstaller/DirectPackageInstaller/IO/SegmentedStream.cs:182-195 | taking bytes off the end of a segment and making them a new one keeps the file divided: no byte in two segments, none in no segment, lengths adding up to the total |
| SegmentsSafety.PriorityServed | DirectPackageInstaller/DirectPackageInstaller/IO/SegmentedStream.cs:287-323 | a priority request is dropped, and if it opens a segment, that one starts at the requested offset and ends where the incomplete segment around it ended |
| SegmentsSafety.PriorityIff | DirectPackageInstaller/DirectPackageInstaller/IO/SegmentedStream.cs:139-149 | with room for it, a priority request opens a segment exactly when its offset lies inside the file, no incomplete segment starts there, and of the incomplete segments around it the first one with the least offset has not been downloaded that far; it then takes over the rest of that one |
| SegmentsSafety.SplitIff | DirectPackageInstaller/DirectPackageInstaller/IO/SegmentedStream.cs:151-168 | otherwise a segment is chosen exactly when fewer are incomplete than there may be and at least 2 MiB are left of the one with the most left, which is then chosen, the first of several |
| SegmentsSafety.PlanEffect | DirectPackageInstaller/DirectPackageInstaller/IO/SegmentedStream.cs:244-252 | a task ends exactly when its segment is complete or the download cancelled, and otherwise reads the lesser of its buffer and what is left |
| SegmentsSafety.StoreEffect | DirectPackageInstaller/DirectPackageInstaller/IO/SegmentedStream.cs:262-267 | a write changes its own bytes and its own segment, and nothing else |
| SegmentsSafety.SizeEffect | DirectPackageInstaller/DirectPackageInstaller/IO/SegmentedStream.cs:176-177 | what is split off is half of what is left, rounded toward zero, even below zero |
| SegmentsSafety.SplitEffect | DirectPackageInstaller/DirectPackageInstaller/IO/SegmentedStream.cs:182-195 | a split of whatever length ends a segment earlier or later by it, and adds a segment of it right behind |
| SegmentsSafety.CheckEffect | DirectPackageInstaller/DirectPackageInstaller/IO/SegmentedStream.cs:131 | the monitor goes on exactly while the download is not cancelled and the progress below the size |
| SegmentsSafety.RequestEffect | DirectPackageInstaller/DirectPackageInstaller/IO/SegmentedStream.cs:357-367 | of several requests within the file the one with the least offset is kept |
| SegmentsSafety.ActiveIs | DirectPackageInstaller/DirectPackageInstaller/IO/SegmentedStream.cs:141 | the connections counted are the incomplete segments |
| SegmentsSafety.SplitHalves | DirectPackageInstaller/DirectPackageInstaller/IO/SegmentedStream.cs:176-186 | an undisturbed split halves what remains of the segment, and the second half starts where the first ends |
| Segments.Best | DirectPackageInstaller/DirectPackageInstaller/IO/SegmentedStream.cs:153-157 | the segment chosen for splitting is incomplete and none has more left; none is chosen only if all are complete |
| SegmentsSafety.StoreCorrect | DirectPackageInstaller/DirectPackageInstaller/IO/SegmentedStream.cs:262-267 | a task's write makes its bytes agree with the remote file and spoils no byte that agreed |
| SegmentsSafety.StorePossible | DirectPackageInstaller/DirectPackageInstaller/IO/SegmentedStream.cs:252-267 | whatever a task has read lies within the file, even when its segment was shortened meanwhile |
| SegmentsSafety.NextKeeps | DirectPackageInstaller/DirectPackageInstaller/IO/SegmentedStream.cs:127-323 | in a sound configuration every step of every party keeps the invariant: file divided, all downloaded bytes correct, ended tasks complete or cancelled, only the newest segment untracked, the monitor's choice still possible |
| SegmentsSafety.RunKeeps | DirectPackageInstaller/DirectPackageInstaller/IO/SegmentedStream.cs:127-323 | in a sound configuration the invariant holds over every interleaving of any length |
| SegmentsSafety.RunCore | DirectPackageInstaller/DirectPackageInstaller/IO/SegmentedStream.cs:127-323 | in every configuration, over every interleaving: all downloaded bytes are correct, no read in flight can leave the file, every byte is in a segment, ended tasks are complete or cancelled |
| SegmentsSafety.InitInv | DirectPackageInstaller/DirectPackageInstaller/IO/SegmentedStream.cs:104-125 | a new download satisfies the invariant |
| SegmentsSafety.ConnectionsBounded | DirectPackageInstaller/DirectPackageInstaller/IO/SegmentedStream.cs:141-151 | over every run of every configuration the incomplete segments, which is what the monitor counts, number at most the concurrency plus one |
| SegmentRaces.TilingIff | DirectPackageInstaller/DirectPackageInstaller/IO/SegmentedStream.cs:159-195 | the segments divide the file in all runs exactly when the read buffer is at most the split limit plus one, or the concurrency is at most one |
| SegmentRaces.LargeBufferBreaksTiling | DirectPackageInstaller/DirectPackageInstaller/IO/SegmentedStream.cs:176-195 | with any larger buffer there is a run after which two segments overlap |
| SegmentReads.ContiguousAvailable | DirectPackageInstaller/DirectPackageInstaller/IO/SegmentedStream.cs:325-347 | the loop goes from segment to segment, up to the lesser of request and end of the file; in a divided file it returns exactly the length of the gapless run of downloaded bytes at the position |
| SegmentReads.AvailableRunIsGapless | DirectPackageInstaller/DirectPackageInstaller/IO/SegmentedStream.cs:325-347 | going from the end of one segment to the first one around that place finds exactly the gapless run, in a divided file |
| SegmentReads.OneSegmentDecides | DirectPackageInstaller/DirectPackageInstaller/IO/SegmentedStream.cs:325-347 | in a divided file a byte is available exactly when the segment around it has been downloaded past it |
| SegmentReads.AvailableIsCorrect | DirectPackageInstaller/DirectPackageInstaller/IO/SegmentedStream.cs:325-347 | in every configuration, a byte reported available agrees with the remote file |
| SegmentReads.RunMonotone | DirectPackageInstaller/DirectPackageInstaller/IO/SegmentedStream.cs:221-285 | over every run a byte that agrees with the remote file goes on agreeing |
| SegmentReads.ReadLocked | DirectPackageInstaller/DirectPackageInstaller/IO/SegmentedStream.cs:431-444 | the last critical section of a read delivers the local file at the position: in a divided file as many bytes as the gapless available run within the request has, or all that were asked for if that is none; in every configuration all that were asked for when they are available |
| SegmentReads.ReadsAreRight | DirectPackageInstaller/DirectPackageInstaller/IO/SegmentedStream.cs:394-445 | in every configuration, for every state in which a reader stops waiting and every run until it takes its bytes, they are the remote bytes at its position, at least one, provided the wait ended by availability, or something is available, or nothing overshot, or all tasks are tracked and none cancelled |
| SegmentReads.SettledFinishIsComplete | DirectPackageInstaller/DirectPackageInstaller/IO/SegmentedStream.cs:76-78 | a download that looks finished, with all tasks tracked and none cancelled, has every segment complete and the local file equal to the remote one |
| SegmentReads.ProgressExactWithoutOvershoot | DirectPackageInstaller/DirectPackageInstaller/IO/SegmentedStream.cs:65-74 | while no segment was downloaded past its end, the progress reaches the total exactly when all segments are complete |
| SegmentReads.CompletedIsCopied | DirectPackageInstaller/DirectPackageInstaller/IO/SegmentedStream.cs:36-43 | when every segment is complete the local file is the remote file and all of it is available |
| SegmentFinish.FinishIff | DirectPackageInstaller/DirectPackageInstaller/IO/SegmentedStream.cs:65-78 | all reads of all runs deliver remote bytes exactly when the read buffer is empty, or the concurrency is at most zero, or both are one; exactly then a download that looks finished has copied the file |
| SegmentFinish.PrematureFinish | DirectPackageInstaller/DirectPackageInstaller/IO/SegmentedStream.cs:197-219 | in every other configuration there is a run, for every remote file of a certain size, after which the download looks finished and a reader is given a zero byte that was never downloaded |
| SegmentFinish.TruthfulRun | DirectPackageInstaller/DirectPackageInstaller/IO/SegmentedStream.cs:245-267 | in those configurations no run downloads past the end of a segment |
| SegmentFinish.ProgressStep | DirectPackageInstaller/DirectPackageInstaller/IO/SegmentedStream.cs:65-74 | every step changes the progress by exactly the bytes it writes |
| SegmentFinish.FinishedInTwoLooks | DirectPackageInstaller/DirectPackageInstaller/IO/SegmentedStream.cs:76-78 | progress read under the lock and tasks looked at later without it give what a single look at the later moment gives |
| SegmentProgress.StuckIsComplete | DirectPackageInstaller/DirectPackageInstaller/IO/SegmentedStream.cs:221-285 | when no task can take a step and the monitor is not about to start one, a download that was not cancelled is complete |
| SegmentProgress.CanFinish | DirectPackageInstaller/DirectPackageInstaller/IO/SegmentedStream.cs:221-285 | from every state of a download that is not cancelled some run completes it |
| SegmentProgress.FinishableIff | DirectPackageInstaller/DirectPackageInstaller/IO/SegmentedStream.cs:221-285 | a download can complete from every state of every run that is not cancelled exactly when its read buffer is not empty |
| SegmentProgress.ReadersCanBeServed | DirectPackageInstaller/DirectPackageInstaller/IO/SegmentedStream.cs:409-429 | while such a download is not cancelled, no reader is bound to wait for ever |
| SegmentProgress.FrozenWaitsIff | DirectPackageInstaller/DirectPackageInstaller/IO/SegmentedStream.cs:409-429 | when nothing goes on in a cancelled download, a reader waits for ever exactly when its bytes are not all available and the progress is below the size |
| SegmentProgress.CancelStrands | DirectPackageInstaller/DirectPackageInstaller/IO/SegmentedStream.cs:369-429 | every download of a file that is not empty can be cancelled so that all its readers wait for ever |
| SegmentBounds.ReadsBounded | DirectPackageInstaller/DirectPackageInstaller/IO/SegmentedStream.cs:127-285 | in every run of every configuration at most n(n+1)/2 reads deliver something, for a file of n bytes |
| SegmentBounds.ProgressBounded | DirectPackageInstaller/DirectPackageInstaller/IO/SegmentedStream.cs:65-74 | the progress never counts more than n(n+1)/2 bytes |
| SegmentBounds.RunStarts | DirectPackageInstaller/DirectPackageInstaller/IO/SegmentedStream.cs:182-195 | over every run no two segments that are not empty start at one place, and none starts in one that can still be cut, even where segments overlap |
| SegmentReads.ScanProgress | DirectPackageInstaller/DirectPackageInstaller/IO/SegmentedStream.cs:45-63 | the progress is how far the segments reach before the first gap or the first incomplete one, that one included; the local file is right up to there; in a divided file it is at least the gapless available run from the start, and exactly that when nothing overshot; a complete download is scanned to its end |
| SegmentReads.ReachedBy | DirectPackageInstaller/DirectPackageInstaller/IO/SegmentedStream.cs:53-58 | where the scan gets to is the downloaded end of one of the segments it takes in |
| SegmentReads.ReachAtLeast | DirectPackageInstaller/DirectPackageInstaller/IO/SegmentedStream.cs:53-58 | and no earlier than that of any of them |
| Wire.Layout | DirectPackageInstaller/DirectPackageInstaller/Host/PayloadService.cs:66-100 | the message byte by byte: the command 1, address, name, identifier and type behind their lengths, the size in eight bytes, the icon behind its length, all numbers with the lowest byte first |
| Wire.ParseEncoded | DirectPackageInstaller/DirectPackageInstaller/Host/PayloadService.cs:66-100 | decoding a sent message gives back every field, the icon length and the icon's position whatever follows; it is refused exactly when a string is over its cap |
| Wire.RefusedIff | Payload/info.c:100-142 | a message is refused exactly when its address has more than 2048 bytes, its name more than 601, its identifier more than 48 or its type more than 16, and accepted otherwise |
| Wire.EncodeParsed | Payload/info.c:100-166 | every accepted message is, but for the command word, the encoding of what was decoded from it |
| Wire.ParseQuit | DirectPackageInstaller/DirectPackageInstaller/Host/PayloadService.cs:143 | the four zero bytes the sender stops the service with decode to the quit command |
| Wire.StringSurvivesIff | Payload/info.c:34-44 | a received string can be read back from its zeroed buffer exactly when it is shorter than the buffer and free of NULs |
| Bytes.LeRoundTrip | Payload/info.c:15-25 | reading back a little-endian number gives the number |
| CStrings.StrLen | Payload/info.c:27-32 | the loop finds the first NUL |
| CStrings.AppendString | Payload/info.c:46-53 | the new text lies directly behind the old string, and no other byte changes |
| CStrings.AppendKeepsZeroTail | Payload/info.c:46-53 | on a buffer that is zero behind its string, appending is concatenation and the tail stays zero, within the capacity |
| CStrings.AppendIsConcatIff | Payload/info.c:46-53 | on any buffer appending is concatenation exactly when the byte behind the new text already is NUL |
| CStrings.GetFilePath | Payload/info.c:55-62 | the path buffer holds directory and name as written over its old contents |
| CStrings.FilePathAgreesWithConcat | Payload/info.c:55-62 | on a cleared buffer the path is the same C string `concat` builds from directory and name |
| CStrings.Concat | Payload/main.c:25-35 | the output starts with both strings and a terminator, and is unchanged behind it |
| CStrings.Int32ToHex | Payload/main.c:9-23 | the buffer starts with the ten characters of the code and a terminator |
| CStrings.HexTextParses | Payload/main.c:9-23 | the eight upper-case digits parse back to the two's-complement value |
| CStrings.HexTextIs | Payload/main.c:9-23 | the text is "0x" and the eight nibbles of the value from the highest on, as upper-case digits |
| CStrings.CodeRecoverable | Payload/main.c:183-186 | after any prefix, the last eight characters of an error message give back the code |
| Receiver.GetString | Payload/info.c:34-44 | a refused length, a complete string and a stream that ends early each have their result, buffer and rest of the stream |
| Receiver.WriteOut | Payload/info.c:81-89 | under any partial writes the file gains a prefix of the buffer, all of it exactly on success |
| Receiver.CopyIcon | Payload/info.c:72-93 | under any short reads and writes the loop ends, never consumes more than the announced length, and the file holds what was consumed, less only after a failed write; without failure that is the announced length or all that arrived |
| Receiver.GetFile | Payload/info.c:64-97 | no announced icon leaves the path empty and no file; otherwise the path is directory and name, and the icon is saved as by the copy loop |
| Receiver.GetPkgInfo | Payload/info.c:100-166 | the result tells refusal, quit and package apart; parameters stay as they were unless a package arrived, and then every variable one comes from this message |
| Delivery.IconPathFits | Payload/info.c:149-154 | the icon path, "/user/data/tmp_", the identifier and ".png", has at most 66 characters, fits its buffer with a terminator, and is empty exactly when there is no icon |
| Delivery.DeliversPackage | Payload/info.c:132-165 | after receiving a sent package the parameters are exactly that package, and the icon file is the icon, or a prefix of it after a failure |
| Delivery.DeliverableIff | Payload/info.c:100-142 | the packages that Exchange is about: strings of less than 2048, 601, 48 and 16 bytes, none with a NUL |
| Delivery.Exchange | Payload/info.c:100-166 | encoding, receiving and saving put together: every such package arrives, for every read and write schedule of the icon |
| Service.Install | Payload/main.c:148-190 | one package causes the events of the specification, and a fatal result exactly for an unlisted code |
| ServiceTurns.FirstTurn | Payload/main.c:135-190 | the first turn of every run, event by event and with the codes spelled out: quit, error and package, both registrations with their own answers, the start of the stored task or the notice, and what the rest of the run is |
| ServiceTurns.EventsFollow | Payload/main.c:148-190 | over any run, a registration is followed by the start of the task it stored exactly when it stored one and its code is not 0x80990088, otherwise by the debug registration of the same package; that is followed by a start under the same condition, otherwise by the notice belonging to its code |
| ServiceTurns.Endings | Payload/main.c:139-195 | the run returns 0 exactly when its last event is the exit notice, and -1 exactly when it is the notice of a failed reception or of an unlisted code |
| ServiceTurns.FixedParameters | Payload/main.c:119-133 | every registration is made for the user of the run, with entitlement 5 and option 0x10000 |
| Service.Serve | Payload/main.c:135-195 | the loop's exit code and calls are those of the run's specification, for all sessions |
| ServiceRuns.RegistersInOrder | Payload/main.c:137-149 | over any run the parameters registered are, in order, exactly the requests received, each built from its own message alone |
| ServiceRuns.DeliversInOrder | Payload/main.c:137-156 | when successive connections carry sent packages, the installer is handed those packages in order and unmixed, and all of them exactly when no earlier one was fatal |
| ServiceRuns.Accounting | Payload/main.c:148-190 | over any run, started tasks and package notices together are as many as the packages received |
| ServiceRuns.ExitCodes | Payload/main.c:139-195 | the run returns 0 exactly when a quit follows packages none of which was fatal, -1 exactly when anything else ends it, and goes on otherwise |
| ServiceRuns.StartsAreJustified | Payload/main.c:148-161 | every started task is valid, was stored by a registration of the same package, and its latest code is not "already installed" |
| ServiceRuns.FatalErrorsExplained | Payload/main.c:183-190 | a fatal notice ends the run, follows the debug registration that caused it, and spells its code |
| SelfTest.FillBuffer | DirectPackageInstaller/DirectPackageInstaller.Desktop/Program.cs:451-465 | under any short reads the buffer gets the next bytes, fewer than asked only at the end of the stream, and is unchanged behind them |
| SelfTest.HashPass | DirectPackageInstaller/DirectPackageInstaller.Desktop/Program.cs:480-489 | the hash is fed a prefix of the stream, each byte once: the whole of a stream within the announced size, otherwise between that size and one buffer more |
| SelfTest.CompareStreams | DirectPackageInstaller/DirectPackageInstaller.Desktop/Program.cs:522-569 | verdict, flag and offset are a function of the contents, the size and the buffer size, under any read sizes |
| SelfTest.CleanIff | DirectPackageInstaller/DirectPackageInstaller.Desktop/Program.cs:527-569 | no corruption is reported exactly when both streams have the announced size and agree on it |
| SelfTest.OffsetMeaning | DirectPackageInstaller/DirectPackageInstaller.Desktop/Program.cs:534-569 | a reported offset is below the size; it is the least difference, or the end of the shorter stream with equality before its chunk, or the common length of two equal short streams |
| SelfTest.ChunkInfluence | DirectPackageInstaller/DirectPackageInstaller.Desktop/Program.cs:529-540 | the buffer size never decides whether there is corruption, and the exact condition under which it changes the message |
| SelfTest.OffsetIsFirstIff | DirectPackageInstaller/DirectPackageInstaller.Desktop/Program.cs:534-569 | a reported offset is the first difference exactly when the streams look equally long, differ in no byte, or differ in a byte before the chunk in which the shorter one ends |
| SelfTest.OffsetDependsOnChunk | DirectPackageInstaller/DirectPackageInstaller.Desktop/Program.cs:534-554 | two streams for which two buffer sizes report different offsets |
| SelfTest.RunSelfTest | DirectPackageInstaller/DirectPackageInstaller.Desktop/Program.cs:467-588 | the final message is the conjunction of hash and comparison; for streams of the announced size that reopen unchanged it is equality of contents, for any hash |
| SegmentedSelfTest.TrustedReadsInOrder | DirectPackageInstaller/DirectPackageInstaller/IO/SegmentedStream.cs:394-452 | successive reads over a run of the download, each of which can be relied on, deliver the remote file in order |
| SegmentedSelfTest.RightReadsPass | DirectPackageInstaller/DirectPackageInstaller.Desktop/Program.cs:517-569 | what such reads deliver passes the comparison with the remote file exactly when the stream was read to its end |
| SegmentedSelfTest.FinishedReads | DirectPackageInstaller/DirectPackageInstaller/IO/SegmentedStream.cs:394-452 | once a download looks finished, two reads deliver the local file, whatever is in it |
| SegmentedSelfTest.SharedReadsIff | DirectPackageInstaller/DirectPackageInstaller/IO/SegmentedStream.cs:394-452 | successive reads of a download whose other readers may ask for segments always deliver the beginning of the file exactly in the configurations of FinishIff |
| SegmentedSelfTest.PassIsRight | DirectPackageInstaller/DirectPackageInstaller.Desktop/Program.cs:498-533 | a hashing or comparing pass of the self-test that reads to the end of its own download has read the file, with one connection or without a buffer |
| SegmentedSelfTest.PassesIff | DirectPackageInstaller/DirectPackageInstaller.Desktop/Program.cs:467-588 | for any hash and any size of the self-test's buffers, success is reported in every run whose passes reach the end of the file exactly with a concurrency of at most one or without a read buffer |
| SegmentedSelfTest.OwnWaitIff | DirectPackageInstaller/DirectPackageInstaller/IO/SegmentedStream.cs:409-429 | what the self-test's reader may ask for while it waits: exactly a place up to which it saw bytes to be available at some look of that wait |
| Paths.SplitAndCombine | DirectPackageInstaller/DirectPackageInstaller/SelfUpdate.cs:295 | a path as the system reports it is its directory and its file name put together |
| Paths.NormalizeIsNormal | DirectPackageInstaller/DirectPackageInstaller/SelfUpdate.cs:275 | a directory name has canonical separators, none doubled, whatever the path had |
| UpdatePaths.StagingRoundTrip | DirectPackageInstaller/DirectPackageInstaller/SelfUpdate.cs:268-295 | the executable handed back for a staged copy is the one it was staged from exactly when the directory contains no "LastVersion" |
| UpdatePaths.RoundTripReturnsExecutable | DirectPackageInstaller/DirectPackageInstaller/SelfUpdate.cs:220-295 | for reported paths that is the original path itself |
| UpdatePaths.FirstOccurrence | DirectPackageInstaller/DirectPackageInstaller/SelfUpdate.cs:272-274 | the first "LastVersion" of a staged path is the staging directory exactly when the install directory contains none |
| UpdatePaths.StagedWhere | DirectPackageInstaller/DirectPackageInstaller/SelfUpdate.cs:46 | an update is staged in "LastVersion" below the executable's directory, or below the working directory when it has none, under the executable's name |
| UpdatePaths.PendingIff | DirectPackageInstaller/DirectPackageInstaller/SelfUpdate.cs:251-252 | a program is pending exactly when a directory "LastVersion" is on its path, between separators of either kind |
| UpdatePaths.RelaunchPendingIff | DirectPackageInstaller/DirectPackageInstaller/SelfUpdate.cs:251-295 | the restarted program is pending again exactly when its file name behind its separator contains the marker |
| UpdatePaths.RelaunchNotPending | DirectPackageInstaller/DirectPackageInstaller/SelfUpdate.cs:251-295 | without a backslash in the file name the chain finishes the update once |
| UpdatePaths.RelaunchFixedPoint | DirectPackageInstaller/DirectPackageInstaller/SelfUpdate.cs:251-295 | a family of Unix paths that are pending and handed back unchanged |
| SelfUpdate.FileSystem.Delete | DirectPackageInstaller/DirectPackageInstaller/SelfUpdate.cs:313-346 | the file goes, or it stays after ten failed attempts |
| SelfUpdate.CopyLoop | DirectPackageInstaller/DirectPackageInstaller/SelfUpdate.cs:277-293 | the disk afterwards does not depend on which deletions succeed; after a failed copy everything that is no target is unchanged; when no operation fails, the loop fails if an existing file is its own target and succeeds if no file is |
| SelfUpdate.CopyAllOverlays | DirectPackageInstaller/DirectPackageInstaller/SelfUpdate.cs:277-293 | without overlap the disk is the old one overlaid with the staged files, everything else unchanged |
| SelfUpdate.OrderDoesNotMatter | DirectPackageInstaller/DirectPackageInstaller/SelfUpdate.cs:277-293 | for any directories, two listing orders give the same disk when no file is copied onto a staged one; OrderFreeIff has the exact condition for a staged archive |
| SelfUpdate.FinishUpdatePending | DirectPackageInstaller/DirectPackageInstaller/SelfUpdate.cs:232-266 | a staged copy changes nothing; any other program removes the staging tree and the executable under its old name, all of it when no deletion fails; an exception needs a failed deletion and leaves part of the tree, and on Android is swallowed |
| SelfUpdate.CleanUpThread | DirectPackageInstaller/DirectPackageInstaller/SelfUpdate.cs:298-308 | the thread removes the staging tree, or part of it before the fifth failed deletion |
| SelfUpdate.FinishUpdate | DirectPackageInstaller/DirectPackageInstaller/SelfUpdate.cs:268-311 | a staged copy lists the tree it runs in and hands back the path to start, with the disk the copy loop's, or throws with only targets changed, which needs a failed operation or a file that is its own target; any other program hands back nothing and removes the staging tree and the old executable, all of it when no deletion fails and nothing else in any case |
| SelfUpdate.BackslashSelfCopy | DirectPackageInstaller/DirectPackageInstaller/SelfUpdate.cs:268-293 | for a family of Unix paths with a backslash in the file name that are taken for staged copies, each file of their directory is its own target |
| UpdateChain.NoOverlapIff | DirectPackageInstaller/DirectPackageInstaller/SelfUpdate.cs:277-293 | in the ordinary layout no staged file is overwritten exactly when no archive path is "LastVersion", a separator and another archive path |
| UpdateChain.OrderFreeIff | DirectPackageInstaller/DirectPackageInstaller/SelfUpdate.cs:277-293 | for every archive of plain paths, all listing orders of the staging tree give one disk exactly when each path below "LastVersion" has the contents of the path it is copied onto |
| UpdateChain.OrderMatters | DirectPackageInstaller/DirectPackageInstaller/SelfUpdate.cs:277-293 | otherwise there are two listings without repetition that install different contents under one path |
| UpdateChain.MangledName | DirectPackageInstaller/DirectPackageInstaller/SelfUpdate.cs:279-281 | a staged name that starts with a backslash is taken for the name without it, and not installed itself |
| UpdateChain.CopyInstalls | DirectPackageInstaller/DirectPackageInstaller/SelfUpdate.cs:277-293 | whatever the listing order, copying lays the archive over the disk and leaves the staged tree as it is, when nested contents agree |
| UpdateChain.PlanOfStaged | DirectPackageInstaller/DirectPackageInstaller/SelfUpdate.cs:272-275 | the directories a staged copy computes from its own path are those it was staged with |
| UpdateChain.UpdateInstalls | DirectPackageInstaller/DirectPackageInstaller/SelfUpdate.cs:192-296 | the staged copy is pending and hands back the original executable, which is not; after its clean-up the disk is the old installation overlaid with the archive, without staging tree and old executable, for every listing order |
| UpdateChain.UpdatedAt | DirectPackageInstaller/DirectPackageInstaller/SelfUpdate.cs:192-296 | what the updated disk holds below the install directory, path by path: the archive's file, else the old one, and nothing below "LastVersion" |
| UpdateChain.ExecutablesExist | DirectPackageInstaller/DirectPackageInstaller/SelfUpdate.cs:220-266 | the staged copy exists exactly when the archive has a file of the executable's name, and the executable survives the clean-up exactly when it exists and is not named "DirectPackageInstaller.exe" |
| UpdateChain.StaleIsStaged | DirectPackageInstaller/DirectPackageInstaller/SelfUpdate.cs:200-209 | when the old staging tree is removed only in part, the update goes on as if its rest were part of the archive, under the archive's own files |
| UpdateChain.StaleHarmlessIff | DirectPackageInstaller/DirectPackageInstaller/SelfUpdate.cs:200-209 | that rest leaves no trace exactly when each of its files is in the archive, is installed with these contents already, or lies below its own "LastVersion" |
| UpdateChain.RunUpdate | DirectPackageInstaller/DirectPackageInstaller/SelfUpdate.cs:192-296 | the chain run on a disk, with a staging tree that may resist, ends in that installation unless an exception ends it; when no operation fails, it gets to its end exactly when the archive contains the executable, with the old executable gone |

## Left out

- Receiver.Socket.ReadField: a header field arrives whole, or as far as the stream goes; a field cut into several deliveries is not modelled.
- Receiver.GetPkgInfo: excludes an identifier that fills its buffer and an icon length of 2^31 or more, for which the C code has no defined meaning; what a stream cut off inside the header decodes to is left open for the same reason.
- Service.Serve: a run is a finite sequence of sessions, each with a complete header; the text of the fixed notices is named, not spelled out.
- SelfUpdate.CleanUpThread: it runs to its end at once, not beside the program; a directory without files does not exist.
- SelfUpdate.FinishUpdatePending: the program knows its own path; one that does not only answers that nothing is pending.
- UpdateChain.PlainRel: archive paths that start with a backslash, which Unix allows, are outside the theorems on whole updates; what happens to one is MangledName.
- The segmented download as a class: it is modelled on values, as a state machine, because its point is the interleaving of several tasks.
- SegmentsSafety.ConnectionsBounded: a segment that was cut to less than was downloaded of it is complete and not counted, although its task holds a connection until it looks again.
- The list of tasks is looked at without a lock: that this can throw while the monitor changes the list is not modelled.
- The waiting loop of a segmented read and its five-second priority delay: a reader may stop waiting at any time its condition allows. A request for priority may name any offset at any time, since readers may be anywhere and act on an earlier look; only the self-test's own requests are tied to its position and what it has seen.
- Retries, redirects and ranges of the network streams below the segmented download: a read delivers bytes of the remote file, which does not change.
- The lifetime of the payload's local buffers and descriptors, the address patched into the payload, and its foreign calls other than registering and starting.
- Console output of the self-test, its timing, and the hash itself, which is any function of the bytes.
- UNC paths, case-insensitive names and directories of blanks only; search is ordinal.
- Downloading and unpacking the update, killing processes and file permissions.
