# wlog, modelled and proved in Dafny

wlog is a Go library for structured ("wide event") logging. This project models the parts of it
that make promises over many steps, and proves what those parts keep:

* **The audit journal** (`GoBytes`, `Tree`, `ChainField`, `Chain`, `HeadUnique`, `ChainMeaning`,
  `Sealing`, `Journal`, `JournalRuns`, `JournalKeeps`, `JournalMarkers`, `JournalLaws`): a hash-chained, optionally signed
  file of JSON lines, with markers, recovery after a death of the process, and an independent
  verifier. Byte searches, covered bytes, line splitting and tail repair are modelled byte for
  byte.
* **Audit patches and diffs** (`Keys`, `Pointer`, `Patch`, `PatchProof`, `PatchOrder`, `PatchMasks`,
  `PatchSecrets`, `Diff`): the operations between two event trees, against sections 4.1 to 4.3 of
  RFC 6902 and sections 3 and 4 of RFC 6901.
* **The batching pipeline, the fan-out and the writer** (`Retry`, `RetryCalls`, `Backoff`,
  `PipelineRuns`, `PipelineEvictions`, `PipelineProgress`, `PipelinePromises`, `PipelineOrder`,
  `FanOut`, `FanOutPromises`, `EventWriter`, `EventWriterPromises`): `sendBatch` and `dropPartial` as
  methods, and the concurrent parts as atomic steps over every interleaving.
* **Senders that split a batch** (`CloudWatch`, `CloudWatchSend`, `CloudWatchFates`, `Splunk`,
  `SplunkSlices`, `SplunkSend`, `SplunkRepeats`, `SplunkAnswers`): chunks, halves, and the fate of each event as the
  pipeline reads it. The backend is an oracle that may answer anything.
* **Tree transformations** (`TreePaths`, `Flatten`, `FlatPlaces`, `FlatWalks`, `FlatOrder`,
  `FlatPreset`, `Sizes`, `SizeTrim`, `FinalizeNotes`, `Tokens`, `KeyMatch`, `KeyCut`, `Redaction`,
  `Redactor`, `Denials`): dotted keys and back, the size cap, and redaction.
* **Smaller cores** (`Rotation`, `RotationRuns`, `RotationBatch`, `Pricing`, `Ring`).

`dafny verify dfyconfig.toml` checks everything.

## How the library functions are treated

SHA-256, HMAC, JSON encoding and decoding, glob matching, value patterns and the letter tests of
Go's `unicode` package are function parameters. Nothing is assumed of them except where a lemma
asks for it in a `requires`:

* `HeadUnique.Apart`, `JournalRuns.TearApart` and `Sealing.SealApart` ask that SHA-256 does not
  collide on the covered lines at hand. Injectivity on all byte strings would be a false assumption.
* `Sealing.JsonLaws` asks that an encoded object has no raw newline, decodes to what was encoded,
  shows the bytes `"name":` only where a key ends in that name, and that decoding does not depend
  on which hex digits a chain value has. `JournalLaws.LawsCanHold` gives an encoding that meets
  these laws and under which a given event is sealed, so they do not exclude one another.
* `Tokens.Sound` asks that lowercasing makes no space, and `KeyCut.Usual`, for the example keys, that the
  letters a to z are no upper-case letters and stay as they are.

## Where the code does not do what it, or its documentation, says

Each of these is a lemma below, with the exact condition where there is one.

* `audit/journal.go:365-372`: recovery of a whole line that lost its newline appends the line a
  second time, because the file is open with `O_APPEND`. The file is refused from then on. This
  happens exactly when the newline alone was lost (`JournalRuns.ReopenAfterDeath`,
  `JournalRuns.LostNewlineBreaks`).
* `audit/journal.go:256-288`: seal takes an event that uses the chain's own keys, and its line does
  not verify or is counted differently (`JournalRuns.RecordExactly`,
  `JournalLaws.SealedAndUnsafe`, `Sealing.StraySignatureBreaks`).
* `audit/patch.go:42-44`: a redacted patch does carry a secret, inside an object or an array that
  is written whole, because only the operation's own path is asked about
  (`PatchMasks.ExposesExactly`, `AddedObjectKeepsSecret`, `AddedArrayKeepsSecret`), and where
  `DeniesPath` misses what `Apply` hides (`PatchSecrets.LeaksExactly`, `PinIsCarried`).
* `audit/patch.go:16`: a null value is left out of the encoded operation, which then is no add or
  replace of RFC 6902 (`PatchMasks.EncodesExactly`, `AddedNullHasNoValue`).
* `pipeline/pipeline.go:442-470`: the doubling that stops at `1<<30` does overflow a duration
  (`Backoff.BaseMeaning`, `Backoff.DoublingOverflows`).
* `pipeline/pipeline.go:509-510`: Flush does not wait for a batch that was taken and is not being
  sent yet, because taking and sending are under different locks (`PipelinePromises.FlushSettles`,
  `FlushWaits`, `FlushMissesTakenBatch`), and once Close has begun it does not wait at all
  (`FlushReturnsWhileSending`).
* `pipeline/pipeline.go:528-530`: a Send that passed the closed check can append after the last
  flush of Close, and its event stays in the buffer (`PipelinePromises.StrandsExactly`,
  `StuckForGood`, `LateSendIsStranded`).
* `writer.go:157-163`: eviction can take a flush or stop marker and counts it as a line
  (`EventWriter.DroppedCountsLines`, `MarkerCanBeEvicted`); `writer.go:213-214`: a line can be queued
  behind the stop marker, and is lost without being counted, as is a line that `write` refuses
  (`EventWriter.LostExactly`, `LinesAddUp`, `LineBehindStop`).
* `drain/splunk/splunk.go:232-250`: "the chunks that landed must not be sent again" does not hold
  for a half that landed before a retryable fault (`SplunkRepeats.RepeatsExactly`,
  `LandedHalfIsSentAgain`), nor after a plain fault or an event that cannot be encoded
  (`SplunkRepeats.WholeBatchRepeats`, `EncodeFailure`, `LandedBeforeUnencodable`).
* `drain/cloudwatch/cloudwatch.go:169-215`: a fault that is not retryable makes the answer one error
  for the batch, whatever landed before it (`CloudWatchFates.LandedIsLost`, `LandedThenFault`).
* `preset/flat.go:33-51`: the output can depend on map order and lose a field, when keys hold dots
  (`FlatPlaces.KeepsExactly`, `FlatOrder.OrderDecidesExactly`, `FlatPlaces.OrderDecides`).
* `stages.go:221-266`: the cap is measured before the two notes on what was removed are written
  (`FinalizeNotes.SentWithinCap`, `SentOverCap`), and the count of earlier drops is lost, because
  the redactor has made it an `int64` (`redact/redact.go:447-448`) and finalizeSize reads an `int`
  (`FinalizeNotes.DropsJoin`, `RedactedDropsAreLost`).
* `redact/redact.go:61-69`: the tail of a long key can change a match, both ways, because only the
  first 256 bytes are looked at (`KeyCut.CutChangesAnswer`, `PasswordBehindCut`,
  `PasswordlessIsMatched`).
* `redact/redact.go:572-586`: `DeniesPath` misses values that `Apply` hides, below a dotted entry or by
  a glob on one name (`Denials.DeniesPathMisses`, `WithinCutMisses`, `BelowDottedEntry`,
  `GlobOnName`), and denies values that `Apply` shows, when an entry stands across several names
  (`Denials.DeniesShown`, `ApiKeyAcrossNames`).
* `drain/file/rotate.go:14-30`: a rotation that fails leaves the sender without a file for good; the
  reopening in `rotateIfNeeded` is behind a test that no caller passes
  (`RotationRuns.FailedRotationIsFinal`, `RotationRuns.LosesFile`).
* `drain/file/file.go:220-222`: after a write that lands in part, the next batch continues the torn
  line (`RotationRuns.TornExactly`, `RotationRuns.TornContinues`).
* `llm/price.go:157-162`: a product over 64 bits wraps, and the wrapped price is added again each
  time the event is priced (`Pricing.MicrosRounds`, `Pricing.PricingTwice`,
  `Pricing.LargeRecordWraps`).

## Model

| member | source | states |
|---|---|---|
| ChainField.ChainValueMeaning | audit/journal.go:293-311 | A chain value is read exactly when its name occurs once in the raw bytes, followed by 64 hex digits and a quote; the value and offset read are those |
| ChainMeaning.FieldExactly | audit/journal.go:293-311 | A value v is read at an offset if and only if the quoted name, a colon and a quote stand once in the line, right before it, v is 64 characters of 0-9, a-f and A-F, and a quote follows |
| ChainField.TwiceIsDuplicate | audit/journal.go:293-311 | A field that occurs twice is never read |
| ChainField.CoveredBytes | audit/journal.go:315-323 | The loop returns a fresh copy with 64 zeros at each offset, and leaves the line alone |
| ChainField.PatchInPlace | audit/journal.go:274-286 | Writing a value into the encoded line in place changes those 64 bytes and no other |
| ChainField.SameFields | audit/journal.go:293-323 | Changing the digits inside one chain value moves no chain field: both lines show the same fields at the same offsets |
| Chain.Verify | audit/verify.go:28-64 | Valid exactly when every line continues the chain; otherwise the line named is the first that does not; empty exactly for an empty file |
| Chain.Replay | audit/journal.go:402-417 | The recovery loop reads the count and head that its fold over the lines defines, or fails |
| ChainMeaning.AcceptsExactly | audit/verify.go:28-113 | Said of each line and the lines before it, without a walk: the file is accepted if and only if every line holds the SHA-256 of its own bytes with its chain values zeroed, under a key the HMAC of that hash, and the hash of the line before it, and every marker the number of records, the head and the key before it; count and head are those of all lines |
| ChainMeaning.FalseMarkerIsRefused | audit/verify.go:151-165 | A marker with another count, head or key makes the file refused, whatever follows |
| Chain.ReplayAgrees | audit/journal.go:402-417 | On every file Verify accepts, recovery reads Verify's own count and head |
| Chain.Seal | audit/journal.go:256-288 | Sealing in place gives the line and hash of the sealing function, or refuses |
| ChainMeaning.SealsExactly | audit/journal.go:256-288 | An event is sealed if and only if it can be encoded with the previous hash and 64 zeros for each chain value added, and those zeros are found in its line; the line is the encoded one with its hash and, under a key, the HMAC of the hash in their place |
| Sealing.SealedDecodes | audit/journal.go:256-288 | A sealed line decodes to the previous hash and the marker that were encoded, and holds no newline |
| Sealing.SealedChecks | audit/verify.go:70-113 | A sealed line passes checkLine with its own hash, with and without a key |
| Sealing.StraySignatureBreaks | audit/journal.go:256-288 | Without a key, an event that shows a signature gives a line checkLine refuses |
| HeadUnique.CoveredKeepsFields | audit/verify.go:70-113 | Covering a line keeps both chain fields where they were |
| HeadUnique.UncoverLine | audit/verify.go:70-113 | Covered bytes and hash value determine every byte of a line but the signature value |
| HeadUnique.SameHashSameLine | audit/verify.go:70-113 | Two intact lines of one hash are equal: in every byte under a key, otherwise up to the signature value; and they name the same previous hash |
| HeadUnique.FoldLast | audit/verify.go:28-64 | An accepted chain ends in its last line's hash, and only the empty chain ends in the empty hash |
| HeadUnique.ChainsEqual | audit/verify.go:28-64 | Two accepted chains with one head have the same lines |
| HeadUnique.AcceptedTrim | audit/verify.go:121-138 | An accepted file ends in at most one newline and has no empty line |
| HeadUnique.HeadExactly | audit/verify.go:121-138 | VerifyHead accepts a file for a head if and only if Verify accepts it and its chain ends in that head |
| HeadUnique.HeadNamesOneFile | audit/verify.go:121-138 | Two files VerifyHead accepts for one head are equal byte for byte up to the final newline under a key, and up to signature values without one |
| Journal.Journal.EnsureOpen | audit/journal.go:326-386 | Opening, tail repair and resuming leave exactly the disk, partial file, count and head of the Open specification |
| Journal.Journal.AppendLine | audit/journal.go:223-237 | Appending leaves exactly the state of the Append specification |
| Journal.Journal.WriteMarker | audit/journal.go:242-248 | A marker states the journal's own count, head and key |
| Journal.Journal.SendEvent | audit/journal.go:98-114 | Opening, the record, and a marker at every hundredth record, in this order |
| Journal.Journal.CloseFile | audit/journal.go:137-154 | Closing writes a last marker only for a journal that is open and has records |
| JournalRuns.SplitAtTail | audit/journal.go:391-397 | splitTail recovers a terminated body and the unterminated tail behind it |
| JournalRuns.OpenRestores | audit/journal.go:326-386 | After a torn write, opening cuts the tail, keeps it in the partial file, and resumes with Verify's own count and head |
| JournalRuns.MarkerIsSafe | audit/journal.go:242-248 | The journal's own marker always says what checkMarker wants |
| JournalRuns.SealedSteps | audit/journal.go:223-288 | The sealed line is the next line Verify steps over; the count grows for a record and not for a marker |
| JournalRuns.AppendKeeps | audit/journal.go:98-114 | A record that leaves the chain's own keys alone keeps the file good |
| JournalRuns.UnsafeRecordBreaks | audit/journal.go:223-288 | A record that uses those keys leaves a file Verify refuses or counts differently |
| JournalRuns.RecordExactly | audit/journal.go:223-288 | A written record keeps the file good if and only if it leaves the chain's own keys alone |
| JournalLaws.LawsCanHold | audit/journal.go:256-288 | For every event there is an encoding that meets the JSON laws and under which seal takes the event |
| JournalLaws.SealedAndUnsafe | audit/journal.go:87-114 | An audit event with a marker of its own, sent first, that is sealed and leaves the file not good |
| JournalRuns.MarkerKeeps | audit/journal.go:242-248 | A marker keeps the file good |
| JournalRuns.TornIsBroken | audit/verify.go:70-113 | No proper prefix of an intact line is intact |
| JournalRuns.DieKeeps | audit/journal.go:223-237 | A death that leaves any prefix of the last line, except the line without its newline, leaves a file recovery restores |
| JournalRuns.DoubledIsBroken | audit/journal.go:354-386 | A line written twice in a row is refused as holding two hashes |
| JournalRuns.LostNewlineBreaks | audit/journal.go:354-386 | The line without its newline is written a second time by recovery; Verify refuses the file and no later open works |
| JournalRuns.ReopenAfterDeath | audit/journal.go:354-386 | After a death in a write, reopening leaves an empty or accepted file if and only if it was not exactly the newline that was lost |
| JournalMarkers.RecordLine | audit/journal.go:223-237 | A record adds one line, in which a reader sees no marker |
| JournalMarkers.MarkerLine | audit/journal.go:242-248 | A marker adds one line, in which a reader sees the journal's own count, head and key |
| JournalMarkers.SendMarks | audit/journal.go:98-114 | A send keeps the lines it finds, adds its record, and adds a marker with the new count exactly at every multiple of one hundred |
| JournalMarkers.CloseMarks | audit/journal.go:137-154 | A close adds a marker with the final count, or no line exactly when the journal was not open, had no record, or could not encode it |
| JournalRuns.StepKeeps | audit/journal.go:98-154 | Every step, sends, closes and deaths, keeps the journal invariant |
| JournalRuns.EveryRunVerifies | audit/journal.go:98-386 | After every run of these steps from an empty file, the next open succeeds, Verify accepts the file or it is empty, and the object holds Verify's count and head |
| JournalRuns.EveryRunHead | audit/verify.go:121-138 | After every such run VerifyHead accepts the non-empty file for the head the object holds, and for no other |
| JournalKeeps.StepKeepsBytes | audit/journal.go:98-154 | No send, close or death changes or removes a byte of the file, except that recovery moves an unfinished last line to the end of the partial file; only a send leaves the journal open |
| JournalKeeps.DeathAdds | audit/journal.go:223-237 | A death in a write leaves the first k bytes of the line and its newline behind the file |
| JournalKeeps.LinesStay | audit/journal.go:98-386 | Over every run a finished line stays where it is in the file |
| Keys.SortStrings | audit/patch.go:69-97 | The sorted keys of a map |
| Keys.SortedInOrder | audit/patch.go:69-97 | Sorted keys are in byte order |
| Pointer.PathSegmentsInPlace | audit/patch.go:112-118 | Splitting and unescaping in place gives the path's segments |
| Pointer.EscapeRoundTrip | audit/patch.go:121-128 | Every key survives escaping and unescaping, and an escaped key holds no slash (section 3 of RFC 6901) |
| Pointer.PointerRoundTrip | audit/patch.go:112-128 | Every non-empty key list is read back from the path built for it |
| Patch.BuildPatch | audit/patch.go:69-97 | The loop and recursion build the list of operations the specification defines, in key order |
| PatchProof.ReadObject | audit/patch.go:69-118 | Reading the pointers of a patch gives back the key paths it was built at |
| PatchProof.ApplyObject | audit/patch.go:69-97 | Applying the edits of an object turns it into the wanted one |
| PatchOrder.WantedIsAfter | audit/patch.go:48-65 | Without a redactor the wanted object is after |
| PatchOrder.PatchApplies | audit/patch.go:48-65 | Applying Patch(before, after) to before gives exactly after, and with a redactor after with its masks (section 4 of RFC 6902) |
| PatchOrder.OnlyDeniedDiffers | audit/patch.go:101-109 | With a redactor the result differs from after only at, above or below a denied path |
| PatchOrder.DeniedIsMasked | audit/patch.go:101-109 | An operation whose own path is denied carries the mask; nothing is said of what stands inside a value at a path that is not denied |
| PatchMasks.WritesExactly | audit/patch.go:69-109 | The adds and replaces are exactly the places where after differs below objects both sides have, each with the value of after or the mask |
| PatchMasks.CarriesExactly | audit/patch.go:69-109 | Whatever names are secret: a patch carries a value with such names, in objects or arrays, if and only if it stands at or inside a changed place that is not denied |
| PatchMasks.ExposesExactly | audit/patch.go:69-109 | A patch carries a denied value if and only if a changed place that is not denied holds, inside an object or an array, a denied value other than the mask |
| PatchMasks.AddedObjectKeepsSecret | audit/patch.go:42-44 | From {} to {user: {password: s}}, with user.password denied and user not, the patch is one add of /user that carries s |
| PatchMasks.AddedArrayKeepsSecret | audit/patch.go:42-44 | From {} to {users: [{password: s}]}, with users.password denied and users not, the patch is one add of /users that carries s |
| PatchSecrets.LeaksExactly | audit/patch.go:99-109 | Under the redactor as it is: a patch carries a value that Apply hides if and only if, at a changed place DeniesPath does not deny, an entry is masked out of its sight, or one inside the value is masked |
| PatchSecrets.PinIsCarried | audit/patch.go:99-109 | With the one dotted entry user.secret, a replace of /user/secret/pin carries the pin, which Apply hides |
| PatchMasks.EncodesExactly | audit/patch.go:13-17 | Every encoded operation has what RFC 6902 asks of it if and only if no changed place that is not denied becomes null |
| PatchMasks.AddedNullHasNoValue | audit/patch.go:13-17 | From {} to {a: null}: one add of /a, encoded without a value |
| PatchOrder.PathsApart | audit/patch.go:69-97 | No operation of a patch has an empty path, and of two operations neither path equals or begins the other |
| PatchOrder.Commute | audit/patch.go:69-97 | Two edits on unrelated paths commute, failures included |
| PatchOrder.PatchAppliesInAnyOrder | audit/patch.go:48-97 | Every reordering of the operations still turns before into after |
| Diff.BuildDiff | audit/diff.go:58-92 | The diff does not depend on the order of the map |
| Diff.DiffSays | audit/diff.go:58-80 | Place by place below objects both trees have: where the values differ and are not both objects, the diff holds there exactly before's value under from and after's under to, null for a missing key; where they are equal it holds nothing, and there is no other entry |
| Diff.DiffTellsAfter | audit/diff.go:58-80 | Where the diff has an entry, before's value stands under its from and after's under its to; where it has none, before and after hold the same there, a missing key read as null |
| Diff.DiffEmpty | audit/diff.go:58-80 | The diff is empty if and only if the trees are equal |
| Diff.PatchEmpty | audit/patch.go:69-97 | The patch is empty if and only if the trees are equal |
| Diff.DiffAndPatchAgree | audit/diff.go:58-80 | Diff and patch agree on whether anything changed, with and without a redactor |
| Retry.SelectPartitions | pipeline/pipeline.go:330-362 | Every event of a partly answered batch meets exactly one fate |
| Retry.SelectIsSubsequence | pipeline/pipeline.go:330-362 | The events of one fate keep batch order |
| RetryCalls.SelectPlaces | pipeline/pipeline.go:330-362 | The events of one fate are those at the indexes the answer gives it, in batch order: dropped wins over retry, and an index in neither list is sent |
| Retry.Mark | pipeline/pipeline.go:330-344 | Duplicate and out-of-range indexes mark nothing more than the event they name |
| Retry.AttemptsConserve | pipeline/pipeline.go:274-322 | For every sequence of answers, sent, dropped and abandoned events are together the batch |
| Retry.AttemptsNarrow | pipeline/pipeline.go:274-322 | At most MaxAttempts calls, each with a subsequence of what the call before it left over |
| Retry.NeverSentAgain | pipeline/pipeline.go:274-362 | An event already counted is not handed to the Sender again |
| RetryCalls.AttemptsExactly | pipeline/pipeline.go:274-322 | Each call gets what the call before it left and settles what its answer names; there is a next one if and only if the attempts are not used up, something is left, the answer is not final and the wait ended in time; what the last call leaves is dropped |
| Retry.Worker.DropPartial | pipeline/pipeline.go:330-362 | The two marking passes return the events to send again and count the others once |
| Retry.Worker.SendBatch | pipeline/pipeline.go:274-322 | The retry loop makes the calls of the specification and moves all counters with them |
| Retry.SendConserves | pipeline/pipeline.go:274-322 | Sent plus dropped grows by exactly the batch |
| Backoff.DelayWithinCap | pipeline/pipeline.go:447-470 | The wait is between zero and the cap if and only if adding the jitter does not overflow |
| Backoff.CurveMeaning | pipeline/pipeline.go:447-460 | The factors of the three curves: one, the attempt, and a doubling from one that stops at 2^30 |
| Backoff.BaseMeaning | pipeline/pipeline.go:447-470 | The wait is the capped multiple of the first delay if and only if the product fits 64 bits or wraps above the cap |
| Backoff.DoublingOverflows | pipeline/pipeline.go:442-470 | Ten seconds doubled thirty times gives no wait at all |
| PipelineRuns.StepKeeps | pipeline/pipeline.go:89-540 | Every step of senders, worker, Flush and Close keeps conservation, arrival order, the timer, the counters, the bounds and the one-sender rule |
| PipelineRuns.EveryRun | pipeline/pipeline.go:89-540 | So every interleaving does: each admitted event is in exactly one of buffer, eviction, flight, sent and dropped, and none is settled twice |
| PipelineEvictions.SendEvicts | pipeline/pipeline.go:101-113 | A Send into a buffer with room evicts nothing and puts its event last; into a full one, exactly the first event leaves |
| PipelineEvictions.EvictedExactly | pipeline/pipeline.go:106-111 | Over every run an event is evicted if and only if some Send found it first in a buffer of at least maxBuffer events |
| PipelineEvictions.RoomEvictsNothing | pipeline/pipeline.go:106-111 | A run whose Sends all find room evicts nothing |
| PipelineEvictions.DueIsTaken | pipeline/pipeline.go:234-256 | An idle worker can take a batch once batchSize events wait or the oldest has waited for the interval |
| PipelineEvictions.WorkerTakes | pipeline/pipeline.go:234-256 | It takes the oldest events, all or batchSize of them, and not before one of the two |
| PipelineProgress.EverySendCounts | pipeline/pipeline.go:89-124 | Over every run the events that entered and the senders about to append are the Sends that passed the closed check, the rejected count is the others, and so for Flush |
| PipelineProgress.CloseDecides | pipeline/pipeline.go:95-100 | Over every run a Send and a Flush pass the closed check if and only if Close has not begun, and the worker takes no batch after the last drain |
| PipelineProgress.OneBatchOut | pipeline/pipeline.go:224-232 | Over every run the worker has at most one batch out, and takes one only when it has none |
| PipelineProgress.LockedUntilSettled | pipeline/pipeline.go:224-232 | A batch that took sendMu and let it go is settled to the last event |
| PipelineProgress.StuckIsSettled | pipeline/pipeline.go:160-188 | Whenever nothing can move, no event is in flight or being evicted, a Close that began has drained, and before Close fewer than batchSize events wait, none for the interval |
| PipelinePromises.CountersAddUp | pipeline/pipeline.go:206-217 | The counters add up to the admitted events |
| PipelinePromises.FlushSettles | pipeline/pipeline.go:505-526 | When a Flush that passed the closed check returns, an event that left the buffer is settled or evicted if and only if it is in no batch that was taken and is not being sent |
| PipelinePromises.FlushWaits | pipeline/pipeline.go:505-526 | Everything that left the buffer is settled when such a Flush returns if and only if no other batch is out |
| PipelinePromises.FlushMissesTakenBatch | pipeline/pipeline.go:511-526 | A run in which Flush returns while a taken event is neither sent nor dropped |
| PipelinePromises.FlushReturnsWhileSending | pipeline/pipeline.go:512-514 | A run in which Close has begun and Flush returns while the last batch is being sent |
| PipelineOrder.SendsInOrder | pipeline/pipeline.go:224-322 | Over every run whose batches lock in the order they were taken and whose answers leave over no event before one they accept, events are sent in arrival order |
| PipelineOrder.BatchesCanOvertake | pipeline/pipeline.go:224-254 | A run whose batches lock in another order, and in which a later event is sent before an earlier one |
| PipelinePromises.LateSendIsStranded | pipeline/pipeline.go:493-540 | A run in which a Send that passed the closed check appends after the last flush, with no Flush past its own check |
| PipelinePromises.StuckForGood | pipeline/pipeline.go:505-540 | And when none is, no continuation sends an event that was left behind |
| PipelinePromises.StrandsExactly | pipeline/pipeline.go:206-222 | After the last flush, some continuation strands an event for good if and only if a sender had passed the closed check |
| PipelinePromises.NoneStranded | pipeline/pipeline.go:493-540 | Without such a sender the buffer stays empty in every continuation |
| FanOut.StepKeeps | pipeline/fanout.go:76-193 | Every step keeps pending equal to queued, delivering and midway copies, and each drain first-in first-out |
| FanOut.EveryRun | pipeline/fanout.go:76-193 | So every interleaving does |
| FanOut.IdleMeansDelivered | pipeline/fanout.go:131-193 | Under the write lock, pending is zero if and only if every drain has delivered all it accepted |
| FanOut.IdleIsEmpty | pipeline/fanout.go:148-174 | When Close sees idle, all queues are empty and everything accepted was delivered |
| FanOut.IdleIsFinal | pipeline/fanout.go:148-174 | No later step changes a drain |
| FanOutPromises.EveryEventIsOffered | pipeline/fanout.go:76-92 | Over every run, for each drain: each time an event was sent before Close the queue took it, or held 256 events when it came, or the send has yet to reach that drain |
| FanOutPromises.FlushDelivers | pipeline/fanout.go:131-146 | When Flush sees pending at zero, every event sent so far was delivered to every drain but for the copies that found 256 events in its queue |
| FanOutPromises.LockExcludes | pipeline/fanout.go:76-163 | A send can begin if and only if no one holds the write lock, which can be taken if and only if, besides, no send is under way |
| FanOutPromises.FlagsMean | pipeline/fanout.go:95-163 | closed and a worker's return are set once and stay, and Close leaves no send under way |
| FanOutPromises.StuckIsSettled | pipeline/fanout.go:76-163 | Whenever no send and no worker can move, every send has ended, every drain has all it accepted, and after Close every worker has returned |
| FanOutPromises.EveryScheduleEnds | pipeline/fanout.go:76-163 | With no new send, every schedule ends after no more steps than there is work |
| EventWriter.StepKeeps | writer.go:105-225 | Every step keeps the queue the unread end of everything queued, with the evictions counted |
| EventWriter.EveryRun | writer.go:105-225 | So every interleaving does |
| EventWriter.EntriesAddUp | writer.go:105-177 | Queued entries are written, released, evicted and still queued, added up |
| EventWriter.LinesAddUp | writer.go:139-177 | Every line handed to write is written, lost by eviction, queued, refused because the writer had stopped, or on its way in |
| EventWriter.WrittenInOrder | writer.go:105-117 | The written lines are exactly those with that fate, in queue order, none twice |
| EventWriter.FlushMeansWritten | writer.go:180-196 | Over every run: when the goroutine takes the marker that an earlier step pushed, every line pushed before that step was written or evicted |
| EventWriter.StopIsLast | writer.go:199-225 | Over every run: when the goroutine takes the stop marker, everything pushed before it has left the queue, and nothing is written afterwards |
| EventWriter.LostExactly | writer.go:139-225 | In every run whose goroutine has returned, a line is neither written nor evicted if and only if it entered behind the stop marker and no producer evicted it |
| EventWriter.LineBehindStop | writer.go:139-225 | A run with one line behind the stop marker and one refused by the stopped test, neither written nor counted |
| EventWriter.DroppedCountsLines | writer.go:171-177 | The dropped count is the number of lost lines if and only if no marker was evicted |
| EventWriter.MarkerCanBeEvicted | writer.go:139-164 | A run in which a marker is evicted and counted as a line |
| EventWriter.Queue.Write | writer.go:139-164 | With one producer, write ends within two rounds, enters its line last and evicts at most one entry |
| EventWriterPromises.DropsAreFullFinds | writer.go:139-164 | Over every run there are no more dropped entries than times a producer found the queue full |
| EventWriterPromises.RoomDropsNothing | writer.go:139-164 | A run whose queue always has room drops nothing |
| EventWriterPromises.StopsOnce | writer.go:199-225 | The stop marker is pushed once at most; the flag is set once at most, and no write or Flush passes its test afterwards |
| EventWriterPromises.StuckIsSettled | writer.go:105-225 | Whenever nothing can move, no producer is midway; while the goroutine runs the queue is empty and no Flush waits, and behind one that returned a Flush waits only for a full queue |
| EventWriterPromises.StepLowers | writer.go:105-225 | Every step that starts no call pushes an entry, takes one out, or leaves one try fewer, so no producers keep each other busy for ever |
| CloudWatch.SortOrders | drain/cloudwatch/cloudwatch.go:182-188 | The stable sort orders by time and then by batch index, and keeps the entries |
| CloudWatch.Chunks | drain/cloudwatch/cloudwatch.go:231-251 | The chunks concatenate to the entries, each within 10,000 entries, 1,048,576 bytes and 24 hours, and none could have taken the next one's first entry |
| CloudWatchSend.MapRejected | drain/cloudwatch/cloudwatch.go:254-304 | The three range loops list the entries the specification names |
| CloudWatchSend.RejectedMeaning | drain/cloudwatch/cloudwatch.go:254-304 | An index is listed if and only if its entry stands in a rejected range, whatever the service's bounds are |
| CloudWatchSend.SendBatch | drain/cloudwatch/cloudwatch.go:169-215 | The entries are the events that fit, sorted and chunked; the answer is that of the chunk-by-chunk specification; an event that cannot be built is a plain error |
| CloudWatchFates.AnswerShape | drain/cloudwatch/cloudwatch.go:169-215 | A partial answer drops the rejected entries before the first fault and retries exactly the failed chunk and the later ones |
| CloudWatchFates.WholeBatchFails | drain/cloudwatch/cloudwatch.go:169-215 | The whole batch fails, for good or not, if and only if the first fault is permanent or a transport fault |
| CloudWatchFates.LandedIsLost | drain/cloudwatch/cloudwatch.go:169-215 | An entry that landed is sent again or counted as dropped if and only if the first fault comes after its chunk and is not retryable |
| CloudWatchFates.LandedThenFault | drain/cloudwatch/cloudwatch.go:190-251 | Two events a day apart, which are split into two chunks: the first lands and the second meets a fault, and the landed event is sent again, or given up |
| CloudWatchFates.LargeIsDropped | drain/cloudwatch/cloudwatch.go:169-215 | An event too large for any request is dropped |
| CloudWatchFates.FateOfEvent | drain/cloudwatch/cloudwatch.go:169-304 | Every other event stands in exactly one chunk place, and the pipeline counts it landed, dropped or to be retried as its place says |
| Splunk.EachOnce | drain/splunk/splunk.go:274-347 | Whatever the collector answers, no event lands twice; without a fault each event of the chunk lands once or is dropped, never both; drops are in order |
| Splunk.RequestBound | drain/splunk/splunk.go:274-347 | Halving makes fewer than twice as many requests as events |
| Splunk.Bisects | drain/splunk/splunk.go:324-340 | If code 6 is answered exactly for chunks with a malformed event, exactly the malformed events are dropped and the others land once |
| SplunkSlices.Append | drain/splunk/splunk.go:303-304 | Go's append of two slices of index arrays, in place or not, holds the two contents and changes only the room behind the first |
| SplunkSlices.SendChunk | drain/splunk/splunk.go:274-347 | The recursion over slices of one index array, whose appends write into that array, still returns exactly the specified drops |
| SplunkSend.ChunkEnd | internal/share/share.go:44-57 | The loop returns the end its specification defines |
| SplunkSend.EndMeaning | internal/share/share.go:44-57 | A chunk has at least one event, keeps to the cap otherwise, could not take the next event, and ends with the first that cannot be encoded |
| SplunkSend.SendBatch | drain/splunk/splunk.go:214-270 | The answer is that of the chunk-by-chunk specification |
| SplunkSend.FateOfEvent | drain/splunk/splunk.go:214-270 | No event lands twice in one call; events the pipeline counts as sent landed once, and dropped ones did not land |
| SplunkSend.StrictBatch | drain/splunk/splunk.go:214-347 | With the collector of Bisects nothing is retried and exactly the malformed events are dropped |
| SplunkRepeats.LandsExactly | drain/splunk/splunk.go:214-347 | An event lands if and only if the batch gets to its chunk and the collector accepts a half that holds it before any fault |
| SplunkRepeats.RepeatsExactly | drain/splunk/splunk.go:232-250 | An event in the retry list of a partial answer landed if and only if it stands in the chunk that met the retryable fault, in a half the collector accepted before it |
| SplunkRepeats.LandedHalfIsSentAgain | drain/splunk/splunk.go:324-340 | Two events and three answers for which it does |
| SplunkRepeats.EncodeFailure | drain/splunk/splunk.go:214-250 | A batch with an event that cannot be encoded is a plain error as a whole if and only if no fault with a status or a code comes before it |
| SplunkRepeats.WholeBatchRepeats | drain/splunk/splunk.go:214-250 | When the whole batch fails, exactly the events in an accepted half of a chunk the batch got to had landed, and are sent again or given up |
| SplunkRepeats.LandedBeforeUnencodable | drain/splunk/splunk.go:214-231 | Three events of which the third cannot be encoded: the first lands and the whole batch is sent again |
| SplunkAnswers.AnswerFromReply | drain/splunk/splunk.go:232-272 | From the collector's first faulty reply: status 408, 429 or at least 500 without a readable code, and codes 9, 18, 19, 20, 23, 26 and 27, retry that chunk and all later events and keep the earlier drops; another status fails the batch for good; a lost request or an answer without a code fails it to be sent again; without a fault the answer is nil or names exactly the drops |
| SplunkAnswers.FaultIsReply | drain/splunk/splunk.go:274-347 | A chunk faults if and only if its last reply is a faulty one, and no reply before it is |
| SplunkAnswers.ReplySettles | drain/splunk/splunk.go:274-347 | Codes 0, 24 and 25 land the request, a faulty reply settles nothing, 413 and code 6 ask for halves of two events or more, and any other code drops |
| SplunkAnswers.ReasonIsFirst | drain/splunk/splunk.go:285-304 | A chunk without a fault carries the reason of its first drop |
| SplunkAnswers.UnavailableRetries | pipeline/httpdrain/httpdrain.go:166-175 | Two events and a 503 with an empty body: both are sent again |
| TreePaths.LeavesDetermine | preset/preset.go:128-157 | Objects with no empty object inside are equal when their leaves are |
| TreePaths.SetLeaf | preset/preset.go:145-157 | setPath puts its leaf, removes what stands above or below it, and keeps every other leaf |
| TreePaths.DeleteLeaf | preset/preset.go:160-180 | deletePath removes the leaves at and below its path, and no other |
| TreePaths.DeleteUndoesSet | preset/preset.go:145-180 | deletePath undoes setPath on a free path, with the objects setPath made |
| TreePaths.DeleteKeepsSolid | preset/preset.go:172-179 | deletePath leaves no empty object below the top, when there was none |
| Flatten.Output.Flatten | preset/flat.go:55-64 | In any map order, flatten adds exactly the leaves under their dotted keys; where two collide, one of them |
| Flatten.Output.FlattenAll | preset/gcp.go:107-111 | The same over every key of the event |
| Flatten.Rebuild | preset/gcp.go:112-115 | In any order, setPath of prefix-free entries gives the tree with exactly these leaves; always one without dotted keys and empty objects |
| Flatten.FlatIsPrefixFree | preset/flat.go:55-64 | Without dotted keys, no flattened path continues another |
| Flatten.Payload | preset/gcp.go:106-115 | The payload's leaves are the event's without the skipped paths |
| Flatten.PayloadIsEvent | preset/gcp.go:106-115 | With nothing skipped the payload is the event if and only if the event has no dotted key and no empty object below the top |
| Flatten.RebuildEvent | preset/gcp.go:106-115 | The same of the two loops as they run |
| FlatPreset.Apply | preset/flat.go:33-51 | For every event, dotted keys or not, the output is what writing the leaves one by one gives, for some order of the two map ranges, each leaf at the key FlatPlaces.Placed gives it |
| FlatPreset.PlainOutput | preset/flat.go:27-51 | Without dotted keys the output is every leaf under its dotted key, in any map order |
| FlatPlaces.KeepsExactly | preset/flat.go:27-51 | Every leaf keeps a key of its own in every map order if and only if no two nested leaves share a dotted key and no taken key moves to a name that is taken or is a key of the event |
| FlatWalks.ReachedIsBase | preset/flat.go:33-64 | In every order of its ranges the first loop leaves each dotted key of a nested leaf, with one such leaf under it, and nothing else |
| FlatWalks.CanBeLast | preset/flat.go:55-64 | For every nested leaf some order of the ranges leaves it under its dotted key |
| FlatOrder.OrderDecidesExactly | preset/flat.go:33-64 | Each key of the output holds the same leaf in every order of all ranges if and only if no taken key moves to the name of a key that is not taken, and nested leaves share a dotted key only where a moved key replaces them |
| FlatPlaces.TakenIsLost | preset/flat.go:40-50 | A moved key replaces the nested leaf whose dotted key it takes, in every map order |
| FlatPlaces.OrderDecides | preset/flat.go:33-51 | The event {a: {b: x}, a.b: y, wlog.fields.a.b: z}, whose output loses z in one map order and keeps all three in the other |
| Sizes.TakeOut | value.go:399-425 | The size of an object does not depend on the order its entries are added up |
| Sizes.SizeAfterDelete | value.go:399-425 | Deleting keys leaves the size of the others |
| Sizes.ValueSizeOf | value.go:399-425 | The loops compute the size in any map order |
| SizeTrim.Event.FinalizeSize | stages.go:221-266 | Removes user keys in the order of the trim, each while needed; the event, the answer, and the two notes follow |
| SizeTrim.SortBySize | stages.go:238-243 | The keys come by size, the largest first, and then by name |
| SizeTrim.FailsExactly | stages.go:254-256 | The event is given up if and only if its reserved keys alone are over the cap |
| SizeTrim.Optimal | stages.go:245-256 | When any set of user keys is enough the trim succeeds, and no such set is smaller |
| SizeTrim.TrimIsUnique | stages.go:221-266 | The result does not depend on map order |
| FinalizeNotes.SentWithinCap | stages.go:221-266 | After a trim the event with both notes is within the cap if and only if the room left is at least what the two notes add |
| FinalizeNotes.SentOverCap | stages.go:221-266 | An event as emit writes it, with no text the redactor would cut, that finalizeSize answers true for and that is sent 64 bytes over the cap |
| FinalizeNotes.DropsJoin | stages.go:261-262 | After Apply, the trim's drops are added to the earlier count if and only if the redactor is disabled or that count was zero |
| FinalizeNotes.RedactedDropsAreLost | redact/redact.go:447-448 | The redactor makes the earlier count an int64, so finalizeSize starts from zero |
| Rotation.Sender.SendBatch | drain/file/file.go:196-224 | With any failing file operation: nothing for an empty or unencodable batch, otherwise the specified rotation and write |
| Rotation.Sender.RotateFiles | drain/file/rotate.go:35-65 | The descending renames leave the disk and handle of the specification, at whatever step they fail |
| Rotation.Sender.Close | drain/file/file.go:228-241 | Closing always leaves the sender without a file, and the disk as it was |
| RotationRuns.ShiftKeeps | drain/file/rotate.go:52-58 | The renames lose and overwrite nothing and keep the order, however far they get |
| RotationRuns.RotateKeeps | drain/file/rotate.go:35-65 | One rotation loses exactly the oldest backup, or nothing |
| RotationRuns.RotateInv | drain/file/rotate.go:35-65 | A rotation succeeds if and only if it leaves an open file, and that file is empty |
| RotationRuns.Retention | drain/file/file.go:196-224 | Over any run with failures, deaths and restarts: the files hold the last part of everything written, whole blobs in order, each file within maxSize or of one blob |
| RotationRuns.FilesBounded | drain/file/rotate.go:35-65 | No file beyond path.N is made |
| RotationRuns.FailedRotationIsFinal | drain/file/rotate.go:14-30 | A sender without a file writes nothing more |
| RotationRuns.LosesFile | drain/file/file.go:214-222 | A batch loses the file if and only if it must rotate, and closing, removing the oldest, a rename or opening fails |
| RotationRuns.TornExactly | drain/file/file.go:196-224 | A batch leaves a torn line if and only if its write fails after part of a line |
| RotationRuns.TornContinues | drain/file/file.go:196-224 | After a torn line the next batch, unless it rotates, puts its bytes directly behind the part |
| RotationRuns.HistoryTorn | drain/file/file.go:196-224 | Some blob of what a run has written is torn if and only if some step of the run tore one |
| RotationRuns.WholeLines | drain/file/file.go:196-224 | The files end in a whole line after every run that tears none |
| RotationBatch.BatchExactly | drain/file/rotate.go:14-65 | Without a failure the file takes the batch if it is empty or stays within maxSize with it, and is not too old; otherwise, and only then, each file moves one place up, the oldest backup goes, and the batch opens a new file |
| RotationBatch.FilesStayWithin | drain/file/rotate.go:14-30 | Over every run, failures included, each file has at most maxSize bytes or one blob |
| RotationBatch.ClosedWritesNothing | drain/file/file.go:209-213 | After Close a batch changes no file and fails |
| Tokens.ScanJoined | redact/tokenize.go:16-31 | A separator between two keys separates their segments |
| Tokens.CamelLosesNothing | redact/tokenize.go:46-67 | The camel-case pieces are the segment again, and none is empty |
| Tokens.CamelStarts | redact/tokenize.go:46-67 | A piece starts inside a segment if and only if an upper-case letter stands there behind one that is not, or before a lower-case one |
| Tokens.TokensOfOne | redact/tokenize.go:16-41 | A key without an underscore, hyphen, dot or space has its camel-case pieces, lowered, as its tokens |
| Tokens.SplitCamelLoop | redact/tokenize.go:46-67 | The loop cuts exactly at the boundaries |
| Tokens.TokenizeLoop | redact/tokenize.go:16-41 | The loops compute the tokens |
| Tokens.TokensJoined | redact/tokenize.go:16-41 | The tokens of two keys joined by a separator are those of the one and then of the other |
| KeyMatch.ContainsRun | redact/match.go:136-153 | Found if and only if the needle is not empty and stands in the tokens in a row |
| KeyMatch.Build | redact/redact.go:299-316 | The stored texts and the longest entry |
| KeyMatch.JoinedInjective | redact/tokenize.go:69-71 | Token lists that join to one text are equal |
| KeyMatch.SearchIsExact | redact/redact.go:299-321 | The search bounded by the longest entry finds exactly what an unbounded search for any entry's words, in a row or run together, finds |
| KeyCut.SharedTokens | redact/redact.go:61-69 | The cut of a key begins with the key's own tokens, but for its last two at most |
| KeyCut.CutChangesAnswer | redact/redact.go:61-69 | For every key and any tokens that it and its cut both begin with: the cut changes the answer if and only if no entry stands in those, and an entry ends behind them in exactly one of the two |
| KeyCut.PasswordBehindCut | redact/redact.go:61-69 | 256 letters and then _password, which MatchesKey refuses although the entry password stands in the key |
| KeyCut.PasswordlessIsMatched | redact/redact.go:61-69 | 247 letters and then _passwordless, which MatchesKey takes for password although no token of the key is |
| KeyMatch.Matcher.CachedTokenize | redact/redact.go:45-59 | The cache never changes an answer and never holds more than 4096 keys |
| KeyMatch.Matcher.MatchesKey | redact/redact.go:502-515 | True if and only if some entry's words stand in the cut key |
| Redaction.RedactionComplete | redact/redact.go:385-442 | After Apply, at any depth and in arrays, every entry the denylist masks holds its mask, containers keep their keys, and nothing is deeper than the limit |
| Redaction.OnlyMasked | redact/redact.go:385-442 | A value with no masked entry on its way is still there, scanned if it is a scalar |
| Redaction.ShownPlaces | redact/redact.go:385-442 | What the output holds there: a container with its keys or length, or [REDACTED:DEPTH]; a string scanned, or [REDACTED:TOO_LARGE]; a number or a pattern's text; anything else unchanged |
| Redaction.MaskedPlaces | redact/redact.go:361-370 | What the output holds at a masked entry: the replacement text, or what the replacement function makes of a string |
| Redaction.SecretsDoNotShow | redact/redact.go:361-397 | Without a replacement function, two events that differ only inside masked entries give one output |
| Redaction.KeptIsNotMasked | redact/redact.go:385-397 | A kept path is never masked; any other is if and only if an entry or a glob matches its last name or a dotted entry its names |
| Redactor.Walker.MatchesPath | redact/redact.go:530-547 | True if and only if a dotted entry matches the path segment by segment |
| Redactor.Walker.Apply | redact/redact.go:337-397 | The walk, with its cache and its shared path, gives the specified tree in any map order |
| Redactor.Walker.DeniesPathLoop | redact/redact.go:577-586 | True if and only if the joined path, taken as one key, or the path itself is denied and not kept |
| Redactor.KeptIsNotDenied | redact/redact.go:577-586 | DeniesPath never denies a kept path; any other if and only if an entry or a glob matches the joined path or a dotted entry its names |
| Denials.NameDenied | redact/redact.go:577-586 | A plain entry that matches any name on a path denies the path, while the path is within the cut |
| Denials.ApplyHides | redact/redact.go:337-442 | For every place of the event, in objects and arrays, within the depth: after Apply its value is gone or masked when an entry on the way is masked, and is there otherwise |
| Denials.DeniesPathMisses | redact/redact.go:572-586 | Of a value that DeniesPath does not deny: Apply hides it when a part of the path is hidden by a glob on its name, by a dotted entry above its end, or by an entry out of sight of the cut or of a kept path, and shows it otherwise |
| Denials.WithinCutMisses | redact/redact.go:572-586 | For a path within the cut with no kept part: Apply hides it when a glob denies one name or a dotted entry denies a proper prefix, and shows it otherwise |
| Denials.BelowDottedEntry | redact/redact.go:572-586 | With the one dotted entry user.secret: Apply masks user.secret whole, and DeniesPath does not deny user.secret.pin |
| Denials.GlobOnName | redact/redact.go:572-586 | With a glob on names: Apply masks user.card_number, and DeniesPath does not deny it |
| Denials.DeniesShown | redact/redact.go:572-586 | DeniesPath denies a value that Apply shows if and only if nothing on the path is masked or kept at its end, and a glob matches the joined path or an entry stands across several names |
| Denials.ApiKeyAcrossNames | redact/redact.go:572-586 | With the one entry api_key: DeniesPath denies api.key, and no entry on that path is masked |
| Pricing.PartsAddUp | llm/price.go:64-88 | The four parts add up to the input, and are not negative if and only if the input is not |
| Pricing.SplitExactly | llm/price.go:64-88 | The input goes to cache reads, one hour writes, five minute writes and the rest, in this order, each as far as reported and as the input goes |
| Pricing.MicrosExactly | llm/price.go:157-162 | For all 64-bit operands: the wrapped sum of the product and half a million, divided by a million towards zero |
| Pricing.CostsExactly | llm/price.go:58-119 | Each part costs its tokens at its own rate, or at the next one the table has, and the total is the five parts |
| Pricing.MicrosRounds | llm/price.go:157-162 | A part is within half a micro of the exact price if and only if the rounded product fits 64 bits |
| Pricing.TotalIsNear | llm/price.go:58-105 | The total is within two and a half micros of the exact price if and only if every rounded product fits 64 bits |
| Pricing.Price | llm/price.go:123-141 | The model's own row, or that of the longest key with a date or "-latest" after it |
| Pricing.RowIsUnique | llm/price.go:123-141 | Map order does not change the row |
| Pricing.PriceCalls | llm/price.go:199-238 | In place: each call is priced once, and the group total is the specified one |
| Pricing.PricingTwice | llm/price.go:199-238 | Pricing again leaves the calls alone, and the group total exactly when no call it prices has a price below zero, or, for a total of zero, when it began at zero or at the sum of the costs |
| Pricing.LargeRecordWraps | llm/price.go:58-105 | A record and a rate whose price wraps below zero, and is added again with each pricing |
| Ring.Memory.Send | drain/memory/memory.go:45-58 | Appending and overwriting keep the buffer the last events sent |
| Ring.Memory.Snapshot | drain/memory/memory.go:66-88 | The last min(n, size) events since the last Clear, oldest first |
| Ring.OverwriteOldest | drain/memory/memory.go:52-55 | Overwriting at next drops the oldest event and adds the newest at the end |

## Left out

- Journal: a write or sync that fails while the process lives on, file locks, directory sync, the `sanitizeNonFinite` rewriting of the caller's event, and JSON counts with a fraction or beyond 2^53 are not modelled; the only failure of a write is a death that leaves a prefix.
- JournalRuns.EveryRunVerifies: the growth of the .partial file is part of `OpenRestores` and not of the invariant; the deaths include some that no process meets, such as a marker at any count.
- Patch: operands are trees already, so `toTree` is left out; of the encoding of an operation only the dropping of a null value is modelled.
- PipelineRuns: the wake-up time of `nextWake`, callbacks, the level filter of `admits`, and `closeSender` are left out; a batch that is being retried is one flight whose answers are steps.
- FanOut: the calls of each drain's own Flush and Close, and the end of a wait by the caller's context, change no modelled state and are left out.
- EventWriter: the synchronous form, and the report of the first drop, are left out.
- CloudWatch: creating a missing stream, rendering a message and reading a timestamp are parameters; Go's 64-bit time arithmetic is unbounded here.
- Splunk: envelopes, gzip, the back-pressure report, and reading a code out of a response body are parameters of the oracle.
- TreePaths.SetPath: nested maps are values here, so that one map inside another is shared and changed in place is not captured; `pathValue` and `movePath` are left out as compositions.
- Flatten: the fields that the gcp preset writes beside the payload, and the other presets, are tables.
- Sizes: the sizes of Go's other number types and of unknown types are left out; every number counts 8, and Go's own int counts 16, as the default case does.
- Rotation: daily files and their pruning, permissions and directories are left out; the age of a file is a parameter.
- KeyMatch: a key is a sequence of characters, so a cut inside a multi-byte character is not captured; the cache is used by one caller at a time.
- Redaction: transforms, typed maps and slices, and the patterns themselves are left out or are parameters; option handling (`With`, `RemoveKeys`) and the check of reserved paths are left out.
- Ring: subscribers and the deep copy of an event are left out; events are values.
- HTTP clients, vendor adapters, the other drains, pretty printing, summaries, samplers and enrichers are left out: thin mappings, tables, or calls into libraries.
