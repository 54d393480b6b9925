# Release evidence of MeshCore DeskOS D1L, in Dafny

The repository decides whether a firmware release is ready from evidence its own tools collect: captures of the device's retained stores over serial, chains of reboot receipts, a snapshot of the issue tracker, two independently built packages, an extracted build archive. This project models those tools and proves what their verdicts are worth: what an accepted capture, chain, snapshot or comparison implies about the device, the tracker or the packages, for all inputs and all runs.

`dafny verify dfyconfig.toml` checks the whole project.

## Layout

| part | files |
|---|---|
| decoded JSON and its equalities, sorting, decimal text, shared notions | `Json.dfy`, `Sorting.dfy`, `Text.dfy`, `Common.dfy` |
| retained stores: paged capture, projection, preservation, seed proof | `StorePages.dfy`, `StoreCapture.dfy`, `RetainedState.dfy`, `SeedProof.dfy`, `SampleCaptures.dfy` |
| reboot matrix: receipts chained by digest, validator and producer loops | `RebootMatrix.dfy`, `RebootLoops.dfy`, `RebootProducer.dfy` |
| reserved outputs of a matrix run, with an exception allowed at every call; the whole run | `Reservation.dfy`, `RebootRun.dfy` |
| serial transcripts and their base64 | `Transcript.dfy`, `Base64.dfy` |
| what a reflash keeps | `ReflashStores.dfy`, `ReflashReadState.dfy`, `ReflashRetention.dfy` |
| defect snapshot: paging, double collect, raw page sets, verdict | `TrackerPages.dfy`, `DoubleCollect.dfy`, `PageSets.dfy`, `ReleaseVerdict.dfy` |
| reproducibility: JSON Pointers, recursive diff, whitelist, comparison | `JsonPointer.dfy`, `JsonDiff.dfy`, `ManifestWhitelist.dfy`, `ManifestComparison.dfy`, `ReleaseComparison.dfy` |
| archive inventory and extraction | `ArchiveExtraction.dfy`, `ArchiveRoundTrip.dfy` |
| work packages, evidence templates, serial target, retry log | `WorkPackages.dfy`, `EvidenceTemplates.dfy`, `SerialTarget.dfy`, `RetryReducer.dfy` |

Loops that fill lists, maps and reports are methods proved against specification functions; objects whose state the program changes in place (the run with its nine reserved files, the evidence directory, the file system an archive is extracted into) are classes. Expressions and recursions are functions, and the properties are lemmas about them.

## Conventions

- A decoded JSON value is a datatype that keeps integers, floats, booleans and NaN apart. Python's `==` is coarser (`1`, `1.0` and `True` are equal); inside containers the decoder's one NaN object equals itself, compared directly it does not. Which of the two comparisons the program makes is kept.
- Digests and canonical JSON text are function parameters. A result that rests on them assumes only that they do not collide on the documents at hand (`Common.NoCollision`), and the assumption can be met: `Common.SomeFunctionSeparates` gives a function for any finite set of inputs, `RebootProducer.DigestOfIdSeparates` a digest for every run of the reboot producer. Case folding, trimming, regular expressions for identifiers and the parser of serial lines are function parameters too.
- The results about reboot matrices hold for every sound way to recompute a state from a capture (`RetainedState.Sound`); the program's own way is shown sound.
- Exceptions are values: `None`, an error or an outcome that says "raised".
- Clocks, serial lines, API answers and failures of the environment are inputs.

## Where the code does less than it seems

Each of these is stated with the exact condition under which the property holds, and a concrete input for which it does not.

- A run that fails before its final report is written, and whose failure report cannot be stamped, leaves the final output open (`Reservation.MatrixRun.Verify`; `Reservation.RunLeavingFinalOpen` is such a run): the time stamp is taken outside any protection (scripts/core_reboot_persistence_d1l.py:4590). All eight cycle outputs are always closed.
- A cycle that rebooted the device is reported "not executed" exactly when it was interrupted before its receipt was written, the stamp of its failure receipt raised, and writing to its output worked (`Reservation.MatrixRun.Verify`; `Reservation.RunDenyingReboot` is such a run).
- The direct messages of a full seed are pinned only as long as the later count respects the capacity, which no check demands (`SeedProof.DirectMessagesPinnedIff`, `SampleCaptures.DirectMessagesMayGrow`). Public rows and contacts are pinned.
- The inventories before and after extraction agree exactly when the archive declares the true sizes of its entries (`ArchiveRoundTrip.InventoriesAgreeIff`, `ArchiveRoundTrip.MislabelledArchiveAccepted`).
- The whitelist of manifest paths is stricter than normalise-and-compare inside objects and lists at permitted places (`ManifestComparison.WhitelistIff`, `ManifestComparison.NestedDifferenceRefused`). The normalised comparison alone, with Python's equality, would accept a number that became a boolean (`ManifestComparison.NormalizedComparisonTooWeak`).
- A document that contains NaN differs from itself (`JsonDiff.NoPathsIff`, `JsonDiff.NaNDiffersFromItself`).
- A reflash projection preserves itself exactly when its Public row count is recorded as an integer (`ReflashRetention.PreservesItselfIff`, `ReflashRetention.FloatCountNotPreserved`), a retained state exactly when its counters are integers (`RetainedState.PreservedReflexiveIff`, `SampleCaptures.AcceptedNotSelfPreserved`).

Some checks decide nothing: the normalised comparison beside the whitelist and the package identity check (`ManifestComparison.NormalizedComparisonRedundant`, `ReleaseComparison.IdentityFollows`), the third baseline comparison of a reboot cycle (`RebootMatrix.ThirdComparisonRedundant`), the scheduler's dependency test and the test for pending packages in "release ready" (`WorkPackages.RunnableIsFreePending`, `WorkPackages.ReleaseReadyIff`), the error for several canonical serial paths and the last guard of the slug (`SerialTarget.MergeMatchingRows`, `SerialTarget.SafeSlug`).

The double collect rests on assumptions about the tracker, stated as `DoubleCollect.Step`: issues keep their place in creation order and new ones come last, every edit of an issue or of a comment gives the row of some issue a value it never had before, and no issue disappears.

## Model

| member | source | states |
|---|---|---|
| `StorePages.ExpectedOffsets` | scripts/core_reboot_persistence_d1l.py:979-990 | the offsets the pages predict for themselves, and whether a page claims older rows without an integer offset beyond the last |
| `StorePages.CheckPage` | scripts/core_reboot_persistence_d1l.py:951-974 | a page is admitted, and passes without error, exactly under the conditions of one turn of the loop |
| `StorePages.CollectPages` | scripts/core_reboot_persistence_d1l.py:930-976 | the first admitted page, the offsets and the rows collected from all admitted pages; no error exactly when every page is clean and repeats the first one's metadata |
| `StorePages.GatherClean` | scripts/core_reboot_persistence_d1l.py:951-976 | when every page is clean nothing is skipped: the collected rows are all rows of all pages |
| `StorePages.OffsetsMatchWhenConsecutive` | scripts/core_reboot_persistence_d1l.py:979-992 | the offsets equal the predicted ones exactly when every page but the last leads to the next |
| `StorePages.CheckOrder` | scripts/core_reboot_persistence_d1l.py:979-994 | no order error exactly when the pages are consecutive from offset zero and the last one says nothing older follows |
| `StorePages.ClassifyRows` | scripts/core_reboot_persistence_d1l.py:1004-1018 | rows split into retained and volatile ones, in order; no error exactly when each is one of the two |
| `StorePages.CheckPreview` | scripts/core_reboot_persistence_d1l.py:1019-1032 | the volatile preview is accepted exactly when present with its one row, or absent with sequence zero |
| `StorePages.CheckCounts` | scripts/core_reboot_persistence_d1l.py:1033-1054 | the counts are accepted exactly when the retained rows are counted and, for Public messages, the shared store is within capacity; which count raises |
| `StorePages.CheckRows` | scripts/core_reboot_persistence_d1l.py:995-1055 | the checks on the collected rows, with both exceptions they can end in |
| `StorePages.PageProjection` | scripts/core_reboot_persistence_d1l.py:926-1069 | no error exactly for accepted pages, and the projection (or exception) as a function of the pages |
| `StoreCapture.CapturePages` | scripts/core_reboot_persistence_d1l.py:790-824 | the paging loop returns the pages reached from offset zero by following `next_offset`, up to the page limit |
| `StoreCapture.RetainedRowsSorted` | scripts/core_reboot_persistence_d1l.py:1004-1018 | sorting the retained rows of accepted pages gives a strictly increasing list of exactly those rows |
| `StoreCapture.AcceptedProjection` | scripts/core_reboot_persistence_d1l.py:1055-1069 | accepted pages always project, to the sorted retained rows of all pages |
| `StoreCapture.CountedRowsAreTheStore` | scripts/core_reboot_persistence_d1l.py:995-1003 | distinct rows of a store, as many as the store has, are all of its rows |
| `StoreCapture.CompletenessByCounting` | scripts/core_reboot_persistence_d1l.py:790-824 | if the pages show only rows of one store with distinct `seq` and `total_matches` is its size, an error-free projection holds exactly the store's retained rows in `seq` order |
| `StoreCapture.CapturesAgree` | scripts/core_reboot_persistence_d1l.py:926-1069 | two error-free captures of one store, with any page sizes, give the same rows |
| `StoreCapture.HonestCaptureIsSlices` | scripts/core_reboot_persistence_d1l.py:790-824 | following the offsets of a device that serves slices visits exactly the consecutive slices |
| `StoreCapture.HonestSlices` | scripts/core_reboot_persistence_d1l.py:806-824 | from any offset, such a capture is linked and holds the rest of the store exactly when the page limit reaches its end |
| `StoreCapture.HonestCaptureAcceptedIff` | scripts/core_reboot_persistence_d1l.py:790-824 | a capture of a consistent store is accepted exactly when the store fits the page limit, and then holds every row |
| `RetainedState.CollectDurable` | scripts/core_reboot_persistence_d1l.py:1091-1118 | the durable fields of the contacts that have them all, in order, and whether any lacks one |
| `RetainedState.ProjectContactResult` | scripts/core_reboot_persistence_d1l.py:1072-1143 | no error exactly for a complete, durable and clean contact snapshot, and the projection as a function of it |
| `RetainedState.AcceptedStore` | scripts/core_reboot_persistence_d1l.py:926-1069 | an accepted message capture projects to ordered, counted rows, for Public messages within capacity |
| `RetainedState.AcceptedContacts` | scripts/core_reboot_persistence_d1l.py:1072-1143 | an accepted contact snapshot projects to ordered, counted rows within capacity |
| `RetainedState.AcceptedCapture` | scripts/core_reboot_persistence_d1l.py:1226-1334 | a capture without errors always projects, to a well-formed state |
| `RetainedState.DurableReaderIsSound` | scripts/core_reboot_persistence_d1l.py:1226-1334 | so the recomputation of captures is sound: what it accepts, it projects to a well-formed state |
| `RetainedState.PreservedReflexiveIff` | scripts/core_reboot_persistence_d1l.py:1341-1386 | a state preserves itself exactly when its counters are integers |
| `RetainedState.PreservedTransitive` | scripts/core_reboot_persistence_d1l.py:1341-1386 | preservation is transitive |
| `RetainedState.WitnessRowSurvives` | scripts/core_reboot_persistence_d1l.py:1735-1772 | a witness row found exactly once is found exactly once in every ordered list that includes the old rows |
| `RetainedState.WitnessSurvives` | scripts/core_reboot_persistence_d1l.py:1735-1772 | if the three witnesses check out in a state, they check out in every well-formed state that preserves it |
| `RetainedState.FullRowsPinned` | scripts/core_reboot_persistence_d1l.py:1341-1386 | a store holding as many rows as a later one may hold is the same list later |
| `SeedProof.SeedBaseline` | scripts/core_reboot_persistence_d1l.py:2102-2291 | the final state of an accepted seed receipt is well formed, all three stores are full, and the proven witnesses are present exactly once |
| `SeedProof.SeedStateFull` | scripts/core_reboot_persistence_d1l.py:1562-1657 | the raw proof and the unchanged transition make every store as full as its capacity |
| `SeedProof.FullStoresPinned` | scripts/core_reboot_persistence_d1l.py:1341-1386 | a later well-formed capture that preserves a full baseline at the same capacities has exactly the same Public rows and contact rows |
| `SeedProof.DirectMessagesPinnedIff` | scripts/core_reboot_persistence_d1l.py:1033-1054 | the direct messages of a full baseline are pinned exactly when the later count respects the capacity, which no check demands |
| `SampleCaptures.SampleAccepted` | scripts/core_reboot_persistence_d1l.py:926-1069 | a one-page capture of any number of direct messages, or of one Public message, from a store of capacity one is accepted, and what it projects to |
| `SampleCaptures.DirectCapacityUnchecked` | scripts/core_reboot_persistence_d1l.py:1033-1054 | any number of direct messages is accepted from a store that declares capacity one |
| `SampleCaptures.SampleCaptureAccepted` | scripts/core_reboot_persistence_d1l.py:1226-1334 | a whole capture with those pages and one durable contact is accepted, and its state |
| `SampleCaptures.DirectMessagesMayGrow` | scripts/core_reboot_persistence_d1l.py:1341-1386 | two accepted captures, the first with all stores full, the second preserving it at the same capacities with any larger number of direct messages |
| `SampleCaptures.AcceptedNotSelfPreserved` | scripts/core_reboot_persistence_d1l.py:1341-1386 | an accepted capture whose state does not preserve itself: one counter is a float |
| `RebootMatrix.SameTailSameCycles` | scripts/core_reboot_persistence_d1l.py:3513-3583 | two linked chains of any lengths with the same tail digest are the same cycles over the same flash receipt, unless the digest collides on their documents |
| `RebootMatrix.TailPinsHistory` | scripts/core_reboot_persistence_d1l.py:3513-3590 | unless the digest collides on the documents of two chains, their common tail digest also pins the seed |
| `RebootMatrix.ThirdComparisonRedundant` | scripts/core_reboot_persistence_d1l.py:3301-3311 | the third baseline comparison in a cycle follows from the first two |
| `RebootMatrix.AcceptedIsLinked` | scripts/core_reboot_persistence_d1l.py:3513-3590 | an accepted matrix is a linked chain ending in its declared tail |
| `RebootMatrix.SameTailSameHistory` | scripts/core_reboot_persistence_d1l.py:3353-3593 | two accepted matrices with the same `hash_chain_tail` rest on the same seed, flash receipt and cycle receipts, unless the digest collides on those documents |
| `RebootMatrix.CycleKeeps` | scripts/core_reboot_persistence_d1l.py:3223-3350 | before and after an accepted cycle nothing of the baseline is missing and each witness is there exactly once |
| `RebootMatrix.WitnessesSurviveMatrix` | scripts/core_reboot_persistence_d1l.py:3522-3583 | in an accepted matrix this holds before and after every cycle, against the seed |
| `RebootMatrix.MatrixPinsFullStores` | scripts/core_reboot_persistence_d1l.py:3522-3583 | as long as capacities stay, every capture of an accepted matrix shows exactly the seed's Public rows and contact rows |
| `RebootLoops.AllRowsOk` | scripts/core_reboot_persistence_d1l.py:3522-3583 | the row-by-row checks with running sets of seen paths, digests and ids are the whole-list conditions: valid, linked, distinct and each cycle accepted |
| `RebootLoops.CheckRow` | scripts/core_reboot_persistence_d1l.py:3522-3571 | the checks on one cycle row pass exactly when the row is valid, linked, new and accepted |
| `RebootLoops.WalkRows` | scripts/core_reboot_persistence_d1l.py:3513-3583 | the loop over the rows finds no error exactly when every row passes, and collects the types, the ordinals and the chain tail |
| `RebootLoops.ValidateChain` | scripts/core_reboot_persistence_d1l.py:3513-3593 | no error exactly when the chain conditions hold and every cycle passes |
| `RebootLoops.ValidateMatrix` | scripts/core_reboot_persistence_d1l.py:3353-3593 | the validator reports no error exactly for accepted matrices |
| `RebootProducer.KeysDiffer` | scripts/core_reboot_persistence_d1l.py:4162-4216 | different cycles get different file paths and different ids |
| `RebootProducer.RunOne` | scripts/core_reboot_persistence_d1l.py:4162-4216 | one more receipt is written that names the previous digest, and its file row is appended |
| `RebootProducer.RunCycles` | scripts/core_reboot_persistence_d1l.py:4162-4242 | the loops build linked rows up to the first cycle that does not close, and touch no other file |
| `RebootProducer.TypesInOrder` | scripts/core_reboot_persistence_d1l.py:4162-4242 | the cycles appear in the order the validator expects, with ordinals from one |
| `RebootProducer.BuiltRowsDistinct` | scripts/core_reboot_persistence_d1l.py:4162-4242 | all paths and ids of the built rows are distinct, and all digests unless two built receipts collide |
| `RebootProducer.CompleteRunPassesChainChecks` | scripts/core_reboot_persistence_d1l.py:4162-4270 | a complete run builds a chain the validator's chain checks accept exactly when no two of its receipts share a digest |
| `RebootProducer.DigestOfIdSeparates` | scripts/core_reboot_persistence_d1l.py:4162-4242 | a digest that tells receipts by their cycle id never collides on the receipts of a run, so the assumption on the digest can be met |
| `RebootProducer.ProduceAndValidate` | scripts/core_reboot_persistence_d1l.py:4162-4345 | the loops, the report and the validator together: a run is complete exactly when every cycle closes, and the report of a complete run validates exactly when its head does, every cycle observed what the validator accepts, and no two receipts share a digest |
| `RebootRun.VerifyPlan` | scripts/core_reboot_persistence_d1l.py:4417-4605 | the reserved run with the validator over the receipts its cycles leave: whatever raises, a final report that says ok is over an accepted matrix; when nothing raises, it says ok exactly when every cycle closed and the matrix is accepted |
| `Reservation.MatrixRun.CloseAll` | scripts/core_reboot_persistence_d1l.py:423-456 | every opened output is closed and nothing is written |
| `Reservation.MatrixRun.ReserveCycles` | scripts/core_reboot_persistence_d1l.py:436-452 | the cycle outputs are opened in order; it fails exactly when one of them cannot be opened and checked |
| `Reservation.MatrixRun.ReserveOutputs` | scripts/core_reboot_persistence_d1l.py:423-456 | it fails exactly when some call made while reserving raises, and then every output ends closed and empty |
| `Reservation.HandledCloses` | scripts/core_reboot_persistence_d1l.py:498-530 | whatever the handler finds, an output ends closed with at most one document |
| `Reservation.MatrixRun.FinalizeUnused` | scripts/core_reboot_persistence_d1l.py:498-530 | every output still open is closed with its "not executed" receipt, whichever of them fail |
| `Reservation.MatrixRun.RunBody` | scripts/core_reboot_persistence_d1l.py:2635-2807 | up to the finished report nothing is written, and the action is marked before it is taken |
| `Reservation.MatrixRun.RunCycle` | scripts/core_reboot_persistence_d1l.py:4162-4216 | one cycle either ends with its own receipt or leaves a described interruption |
| `Reservation.MatrixRun.RunCycles` | scripts/core_reboot_persistence_d1l.py:4162-4242 | the software cycles, then the cold ones only if all software cycles closed |
| `Reservation.MatrixRun.Assemble` | scripts/core_reboot_persistence_d1l.py:4243-4351 | a report that claims success is only written after the validator accepted it, over eight receipts that say ok |
| `Reservation.MatrixRun.CyclesAndUnused` | scripts/core_reboot_persistence_d1l.py:4162-4270 | after the cycles every output is closed, each executed cycle with its receipt |
| `Reservation.MatrixRun.RunAfterReservation` | scripts/core_reboot_persistence_d1l.py:4033-4351 | the guarded body: when the final output is closed, what it may hold, and what an interruption leaves |
| `Reservation.MatrixRun.HandleFailure` | scripts/core_reboot_persistence_d1l.py:4471-4605 | the handler's exact effect on every output, including the report it may fail to stamp |
| `Reservation.MatrixRun.HandledRun` | scripts/core_reboot_persistence_d1l.py:4471-4605 | after an interrupted run the handler has closed every cycle output |
| `Reservation.MatrixRun.GuardedRun` | scripts/core_reboot_persistence_d1l.py:4436-4605 | body and handler together |
| `Reservation.MatrixRun.Verify` | scripts/core_reboot_persistence_d1l.py:4379-4605 | on every run, with an exception allowed at any call: nothing touches the hardware before all outputs are reserved; no cold cycle starts before every software cycle ended well; every cycle output ends closed with at most one document; a success report has passed the validator, and when nothing raises the report says ok exactly when every cycle closed and the validator accepts; and exactly when the final output is left open |
| `Reservation.FinalOutputLeftOpen` | scripts/core_reboot_persistence_d1l.py:4528-4605 | an environment that meets the condition for an open final output: the target cannot be resolved and the failure report cannot be stamped |
| `Reservation.RebootReportedNotExecuted` | scripts/core_reboot_persistence_d1l.py:4471-4520 | an environment that meets the condition for a false receipt: the first cycle is interrupted after its reboot and its failure receipt cannot be stamped |
| `Reservation.RunLeavingFinalOpen` | scripts/core_reboot_persistence_d1l.py:4417-4605 | a run in the first of these environments ends with its reserved final output open |
| `Reservation.RunDenyingReboot` | scripts/core_reboot_persistence_d1l.py:4417-4605 | a run in the second ends with its first cycle rebooted and a receipt that says "not executed" |
| `Base64.DecodesWhatWasEncoded` | scripts/core_reboot_persistence_d1l.py:533-539 | every sequence of bytes survives base64 |
| `Base64.EncodeInjective` | scripts/core_reboot_persistence_d1l.py:533-539 | different lines have different base64 |
| `Base64.GroupDecodes` | scripts/core_reboot_persistence_d1l.py:533-573 | each group of one to three bytes survives, padded only at the end |
| `Transcript.Base64IsFaithful` | scripts/core_reboot_persistence_d1l.py:533-539 | the base64 the program keeps lines in loses nothing |
| `Transcript.DecodeRawLine` | scripts/core_reboot_persistence_d1l.py:554-573 | no error exactly when the text decodes to bytes of the recorded size and digest |
| `Transcript.WrittenIsGenuine` | scripts/core_reboot_persistence_d1l.py:533-573 | a recorded line passes its own check and decodes to the bytes read |
| `Transcript.ReadRawCommand` | scripts/core_reboot_persistence_d1l.py:576-637 | the loop records every line it reads and stops at the deadline, an overlong line, a match, or an exception of the port or (the line already recorded) of the parser, with the result each leaves |
| `Transcript.MatchedIff` | scripts/core_reboot_persistence_d1l.py:605-626 | a matching line was read in time exactly when it is what the last turn read |
| `Transcript.RecomputeRow` | scripts/core_reboot_persistence_d1l.py:654-667 | one retained line: its errors, the result it contributes, and when the parser raises on it |
| `Transcript.RecomputeRows` | scripts/core_reboot_persistence_d1l.py:653-667 | unless the parser raises on a line, no line error exactly when every row is genuine and within the limit, and all matching results in order |
| `Transcript.RecomputeRawCommand` | scripts/core_reboot_persistence_d1l.py:640-674 | no error or exception exactly for an accepted receipt, and then its one matching result; an exception exactly when the parser raises on a retained line |
| `Transcript.ReadAndRecomputeAgree` | scripts/core_reboot_persistence_d1l.py:576-674 | for every faithful way to keep lines, such as base64, every stream of lines and every clock, the recomputation accepts the receipt of a read exactly when a matching line was read before the deadline, and returns that line's result |
| `Transcript.ExceptionsRepeat` | scripts/core_reboot_persistence_d1l.py:576-674 | recomputing a receipt raises exactly when the last line of its read raised in the parser |
| `Transcript.DigestsPinResult` | scripts/core_reboot_persistence_d1l.py:554-674 | accepted receipts for one command whose lines have the same digests report equal results, unless the digest collides on those lines |
| `Json.ItemEqMeaning` | scripts/compare_release_reproducibility_d1l.py:1104-1107 | the model of Python's `==` compares numbers by value across types and containers item by item |
| `JsonPointer.TokenUnescapes` | scripts/compare_release_reproducibility_d1l.py:342-343 | the inverse escape of section 4 of RFC 6901 undoes `pointer_token`, which never emits "/" |
| `JsonPointer.TokenInjective` | scripts/compare_release_reproducibility_d1l.py:342-343 | different keys have different tokens |
| `JsonPointer.RenderInjective` | scripts/compare_release_reproducibility_d1l.py:346-367 | a pointer determines its reference tokens |
| `JsonPointer.SortedKeysSorted` | scripts/compare_release_reproducibility_d1l.py:351-351 | the keys are walked in strictly increasing text order |
| `JsonDiff.PathsShowTokens` | scripts/compare_release_reproducibility_d1l.py:346-367 | the reported text is the walk over reference tokens, rendered |
| `JsonDiff.TokensAreDifferences` | scripts/compare_release_reproducibility_d1l.py:346-367 | the walk reports a place exactly when the documents differ there in the independent sense |
| `JsonDiff.TokensOnce` | scripts/compare_release_reproducibility_d1l.py:346-367 | the walk reports each place once |
| `JsonDiff.ObjectPathsOnce` | scripts/compare_release_reproducibility_d1l.py:346-367 | for two objects no path is reported twice |
| `JsonDiff.PathIsDifference` | scripts/compare_release_reproducibility_d1l.py:346-367 | every reported path points to a difference |
| `JsonDiff.PathReported` | scripts/compare_release_reproducibility_d1l.py:346-367 | a pointer is reported exactly when the objects differ at the place it leads to |
| `JsonDiff.NoPathsIff` | scripts/compare_release_reproducibility_d1l.py:346-367 | no path is reported exactly for type-strictly equal documents without NaN |
| `JsonDiff.NaNDiffersFromItself` | scripts/compare_release_reproducibility_d1l.py:367-367 | a document with a NaN differs from itself |
| `JsonDiff.PathsSymmetric` | scripts/compare_release_reproducibility_d1l.py:346-367 | the order of the arguments does not matter |
| `JsonDiff.DifferenceResolves` | scripts/compare_release_reproducibility_d1l.py:346-367 | every difference resolves (section 4 of RFC 6901) to two values that differ there, or in one document only |
| `ManifestWhitelist.OverwriteDiffers` | scripts/compare_release_reproducibility_d1l.py:307-339 | overwriting fields in both documents removes exactly the differences at and below them |
| `ManifestWhitelist.OverwriteAllDiffers` | scripts/compare_release_reproducibility_d1l.py:307-339 | after normalisation exactly the differences outside the permitted places remain |
| `ManifestWhitelist.OverwriteReceipt` | scripts/compare_release_reproducibility_d1l.py:317-338 | a run receipt is overwritten only when both levels are objects |
| `ManifestWhitelist.NormalizeManifest` | scripts/compare_release_reproducibility_d1l.py:307-339 | the normalised manifest, or the exception exactly when `workflow` is no object |
| `ManifestWhitelist.OnWhitelistIff` | scripts/compare_release_reproducibility_d1l.py:116-132 | a pointer is on the whitelist exactly when it leads to a permitted place: no key containing "/" or "~" can pose as one |
| `ManifestWhitelist.PlacesAreFields` | scripts/compare_release_reproducibility_d1l.py:116-132 | the whitelist names exactly the fields the normalisation overwrites |
| `ManifestComparison.DiffersBelow` | scripts/compare_release_reproducibility_d1l.py:346-367 | a difference below a place is a difference between the values found there |
| `ManifestComparison.WhitelistIff` | scripts/compare_release_reproducibility_d1l.py:1104-1112 | all differences are permitted exactly when the normalised manifests are the same document without NaN and no permitted place hides a difference inside objects or lists of one length |
| `ManifestComparison.NestedDifferenceRefused` | scripts/compare_release_reproducibility_d1l.py:116-132 | two manifests equal after normalisation that the whitelist refuses: their run numbers are objects that differ inside |
| `ManifestComparison.ScalarWhitelistIff` | scripts/compare_release_reproducibility_d1l.py:1104-1112 | with scalars at the permitted places the whitelist and the type-strict normalised comparison decide the same |
| `ManifestComparison.NormalizedComparisonRedundant` | scripts/compare_release_reproducibility_d1l.py:1104-1112 | comparing the normalised manifests as well adds nothing to the whitelist |
| `ManifestComparison.NormalizedComparisonTooWeak` | scripts/compare_release_reproducibility_d1l.py:1104-1107 | Python's equality alone would accept a number that became a boolean |
| `ManifestComparison.OtherFieldsSame` | scripts/compare_release_reproducibility_d1l.py:1104-1112 | a top-level field no permitted place starts with is the same in both manifests |
| `ReleaseComparison.ReadRowIff` | scripts/compare_release_reproducibility_d1l.py:252-258 | a line reads as a row exactly when it is that row written out, with an admissible digest and path |
| `ReleaseComparison.ReadRows` | scripts/compare_release_reproducibility_d1l.py:249-264 | the parsing loop succeeds with the rows and map of the file, and fails only when no admissible rows with distinct paths read like it |
| `ReleaseComparison.ChecksumManifest` | scripts/compare_release_reproducibility_d1l.py:236-285 | for an inventory exactly one text is accepted: the rows of every other file, in path order; the result is the inventory without the checksum file |
| `ReleaseComparison.LoadSnapshot` | scripts/compare_release_reproducibility_d1l.py:856-967 | when a package is accepted, and that its checksums and normalised manifest are those of its inventory and manifest |
| `ReleaseComparison.StableIsComparable` | scripts/compare_release_reproducibility_d1l.py:939-948 | the stable inventory and the comparable checksums of an accepted package are the same map |
| `ReleaseComparison.OverlappingChecks` | scripts/compare_release_reproducibility_d1l.py:1070-1102 | for accepted packages the two payload checks decide the same, and each implies the same file list |
| `ReleaseComparison.IdentityFollows` | scripts/compare_release_reproducibility_d1l.py:1136-1152 | permitted manifest differences never touch the package identity |
| `ReleaseComparison.CompareManifests` | scripts/compare_release_reproducibility_d1l.py:1104-1119 | the observed differences, and a match exactly when all are permitted |
| `ReleaseComparison.ComparePayloads` | scripts/compare_release_reproducibility_d1l.py:1082-1091 | a match exactly when the stable inventories are equal |
| `ReleaseComparison.CompareSnapshots` | scripts/compare_release_reproducibility_d1l.py:1053-1165 | reproducible exactly when run, payload, manifest, inputs and toolchain agree, and equivalently when no failure is recorded or all eight checks hold |
| `ReleaseComparison.CompareWithIdentity` | scripts/compare_release_reproducibility_d1l.py:1023-1165 | the same, with packages that fail to load |
| `ReleaseComparison.VerdictSymmetric` | scripts/compare_release_reproducibility_d1l.py:1023-1165 | swapping the packages changes neither the verdict nor the observed differences |
| `ReleaseComparison.VerdictTransitive` | scripts/compare_release_reproducibility_d1l.py:1023-1165 | reproducibility carries over to a third package as long as no permitted place hides a difference |
| `TrackerPages.CheckIds` | scripts/capture_core_github_defects_d1l.py:300-310 | the ids of a page are accepted exactly when they are positive integers, distinct among themselves and from those before |
| `TrackerPages.CapturePages` | scripts/capture_core_github_defects_d1l.py:283-326 | a capture succeeds exactly when some page within the limit completes it, and then holds every row up to the first empty page |
| `TrackerPages.StopsHere` | scripts/capture_core_github_defects_d1l.py:295-310 | a page with an error rules out every number of pages |
| `TrackerPages.StableCompleteAt` | scripts/capture_core_github_defects_d1l.py:283-326 | a list that does not change is complete at exactly ceil(n/100) + 1 pages, with all its rows |
| `TrackerPages.StableCaptureIff` | scripts/capture_core_github_defects_d1l.py:283-326 | it is captured whole exactly when it has at most 100 * (limit - 1) rows, 999,900 under the program's limit |
| `DoubleCollect.NeverShrinks` | scripts/capture_core_github_defects_d1l.py:1545-1564 | over any run of the tracker the issue list never gets shorter |
| `DoubleCollect.NoReturn` | scripts/capture_core_github_defects_d1l.py:1545-1564 | a row that reads the same at two instants did not change in between |
| `DoubleCollect.CollectsAtLeast` | scripts/capture_core_github_defects_d1l.py:283-326 | a collect misses none of the positions present when its first page was read, as far as its pages reach |
| `DoubleCollect.NoGapOrGap` | scripts/capture_core_github_defects_d1l.py:283-326 | a collect against a growing list either misses no position, or is longer than the list was at its start and shorter than at its end |
| `DoubleCollect.FinishedCollect` | scripts/capture_core_github_defects_d1l.py:283-326 | a finished collect is between the list lengths at its two ends, and complete if it equals either |
| `DoubleCollect.IssuesBetween` | scripts/capture_core_github_defects_d1l.py:1545-1564 | equal collects hold the issue list as it was at every instant between them |
| `DoubleCollect.CommentsBetween` | scripts/capture_core_github_defects_d1l.py:1545-1566 | so no comment changed between them |
| `DoubleCollect.CaptureTracker` | scripts/capture_core_github_defects_d1l.py:1545-1566 | the three collects succeed exactly when each completes and the two issue collects are equal |
| `DoubleCollect.SnapshotIsOneState` | scripts/capture_core_github_defects_d1l.py:1545-1566 | a capture that passes holds the issues and the comments of one state of the tracker, the one it had at every instant between the two issue collects |
| `PageSets.PagePathInjective` | scripts/capture_core_github_defects_d1l.py:941-951 | pages of one set never share a file |
| `PageSets.SnapshotPrefixesDiverge` | scripts/capture_core_github_defects_d1l.py:1673-1686 | the prefixes of the three page sets diverge |
| `PageSets.DivergingPaths` | scripts/capture_core_github_defects_d1l.py:941-951 | sets with diverging prefixes never share a file |
| `PageSets.Evidence.WriteRaw` | scripts/capture_core_github_defects_d1l.py:920-931 | exclusive creation: an existing file is refused and kept |
| `PageSets.Evidence.WritePages` | scripts/capture_core_github_defects_d1l.py:941-951 | the pages' files are written in order up to the first that exists, and nothing else changes |
| `PageSets.Evidence.WritePageSet` | scripts/capture_core_github_defects_d1l.py:934-967 | it succeeds exactly when the pages are numbered from one, none of their files exists yet and the last page is the empty one, and then adds exactly the pages' files |
| `PageSets.RecomputePage` | scripts/capture_core_github_defects_d1l.py:1034-1080 | one page is accepted exactly when its row, its file, its rows and their ids are |
| `PageSets.RecomputePageSet` | scripts/capture_core_github_defects_d1l.py:1012-1100 | a page set is accepted exactly when its files form a complete capture its rows and summary describe, and gives the rows in them |
| `PageSets.WrittenSetReadsBack` | scripts/capture_core_github_defects_d1l.py:934-1100 | round trip: the written set is accepted and gives exactly the captured rows |
| `PageSets.PageSetPinsRows` | scripts/capture_core_github_defects_d1l.py:970-1100 | a page set gives the same rows in any directory it is accepted in, unless the digest collides on the page files |
| `ReleaseVerdict.ValidateIssueRows` | scripts/capture_core_github_defects_d1l.py:344-374 | the rows pass exactly when each is well formed (number, state, repository, title, body, labels, comment count) and no number repeats, and what is read from them |
| `ReleaseVerdict.GroupComments` | scripts/capture_core_github_defects_d1l.py:377-416 | comments are grouped by issue in order, exactly when each row is well formed and belongs to a captured issue and every issue has as many as it says |
| `ReleaseVerdict.MixedDeferralComment` | scripts/capture_core_github_defects_d1l.py:449-484 | the latest privileged comment with the marker is found, exactly when there is one |
| `ReleaseVerdict.JudgeIssue` | scripts/capture_core_github_defects_d1l.py:505-598 | when an issue blocks, is deferred, is critical or misclassified, and when its transition is applied |
| `ReleaseVerdict.AnalyzeIssues` | scripts/capture_core_github_defects_d1l.py:487-655 | the lists of the analysis are the numbers of the issues each judgement selects, in number order |
| `ReleaseVerdict.OpenP0Split` | scripts/capture_core_github_defects_d1l.py:571-583 | the open P0 issues that are no pull requests split into the blocking and the deferred list: none lost, doubled or in both |
| `ReleaseVerdict.CleanIff` | scripts/capture_core_github_defects_d1l.py:1607-1611 | nothing is found exactly when every open P0 or P1 issue is deferred without error |
| `ReleaseVerdict.PendingTagException` | scripts/capture_core_github_defects_d1l.py:870-917 | the exception applies exactly before the tag, with a passed audit, no other finding, and issue 71 as the identified only blocker |
| `ReleaseVerdict.CaptureOk` | scripts/capture_core_github_defects_d1l.py:1592-1611 | the snapshot is ok exactly without finding, or with issue 71 excused |
| `ReleaseVerdict.Verdict` | scripts/capture_core_github_defects_d1l.py:487-1611 | ok exactly when every open P0 or P1 issue carries the single label full-feature-deferred (with a deferral comment where due), or issue 71 is the only one that does not and the exception applies |
| `ReleaseVerdict.SnapshotVerdict` | scripts/capture_core_github_defects_d1l.py:377-1611 | the same from the captured rows, refused exactly when a row is malformed, a number repeats or the comments do not reconcile |
| `ReflashStores.CheckRows` | scripts/core_flash_only_d1l.py:1855-1868 | rows are accepted exactly when each is retained with a positive sequence not seen before |
| `ReflashStores.ProjectStore` | scripts/core_flash_only_d1l.py:1766-1976 | a store projects exactly when its header, both pages, their rows and its flags pass, to the sorted rows of both pages, as many as the store counts |
| `ReflashStores.ProjectedIsValid` | scripts/core_flash_only_d1l.py:1766-1976 | the projected rows are strictly sorted by canonical text (no two rows of the store having one text), counted and within 16 |
| `ReflashRetention.ContactRetentionProjection` | scripts/core_flash_only_d1l.py:2075-2154 | the loop keys valid contacts by fingerprint and refuses exactly when a row is invalid or a fingerprint repeats |
| `ReflashRetention.ContactsByFingerprint` | scripts/core_flash_only_d1l.py:2075-2154 | the projection has one contact per row, under its fingerprint, which is the start of a known key |
| `ReflashReadState.CheckThreads` | scripts/core_flash_only_d1l.py:1719-1746 | the visible threads pass exactly when each is well formed and no fingerprint repeats in any case |
| `ReflashReadState.ProjectCursors` | scripts/core_flash_only_d1l.py:1747-1763 | the loop keys the persisted cursors by fingerprint and refuses exactly an invalid or repeated one |
| `ReflashReadState.CursorsByFingerprint` | scripts/core_flash_only_d1l.py:1747-1763 | the projection has one cursor per row, under its lower-case fingerprint, with the position of that row |
| `ReflashReadState.ProjectReadState` | scripts/core_flash_only_d1l.py:1652-1763 | the read state projects exactly when its counters, threads and cursors pass, and to what |
| `ReflashRetention.RetainedStateProjection` | scripts/core_flash_only_d1l.py:1587-2063 | a capture projects exactly when its contacts, read state, both message stores and identity pass (and the verdict on settings and channels is good), and to what |
| `ReflashRetention.ProjectionIsAccepted` | scripts/core_flash_only_d1l.py:1587-2063 | what the projection returns satisfies everything the retention results ask of a projection |
| `ReflashRetention.DirectMessagesKept` | scripts/core_flash_only_d1l.py:2157-2243 | a preserved reflash keeps the direct messages exactly, unless different rows among them have one canonical text |
| `ReflashRetention.PublicMessagesKeptIff` | scripts/core_flash_only_d1l.py:2199-2243 | the Public messages are kept exactly when no more are retained afterwards, as when all 16 rows were in use |
| `ReflashRetention.CapturesShowSameDirectMessages` | scripts/core_flash_only_d1l.py:1587-2243 | two projected captures, the later preserving the earlier, show the same direct-message rows |
| `ReflashRetention.FullContactsKept` | scripts/core_flash_only_d1l.py:2279-2342 | a full contact store keeps exactly its contacts |
| `ReflashRetention.PreservesItselfIff` | scripts/core_flash_only_d1l.py:2157-2343 | an accepted projection preserves itself exactly when its Public row count is recorded as an integer |
| `ReflashRetention.FloatCountNotPreserved` | scripts/core_flash_only_d1l.py:2157-2343 | an accepted capture whose projection does not preserve itself: its Public count is written as a float |
| `ReflashRetention.PreservedTransitive` | scripts/core_flash_only_d1l.py:2157-2343 | preservation over reflashes is transitive, contacts included |
| `ReflashRetention.SeriesKeeps` | scripts/core_flash_only_d1l.py:2157-2343 | over any series of preserved reflashes the direct messages never change, no contact is lost, and a key once known is the key ever after |
| `ReflashRetention.ReadyAfterReflash` | scripts/core_flash_only_d1l.py:2346-2372 | the closing gate's check of the later state follows from its check of the earlier one |
| `ArchiveExtraction.JoinInjective` | scripts/capture_core_actions_run_d1l.py:142-163 | a POSIX path text determines its components |
| `ArchiveExtraction.CheckEntry` | scripts/capture_core_actions_run_d1l.py:177-186 | an entry is accepted exactly when its name is safe and its path and folded path are new |
| `ArchiveExtraction.ZipInventory` | scripts/capture_core_actions_run_d1l.py:166-201 | the inventory is accepted exactly within the limits with safe, distinct paths and at least one file, and lists the file rows in path order |
| `ArchiveRoundTrip.CanAddIff` | scripts/capture_core_actions_run_d1l.py:213-223 | an entry can be added exactly when it conflicts with no entry up to itself |
| `ArchiveRoundTrip.SafeExtract` | scripts/capture_core_actions_run_d1l.py:204-227 | extraction succeeds exactly when the inventory is accepted, the destination is absent and can be made, and no file has an empty path or stands in another member's way; outside the destination nothing is created or changed |
| `ArchiveRoundTrip.TreeInventory` | scripts/capture_core_actions_run_d1l.py:110-139 | the inventory of a directory: exactly its files, in path order |
| `ArchiveRoundTrip.InventoriesAgreeIff` | scripts/capture_core_actions_run_d1l.py:110-227 | after extraction the two inventories are equal row for row exactly when the archive declares the sizes its entries have |
| `ArchiveRoundTrip.MislabelledArchiveAccepted` | scripts/capture_core_actions_run_d1l.py:166-227 | an accepted archive whose inventories differ |
| `ArchiveRoundTrip.ExtractionKeepsTree` | scripts/capture_core_actions_run_d1l.py:204-227 | extraction keeps the file system a tree, so the destination can be listed |
| `ArchiveRoundTrip.ExtractBetweenInventories` | scripts/capture_core_actions_run_d1l.py:618-640 | inventory, extraction and inventory together: extraction succeeds under the stated condition, the last inventory then succeeds too, and equals the first exactly when the declared sizes are honest |
| `WorkPackages.RunnableWorkPackages` | scripts/completion_ledger.py:401-421 | the scheduler returns the runnable packages in priority order |
| `WorkPackages.IndexPackages` | scripts/completion_ledger.py:440-452 | no error exactly when all ids are present and distinct, and then the packages by id |
| `WorkPackages.IndexBlockers` | scripts/completion_ledger.py:454-481 | no error exactly when ids are distinct and each blocker has a known status and package |
| `WorkPackages.CheckPackage` | scripts/completion_ledger.py:483-629 | one package's status, flags, commits, evidence rows, latest receipt and required evidence are consistent exactly without error |
| `WorkPackages.CheckRecords` | scripts/completion_ledger.py:506-572 | commits, evidence rows and the latest receipt of a package agree exactly without error |
| `WorkPackages.ValidateWork` | scripts/completion_ledger.py:440-646 | no error exactly for a ledger that passes the package, blocker, dependency, priority and release-posture checks (and the verdict on its head) |
| `WorkPackages.CompleteSatisfies` | scripts/completion_ledger.py:104-134 | a consistent complete package satisfies its dependents |
| `WorkPackages.SatisfiedNotComplete` | scripts/completion_ledger.py:104-134 | but a package can satisfy its dependents before it is complete |
| `WorkPackages.ReferencesAreOwn` | scripts/completion_ledger.py:574-629 | in a checked ledger a package refers to an open blocker exactly when one is its own |
| `WorkPackages.RunnableIff` | scripts/completion_ledger.py:401-421 | in a checked ledger a package is runnable exactly when it is pending, not blocked and owns no open package blocker |
| `WorkPackages.RunnableIsFreePending` | scripts/completion_ledger.py:137-147 | so the scheduler offers the pending packages that are free, in priority order: its dependency test adds nothing |
| `WorkPackages.ReleaseReadyIff` | scripts/completion_ledger.py:150-154 | in a checked ledger "release ready" is a matter of the declared posture alone, and then every package is complete |
| `EvidenceTemplates.TemplatePieces` | scripts/completion_ledger.py:72-80 | the loop over the placeholders splits the template into literal text and holes |
| `EvidenceTemplates.PiecesRebuild` | scripts/completion_ledger.py:72-80 | the pieces lose nothing: with its own placeholders filled in the template reads as before |
| `EvidenceTemplates.MatchesIffInstance` | scripts/completion_ledger.py:72-80 | a file name matches exactly when filling each placeholder with some non-empty name component gives it |
| `EvidenceTemplates.PlainTemplate` | scripts/completion_ledger.py:72-80 | a template without placeholders matches itself only |
| `EvidenceTemplates.MissingRequiredEvidence` | scripts/completion_ledger.py:90-101 | nothing is missing exactly when every required template is matched by valid evidence, and only unmatched templates are listed |
| `SerialTarget.CollectMatches` | scripts/d1l_serial_target.py:165-203 | the rows of the target are collected in order, exactly when every listed path resolves and their texts are well formed |
| `SerialTarget.MergeFields` | scripts/d1l_serial_target.py:210-225 | the fields merge exactly when each has at most one value, to that value |
| `SerialTarget.MergeMatchingRows` | scripts/d1l_serial_target.py:149-229 | the merge succeeds exactly when the target is listed without conflict, to the reported values; its error for several canonical paths is never raised |
| `SerialTarget.OrderDoesNotMatter` | scripts/d1l_serial_target.py:149-229 | the result does not depend on the order or repetition of the rows |
| `SerialTarget.MergeUnique` | scripts/d1l_serial_target.py:149-229 | the merged values are determined |
| `SerialTarget.SafeSlug` | scripts/d1l_serial_target.py:419-442 | a slug exists exactly for non-empty (encodable) text, has 1 to 80 letters, digits and single inner dashes, a slug is its own slug, and the last guard never fails |
| `RetryReducer.ValidationRunsOk` | scripts/autonomous_hardware_validate_d1l.py:2431-2467 | the loop computes the reduction of the log |
| `RetryReducer.RunBridgeRestore` | scripts/autonomous_hardware_validate_d1l.py:2470-2499 | the retry loop appends one attempt, and a second exactly after a failed first |
| `RetryReducer.LogVerdict` | scripts/autonomous_hardware_validate_d1l.py:2431-2499 | on every log the runner writes, the verdict is that no phase was used twice and every logical step succeeded at last |
| `RetryReducer.RepeatedPhaseRefused` | scripts/autonomous_hardware_validate_d1l.py:2443-2449 | so a phase used twice makes the verdict negative, whatever the outcomes and the other steps |

## Left out

- Serial ports, processes, the file system beneath the modelled trees, the network and clocks: their answers are inputs, and their failures are outcomes of a step.
- Contents of reboot cycles beyond the stores: version, identity, crash and health checks and the cold-power window are one verdict (`othersExact`), so no claim is made that the validator accepts every window the producer accepts.
- The table of literal witness flags and the normalisation of witness fingerprints and public keys: the rows the raw proof selects are taken as they are.
- Field selection for settings and unread counters: compared as whole objects.
- StorePages.PageProjection: rows whose `seq` is no integer end in the outcome Raised, although Python may still sort values of some other types; an error is recorded either way.
- Negative zero and the infinities as JSON numbers, and numbers beyond the precision of a float: floats are reals.
- Writing JSON text: the canonical text of a row is a parameter.
- StoreCapture.CapturePages, TrackerPages.CapturePages: the page limit is a parameter, with the program's literal as its value in use.
- ArchiveExtraction.ZipInventory: an archive whose entries cannot be read at all, and checksum errors inside the archive, are not modelled; reading an entry yields bytes.
- ArchiveRoundTrip.SafeExtract: symbolic links, case-insensitive file systems and write failures are not modelled.
- Transcript.ReadRawCommand: a clock that raises while the receipt is being closed is not modelled.
- Transcript.RecomputeRawCommand: receipts of another JSON shape (a missing list, a text where a number belongs) are errors in the program and not part of this model; so is surplus padding after a complete base64 group, which some Python versions accept.
- ReleaseComparison.LoadSnapshot: the SBOM, provenance, conformance and manifest-shape validators are two verdicts; the list of required files is a parameter that contains the three byte-variable files.
- RebootLoops.ValidateMatrix: the checks of the header, of the live identity and of the closing flash receipt are one verdict (`headExact`), because each reads fields of one document.
- ReleaseComparison.CompareSnapshots: the order and the texts of the recorded failures are not modelled.
- PageSets.RecomputePageSet: a page set of another JSON shape is an error in the program and not part of this model; the canonical form of a path is reduced to "directly in the receipt's directory".
- PageSets.Evidence.WritePageSet: the staging directory and its final rename are one directory here.
- ReleaseVerdict.ValidateIssueRows: trimming and case folding of text and the pattern of `issue_url` are parameters; rows that are no objects are refused while paging.
- ReleaseVerdict.JudgeIssue: titles, milestones and assignees, and the wording of reasons, are not modelled; the marker, commit and run patterns a deferral comment must contain are one predicate on its body.
- ReleaseVerdict.PendingTagException: the recomputation of the audit is one verdict.
- ReflashRetention.ContactRetentionProjection: recognising an exact key and a fingerprint is left to parameters.
- ReflashRetention.RetainedStateProjection: settings and channels are validated field by field in the program; here one verdict, and their values are taken as given. Persistence and card flags are one verdict for each store.
- WorkPackages.ValidateWork: rows of the wrong JSON shape are not part of this model; the checks on the schema, the repository, the ports and the documents are one verdict.
- SerialTarget.SafeSlug: Unicode normalisation and the digest are parameters, and text is encodable: a lone surrogate, on which the program can raise while hashing, is not part of this model.
- `required_package_paths`, receipt fields that only restate their inputs, and the orchestration scripts: one-branch readings that would add no property.
