# Camera firmware core, modelled and proved

This project models the parts of the camera firmware in which processes share
memory, deliver events or rewrite bytes in place, and proves what they promise:

- the settings locks that many controllers share with a reader that never waits
  (`CasSeqlock`, `ControllerRuns`, `BootRecovery`, `RecoveryStore`), and the
  single-writer sequence locks that must survive a crash of their writer
  (`WriterSeqlock`, `SeqlockProgress`, `SampleTear`); what the status command may
  conclude from the two together (`StatusVerdict`, `StatusRuns`, `StatusReports`,
  `MeasuredPictures`, `MeasurementPixels`, `OddStarts`, `TornStatus`,
  `StaleStatus`);
- the bounded motion history and the bounded level history, their layout in
  shared memory and what a closing clip reads out of them (`RecentRing`,
  `MotionHistory`, `MotionLevels`, `SharedHistories`);
- the MP4 metadata appended to a finished clip (`Bytes`, `MovieParse`,
  `MovieFiles`, `ClipFile`, `RecordMetadata`);
- the motion detector, the delivery of its events and the loop around both
  (`MotionDetector`, `MotionDelivery`, `MotionLoop`), the spatial mask's score
  (`MotionMask`) and the pixel counters of the analysis filter (`PixelCounts`);
- the frame ring, the capture walk, the viewer's queue, the clock and the
  pre-roll ring (`FrameRing`, `FrameCapture`, `FrameHeaders`, `FrameQueue`,
  `FrameClock`, `PrerollRing`);
- the filtered DESCRIBE response (`SdpFilter`, `DescribeResponse`);
- the uImage formats: taking apart, patching, putting together and wrapping
  (`Crc32`, `CrcPolynomial`, `UImage`, `KernelPartitions`,
  `ImageWrapper`, `WrapperBytes`), and the branches written over vendor code
  (`Branches`).

## How it is modelled

Shared-memory protocols are step machines: every atomic access and every word of
a copy is one event, and a run is any list of events, so a statement about all
runs is a statement about all interleavings of any number of processes, crashes
included. Steps are sequentially consistent. Whatever the surroundings decide
(queue answers, partial reads and writes, failing calls, clocks, the commands of
`xz`, the text of `build_json`) is an input. Objects the source updates in place
are classes; each of their methods is proved against a function of the old
state, and the lemmas are about those functions. Counters that wrap in the
source wrap in the model (`U32.Wrap`).

The protocol machines carry bookkeeping fields (`published`, `samples`, `epoch`,
`version`, `ticks`, `committed`, `made`, `accepted`, `read`, `drawn`,
`delivered`) that no step's choice depends on.

Assumptions, each a `requires` of the theorems that need it:

- when a recovery stores zero, nobody is inside the settings lock and no filter
  has read the settings (`CasSeqlock.Assumed`); a recovery whose window stays clear
  sees to both (`RecoveryStore.ClearWindowsMakeLegalRuns`); for mutual exclusion
  alone, nobody inside is enough (`CasSeqlock.StoresFindNobody`);
- no read of the settings lasts for 2^31 publications (`CasSeqlock.Assumed`), and
  the status verdicts compare settings and samples fewer than 2^31 publications
  apart (`StatusVerdict.NotPendingIsTruthful`, `CasSeqlock.AppliedPairIsTheOneRead`);
- no read of a single-writer record lasts for 2^32 sequence steps, and a filter
  start finds the sample's generation even (`WriterSeqlock.Assumed`,
  `StatusVerdict.Assumed`);
- for what the capture loop makes of a stream of frames, those between the walk's
  place and the write end are still in the ring, less than a lap of them, while a
  poll walks and copies (`FrameCapture.Holds`); the loop itself is proved against
  `FrameCapture.RunPolls` on rings of any contents.

## What turned out not to hold

- The published analysis sample has no protection against a restart after a
  crash inside an update: the next writer starts from an odd generation and
  inverts the meaning of the lock. From every such state a reader can accept a
  torn sample (`SampleTear.RestartTearsFromAnOddGeneration`,
  `SampleTear.ATornSampleIsReachable`); with even restarts none ever does
  (`SampleTear.NoTearWithEvenRestarts`).
- So what `pending:false` says depends on the settings' generation. When it is not
  zero, and every filter start so far found the sample's generation even, the words
  just read are a measurement under the record published now, if the sample is of
  this boot epoch (`StatusVerdict.NotPendingIsTruthful`); and a run comes to that
  from every state at rest (`StatusReports.SettingsComeToBeReported`). From every
  state in which a filter start finds the sample's generation odd, that start can
  be followed by a report, not pending, that is no measurement at all
  (`OddStarts.AnOddStartCanMisreport`; with counts made under replaced settings,
  `TornStatus.NotPendingCanBeTornWithinAnEpoch`). Across a recovery, which sets the
  generation back, an old sample can carry the number of new settings
  (`StaleStatus.NotPendingCanBeStaleAfterRecovery`).
- At generation zero the filter works under its built-in defaults, and a recovery
  leaves generation zero with a record in the file: two records go by one number.
  `pending:false` then means a measurement under the defaults, and that is one
  under the record for every picture if and only if the record masks nothing
  (`MeasuredPictures.DefaultsStandInExactlyWhen`). With every cell excluded in the
  file the status can report the whole image as included motion, not pending
  (`StatusReports.GenerationZeroNamesTwoRecords`).
- The recovery asks whether the filter lives, not whether the lock's owner does,
  and it stores zero whatever the generation has become. The lock survives exactly
  when nobody is inside at the store
  (`BootRecovery.ResetIsSafeExactlyWhenNobodyIsInside`), so two recoveries at once
  can both enter (`BootRecovery.OverlappingRecoveriesBothEnter`). The filters stay
  right about the settings exactly when none of them has read by the store
  (`RecoveryStore.StoreIsHarmlessExactlyWhenNoFilterHasRead`): one in mid-copy can
  be led to commit the words it had and the rest of any later record
  (`RecoveryStore.AFilterInMidCopyCommitsAMix`), for which two boots are enough
  (`BootRecovery.ALateStoreMixesRecords`).
- A truncated motion history reports an unknown initial state only while the
  wall clock does not step back (`MotionHistory.TruncatedMeansUnknown`,
  `MotionHistory.TruncatedCanClaimAState`).
- `cb_move` leaves a pointer at the ring's end where the write pointer wraps to
  its beginning (`FrameRing.MoveIsCanonicalExactlyOffTheEnd`). A poll that finds
  the write end there never comes to the end of its walk and gives up the whole
  batch, whatever the ring holds (`FrameCapture.ABlindPollGivesUp`).
- The SDP filter searches for `m=` anywhere, not only where a line starts. With
  an `m=` inside the session part and a session-level `a=sendonly` after it, the
  session part loses its tail (`SdpFilter.FilterIsBySection`,
  `SdpFilter.ASessionCutShort`).
- A Content-Length that first occurs in the body is replaced there, and the client
  is sent the unfiltered description in front of the filtered one
  (`DescribeResponse.FilteredExactlyWhenTheLengthIsInTheHeader`).
- On a camera with a 32-bit `size_t`, `clean_image.c` accepts a file system that
  states a size in the last page below 2^32 and writes an image with no payload
  (`ImageWrapper.AnEmptyImageIsAccepted`).

## Model

| member | source | states |
|---|---|---|
| CasSeqlock.NeverTwoInside | src/ipc_cmd/ipc_cmd/motion_ivactl.c:41-57 | in every interleaving of any number of controllers, boot controllers and deaths in which each recovery's store finds nobody inside, at most one controller is between taking and releasing the lock, and only while the generation is odd |
| CasSeqlock.LegalStoresFindNobody | src/ipc_cmd/ipc_cmd/motion_ivactl.c:41-44 | the runs assumed by the other theorems of the lock are among those |
| CasSeqlock.CommittedRecordsAreWhole | src/ipc_cmd/ipc_cmd/motion_iva_y28ga.c:43-57 | what a reader works under is its default or one whole valid record some controller asked for, never a mix; the release to the same generation after an identical write included |
| CasSeqlock.ARequestIsTakenExactlyWhenInRange | src/ipc_cmd/ipc_cmd/motion_iva.h:22-29 | what a controller may ask for: for the filter a switch and 240 characters '0' or '1', for night vision a mode up to 2 and a percentage from 1 to 100 |
| CasSeqlock.CheckedCopyIsWhole | src/ipc_cmd/ipc_cmd/motion_iva_y28ga.c:47-50 | a word-by-word copy that finds the generation unchanged is, as far as it got, the record published last |
| CasSeqlock.CommitTakesTheNewest | src/ipc_cmd/ipc_cmd/motion_iva_y28ga.c:50-56 | a completed copy that passes the check becomes the active record together with the generation that names the newest publication |
| CasSeqlock.NotPendingIsOfTheNewest | src/ipc_cmd/ipc_cmd/motion_ivactl.c:75 | a measurement with the generation of the settings: at a non-zero generation, if it is of the current epoch and fewer than 2^31 publications back, it was made under the record published now; at generation zero under the built-in defaults, whatever the record |
| StatusVerdict.NotPendingIsTruthful | src/ipc_cmd/ipc_cmd/motion_ivactl.c:60-75 | controllers, filter and status together, word by word, over every interleaving in which filter starts find the sample's generation even: `pending:false` at a non-zero settings generation, over a sample of this boot epoch, means that the words just read are a measurement under the record published now; at generation zero, under the built-in defaults |
| StatusVerdict.AcceptedCopiesAreMeasurements | src/ipc_cmd/ipc_cmd/motion_ivactl.c:61-67 | every copy the status accepts there is one whole measurement, with the settings and the generation the filter had |
| StatusVerdict.PublishKeepsInv | src/ipc_cmd/ipc_cmd/motion_iva_y28ga.c:60-79 | beginning a publication, with counts under the active record and its generation, keeps the invariant of the two locks and of what is in shared memory |
| StatusVerdict.EndKeepsInv | src/ipc_cmd/ipc_cmd/motion_iva_y28ga.c:80 | ending it commits that measurement, and the invariant says which one it was |
| StatusVerdict.RunKeepsInv | src/ipc_cmd/ipc_cmd/motion_ivactl.c:37-75 | both locks and the link between them hold on every run |
| StatusReports.SettingsComeToBeReported | src/ipc_cmd/ipc_cmd/motion_iva_y28ga.c:43-80 | from every state at rest with an even settings generation other than zero, a filter and a status left alone end in `pending:false` with a measurement under the record in the file; the run is legal |
| StatusReports.ASetIsReported | src/ipc_cmd/ipc_cmd/motion_ivactl.c:37-82 | from a fresh file, for any settings and any picture: set, measure, report, not pending |
| StatusReports.DefaultsComeToBeReported | src/ipc_cmd/ipc_cmd/motion_iva_y28ga.c:43-80 | at generation zero the same ends in `pending:false` with a measurement under the built-in defaults |
| StatusReports.GenerationZeroNamesTwoRecords | src/ipc_cmd/ipc_cmd/motion_ivactl.c:41-75 | a legal run within one epoch, every start even: a recovery leaves a record with everything excluded at generation zero, and the status reports the whole image as included, not pending, though no measurement under that record includes a pixel |
| MeasurementPixels.MeasurementIsOfThePixels | src/ipc_cmd/ipc_cmd/motion_iva.h:44-66 | every measurement of a picture, stated by pixel and by word of the record: the foreground pixels, those whose cell has the character '0' at its place in the record (all of them when the mask is off), those of them inside the rectangle, the foreground pixels of each cell, and the error word that says whether the chip counted the same |
| MeasurementPixels.MeasurementOfNothing | src/ipc_cmd/ipc_cmd/motion_iva_y28ga.c:60-66 | a picture that could not be read counts nothing and says why |
| MeasurementPixels.ReportsLeaveOutExcludedCells | src/ipc_cmd/ipc_cmd/motion_ivactl.c:60-75 | whatever is a measurement under a record is so by pixel: its included count is of the pixels in the cells that record leaves in |
| MeasurementPixels.NotPendingCountsThePixels | src/ipc_cmd/ipc_cmd/motion_ivactl.c:60-75 | so `pending:false` at a non-zero generation, over a sample of this boot epoch, means that the words just read count some picture's pixels as the record in the file wants them counted, and at generation zero as a record that excludes nothing does |
| MeasurementPixels.Measure | src/ipc_cmd/ipc_cmd/motion_iva_y28ga.c:60-79 | one count goes into the published words and into the two registers: the error word is the rewrite's, and without one the registers become the published region count and the rest of the included pixels |
| MeasuredPictures.DefaultsStandInExactlyWhen | src/ipc_cmd/ipc_cmd/motion_iva.h:40-66 | a measurement under the built-in defaults is one under the record, for every picture, if and only if the record is switched off or excludes no cell |
| MeasuredPictures.MixedCountsAreNoMeasurement | src/ipc_cmd/ipc_cmd/motion_iva.h:40-66 | the raw count of one measurement and the cells of another with a different raw count are no measurement of any picture under any settings |
| OddStarts.AnOddStartCanMisreport | src/ipc_cmd/ipc_cmd/motion_iva_y28ga.c:77-80 | the converse: from every state in which a filter start finds the sample's generation odd, with everything else as assumed, the status can come to report, not pending, words that are no measurement |
| TornStatus.TornStatusIsNotPending | src/ipc_cmd/ipc_cmd/motion_iva_y28ga.c:77-80 | one filter death inside a publication and a set later, within one epoch: the status accepts the first words of a measurement under the old settings and the rest of one under the new, and says not pending, whatever is measured |
| TornStatus.NotPendingCanBeTornWithinAnEpoch | src/ipc_cmd/ipc_cmd/motion_ivactl.c:75-82 | there the status can report the whole image as included motion though no measurement under the published settings includes a pixel |
| CasSeqlock.AppliedPairIsTheOneRead | src/ipc_cmd/ipc_cmd/nightvisionctl.c:73-93 | equal generations of the status reader and the camera mean the camera acted on exactly the mode and threshold just read |
| BootRecovery.ResetIsSafeExactlyWhenNobodyIsInside | src/ipc_cmd/ipc_cmd/motion_ivactl.c:41-44 | whatever happened since the look, after the store of zero a newcomer enters, and is alone inside if and only if nobody was inside at the store |
| BootRecovery.OverlappingRecoveriesBothEnter | src/ipc_cmd/ipc_cmd/motion_ivactl.c:41-57 | two recoveries that both look before either stores: nobody is inside at either look, and both end up inside |
| BootRecovery.TwoInsideAreReachable | src/ipc_cmd/ipc_cmd/motion_ivactl.c:41-57 | a dead owner and two boots lead there from a fresh file |
| BootRecovery.ALateStoreMixesRecords | src/ipc_cmd/ipc_cmd/motion_ivactl.c:43-44 | with nobody inside at the store but somebody before it, a store onto an even generation lets a filter in mid-copy commit the first words of one record and the rest of another |
| RecoveryStore.StoreIsHarmlessExactlyWhenNoFilterHasRead | src/ipc_cmd/ipc_cmd/motion_ivactl.c:43-44 | from every state in which a recovery is about to store with nobody inside: every legal continuation keeps every filter right about the settings if and only if no filter has read by then |
| RecoveryStore.AFilterInMidCopyCommitsAMix | src/ipc_cmd/ipc_cmd/motion_ivactl.c:43-44 | whichever record comes to be published, a filter in mid-copy at the store can be led to commit the words it had and the rest of that record under its generation |
| RecoveryStore.CommittedFilterIsMisled | src/ipc_cmd/ipc_cmd/motion_iva_y28ga.c:44-45 | a filter that carries a generation at the store can be led to skip the read of other settings under the same one |
| RecoveryStore.ClearWindowsMakeLegalRuns | src/ipc_cmd/ipc_cmd/motion_ivactl.c:41-44 | if the owner is dead at a recovery's look at the odd generation and nobody takes the lock until it has stored, the store finds nobody inside and no filter that has read |
| BootRecovery.RecoveryResets | src/ipc_cmd/ipc_cmd/motion_ivactl.c:41-44 | an undisturbed recovery sets an odd generation to zero and keeps the record |
| BootRecovery.LockIsLeftBehind | src/ipc_cmd/ipc_cmd/motion_ivactl.c:45-58 | a controller that dies inside leaves the next odd generation and the record as it was |
| CasSeqlock.CasKeepsInv | src/ipc_cmd/ipc_cmd/nightvisionctl.c:59-68 | taking or missing the lock, and giving up after the last attempt, keep the invariant of lock, record and readers |
| CasSeqlock.CompareKeepsInv | src/ipc_cmd/ipc_cmd/motion_ivactl.c:55-57 | comparing word by word and releasing to the same generation keep it |
| CasSeqlock.WriteWordKeepsInv | src/ipc_cmd/ipc_cmd/nightvisionctl.c:69-70 | storing one word of the new record keeps it, readers in mid-copy included |
| CasSeqlock.PublishKeepsInv | src/ipc_cmd/ipc_cmd/motion_ivactl.c:56-57 | the release to the next even generation keeps it and gives the record its name |
| CasSeqlock.DieKeepsInv | src/ipc_cmd/ipc_cmd/motion_ivactl.c:45-58 | a controller may die at any step; if it was inside, the lock stays odd |
| CasSeqlock.LookKeepsInv | src/ipc_cmd/ipc_cmd/motion_ivactl.c:41 | a recovery's look at the generation keeps the invariant |
| CasSeqlock.ProbeKeepsInv | src/ipc_cmd/ipc_cmd/motion_ivactl.c:42-43 | finding the filter alive or dead keeps it |
| CasSeqlock.ResetKeepsInv | src/ipc_cmd/ipc_cmd/motion_ivactl.c:44 | the store of zero, onto whatever generation, keeps it and opens a new epoch with the record as it stands |
| CasSeqlock.BeginKeepsInv | src/ipc_cmd/ipc_cmd/nightvision.c:39-41 | the first look keeps the invariant, whichever way it goes |
| CasSeqlock.CopyKeepsInv | src/ipc_cmd/ipc_cmd/nightvision.c:42-43 | copying one more word keeps it |
| CasSeqlock.CheckKeepsInv | src/ipc_cmd/ipc_cmd/nightvision.c:44-50 | the second look, the range test and the commit keep it |
| CasSeqlock.RunKeepsInv | src/ipc_cmd/ipc_cmd/motion_ivactl.c:41-59 | the invariant holds after every run |
| ControllerRuns.ATakenLockIsGivenUpAfterFiftyTries | src/ipc_cmd/ipc_cmd/nightvisionctl.c:59-68 | a controller that finds the lock taken each time fails after fifty tries and leaves everything as it was |
| ControllerRuns.AFreshNightFileIsAutomatic | src/ipc_cmd/ipc_cmd/nightvisionctl.c:46-54 | a reader of a fresh night-vision file commits automatic mode at 50 percent |
| ControllerRuns.AFreshFilterMasksNothing | src/ipc_cmd/ipc_cmd/motion_iva_y28ga.c:43-45 | a filter on a fresh file of zeroes stays with its mask off and every cell left in |
| StaleStatus.NotPendingCanBeStaleAfterRecovery | src/ipc_cmd/ipc_cmd/motion_ivactl.c:43-44 | a concrete legal run after which the status says not pending for a sample taken under other settings than the published ones |
| ControllerRuns.UncontendedSetPublishes | src/ipc_cmd/ipc_cmd/motion_ivactl.c:45-58 | without competition a first IVA `--set`, or any night-vision one, replaces the whole record and moves on to the next even generation |
| ControllerRuns.IdenticalSetPublishesNothing | src/ipc_cmd/ipc_cmd/motion_ivactl.c:55-57 | setting what is already set takes the lock and releases it to the same generation, with nothing written |
| ControllerRuns.DifferentSetPublishes | src/ipc_cmd/ipc_cmd/motion_ivactl.c:55-57 | setting a record that differs anywhere writes all of it and moves on to the next even generation |
| ControllerRuns.FilterReads | src/ipc_cmd/ipc_cmd/motion_iva_y28ga.c:43-56 | left alone, a filter that has another generation commits the published record and its generation |
| ControllerRuns.FilterMeasures | src/ipc_cmd/ipc_cmd/motion_iva_y28ga.c:43-63 | a fresh one then measures under them |
| WriterSeqlock.OnlyCompleteUpdatesAreAccepted | src/ipc_cmd/ipc_cmd/motion_metadata_events.c:124-133 | wherever the writer crashes and however often it restarts, every accepted copy is a record committed whole, and the one committed last when it passed its check |
| WriterSeqlock.RunKeepsChain | src/ipc_cmd/ipc_cmd/motion_metadata_events.c:51-100 | the committed records are a chain: each is what a start makes, of the record before it where that start was told it is complete, or what an update makes of the one before |
| WriterSeqlock.PartialUpdatesAreMarkedOdd | src/ipc_cmd/ipc_cmd/motion_metadata_events.c:95-100 | whenever the record is not the one committed last, the sequence is odd |
| WriterSeqlock.AcceptedCopyIsCommitted | src/ipc_cmd/ipc_cmd/motion_metadata_events.c:125-131 | a full copy between two equal even sequences is the record committed last |
| WriterSeqlock.StartKeepsInv | src/ipc_cmd/ipc_cmd/motion_metadata_events.c:59-92 | a restart, evening up a sequence left odd, keeps the invariant |
| WriterSeqlock.AcceptedCopiesAreGood | src/ipc_cmd/ipc_cmd/motion_metadata_events.c:51-100 | a property that every start and update maintains holds of every accepted copy |
| WriterSeqlock.CleanStartKeepsACommittedRecord | src/ipc_cmd/ipc_cmd/motion_metadata_levels.c:51-69 | a start that finds the sequence even and the magic number set may keep the record: it was committed whole |
| SeqlockProgress.UpdatesCommit | src/ipc_cmd/ipc_cmd/motion_metadata_events.c:95-100 | an update that is let finish commits its record under the next even sequence |
| SeqlockProgress.ReadsAccept | src/ipc_cmd/ipc_cmd/motion_metadata_levels.c:135-143 | a read that is let finish between updates accepts the record, as the one committed last, and is legal |
| SeqlockProgress.UpdatesAreReadBack | src/ipc_cmd/ipc_cmd/motion_metadata_events.c:95-133 | what an undisturbed update writes is what the next undisturbed read accepts |
| SampleTear.RestartTearsFromAnOddGeneration | src/ipc_cmd/ipc_cmd/motion_iva_y28ga.c:77-80 | from every state of the invariant with an odd generation and no writer, a restart can make a reader accept a sample that was never written |
| SampleTear.TearRuns | src/ipc_cmd/ipc_cmd/motion_iva_y28ga.c:77-80 | under an inverted generation any split of the old and the new sample is accepted |
| SampleTear.ATornSampleIsReachable | src/ipc_cmd/ipc_cmd/motion_iva_y28ga.c:77-80 | such a state is one crash away from a fresh file, so a torn sample is reachable |
| SampleTear.NoTearWithEvenRestarts | src/ipc_cmd/ipc_cmd/motion_ivactl.c:61-67 | while restarts find the generation even, every accepted sample was written whole |
| RecentRing.Ring.PushWindow | src/ipc_cmd/ipc_cmd/motion_metadata_events.c:37-49 | pushing on the 512-slot ring is appending to the window and keeping the last 512 |
| RecentRing.Ring.PushAt | src/ipc_cmd/ipc_cmd/motion_metadata_events.c:39-48 | slot by slot: what a push leaves where, before and after the ring is full |
| RecentRing.RecentAreTheLast512 | src/ipc_cmd/ipc_cmd/motion_metadata_events.c:37-49 | what is kept are as many as there are, 512 at most, counted from the end |
| RecentRing.RecentOfRecent | src/ipc_cmd/ipc_cmd/motion_metadata_events.c:39-46 | forgetting before or after an append makes no difference |
| MotionHistory.AddTracks | src/ipc_cmd/ipc_cmd/motion_metadata_events.c:37-49 | one observation keeps ring, baseline, sample flag and last state the bounded view of the extended log |
| MotionHistory.HistoryTracksTheFullLog | src/ipc_cmd/ipc_cmd/motion_metadata_events.c:37-49 | after any observations the ring holds the last at most 512 transitions, alternating, and the baseline is the last evicted one or the startup sample |
| MotionHistory.InitialStateAgrees | src/ipc_cmd/ipc_cmd/record_metadata.c:269-274 | not truncated: the initial state equals the full log's at the clip's start, for any clock. Truncated: it is -1 if and only if no kept entry is at or before the start |
| MotionHistory.TruncatedMeansUnknown | src/ipc_cmd/ipc_cmd/record_metadata.c:269-274 | for non-decreasing times a truncated history says -1 |
| MotionHistory.TruncatedCanClaimAState | src/ipc_cmd/ipc_cmd/record_metadata.c:269-274 | a concrete history after a clock step back that is truncated and claims a state |
| MotionHistory.NoTransitionInsideTheClipIsLost | src/ipc_cmd/ipc_cmd/record_metadata.c:291-296 | without truncation and for non-decreasing times the ring still holds every transition after the start and up to the end of the clip |
| MotionHistory.TransitionsAtTheStartAreKeptUnlessGivenUp | src/ipc_cmd/ipc_cmd/record_metadata.c:291-296 | and every one stamped at the start itself, if and only if the last one given up is not |
| MotionHistory.InitialState | src/ipc_cmd/ipc_cmd/record_metadata.c:267-274 | the loop computes the truncation flag and the state of the last entry at or before the start |
| MotionHistory.ClipTransitions | src/ipc_cmd/ipc_cmd/record_metadata.c:291-296 | the loop lists exactly the kept transitions inside the clip, in order |
| MotionHistory.SharedHistory.Add | src/ipc_cmd/ipc_cmd/motion_metadata_events.c:37-49 | the update in place is `History.Add` of the old value |
| MotionHistory.SharedHistory.constructor | src/ipc_cmd/ipc_cmd/motion_metadata_events.c:64-90 | what a start leaves behind: no transitions and the sampled baseline |
| MotionLevels.TickCovers | src/ipc_cmd/ipc_cmd/motion_metadata_levels.c:90-113 | a tick extends the covered log by the kept reading, remembers the last discarded time and moves the end of the coverage to its own time; a clock step starts the coverage afresh, at the tick |
| MotionLevels.CoverageGoesOnExactlyWhen | src/ipc_cmd/ipc_cmd/motion_metadata_levels.c:96-100 | the coverage goes on over a tick if and only if it is the first, or the wall clock did not go back and its offset from the monotonic clock moved by at most two seconds |
| MotionLevels.SharedLevels.Tick | src/ipc_cmd/ipc_cmd/motion_metadata_levels.c:90-113 | the update in place is `Levels.Tick` of the old value under the clock-step test |
| MotionLevels.SharedLevels.Keep | src/ipc_cmd/ipc_cmd/motion_metadata_levels.c:105-110 | adding a reading to the ring in place, the oldest giving way |
| MotionLevels.SharedLevels.ResetLevels | src/ipc_cmd/ipc_cmd/motion_metadata_levels.c:35-40 | the buffer after a reset |
| SharedHistories.HistoryLayoutRoundTrip | src/ipc_cmd/ipc_cmd/motion_metadata_events.c:14-19 | a history is determined by its words in shared memory |
| SharedHistories.AcceptedHistoriesAreTheRunsOwn | src/ipc_cmd/ipc_cmd/motion_metadata_events.c:102-135 | in every interleaving with any crashes and restarts a snapshot a clip accepts is the layout of the history that the run's own observations since its last completed start make, as of the accepting check, and so the bounded view of their full log |
| SharedHistories.ClipsReportTheRunsOwnState | src/ipc_cmd/ipc_cmd/record_metadata.c:257-274 | the initial state a clip reports out of such a snapshot is that of the run's own log, or unknown when truncated and the clock did not step back |
| SharedHistories.ObservationsAreSkippedExactlyWhenNothingChanges | src/ipc_cmd/ipc_cmd/motion_metadata_events.c:95-100 | an observation is passed over if and only if adding it would leave the history as it is |
| SharedHistories.AnUnchangedStateTouchesNothing | src/ipc_cmd/ipc_cmd/motion_metadata_events.c:95-100 | an observation of the state the history is in leaves words and sequence alone; any other takes the lock and writes the extended history |
| SharedHistories.HistoryRulesMaintainTheView | src/ipc_cmd/ipc_cmd/motion_metadata_events.c:51-100 | every start and every observation leaves a bounded view in the shared words |
| SharedHistories.LevelLayoutRoundTrip | src/ipc_cmd/ipc_cmd/motion_metadata_levels.c:15-20 | a level buffer is determined by its words in shared memory |
| SharedHistories.AcceptedLevelsAreTheRunsOwn | src/ipc_cmd/ipc_cmd/motion_metadata_levels.c:135-144 | an accepted level snapshot covers the readings the run itself kept, since the run's own last reset and until the run's own last tick, through any restarts that retained them |
| SharedHistories.LevelRulesMaintainCoverage | src/ipc_cmd/ipc_cmd/motion_metadata_levels.c:42-113 | every start, retained or reset, and every tick leaves a coverage |
| SharedHistories.LevelsAreRetainedExactlyWhenComplete | src/ipc_cmd/ipc_cmd/motion_metadata_levels.c:55-65 | a restart keeps the readings if and only if the last update completed and the run's own last completed start or tick was no later than now; otherwise it resets |
| Bytes.Be32OfStore32 | src/ipc_cmd/ipc_cmd/record_metadata.c:117-123 | a stored number is read back |
| Bytes.Store32OfBe32 | src/ipc_cmd/ipc_cmd/record_metadata.c:117-123 | and stored bytes are the only ones that read so |
| MovieParse.MoovReachesTheEnd | src/ipc_cmd/ipc_cmd/record_metadata.c:191-195 | the box found is a `moov` with a 32-bit size that ends the file |
| MovieParse.AppendKeepsTheMovie | src/ipc_cmd/ipc_cmd/record_metadata.c:176-227 | for every accepted file and every appended text: the file with the four size bytes changed is accepted with the same start and duration, `moov` ending at the new end (sections 4.2 and 8.2.2 of ISO/IEC 14496-12) |
| MovieParse.ConvertMeans | src/ipc_cmd/ipc_cmd/record_metadata.c:213-218 | the start is the creation time in Unix milliseconds, the duration the header's in milliseconds rounded down, and they are refused only out of the stated ranges |
| MovieParse.ShortestIsAMovie | src/ipc_cmd/ipc_cmd/record_metadata.c:196-219 | a minimal file built for given times is accepted with them if and only if they are in range |
| MovieParse.AMovieExists | src/ipc_cmd/ipc_cmd/record_metadata.c:196-219 | such a file, accepted |
| MovieParse.SameMoov | src/ipc_cmd/ipc_cmd/record_metadata.c:182-225 | the walk over the boxes before `moov` does not notice the append |
| MovieParse.SameMvhd | src/ipc_cmd/ipc_cmd/record_metadata.c:196-221 | nor does the walk over its children |
| MovieFiles.ClipsAreFound | src/ipc_cmd/ipc_cmd/record_metadata.c:176-227 | for every file built of boxes with 32- or 64-bit sizes, then a `moov` that ends the file, with children and then a movie header of either version: the place of both and the header's times are found, if and only if fewer than 64 boxes come before `moov`, fewer than 64 children before the header, and the times are in range |
| MovieFiles.AcceptedFilesAreClips | src/ipc_cmd/ipc_cmd/record_metadata.c:176-227 | and every accepted file is built so |
| MovieFiles.AcceptedExactly | src/ipc_cmd/ipc_cmd/record_metadata.c:176-227 | so a file is accepted if and only if it is the bytes of such a clip |
| ClipFile.OverlayOn | src/ipc_cmd/ipc_cmd/record_metadata.c:165-174 | writing on where a partial write stopped is writing the longer prefix |
| ClipFile.Clip.ReadAt | src/ipc_cmd/ipc_cmd/record_metadata.c:125-134 | through any partial and interrupted reads: all the bytes, or failure; failure only after a failed call or past the end |
| ClipFile.Clip.WriteAt | src/ipc_cmd/ipc_cmd/record_metadata.c:165-174 | through any partial and interrupted writes: the whole overlay, or on failure the overlay of some prefix and nothing else |
| ClipFile.Clip.Truncate | src/ipc_cmd/ipc_cmd/record_metadata.c:354 | a successful truncation cuts the file, a failed one leaves it |
| ClipFile.Clip.FindMovie | src/ipc_cmd/ipc_cmd/record_metadata.c:176-227 | the parse loop over the file agrees with `MovieParse.FindMovie` whatever it finds, and rejects no acceptable file unless a call failed |
| ClipFile.Clip.MvhdAfter | src/ipc_cmd/ipc_cmd/record_metadata.c:196-222 | the inner loop agrees with `MovieParse.FindMvhd` |
| ClipFile.Clip.TimesAt | src/ipc_cmd/ipc_cmd/record_metadata.c:201-218 | the creation time and duration conversion, with its range tests |
| RecordMetadata.MetadataRoundTrip | src/ipc_cmd/ipc_cmd/record_metadata.c:319-343 | every level of the `udta` subtree tiles exactly and an independent reader of nested boxes, which spells their names out, gets the text back (section 8.10.1 of ISO/IEC 14496-12) |
| RecordMetadata.BoxesOfBox | src/ipc_cmd/ipc_cmd/record_metadata.c:302-311 | a box in front of boxes parses to its type and payload, followed by theirs |
| RecordMetadata.Buffer.Begin | src/ipc_cmd/ipc_cmd/record_metadata.c:302-308 | the box header with its size still open |
| RecordMetadata.Buffer.End | src/ipc_cmd/ipc_cmd/record_metadata.c:309-311 | patching the size makes the bytes from `start` the box they hold |
| RecordMetadata.BuildTree | src/ipc_cmd/ipc_cmd/record_metadata.c:319-343 | the cursor steps build exactly `UdtaBox` of the text and never pass `JSON_CAPACITY + 256` |
| RecordMetadata.WriteTree | src/ipc_cmd/ipc_cmd/record_metadata.c:345-355 | both writes and the rollback under any failures: done means appended, rolled back means the file is as before, and otherwise only the four size bytes of the old file differ |
| RecordMetadata.RestoreSize | src/ipc_cmd/ipc_cmd/record_metadata.c:350-351 | rewriting the old size undoes a size written in part |
| RecordMetadata.Finalize | src/ipc_cmd/ipc_cmd/record_metadata.c:313-360 | all or nothing: success is exactly the append, a rolled-back failure leaves the file byte for byte, and without failing calls it succeeds if and only if there is a movie, a text and room for the size |
| RecordMetadata.FitsExactlyWhen | src/ipc_cmd/ipc_cmd/record_metadata.c:313-343 | a text fits if and only if there is a movie, the text has at most 32767 bytes and the `moov` with the appended subtree stays within 32 bits |
| RecordMetadata.FinalizedClipIsAMovieWithItsMetadata | src/ipc_cmd/ipc_cmd/record_metadata.c:313-360 | the finished file parses as the same movie ending at the new end, and the appended part gives the text back |
| MotionDetector.StartAndStopAlternate | src/motiond/motiond/motion_tuning.h:48-80 | on every trace the transitions are START, STOP, START, ... and the active flag says which came last |
| MotionDetector.PositivesCountStrongReadings | src/motiond/motiond/motion_tuning.h:57-60 | the counter is the length of a run of usable strong readings ending now |
| MotionDetector.StartNeedsAConfirmedRun | src/motiond/motiond/motion_tuning.h:56-65 | START implies the last `confirm_samples` readings were all usable and strong |
| MotionDetector.QuietSinceMarksAQuietRun | src/motiond/motiond/motion_tuning.h:67-71 | the mark is the time of a reading since which all were usable and quiet |
| MotionDetector.StopNeedsAQuietRun | src/motiond/motiond/motion_tuning.h:66-76 | STOP implies an unbroken usable quiet run of at least `quiet_ms` between its own readings |
| MotionDetector.UnusableReadingsNeverTransition | src/motiond/motiond/motion_tuning.h:50-55 | an unusable reading changes no state |
| MotionDetector.StrongAndQuietOverlapExactlyWhen | src/motiond/motiond/motion_tuning.h:57-68 | a valid configuration allows a reading both strong and quiet if and only if it boosts by level, does not require level zero and releases at half the trigger or above |
| MotionDetector.OverridesReplaceThePreset | src/motiond/motiond/motiond.c:398-405 | each override of the command line replaces its field and no other, and the boost stays if and only if there is none |
| MotionDetector.NoAcceptedConfigurationOverlaps | src/motiond/motiond/motiond.c:398-406 | no configuration that `main` accepts does, with or without the mask |
| MotionDetector.StartExactlyAfterAConfirmedRun | src/motiond/motiond/motion_tuning.h:56-65 | where no reading is both strong and quiet, an inactive detector returns START if and only if the last `confirm_samples` readings were usable and strong |
| MotionDetector.StopExactlyAfterAQuietRun | src/motiond/motiond/motion_tuning.h:66-78 | there, with a clock that does not run back, an active one returns STOP if and only if a usable quiet run of at least `quiet_ms` ends here |
| MotionDetector.AcceptedConfigurationsStartExactly | src/motiond/motiond/motiond.c:398-477 | with every configuration `main` accepts, masked or not, an inactive detector returns START if and only if each of the last `confirm_samples` readings has a finite ratio from 0 to 100 and no negative level, and reaches the trigger, or half of it at level 2 or more under the boost |
| MotionDetector.AcceptedConfigurationsStopExactly | src/motiond/motiond/motiond.c:398-477 | and an active one STOP if and only if a run of readings within the release, at level zero where that is asked for, has lasted `quiet_ms` |
| MotionDetector.PresetsStopExactly | src/motiond/motiond/motion_tuning.h:17-28 | under every built-in sensitivity, with a clock that does not run back, STOP is returned if and only if readings of level 0 within the release have lasted 2000 ms |
| MotionDetector.HigherSensitivityStartsNoLater | src/motiond/motiond/motion_tuning.h:17-28 | of the ten built-in sensitivities, on the same readings, a higher one has started no later than a lower one |
| MotionDetector.MotionDetector.UpdateWith | src/motiond/motiond/motion_tuning.h:48-80 | the update in place and its verdict are `Update` of the old value |
| MotionDelivery.MessagesGoToTheQueueBehindTheName | src/motiond/motiond/motion_delivery.h:52-82 | on every run, with queues told apart and replaced at any time: the messages of a tick all go to one queue, which some tick less than a second before found behind the name, and so is the connection it leaves open; none goes to a queue a check has seen replaced |
| MotionDelivery.AReplacedQueueIsLeft | src/motiond/motiond/motion_delivery.h:52-68 | a second after the queue was last found, a tick that no longer sees it sends it nothing: it ends without a connection and pending, or on the queue it opened, which is sent STOP first |
| MotionDelivery.AQueueStillThereIsKept | src/motiond/motiond/motion_delivery.h:52-58 | a queue that is still behind the name and does not fail stays connected |
| MotionDelivery.ReconnectsWithinASecond | src/motiond/motiond/motion_delivery.h:60-68 | whatever happened up to a time: if from then on queues open and take or only delay messages, the delivery is connected after every tick a second or more later |
| MotionDelivery.AFailedSendClosesTheQueue | src/motiond/motiond/motion_delivery.h:72-88 | a send that fails for good closes the connection at once, with just the messages before it accepted, and leaves everything pending |
| MotionDelivery.NoReopeningWithinASecond | src/motiond/motiond/motion_delivery.h:60-88 | after a tick that failed or could not open, no tick before a second has gone by opens or sends anything |
| MotionDelivery.AReconnectionAnnouncesTheMotion | src/motiond/motiond/motion_delivery.h:60-68 | a connection opened while motion is wanted owes a START, which is delivered or still owed after anything that follows |
| MotionDelivery.EachConnectionHearsStopStartStop | src/motiond/motiond/motion_delivery.h:49-89 | on every run with arbitrary send, open and replacement failures the messages the open connection accepted are a prefix of STOP (START STOP)*, all on its own queue |
| MotionDelivery.NotPendingMeansTold | src/motiond/motiond/motion_delivery.h:33-36 | not pending means that the last message accepted was the wanted state, on the queue found behind the name less than a second before the last tick |
| MotionDelivery.RequestedStartIsNeverDropped | src/motiond/motiond/motion_delivery.h:38-42 | a START asked for while the recorder has heard none is delivered or still owed after any further requests and failures |
| MotionDelivery.TwoWillingTicksSettle | src/motiond/motiond/motion_delivery.h:49-82 | after any run, with a willing queue behind the name that is already open or a second gone by, two ticks and at most three sends reach not pending, the wanted state told last and to that queue |
| MotionDelivery.WillingTick | src/motiond/motiond/motion_delivery.h:49-82 | what one willing tick sends, to which queue, and what it leaves owed |
| MotionDelivery.RunKeepsInv | src/motiond/motiond/motion_delivery.h:24-89 | the fields always describe what the open connection accepted |
| MotionDelivery.MotionDelivery.Want | src/motiond/motiond/motion_delivery.h:38-42 | the request in place |
| MotionDelivery.MotionDelivery.Connect | src/motiond/motiond/motion_delivery.h:52-69 | the identity check, the reopening and its back-off in place |
| MotionDelivery.MotionDelivery.Tick | src/motiond/motiond/motion_delivery.h:49-89 | the whole tick in place is `Delivery.Tick` of the old value |
| MotionLoop.TheLoopRunsBoth | src/motiond/motiond/motiond.c:477-498 | on every run the main loop is the detector on its observations and the delivery on the STARTs and STOPs that makes, ticked every turn |
| MotionLoop.RecorderAgreesWhenNothingIsPending | src/motiond/motiond/motiond.c:477-498 | on every run of the main loop, nothing pending means the last message accepted was the state of the detector on all observations so far, on the queue found behind the name less than a second before the last turn |
| MotionLoop.DetectedStartReachesTheRecorder | src/motiond/motiond/motiond.c:477-498 | a detected START the recorder has not heard survives every later turn until delivered |
| MotionMask.UnpackOfPack | src/motiond/motiond/motion_mask.h:31-37 | the fields the shifts cut out of a record are those laid into its 56 bits |
| MotionMask.PackOfUnpack | src/motiond/motiond/motion_mask.h:31-37 | and every record is the layout of its fields |
| MotionMask.SignedIsTwosComplement | src/motiond/motiond/motion_mask.h:26-28 | the exclusive-or reads a field as two's complement |
| MotionMask.RecordMovesExactly | src/motiond/motiond/motion_mask.h:29-43 | a record with given fields moves if and only if it is not intra coded and one of its four sub-vectors in quarter pixels, added to the base vector in pixels, both in two's complement, is displaced by the threshold or more in x or in y |
| MotionMask.BlockMovesExactly | src/motiond/motiond/motion_mask.h:48-60 | a block of a P frame moves if and only if its vectors do, or, being intra coded, its difference changed by the threshold since a frame of the same process at most 500 ms before; in other frames none does |
| MotionMask.MoveTest | src/motiond/motiond/motion_mask.h:29-42 | true if and only if the block is not intra coded and some sub-vector reaches the threshold in a direction |
| MotionMask.BlockCellHoldsTheMiddle | src/motiond/motiond/motion_mask.h:52-55 | a block is masked by the cell that holds its middle pixel, in the very cells the filter counts |
| MotionMask.ActivityMeans | src/motiond/motiond/motion_mask.h:61-62 | a cell is active if and only if some moving block belongs to it |
| MotionMask.AreaCountsPixels | src/motiond/motiond/motion_mask.h:51-65 | the weighted block sum counts visible pixels of counted blocks, the half-height last row included |
| MotionMask.ScoreIsAShareOfTheImage | src/motiond/motiond/motion_mask.h:44-70 | the score is that count as a percentage of 640 by 360, lies in 0..100, and is 100 if and only if every block moves and none is excluded |
| MotionMask.ExcludingNeverRaisesTheScore | src/motiond/motiond/motion_mask.h:44-46 | excluding more cells never raises it |
| MotionMask.Mask.ScoreFrame | src/motiond/motiond/motion_mask.h:47-71 | the loops compute score and activity and leave the frame as the next one's reference |
| MotionMask.Mask.BlockTest | src/motiond/motiond/motion_mask.h:56-60 | the moving test of one block, temporal difference included |
| PixelCounts.CountRun | src/ipc_cmd/ipc_cmd/motion_iva.h:30-41 | the chunk counter counts non-zero pixels |
| PixelCounts.CountRoi | src/ipc_cmd/ipc_cmd/motion_iva.h:53-59 | the three ways a chunk meets the rectangle all count the chunk's pixels inside it |
| PixelCounts.ChunkCount | src/ipc_cmd/ipc_cmd/motion_iva.h:49-65 | a chunk adds to the totals what counting its pixels one by one adds |
| PixelCounts.ChunkCells | src/ipc_cmd/ipc_cmd/motion_iva.h:60-61 | and to one cell |
| PixelCounts.CountImage | src/ipc_cmd/ipc_cmd/motion_iva.h:44-67 | for every map, rectangle and mask the chunked counters and cells equal the pixel-by-pixel definitions |
| PixelCounts.CellsSumToRaw | src/ipc_cmd/ipc_cmd/motion_iva.h:60-61 | the cells sum to the raw count |
| PixelCounts.CountsNest | src/ipc_cmd/ipc_cmd/motion_iva.h:61-64 | inside <= included <= raw |
| PixelCounts.ExcludingNeverCountsMore | src/ipc_cmd/ipc_cmd/motion_iva.h:62-64 | excluding more cells leaves the raw count and never raises the others |
| PixelCounts.Rewrite | src/ipc_cmd/ipc_cmd/motion_iva_y28ga.c:67-75 | a mismatch of the raw count changes nothing; otherwise the two counters become the included ones, never underflow and never grow |
| FrameRing.MoveIsAddition | src/rRTSPServer/src/rRTSPServer.cpp:302-311 | for all positions and moves of up to a lap either way, `cb_move` is addition on the unrolled ring |
| FrameRing.MoveIsCanonicalExactlyOffTheEnd | src/rRTSPServer/src/rRTSPServer.cpp:302-311 | the moved pointer is the wrapped one if and only if it does not land on the ring's end |
| FrameRing.StraightRun | src/rRTSPServer/src/rRTSPServer.cpp:335-337 | bytes that do not reach the end are consecutive |
| FrameRing.WrappedRun | src/rRTSPServer/src/rRTSPServer.cpp:332-334 | bytes across the end are the tail of the ring and its beginning |
| FrameRing.CopyOut | src/rRTSPServer/src/rRTSPServer.cpp:330-338 | `cb2s_memcpy` copies the unrolled bytes and writes nothing past them |
| FrameRing.CompareWith | src/rRTSPServer/src/rRTSPServer.cpp:314-327 | `cb_memcmp` compares with the unrolled bytes: zero if and only if equal, positive if and only if the first byte that differs is the larger one, negative if and only if it is the smaller |
| FrameRing.HeaderAt | src/rRTSPServer/src/rRTSPServer.cpp:341-392 | `cb2s_headercpy` decodes the unrolled bytes for the four header sizes and nothing for others |
| FrameHeaders.DecodeOfPacked | src/rRTSPServer/include/rRTSPServer.h:194-243 | the four packed headers, built field by field in little-endian order, decode to their length, counter, time, type and stream counter |
| FrameHeaders.PayloadOfPacked | src/rRTSPServer/src/rRTSPServer.cpp:626-632 | of a frame built so, the bytes after the header are handed on, six further in if and only if bit 1 of its type is set |
| FrameHeaders.RunOnPackedStream | src/rRTSPServer/src/rRTSPServer.cpp:547-889 | so on a stream of frames built so, the polls hand on exactly those bytes of the processed frames, in order |
| FrameCapture.Capture.Walk | src/rRTSPServer/src/rRTSPServer.cpp:573-594 | on a ring of any contents, the walk notes place and header of what it steps over and loses sync as `WalkFrom` says |
| FrameCapture.Capture.Poll | src/rRTSPServer/src/rRTSPServer.cpp:547-624 | on a ring of any contents, the new place and the entries handed on are those of `PollRing` |
| FrameCapture.Capture.Payload | src/rRTSPServer/src/rRTSPServer.cpp:626-632 | the bytes read out for an entry are those of `BytesOf`: after the header, six further in for a parameter set, none for a frame too short |
| FrameCapture.Capture.TakeBatch | src/rRTSPServer/src/rRTSPServer.cpp:626-881 | the bytes of a batch, read out of the ring one entry after another |
| FrameCapture.Capture.PollAll | src/rRTSPServer/src/rRTSPServer.cpp:547-889 | any number of polls, each on the ring as it is then, hand on the bytes and stand where `RunPolls` says |
| FrameCapture.Capture.Visit | src/rRTSPServer/src/rRTSPServer.cpp:578-587 | the header at a place is noted and the frame it announces stepped over; the step never lands on the ring's beginning |
| FrameCapture.RunOnStream | src/rRTSPServer/src/rRTSPServer.cpp:547-889 | when each ring still holds the stream from where the walk stands to the write end, the bytes handed on are the payloads of exactly the frames `Processed` names, in that order |
| FrameCapture.PollOnStream | src/rRTSPServer/src/rRTSPServer.cpp:566-616 | one poll then hands on the frames `PollTo` names and stands where it says: the last frame held back, or the whole batch given up |
| FrameCapture.WalkOnStream | src/rRTSPServer/src/rRTSPServer.cpp:573-594 | the walk then notes exactly the frames between the remembered place and the write end and loses sync exactly at ten of them |
| FrameCapture.FrameVisited | src/rRTSPServer/src/rRTSPServer.cpp:578-587 | where a frame of the stream lies, that is its header and the step leads to the next one |
| FrameCapture.BytesOfAFrame | src/rRTSPServer/src/rRTSPServer.cpp:626-632 | the bytes handed on for a frame of the stream are the frame's own after its header, six further in for a parameter set |
| FrameCapture.ABlindPollGivesUp | src/rRTSPServer/src/rRTSPServer.cpp:573-603 | whatever the ring holds, a poll that finds the write end at the ring's beginning hands on nothing and forgets where it was |
| FrameCapture.ProcessedInOrderAtMostOnce | src/rRTSPServer/src/rRTSPServer.cpp:547-624 | over all polls the processed frames strictly increase: in order and at most once |
| FrameCapture.UnhurriedPollsMissNothing | src/rRTSPServer/src/rRTSPServer.cpp:588-624 | while each poll finds at most nine frames and a write end that is not the ring's very end, every frame up to where the walk stands is processed exactly once |
| FrameCapture.TheLastFrameIsHeldBack | src/rRTSPServer/src/rRTSPServer.cpp:607-616 | the newest frame of a batch is not processed and is the first of the next batch that has any |
| FrameQueue.OutputQueue.Push | src/rRTSPServer/src/rRTSPServer.cpp:884-888 | push and trim keep the newest frames |
| FrameQueue.Source.Turn | src/rRTSPServer/src/VideoFramedMemorySource.cpp:133-202 | one turn takes the front frame and delivers it if and only if it is well formed, wanted and fits |
| FrameQueue.DeliveryIsABoundedSubsequence | src/rRTSPServer/src/VideoFramedMemorySource.cpp:100-202 | in every interleaving of pushes, pops and restarts the queue holds at most 20 frames and deliveries are a subsequence of the captured frames |
| FrameQueue.EveryDeliveredFrameIsDecodable | src/rRTSPServer/src/VideoFramedMemorySource.cpp:156-198 | each delivered frame is a sync point or the mod-65536 successor of the one delivered before it |
| FrameQueue.RestartResumesAtASyncPoint | src/rRTSPServer/src/VideoFramedMemorySource.cpp:103-117 | the first frame delivered after a restart is a sync point, whatever is pushed, trimmed, skipped or dropped before it |
| FrameQueue.SyncOfH264 | src/rRTSPServer/src/VideoFramedMemorySource.cpp:37-50 | an H.264 unit built from its type is a sync point if and only if that is 5, 7 or 8 (section 7.4.1 of ITU-T H.264) |
| FrameQueue.SyncOfH265 | src/rRTSPServer/src/VideoFramedMemorySource.cpp:37-50 | an H.265 unit is one if and only if its type is 16 to 23, 32, 33 or 34 (section 7.4.2.2 of ITU-T H.265) |
| FrameQueue.DeliveredUnitsAreDecodable | src/rRTSPServer/src/VideoFramedMemorySource.cpp:156-198 | of a stream of such H.264 units, each delivered one is of those types or carries the counter after that of the one delivered before |
| FrameQueue.ATakenFrameIsDeliveredExactlyWhen | src/rRTSPServer/src/VideoFramedMemorySource.cpp:133-202 | the frame a started viewer takes leaves the queue and is delivered if and only if it is a start code and a unit that fits the room and either continues the frame delivered before or is a sync point |
| FrameQueue.ViewerStartsExactlyWithFiveFrames | src/rRTSPServer/src/VideoFramedMemorySource.cpp:103-117 | a viewer starts if and only if five frames wait for it, and then has none to continue |
| FrameQueue.NoGapNoLoss | src/rRTSPServer/src/VideoFramedMemorySource.cpp:160-198 | over any stretch of a run in which nothing is stopped or trimmed, what is taken fits and the captured frames continue one another: a viewer that was delivered the frame before is delivered every frame that leaves the queue, in order |
| FrameClock.FrameClock.MapAll | src/rRTSPServer/include/FrameClock.hh:17-38 | for any frames of any tracks whose true times step by less than 2^31 ms, each stamp is the first wall time plus 1000 times the true elapsed ms, through any number of wraps, with 0 <= usec < 1000000 |
| FrameClock.FrameClock.Map | src/rRTSPServer/include/FrameClock.hh:17-38 | one frame: the rebase and the exact split, negative totals included |
| FrameClock.StepIsRecovered | src/rRTSPServer/include/FrameClock.hh:27 | a step is recovered if and only if it is within half the counter's range |
| FrameClock.WrapDifference | src/rRTSPServer/include/FrameClock.hh:27 | the wrapped difference of wrapped clocks is the wrapped true one |
| PrerollRing.Duration | src/ipc_cmd/ipc_cmd/record_preroll.c:43-62 | the walk ends, stays in the ring, and returns the modulo-2^32 span of the packets when they tile the occupied bytes exactly and it is at most 120000, and zero otherwise |
| PrerollRing.TilingExactly | src/ipc_cmd/ipc_cmd/record_preroll.c:47-57 | the packets that tile the occupied bytes are those that lie in the ring one behind the other, each behind a header of 28 bytes and round the end of the ring, and take up just these bytes |
| PrerollRing.SoFarEnd | src/ipc_cmd/ipc_cmd/record_preroll.c:47-57 | a walk that cannot go on has met the whole tiling, or there is none |
| SdpFilter.Filter | src/rRTSPServer/src/YiRTSPServer.cpp:97-109 | the loop ends on every text and computes `Filtered` |
| SdpFilter.Turn | src/rRTSPServer/src/YiRTSPServer.cpp:99-108 | one turn removes the section at `start` or passes over it |
| SdpFilter.FilterIsBySection | src/rRTSPServer/src/YiRTSPServer.cpp:94-109 | for every text: the result is the session part followed, in order and unchanged, by the media sections without `a=sendonly`, if and only if the session part has no `m=` with a later `a=sendonly` line (section 5.14 of RFC 4566) |
| SdpFilter.ASessionCutShort | src/rRTSPServer/src/YiRTSPServer.cpp:98-108 | a concrete text that loses part of its session part |
| SdpFilter.SectionsAreWellCut | src/rRTSPServer/src/YiRTSPServer.cpp:100-102 | the cuts are exactly before lines that start with `m=`, and nothing is lost |
| SdpFilter.WellCutIsUnique | src/rRTSPServer/src/YiRTSPServer.cpp:100-102 | no other such cut of a text exists |
| SdpFilter.ReverseExactlyWhen | src/rRTSPServer/src/YiRTSPServer.cpp:103 | a section is taken for the reverse track if and only if the line `a=sendonly` stands in it between two line ends |
| SdpFilter.FilteringAgainChangesNothing | src/rRTSPServer/src/YiRTSPServer.cpp:97-109 | filtering is idempotent |
| SdpFilter.KeptIsWellCut | src/rRTSPServer/src/YiRTSPServer.cpp:103-107 | the kept sections are well cut and none of them sends only |
| DescribeResponse.Answer | src/rRTSPServer/src/YiRTSPServer.cpp:88-116 | a client that asked for the reverse track, or a response without the parts looked for, gets the response as it is; any other the rewritten one, cut to the buffer, and a Content-Length first found in the body is replaced there or, with no line end after it, throws |
| DescribeResponse.AResponseByItsParts | src/rRTSPServer/src/YiRTSPServer.cpp:92-115 | a response made of a header with its Content-Length, a blank line and a description is rewritten to the same parts around the new number and the filtered description |
| DescribeResponse.SentWholeExactlyWhen | src/rRTSPServer/src/YiRTSPServer.cpp:115 | exactly when the buffer cuts nothing off the rewritten response; never when the length it came with was right |
| DescribeResponse.FilteredExactlyWhenTheLengthIsInTheHeader | src/rRTSPServer/src/YiRTSPServer.cpp:95-115 | the client is sent the filtered description as the body if and only if the Content-Length stands in front of the blank line |
| DescribeResponse.DeclaredLengthIsTheBodys | src/rRTSPServer/src/YiRTSPServer.cpp:110-115 | read again, the rewritten response has the filtered description as its body and exactly its length as Content-Length (section 12.14 of RFC 2326) |
| DescribeResponse.HeaderStaysButTheNumber | src/rRTSPServer/src/YiRTSPServer.cpp:113-114 | the header is unchanged but for the number |
| DescribeResponse.RewritingNeedsNoMoreRoom | src/rRTSPServer/src/YiRTSPServer.cpp:115 | a response with a right length that fit the buffer fits it rewritten |
| DescribeResponse.ValueOfDecimal | src/rRTSPServer/src/YiRTSPServer.cpp:114 | the printed number reads back |
| Crc32.ComputeCrc | scripts/flash-core/clean_image.c:6-8 | the two loops compute the CRC-32 register step by step |
| CrcPolynomial.ChecksumIsTheRemainder | scripts/flash-core/clean_image.c:6-8 | for every text there is a quotient such that, coefficient by coefficient, the text (lowest bit of each byte first, 32 powers up, its 32 highest coefficients complemented) is the quotient times the generator of powers 32, 26, 23, 22, 16, 12, 11, 10, 8, 7, 5, 4, 2, 1, 0 plus the complement of the checksum |
| Crc32.BitIsInjective | scripts/flash-core/clean_image.c:7 | one shift of the register loses nothing |
| Crc32.OneByteTells | scripts/flash-core/clean_image.c:6-8 | texts that differ in one byte have different checksums |
| UImage.ParseMeans | scripts/patch_y623_ve_debugfs.py:73-107 | accepted are exactly the partitions made of a header with the right magic, size and checksums, its payload and any tail |
| UImage.EveryPayloadHasAPartition | scripts/patch_y623_ve_debugfs.py:73-107 | every payload of the right size belongs to an accepted partition |
| UImage.DamageIsNoticed | scripts/patch_y623_ve_debugfs.py:90-104 | no partition stays acceptable when a single byte of header or payload is changed |
| UImage.Inspect | scripts/patch_y623_ve_debugfs.py:127-138 | the first loop tells for every site which call it holds, or refuses |
| UImage.WriteNew | scripts/patch_y623_ve_debugfs.py:145-148 | the second loop exchanges every site and nothing else |
| UImage.PatchImage | scripts/patch_y623_ve_debugfs.py:123-150 | all sites change or none: accepted exactly when all hold the old calls or all the new ones, with the refusals told apart |
| UImage.PatchesAreWellFormed | scripts/patch_y623_ve_debugfs.py:43-46 | the two sites do not overlap and each changes |
| UImage.StampedIsGood | scripts/patch_y623_ve_debugfs.py:192-194 | the header with both checksums taken anew is good for the new payload |
| UImage.Rebuild | scripts/patch_y623_ve_debugfs.py:180-214 | the program's steps on its buffers: of its own later checks only those about `xz` and the kernel can fail |
| UImage.RebuiltIsSettled | scripts/patch_y623_ve_debugfs.py:196-214 | the output parses with right checksums, decompresses to the given kernel, and differs from the input only in the two checksum fields and the XZ slot |
| UImage.Process | scripts/patch_y623_ve_debugfs.py:217-239 | a run converts an accepted partition with both old calls exactly as the rebuild says, leaves one with both new calls as it is, and refuses any other with its reason |
| KernelPartitions.PartsAreAccepted | scripts/patch_y623_ve_debugfs.py:73-107 | every partition built of header fields, 1878024 bytes of payload with the compressed kernel at 15273, both checksums and any tail is accepted and taken apart into them |
| KernelPartitions.AcceptedPartitionsAreParts | scripts/patch_y623_ve_debugfs.py:73-107 | and no other partition is accepted |
| KernelPartitions.KernelOfParts | scripts/patch_y623_ve_debugfs.py:109-120 | its kernel is what its stream decompresses to, if that has 3742168 bytes |
| KernelPartitions.SitesOfKernel | scripts/patch_y623_ve_debugfs.py:40-46 | the two calls of a kernel, old or new, at their addresses |
| KernelPartitions.RebuiltOfParts | scripts/patch_y623_ve_debugfs.py:153-214 | a rebuild gives the partition of the same parts with the new stream, padded with zeroes by a multiple of four, or the reason why not |
| ImageWrapper.WrapImage | scripts/flash-core/clean_image.c:14-20 | the C program's checks and in-place header make `CImage` |
| ImageWrapper.FillHeader | scripts/flash-core/clean_image.c:19-20 | the bytes written one field at a time are the header Python packs at once |
| ImageWrapper.PyImageIsWrapped | scripts/pack_flash_core_installer.py:26-35 | the Python wrapper is the common form with its timestamp |
| ImageWrapper.CImageIsWrapped | scripts/flash-core/clean_image.c:16-20 | the C wrapper is the common form with timestamp zero |
| WrapperBytes.PyImageIsByHand | scripts/pack_flash_core_installer.py:26-35 | the Python wrapper byte by byte: magic number, sums, timestamp, size, the fixed bytes and the partition's name in front of the data, for every data and timestamp that fit 32 bits |
| WrapperBytes.CameraImageOfParts | scripts/flash-core/clean_image.c:14-20 | for a SquashFS file built of its signature, version 4, a size and anything else, the camera's image byte by byte, or the exit status |
| WrapperBytes.OtherFilesAreRefused | scripts/flash-core/clean_image.c:14 | every other file ends in status 2 |
| WrapperBytes.StockPayloadOfDump | scripts/pack_flash_core_installer.py:38-47 | the packer takes the whole pages of the file system that a dump states, if they fit and only padding follows |
| ImageWrapper.RoundingWraps | scripts/flash-core/clean_image.c:16 | the 32-bit rounding is the true one if and only if the size is not in the last page below 2^32 |
| ImageWrapper.WrapperHoldsTheFileSystem | scripts/flash-core/clean_image.c:15-18 | the image is a prefix of the file within the partition's limit, and holds the whole stated size if and only if that size is not in the last page |
| ImageWrapper.AnEmptyImageIsAccepted | scripts/flash-core/clean_image.c:16-18 | for every file that states such a size, an image with no payload comes out |
| ImageWrapper.WrappersAgree | scripts/pack_flash_core_installer.py:38-47 | where both accept a file their images agree but for timestamp and header checksum, if and only if the size did not wrap |
| ImageWrapper.WrappedPassesTheCheck | scripts/pack_flash_core_all.py:147-157 | both wrappers' images pass the packer's check against their payload |
| ImageWrapper.TheCheckFixesTheImage | scripts/pack_flash_core_all.py:147-157 | an image that passes is the common form but for timestamp, load and entry address |
| ImageWrapper.CameraWrapperPassesTheCheck | scripts/pack_flash_core_all.py:143-157 | the camera's image of a file passes against that file if and only if the file has no byte beyond the rounded size |
| Branches.ArmCallReachesItsTarget | src/ipc_cmd/ipc_cmd/nightvision.c:92-98 | the word encoded branches to its target; none is encoded only where no `BL` word would |
| Branches.ThumbBranchReachesItsTarget | src/ipc_cmd/ipc_cmd/motion_iva_y28ga.c:101-105 | the same for the Thumb-2 `B.W` with its inverted bits |

## Left out

- Opening, mapping and re-opening of the shared files, file descriptors tracked by the preload library, logging, option parsing and process checks: inputs or absent.
- C11 weak memory: steps are sequentially consistent; copies are split into words.
- `motion_map` re-initialisation, which sets the generation back to zero, and a re-created night-vision file; `motion_map`'s own publisher is the `Resuming` discipline of `WriterSeqlock` and has no instance of its own.
- The remapping a history reader does when its file is re-created, and the in-process lock around it.
- The two vendor counters that the filter clears when it adopts new settings (src/ipc_cmd/ipc_cmd/motion_iva_y28ga.c:53-54).
- The bounded number of snapshot attempts of the readers: each attempt is its own read in the machines, so any number is covered.
- `motion_mask_read`: its coherence test is the seqlock of `WriterSeqlock`; freshness, the two-second rule for predicted frames and the duplicate test are not modelled.
- `motion_levels_due`: the schedule of bursts decides which readings are offered; `MotionLevels` takes the choice as an input.
- The decimal text of `build_json` and `build_raw_json`: the text is an input of `RecordMetadata.Finalize`; the baseline entry of the event list is not modelled.
- `motion_delivery` error codes: why a send or an open failed is not kept.
- MotionMask.Mask.ScoreFrame: floating-point rounding of the one division is not modelled; the score is a real number.
- FrameClock.FrameClock.Map: the 64-bit overflow of the microsecond total, 292000 years away, is not modelled.
- FrameCapture.Capture.Poll: the branch for a ring header that disagrees with itself, which leaves the semaphore locked (src/rRTSPServer/src/rRTSPServer.cpp:558-562), is not modelled, and each poll walks and copies one state of the ring.
- FrameCapture.Capture.Payload: the choice of a queue by type and resolution and the substitution of parameter sets from constant tables are not modelled.
- UImage.Process: `xz` is any pair of functions; that the vendor's loader accepts the stream is outside the model. Writing the output file is left out.
- ImageWrapper.WrapImage: failures to open or write the output are left out; a failed `malloc` is an input.
- The query parsers of `YiRTSPServer` (`streamPath`, `backchannelQuery`, `requiresBackchannel`): easy members.
- NEON and assembly forms: the scalar definitions are modelled.
- The older copies of the same code (`h264grabber`, `motiond2.c`, `experiments/`), IPC command tables, MQTT, packaging and installer file copying, text-rewriting scripts and sound tables.
