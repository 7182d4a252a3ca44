# Proofs about the obicall core

This project models the logic core of obicall and the small state machines of its processes, and
proves what they keep: a publication gate that survives crashes, a Kalman estimator, a dependency
resolver, a journal with its ring, file and subscribers, a broker and its offline replay, byte
codecs, framed messages on a connection, checksums, a JSON scanner and a minimax selector.
`dafny verify dfyconfig.toml` checks everything.

How to read it:

- Code that updates a struct or a buffer is a class or a method over arrays. Its contract ties the
  new state to a specification function (`Value()`, `Contents()`, a ghost log), and lemmas prove
  what that function means. `old` appears only in such contracts.
- A section that the C code runs under a mutex is one atomic step. Runs are sequences of steps with
  arbitrary inputs, so results, heartbeats, observations, disk failures and restarts come in any order.
- A network is a sequence of waits with arbitrary outcomes: nothing in time, a break, or some bytes moved.
- In the numeric modules a `double` is an exact real, in the codecs it is its 64-bit pattern.
  Reading a pattern as a number and taking a square root are function parameters, as is the SHA-256
  compression function. Clock readings, disk outcomes and the room left on a device are step inputs.
- Machine widths are written out where the code can reach them: the epoch and the replay-gap sum
  modulo 2^64, the pending depth modulo 2^32, two's complement in the codecs, bit vectors in the CRC.

| module | subject |
|---|---|
| Machine, Reals, Codec, Cursor, Layout | integer types, fields and grammars, cursors with a sticky flag, counted layouts |
| Gate, GateRecord, GateProcess, GateRuns, GatePromotions, GateRetries | publication gate: decisions, durable record, handlers, all runs, when ownership moves, commits that were not persisted |
| Matrix, Estimator, KalmanFilter, StaticFusion | the filter, the Joseph form, fusion |
| FilterMeaning, FilterNoise | what prediction and update do to mean and variance; exactly which measurement noise keeps the filter semi-definite |
| Covariance, ObservationCheck | the semi-definite test and observation validation |
| Manifest, Resolver, Ranking | dependency graphs, resolution, ranking of alternatives |
| Admission, Journal, JournalRuns, JournalTracks, JournalFile | admission, ring and subscribers, all runs, independence of sensors, the segment file |
| Broker, Replay, WindowStream | the broker's queue and filter, offline replay, and why they agree; how windows are paired from their messages |
| WireObservation, WireResult, WireCheckpoint, WireEvent, WireOffsets | message codecs, and where each field stands |
| WireFrame, WireSession | the frame header, frames on a connection, and senders that ignore failed sends |
| Crc32, CrcResidue, Sha256 | digests |
| Json, JsonSpans, JsonReader | scanner, spans, escaping |
| Dgt | minimax selection with hysteresis |

## Where code and documentation disagree

The model follows the code.

- docs/ARCHITECTURE.md (line 174) says that a promotion is durable before the gate replies. The code
  ignores the result of that persist (src/gate/gate_main.c:70 and 103). `GateRuns.PromotionDurableIff`
  says exactly when a promotion is durable; `GateRuns.LostGrantIsRepeated` is a run in which an epoch is
  granted, lost and granted again. `GateRuns.GrantsFollowParity` shows that the second grant of a number
  always goes to the same broker.
- include/obicall/journal.h says that a sequence number may arrive up to `reorder_window_n` behind. The
  code admits none that is behind; the window only decides which reason is reported
  (`Admission.AdmittedIff` does not mention it). `Admission.ReorderWindowNeverAdmits` is the failing family:
  inside the window but behind the last one, a sample is refused as a duplicate.
- The replay-gap test of a promotion adds in 64 bits. `Gate.PromotableVersusReady` states where that differs
  from the integer condition: the code is only ever stricter. `Gate.WrappedGapRefusesAReadyShadow` is an input
  on which it is.
- A manifest that lists one dependency twice is reported as a cycle. `Resolver.Resolve` says so exactly, and
  `Resolver.RepeatedDependencyIsACycleReport` shows it for every such pair of manifests.
- The covariance test is necessary but not sufficient. `Covariance.PsdExactly` says for every symmetric matrix
  when it is semi-definite; `Covariance.SkippedPivotHidesIndefiniteness` is a family that is accepted and is not.
- So validation does not keep the filter semi-definite. `FilterNoise.NoiseMustBePsd` is the exact condition on a
  measurement covariance, `FilterNoise.SoundNoiseKeepsPsdIff` the exact condition on an observation that passed
  validation, and `FilterNoise.ValidNoiseSpoils` an observation that passes and spoils the filter.
- Admission at most once per boot id and sequence number needs boot ids not to return:
  `Admission.AdmittedAgainIff` is the exact condition for every history, `Admission.ReturningBootIdReadmits` the
  failing family.
- Replacing an owner is justified only for a nonnegative confirmation timeout:
  `GateRuns.JustifiedExactlyForNonnegativeTimeouts`, and `GateRuns.NegativeTimeoutDeposesALiveOwner` for every
  negative one.
- The journal opens its segment for append but numbers windows from 1 again in every process life
  (src/journal/journal_main.c:266-274), so a segment can hold one window number several times.
  `JournalRuns.WindowsRestart` says what it then holds; `Gate.RepeatedWindowRefused` says that a result for a
  window number at or below its pipeline's mark is refused and leaves the gate as it was.
- src/osal/osal.h (lines 55-57) says that a caller whose send fails must close the connection. The journal
  and the gate ignore the result and go on with the next message (src/journal/journal_main.c:130, 144, 181 and
  src/gate/gate_main.c:143, 178, 201). `WireFrame.PeerReceivesPrefix` is about callers that stop.
  `WireSession.InOrderIff` is the exact condition for those that go on, `WireSession.TimeoutDropsAMessage` the
  family in which one time-out silently drops a message, and `WireSession.TornFrameIsMisread` an input on which
  sending one message twice makes the peer receive a third. `WireSession.QuietInOrder` says which runs are safe.
- A window and its decision are two messages, and the broker pairs whatever it gets. One lost message skips a
  window (`WindowStream.OneLossSkipsOneWindow`), two can queue an observation under the wrong window
  (`WindowStream.TwoLossesMispair`); `WindowStream.PairedRightIff` is the exact condition.
- A commit that could not be persisted is answered with an error, but its mark has moved in memory. A retry is
  refused until a restart (`GateRetries.RetryIsRefused`), and any later successful persist makes the refused
  commit durable (`GateRetries.MarkBecomesDurableIff`); `GateRetries.RetryCommitsIff` is the exact condition for
  a retry to commit.
- include/obicall/gate.h (lines 116-119) says that a failed load leaves the caller's state alone.
  `obicall_gate_decode_state` clears it first (src/core/gate.c:162), so a record with a good checksum whose
  payload does not decode changes it; `GateRecord.EmptyRecordFailsToDecode` is such a record. `GateRecord.LoadState`
  returns a value and does not show this.
- A sensor name that fills its field without a zero byte is refused, but the journal makes a track for it each
  time, because it stores 31 characters and compares 32 (src/journal/journal_main.c:58-70). Thirty-two such
  submissions leave no track for a new sensor: `JournalTracks.EndlessNameTakesATrack`.
- The pending depth is cut to 32 bits: `JournalRuns.AdmissionBoundsLag` says when the bound it enforces holds.

## Model

| member | source | states |
|---|---|---|
| Gate.CommitIff | src/core/gate.c:33-86 | A result commits if and only if it is compatible and unexpired, comes from the owner at the current epoch, its pipeline has a slot or finds one free, and its window lies above the pipeline's mark |
| Gate.OutcomeIff | src/core/gate.c:33-86 | For each of the eight outcomes, exactly when it is given, in terms of owner, broker, epochs, room and the pipeline's mark |
| Gate.DecideMarks | src/core/gate.c:33-86 | A decision never changes epoch or owner; a commit sets exactly its own pipeline's mark to its window, and every other outcome leaves all marks alone |
| Gate.CommitFillsSlot | src/core/gate.c:48-85 | A commit stores its window and digest in its pipeline's slot and leaves every other slot alone |
| Gate.GateState.DecidePublish | src/core/gate.c:33-86 | The in-place decision is the specified one, including which slot is used |
| Gate.GateState.Promote | src/core/gate.c:106-117 | Promotion sets the owner and raises the epoch modulo 2^64 |
| Gate.PromotionFencesUnlessWrapped | src/core/gate.c:106-117 | A result stamped with the epoch before a promotion, or an earlier one, commits after it only if the 64-bit counter wrapped from its greatest value to the stamped epoch 0; then exactly when it meets the other conditions |
| Gate.PromotableVersusReady | src/core/gate.c:88-104 | The code's readiness test implies the documented one and differs from it exactly when the 64-bit sum wraps below the high-water mark |
| Gate.WrappedGapRefusesAReadyShadow | src/core/gate.c:96-100 | A shadow that is ready is refused when the gap is 2^64 - 1 |
| Gate.RepeatedWindowRefused | src/core/gate.c:74-86 | Of the results that meet all other conditions, those at or below the pipeline's mark are refused as duplicates and change nothing, and all others commit |
| Gate.MarksBelowMax | src/gate/gate_main.c:88-93 | The high-water mark is an upper bound of every pipeline's last committed window |
| Gate.MaxIsSomeMark | src/gate/gate_main.c:88-93 | And it is some pipeline's window, or 0 without pipelines |
| GateRecord.EncodeState | src/core/gate.c:135-157 | Too many pipelines, a small buffer, or exactly the image of the state; the three cases are exclusive and exactly characterised |
| GateRecord.DecodeState | src/core/gate.c:159-180 | Decoding accepts exactly the data that start with a state's image, and gives that state |
| WireOffsets.GateStateFixed | src/core/gate.c:135-157 | The offset of each fixed field of a gate state |
| WireOffsets.GateStatePipeline | src/core/gate.c:135-157 | The offsets of the fields of each pipeline's slot |
| GateRecord.StrictPrefixRejected | src/core/gate.c:159-180 | No strict prefix of an encoded state decodes |
| GateRecord.PersistState | src/core/gate.c:186-208 | The bytes written are the record of the state |
| GateRecord.LoadState | src/core/gate.c:210-227 | Loading is the specified function of the file's bytes, with its two kinds of failure |
| GateRecord.LoadOfRecord | src/core/gate.c:186-227 | Loading what was persisted gives the state back, whatever follows it in the file |
| GateRecord.TruncatedRecordRefused | src/core/gate.c:210-227 | A record cut short anywhere is refused |
| GateRecord.ChangedPayloadByteRefused | src/core/gate.c:210-227 | Changing any single payload byte is refused with a checksum error |
| GateRecord.ChangedWordRefused | src/core/gate.c:210-227 | So is any damage confined to four consecutive payload bytes |
| GateRecord.ChangedMagicRefused | src/core/gate.c:219-221 | A changed byte of the magic number is refused |
| GateRecord.ChangedChecksumRefused | src/core/gate.c:225 | A changed byte of the stored checksum is refused |
| GateRecord.ChangedReservedByteIgnored | src/core/gate.c:218 | A changed reserved byte changes nothing |
| GateRecord.EmptyRecordFailsToDecode | src/core/gate.c:210-227 | A record can pass its checksum and still be refused as malformed |
| GateProcess.Process.EvaluatePromotion | src/gate/gate_main.c:65-108 | The handler's promotion step is the specified one: bootstrap of A, or replacement of a stale owner by a ready shadow, with the persist result ignored |
| GateProcess.Process.HandleHeartbeat | src/gate/gate_main.c:110-145 | A heartbeat updates its broker's view, evaluates a promotion, and is answered with the resulting epoch and owner |
| GateProcess.Process.HandlePublish | src/gate/gate_main.c:147-180 | A publish is accepted in the reply exactly when it commits and its persist succeeds |
| GateProcess.AnswerIff | src/gate/gate_main.c:147-174 | For each of the eight answers to a publish, exactly when it is given |
| GateProcess.Process.HandleMessage | src/gate/gate_main.c:147-180 | A message that is no result's image is dropped without a reply; otherwise the decoded result is published |
| GateProcess.SentResultIsSeen | src/gate/gate_main.c:147-150 | What the gate sees of a result sent to it is the result, with the struct size of its own build |
| GateProcess.Process.Start | src/gate/gate_main.c:259-277 | Start-up recovers the durable state, starts blank without a file, and refuses an untrustworthy one |
| GateRuns.AcksAreOrdered | src/gate/gate_main.c:147-163 | Over every run with lost persists and restarts, acknowledged commits have non-decreasing epochs, and within a pipeline strictly increasing windows |
| GateRuns.NoWindowAcknowledgedTwice | src/gate/gate_main.c:147-163 | No window of a pipeline is acknowledged twice |
| GateRuns.CommitsAreFenced | src/core/gate.c:33-86 | Any result that commits after a run carries an epoch at least that of every acknowledged commit, and a larger window than those of its pipeline |
| GateRuns.AcksCovered | src/gate/gate_main.c:154-163 | Every acknowledged commit is covered by the durable state, so a restart never forgets it |
| GateRuns.GrantsFollowParity | src/gate/gate_main.c:65-108 | Over all runs epoch 0 means no owner, odd epochs belong to A and even positive ones to B, so one epoch is never granted to both |
| GateRuns.RestartAlwaysSucceeds | src/gate/gate_main.c:259-277 | The process never refuses a state file it wrote itself |
| GateRuns.LostGrantIsRepeated | src/gate/gate_main.c:65-76 | A run in which a grant is lost with a failed persist and then made again |
| GateRuns.ReplacementIsJustified | src/gate/gate_main.c:78-107 | A promotion that replaces an owner is triggered by the promoted broker's own heartbeat; the old owner was heard in this process life and has been silent longer than the timeout; health, digest, schema and the integer replay gap all hold |
| GateRuns.ViewTracks | src/gate/gate_main.c:116-123 | The gate's view of a broker is always that broker's last heartbeat since the process started |
| GateRuns.NegativeTimeoutDeposesALiveOwner | src/gate/gate_main.c:78-82 | For every negative timeout and every requirements: two heartbeats at one time make a broker owner and depose it, although it was heard at that very time |
| GateRuns.JustifiedExactlyForNonnegativeTimeouts | src/gate/gate_main.c:78-107 | Every replacement in every run is justified if and only if the timeout is nonnegative; equally, the promoted broker speaks for itself only then |
| GatePromotions.BootstrapIff | src/gate/gate_main.c:66-77 | Over all runs: while nobody owns the epoch, a heartbeat makes A the owner of epoch 1 exactly when A was last heard healthy |
| GatePromotions.ReplacedIff | src/gate/gate_main.c:79-107 | Over all runs: a heartbeat replaces the owner exactly when the owner was last heard longer ago than the timeout and the other broker was last heard fit for promotion |
| GatePromotions.StampsAreAnswered | src/core/gate.c:63-77 | After any run: results stamped below the epoch are answered as stale, the other broker's at or above it OK, and neither moves a mark |
| GatePromotions.DeposedIsStale | src/core/gate.c:63-77 | Once an owner has been replaced, what it stamped before is answered as stale until a restart |
| GateRuns.PromotionDurableIff | src/gate/gate_main.c:65-108 | A promotion is durable exactly when its persist succeeded, although the reply announces it either way |
| GateRetries.MarkBecomesDurableIff | src/gate/gate_main.c:154-158 | After a commit whose persist failed, and until the next restart: its mark stands in memory over every run, and becomes durable exactly when anything at all is persisted |
| GateRetries.RetryIsRefused | src/gate/gate_main.c:154-158 | Until the next restart no result for its window or an earlier one of its pipeline commits |
| GateRetries.RestartForgets | src/gate/gate_main.c:259-277 | A restart with nothing persisted since leaves the process as if it had restarted before the failed commit |
| GateRetries.RetryCommitsIff | src/gate/gate_main.c:147-163 | After the next restart the same result commits if and only if nothing was persisted in between, it is unexpired, and it fits owner, epoch and room of the state that was durable before |
| GateRetries.CommitMeansForgotten | src/gate/gate_main.c:147-163 | Over every run: if a result for that window or an earlier one ever commits, the process restarted before anything was persisted |
| GateRetries.DurableMarkStays | src/gate/gate_main.c:154-163 | A durable mark survives every run, restarts included, on disk and in memory |
| GateRetries.StepSaves | src/gate/gate_main.c:65-163 | A step either makes the whole state in memory durable or leaves the file alone |
| KalmanFilter.KalmanState.Init | src/core/estimator.c:8-24 | The loops set mean and covariance to the initial filter |
| KalmanFilter.KalmanState.Predict | src/core/estimator.c:26-81 | Prediction is the transition of mean and covariance plus process noise, or one of the specified refusals that change nothing |
| KalmanFilter.KalmanState.UpdatePosition | src/core/estimator.c:83-149 | Prediction, then the gain, the corrected mean and the Joseph covariance; a singular innovation leaves the predicted state in place |
| FilterMeaning.InitialMeans | src/core/estimator.c:8-24 | A fresh filter rests at the given position, with the given variances and no correlation |
| FilterMeaning.PredictionMoves | src/core/estimator.c:26-81 | A prediction moves each position by its velocity times the elapsed seconds and keeps the velocities |
| FilterMeaning.PredictionSpreads | src/core/estimator.c:26-81 | The variance it leaves in a direction is that of the direction as it was before the motion, plus noise in proportion to the elapsed time |
| FilterMeaning.PredictStatusIff | src/core/estimator.c:26-40 | Exactly which predictions are refused, and that a refusal changes nothing |
| FilterMeaning.UpdateCorrectsMean | src/core/estimator.c:83-149 | With S w = z - H m, a successful update moves the mean by P H^T w in every component, and leaves R w of the innovation |
| FilterMeaning.SolutionExists | src/core/estimator.c:101-115 | There is such a w for every innovation that is not singular |
| FilterMeaning.UpdateStatusIff | src/core/estimator.c:83-106 | Exactly which updates are refused, and what each refusal leaves |
| Estimator.JosephIsShortForm | src/core/estimator.c:116-146 | With the gain the code computes, the Joseph result equals P - K S K^T exactly |
| Estimator.UpdateNeverIncreasesVariance | src/core/estimator.c:83-149 | A successful update never increases the variance in any direction |
| Estimator.GainIsOptimal | src/core/estimator.c:107-115 | No other gain leaves less variance in any direction |
| Estimator.JosephPsd | src/core/estimator.c:116-146 | The Joseph form is positive semi-definite for every gain, which is why it is used |
| Estimator.ReachablePsd | src/core/estimator.c:8-149 | With nonnegative noise and variance parameters and semi-definite measurement covariances, the covariance is symmetric and positive semi-definite after any sequence of init, predict and update calls, failed ones included |
| FilterNoise.NoiseMustBePsd | src/core/estimator.c:83-149 | A measurement covariance keeps the filter semi-definite in every run, for all nonnegative parameters, if and only if it is symmetric and positive semi-definite itself |
| FilterNoise.BadNoiseSpoils | src/core/estimator.c:107-146 | For any other one there is a multiple of the identity from which a single regular update leaves a covariance that is not semi-definite |
| FilterNoise.NegativeNoiseSurvives | src/core/estimator.c:107-146 | How much of a negative direction of the noise an update keeps, exactly |
| FilterNoise.SoundNoiseKeepsPsdIff | src/core/observation.c:91-118 | A position observation that passed validation keeps the filter semi-definite in every run if and only if its matrix is symmetric and elimination without a threshold skips only zeros |
| FilterNoise.LiveIsPsd | src/broker/broker_main.c:347-360 | A broker fed with semi-definite measurement covariances has a semi-definite filter |
| FilterNoise.ValidNoiseSpoils | src/core/observation.c:21-43 | The covariance [[0, 1], [1, 0]] passes validation, and after an update from 10 I the filter's form is negative in the direction (1, -1, 0, 0) |
| StaticFusion.Fuse | src/core/estimator.c:151-171 | The loop computes the inverse-variance weighted mean and its variance, or rejects what the code rejects |
| StaticFusion.FusionIsOptimal | src/core/estimator.c:151-171 | No other weights that sum to one give a smaller variance |
| StaticFusion.FusionBeatsEachMeasurement | src/core/estimator.c:151-171 | The fused variance is at most each measurement's |
| Covariance.CovarianceIsPsd | src/core/observation.c:21-43 | The nested loops accept exactly when every remaining pivot is at least minus epsilon |
| Covariance.PsdIsAccepted | src/core/observation.c:21-43 | Every symmetric positive semi-definite matrix of any supported dimension is accepted |
| Covariance.RemainderStaysPsd | src/core/observation.c:21-43 | Eliminating a pivot, or skipping one below the threshold, leaves a semi-definite remainder |
| Covariance.PsdExactly | src/core/observation.c:21-43 | For every symmetric matrix and threshold: it is positive semi-definite if and only if elimination without a threshold skips only pivots with nothing in or below them; and then it is accepted |
| Covariance.PsdIffCleanSkips | src/core/observation.c:36-39 | With the code's own threshold, the same for every symmetric matrix of which no positive pivot was skipped |
| Covariance.AcceptedWithoutSkipsIsPsd | src/core/observation.c:21-43 | So a symmetric matrix in which no pivot was skipped is positive semi-definite |
| Covariance.SkippedPivotHidesIndefiniteness | src/core/observation.c:38 | A zero on the diagonal beside anything nonzero is accepted for every threshold and is indefinite |
| ObservationCheck.Validate | src/core/observation.c:45-122 | Exactly the issues the observation has are reported, each once and in order, and the status is the category of the first |
| ObservationCheck.CategoryIff | src/core/observation.c:45-122 | Which status each issue gives |
| ObservationCheck.TrueCovarianceIsNeverRefused | src/core/observation.c:91-118 | A finite, symmetric, positive semi-definite covariance is never the reason for a refusal |
| Resolver.Closure | src/core/manifest.c:257-289 | The worklist on fixed arrays marks exactly the transitive closure, or finds that a reachable name has no provider; it never overflows |
| Resolver.Kahn | src/core/manifest.c:291-334 | The sort succeeds exactly when no reachable manifest lies on a cycle or lists a dependency twice, and then yields a load order; the queue never overflows |
| Resolver.Resolve | src/core/manifest.c:257-334 | MISSING if and only if a reachable name does not exist; CYCLE if and only if all exist and the graph is not sortable; otherwise OK with a duplicate-free order of exactly the closure, dependencies first |
| Resolver.RepeatedDependencyIsACycleReport | src/core/manifest.c:295-318 | A repeated dependency name makes resolution report a cycle although the graph has none |
| Manifest.NoExitMeansCycle | src/core/manifest.c:304-331 | Providers left waiting only for each other contain a cycle |
| Manifest.OrderedIsAcyclic | src/core/manifest.c:304-331 | A load order excludes cycles |
| Ranking.RankAlternatives | src/core/manifest.c:336-388 | The indices returned are the first of the ranking of exactly the eligible providers, by score, then name, then position |
| Ranking.RankingIsUnique | src/core/manifest.c:365-383 | There is only one such ranking, so the in-place sort is determined by the manifests |
| Ranking.RankedByScore | src/core/manifest.c:365-383 | Down a ranking scores never fall, at one score names never fall, at one name places rise |
| Ranking.LessIff | src/core/manifest.c:365-383 | Names are compared at their first difference, a beginning before its continuation |
| Ranking.InsertOne | src/core/manifest.c:366-383 | One pass of the insertion sort moves the key below everything it ranks before and shifts the rest |
| Dgt.ValidateTable | src/core/dgt.c:11-69 | The loops accept exactly the valid tables and say which group of checks failed |
| Dgt.ActionWorstCaseLoss | src/core/dgt.c:71-90 | The loop computes the maximum loss over the scenarios, or reports the index or score error |
| Dgt.RaisedComponent | src/core/dgt.c:71-90 | Raising one component of one cost by d raises that loss by the component's own weight times d over its own scale, and no other loss |
| Dgt.NoCostNoLoss | src/core/dgt.c:71-90 | A zero cost has loss 0 |
| Dgt.OneComponentWorstCase | src/core/dgt.c:71-90 | With all weight on one component the worst case is the greatest of that component's weighted, normalised costs |
| Dgt.SelectAction | src/core/dgt.c:119-188 | The selection is the best eligible action, the held one within the margin, or the baseline, and the hysteresis state names it |
| Dgt.BestIsMinimax | src/core/dgt.c:139-151 | No eligible action can guarantee less than the selected one: some scenario costs it at least as much as the best action can ever lose |
| Dgt.TiesGoToTheLeastId | src/core/dgt.c:139-151 | Of equal worst cases the least id is selected, and of those the first place |
| Dgt.EligibleCountIs | src/core/dgt.c:139-151 | The reported count is the number of eligible actions |
| Dgt.SelectedIsEligible | src/core/dgt.c:119-188 | Only an eligible action is ever selected, fallback and hold included |
| Dgt.HoldIsNearOptimal | src/core/dgt.c:160-173 | A held action's loss times one minus the margin is at most every eligible action's loss |
| Dgt.SwitchIsWorthIt | src/core/dgt.c:160-173 | Leaving an action that is still eligible beats its loss by more than the margin |
| Dgt.FedBackIsStable | src/core/dgt.c:119-188 | Asked again with its own output, the selector answers the same, for any margin |
| Dgt.OneSwitchPerChange | src/core/dgt.c:119-188 | Over every run the answer changes only where eligibility changes |
| Admission.Admit | src/core/journal.c:18-47 | The verdict and the track update in place are the specified ones; a refusal changes nothing |
| Admission.AdmittedIff | src/core/journal.c:18-47 | With a valid observation and room, admission is exactly: a new boot id, or a larger sequence number and a sample time not before the session's greatest minus the lateness bound |
| Admission.ReasonIff | src/core/journal.c:18-47 | For each reason, exactly when it is given, against the history described by the track |
| Admission.SessionMaxIsMax | src/core/journal.c:42-44 | The watermark is attained by and bounds every sample time since the boot id last changed |
| Admission.RunIsOrdered | src/core/journal.c:18-47 | In every run each admission meets that condition against all earlier ones, and the track summarises them |
| Admission.AtMostOnce | src/core/journal.c:25-33 | If no replaced boot id returns, sequence numbers strictly increase within a boot id, so nothing is admitted twice |
| Admission.AdmittedAgainIff | src/core/journal.c:25-33 | For every history: an observation already admitted is admitted again exactly when it is valid, there is room, and its boot id is not the current one, or is and a smaller sequence number has been admitted since with nothing too late; and then it was not admitted in the current session |
| Admission.CurrentSessionNeverAgain | src/core/journal.c:25-33 | What was admitted since the boot id last changed is never admitted again |
| Admission.TwiceMeansReturned | src/core/journal.c:25-33 | Between two admissions of one boot id and sequence number another boot id was admitted |
| Admission.AdmittedAgainWithoutReturns | src/core/journal.c:25-33 | If no replaced boot id has returned, admitting again takes exactly a boot id that is no longer current |
| Admission.ReturningBootIdReadmits | src/core/journal.c:25 | Boot ids A, B, A admit the same observation twice |
| Admission.ReorderWindowNeverAdmits | src/core/journal.c:25-33 | A sample within the reorder window but behind the last one is refused as a duplicate |
| Journal.Daemon.FindOrCreateTrack | src/journal/journal_main.c:58-70 | The first track of that name, or a new one while fewer than 32 exist |
| Journal.CStringIs | src/journal/journal_main.c:58-70 | A name is everything before its first zero byte |
| Journal.SameNameIff | src/journal/journal_main.c:58-70 | Two names are the same exactly when their bytes agree up to a place where both end |
| Journal.Daemon.ComputePendingDepth | src/journal/journal_main.c:72-91 | The lag of the slowest connected broker cut to 32 bits, and 0 without brokers |
| Journal.Daemon.AdmitLocked | src/journal/journal_main.c:93-114 | One submission appends one entry to the log whatever the verdict, keeps the ring on the latest windows, and stores the record; without a track it changes nothing |
| Journal.Daemon.Poll | src/journal/journal_main.c:171-192 | A poll delivers the log entry that the ring holds at the cursor |
| Journal.ShownIsGreatest | src/journal/journal_main.c:176 | The window found at a cursor is the greatest one up to the head in its residue class, and the cursor's own exactly when the lag is below the capacity |
| Journal.RingPush | src/journal/journal_main.c:101-108 | Writing a window into its slot keeps every retained window in its own |
| Journal.StartIsLeast | src/journal/journal_main.c:159-168 | A subscriber starts at the least window not below the one asked for, from 1 on, that the ring still holds or has yet to hold |
| Journal.ReasonCodes | include/obicall/journal.h:15-22 | The codes of the reasons; 0 is admission alone |
| JournalRuns.SubscribersAgree | src/journal/journal_main.c:148-193 | Whatever any two subscribers receive for one window, at any two times of any run, is the same and equals the log's entry |
| JournalRuns.ReceivesContiguously | src/journal/journal_main.c:159-192 | A subscriber less than the ring behind at each poll is handed the log from its start with no gap and no repeat: every entry goes to the sending code, which may still fail to send it |
| JournalRuns.AdmittedOnceInLog | src/journal/journal_main.c:93-114 | In every run of the daemon, admitted sequence numbers of a sensor strictly increase within a boot id over the whole log, if its boot ids do not return |
| JournalTracks.SubmissionLeavesOthers | src/journal/journal_main.c:58-114 | A submission under a terminated name leaves the track of every other name as it was |
| JournalTracks.OthersDoNotMatter | src/journal/journal_main.c:58-114 | Over every run, submissions under other names do not change the verdict on an observation |
| JournalTracks.EndlessNameTakesATrack | src/journal/journal_main.c:58-70 | A name with no zero byte is refused, but takes one more track at every submission, until none is left |
| JournalRuns.AdmittedAreSound | src/journal/journal_main.c:93-114 | Only observations that pass validation are ever admitted |
| JournalRuns.AdmissionBoundsLag | src/journal/journal_main.c:72-99 | An admission shows that every connected broker was less than the bound behind, if and only if none was 2^32 or more behind |
| JournalTracks.NeverAhead | src/journal/journal_main.c:159-192 | In every run a subscriber's reported window is at most its cursor |
| JournalTracks.ReportIsCurrent | src/journal/journal_main.c:159-192 | Right after subscribing or reporting it equals the cursor |
| JournalRuns.SlowCursorIsLapped | src/journal/journal_main.c:101-108 | Refused submissions take windows too, so a ring's length of them laps any cursor left alone |
| JournalRuns.FileIsLog | src/journal/journal_main.c:110-112 | If every append succeeds, the segment is what it was at start-up followed by the log, record by record, after any run |
| JournalRuns.WindowsRestart | src/journal/journal_main.c:266-274 | A segment that any number of process lives appended to reads back whole as all their logs in turn, each numbered from window 1 |
| JournalFile.AppendRecord | src/core/journal.c:83-113 | What an append leaves in the file for any room left on the device and any flush outcome |
| JournalFile.ReadRecord | src/core/journal.c:115-160 | A read delivers the record at the position and moves behind it, or reports why not and leaves the position |
| JournalFile.ScanIff | src/core/journal.c:115-160 | For each outcome of a read, exactly when it is given, by the header at the position |
| WireOffsets.JournalHeaderFixed | src/core/journal.c:49-63 | The offset of each field of a record header |
| JournalFile.CutFileReads | src/core/journal.c:115-160 | For any records and any cut at byte k, repeated reads give exactly the whole records, then a clean end if k is a boundary and otherwise an error with the position at the torn record |
| JournalFile.WholeFileReads | src/core/journal.c:115-160 | An untouched file of any records reads back as exactly those, with a clean end |
| JournalFile.ChangedByteRefused | src/core/journal.c:146-149 | A changed observation byte in a stored record is refused with a checksum error |
| Broker.Queue.Enqueue | src/broker/broker_main.c:194-204 | The circular queue holds 511 windows; one more is dropped and nothing else changes |
| Broker.Queue.TakeBatch | src/broker/broker_main.c:308-314 | One turn takes everything queued, in order |
| Broker.Process.Turn | src/broker/broker_main.c:308-362 | With nothing lost, the estimate after a turn is the fold of every window received |
| Broker.SoundNumbersAreFinite | src/broker/broker_main.c:347-360 | The numbers the estimator reads from a valid position observation are finite |
| Broker.FirstPosition | src/broker/broker_main.c:347-360 | The first position fixes the estimate there, at rest, at its sample time |
| Broker.LaterPosition | src/broker/broker_main.c:347-360 | A later one updates with those coordinates and the observation's covariance, row by row |
| Broker.OnlyUsedCount | src/broker/broker_main.c:308-362 | Refused windows and sensors that are not configured leave no trace in the estimate |
| Replay.ReplayFile | src/cli/main.c:327-353 | The replay loop's counters and filter are those of the records that repeated reads deliver |
| Replay.SummaryCounts | src/cli/main.c:327-353 | The counters are the numbers of records read, of admitted ones and of others, and the last window |
| Replay.OnlyAdmittedCount | src/cli/main.c:327-353 | Replaying uses the admitted observations and no others |
| Replay.LiveIsReplay | src/broker/broker_main.c:308-362 | With the policy off, a broker subscribed from window 1, never lapped, with every send successful, nothing lost in its queue and every admitted sensor configured, has after w windows the estimate that replaying the first w records of this life of the journal gives, whatever the segment held before |
| WindowStream.Reader.Handle | src/broker/broker_main.c:182-208 | The reader thread's step on one message: an observation waits, a decision takes what waits and queues it, and a decoder that fails leaves what it left |
| WindowStream.InitialPartIsPaired | src/broker/broker_main.c:182-208 | From any initial part of the messages of a log the queue is offered exactly the windows whose decisions arrived, each observation with its own decision |
| WindowStream.OneLossSkipsOneWindow | src/broker/broker_main.c:190-205 | One lost message loses its own window and disturbs no other |
| WindowStream.TwoLossesMispair | src/broker/broker_main.c:190-205 | A lost decision and the lost observation after it queue one observation under the next window |
| WindowStream.QueuedIff | src/broker/broker_main.c:190-205 | Whatever is lost, a window is queued exactly for each decision whose last message before it is an observation, and holds that observation |
| WindowStream.PairedRightIff | src/broker/broker_main.c:190-205 | Every queued window is right if and only if no decision meets the observation of another window, unless the two are the same |
| WindowStream.StreamIsReplay | src/broker/broker_main.c:182-362 | A broker that gets any initial part of the messages for what its journal handed out has the estimate that replaying as many records gives |
| WireObservation.EncodeObservation | src/core/wire.c:50-80 | Malformed, too small, or exactly the image; too small exactly when the capacity is below the encoded length |
| WireObservation.DecodeObservation | src/core/wire.c:82-110 | Decoding accepts exactly data that start with an observation's image |
| WireObservation.ObservationIsLawful | src/core/wire.c:50-110 | Observations fit their layout and are determined by their fields up to struct size and array tails |
| WireObservation.RoundTrip | src/core/wire.c:50-110 | Decoding an encoding gives the observation back up to the struct size and the unused array elements |
| WireObservation.StrictPrefixRejected | src/core/wire.c:82-110 | No strict prefix of an encoding decodes |
| WireObservation.ImageLength | src/core/wire.c:50-80 | An encoding takes 108 bytes and eight more per counted element |
| WireOffsets.ObservationHead | src/core/wire.c:50-80 | The offset of each fixed field of an observation |
| WireOffsets.ObservationArrays | src/core/wire.c:50-80 | The offsets of its counts and elements |
| WireResult.EncodeResult | src/core/wire.c:114-145 | The three outcomes of encoding a result, exactly |
| WireResult.DecodeResult | src/core/wire.c:147-178 | Decoding accepts exactly data that start with a result's image |
| WireResult.ResultIsLawful | src/core/wire.c:114-178 | Results fit their layout and are determined by their fields up to struct size and array tails |
| WireOffsets.ResultFixed | src/core/wire.c:114-145 | The offset of each fixed field of a result before its arrays |
| WireOffsets.ResultDigests | src/core/wire.c:114-145 | And of each behind them |
| WireOffsets.ResultCounted | src/core/wire.c:114-145 | The offsets of its counts, elements, sources and last field |
| WireCheckpoint.EncodeCheckpoint | src/core/wire.c:182-212 | The three outcomes of encoding a checkpoint, exactly |
| WireCheckpoint.DecodeCheckpoint | src/core/wire.c:214-243 | Decoding accepts exactly data that start with a checkpoint's image |
| WireCheckpoint.CheckpointIsLawful | src/core/wire.c:182-243 | Checkpoints fit their layout, one count governing mean and matrix, and are determined by their fields |
| WireOffsets.CheckpointFixed | src/core/wire.c:182-212 | The offset of each fixed field of a checkpoint |
| WireOffsets.CheckpointArrays | src/core/wire.c:182-212 | The offsets of its mean and covariance |
| WireOffsets.CheckpointTail | src/core/wire.c:182-212 | The offsets of its tracked sources and creation time |
| WireEvent.EncodeEvent | src/core/wire.c:247-263 | The three outcomes of encoding an event, exactly |
| WireEvent.DecodeEvent | src/core/wire.c:265-289 | Decoding gives the event whose image starts the data, and reports small storage exactly when its payload does not fit |
| WireEvent.EventIsLawful | src/core/wire.c:247-289 | Events fit their layout and are determined by their fields |
| WireOffsets.EventFixed | src/core/wire.c:247-263 | The offset of each field of an event |
| WireFrame.DecodeHeader | src/core/wire.c:27-47 | A header is refused for its magic bytes, then its version, then its length, in that order; otherwise the fields are those of the image |
| WireFrame.EncodeHeader | src/core/wire.c:10-25 | The sixteen bytes are the image of the header |
| WireFrame.HeaderStatusIff | src/core/wire.c:27-47 | For each status of a header, exactly when it is given |
| WireOffsets.FrameHeaderFixed | src/core/wire.c:10-25 | The offset of each field of a frame header |
| WireFrame.Socket.SendFrame | src/osal/osal_ipc.c:205-219 | Too long a payload sends nothing; otherwise header and payload go out until the network fails |
| WireFrame.Socket.RecvFrame | src/osal/osal_ipc.c:226-241 | One frame, nothing and nothing consumed, or failure, as specified for any network |
| WireFrame.Receives | src/osal/osal_ipc.c:182-203 | A whole receipt is the next bytes however they were cut; a clean time-out has taken none |
| WireFrame.NextDelivery | src/osal/osal_ipc.c:221-241 | From bytes that some messages start, a receiver gets the next message whole and moves behind it, or nothing and stays, or fails |
| WireFrame.PeerReceivesPrefix | src/osal/osal_ipc.c:165-241 | For a sender that stops at its first failed send: whatever the network does at either end, what a peer receives is an initial part of the messages sent, in order and unchanged |
| WireSession.SendOn | src/journal/journal_main.c:126-192 | A sender that ignores failed sends leaves on the wire what went out of each message in turn |
| WireSession.SessionIsWithinParsed | src/osal/osal_ipc.c:182-241 | Whatever the receiving network does, what is received is an initial part of what the bytes alone say |
| WireSession.MovingSession | src/osal/osal_ipc.c:182-241 | On a network that keeps moving bytes it is all of it |
| WireSession.InOrderIff | src/journal/journal_main.c:126-192 | Over all networks at both ends and all buffers: a sender that ignores failed sends delivers an initial part of what can be sent if and only if that is one message over and over, and no cutting of its frames reads as another message |
| WireSession.InOrderWhenCleanIff | src/journal/journal_main.c:126-192 | Over the networks on which a failing send moves nothing: if and only if all messages that can be sent are equal |
| WireSession.CleanRunInOrderIff | src/journal/journal_main.c:126-192 | For one such network: if and only if the messages whose sends succeeded are an initial part of those that can be sent |
| WireSession.QuietInOrder | src/journal/journal_main.c:126-192 | For one run of any network: if no failed send comes before one that moves bytes, the peer receives an initial part |
| WireSession.OneMessageInOrder | src/osal/osal_ipc.c:205-241 | A single message is always received whole or not at all |
| WireSession.TimeoutDropsAMessage | src/journal/journal_main.c:126-146 | For any two different messages: a time-out on the first lets the peer receive the second alone |
| WireSession.TornFrameIsMisread | src/osal/osal_ipc.c:205-241 | One message sent twice, with a time-out behind the first header: the peer receives a message that was never sent, its checksum good |
| WireFrame.EverythingArrives | src/osal/osal_ipc.c:187-241 | With no break and no pause every message arrives that the receiver's buffer can hold |
| WireFrame.PauseIsHarmless | src/osal/osal_ipc.c:221-229 | A time-out between frames consumes nothing and changes nothing of what is received afterwards |
| WireFrame.ChangedPayloadNeverDelivered | src/osal/osal_ipc.c:237 | A frame with one changed payload byte is never delivered |
| Layout.RoundTrip | src/core/wire.c:10-289 | For every lawful layout decoding inverts encoding, whatever follows |
| Layout.StrictPrefixRejected | src/core/wire.c:114-289 | For every lawful layout no strict prefix of an encoding decodes |
| Layout.ImagesAreSeparate | src/core/wire.c:114-289 | Encodings of different messages never start one another |
| Layout.PartsDetermined | src/core/wire.c:114-289 | The fields of a message determine its counted parts |
| Codec.ParseUnique | src/core/wire.c:50-289 | At most one message of a grammar starts given data |
| Codec.PrefixRejected | src/core/wire.c:50-289 | No strict prefix of a message parses, for any grammar in which earlier fields determine the next kind |
| Codec.LittleEndianDigit | src/core/wire_cursor.h:19-46 | Byte k of a number is its digit of weight 256^k |
| Codec.TwosComplement | src/core/wire_cursor.h:19-46 | A signed number and its image differ by a multiple of 2^64, and the casts undo each other |
| Cursor.Writer.Write | src/core/wire_cursor.h:19-24 | A writer never passes its capacity, and its flag is up exactly while everything asked for fits and is written |
| Cursor.Reader.ReadBytes | src/core/wire_cursor.h:49-54 | A reader never passes the data; once its flag is down, no message starts the data |
| Crc32.TableStepIsBitSerial | src/core/digest.c:121-138 | One table step equals eight bit-serial steps for every register and byte |
| Crc32.FeedInjective | src/core/digest.c:121-138 | A step is injective in the register and in the byte |
| Crc32.Compute | src/core/digest.c:132-138 | The loop computes the bit-serial CRC-32/ISO-HDLC |
| Crc32.ByteChangeDetected | src/core/digest.c:132-138 | Any change to one byte changes the checksum |
| Crc32.FourByteChangeDetected | src/core/digest.c:132-138 | So does any change confined to four consecutive bytes |
| Crc32.FiveByteChangeMissed | src/core/digest.c:132-138 | Four is the limit: two windows of five bytes give the same checksum anywhere in any data |
| CrcResidue.ResidueIsConstant | src/core/digest.c:132-138 | Data followed by its own checksum, lowest byte first, always has checksum 0x2144DF1C |
| CrcResidue.CrcOfNothing | src/core/digest.c:132-138 | No data has checksum 0 |
| Sha256.Context.Update | src/core/digest.c:72-86 | An update absorbs its bytes after those before, with fewer than 64 left in the buffer |
| Sha256.Context.Final | src/core/digest.c:88-112 | Finishing pads as in section 5.1.1 of FIPS 180-4 and gives the digest of everything absorbed |
| Sha256.OneShot | src/core/digest.c:114-119 | The one-shot digest is the compression function folded over the padded message |
| Sha256.InParts | src/core/digest.c:59-112 | Any split into update calls gives the one-shot digest |
| Sha256.PaddedIsWhole | src/core/digest.c:88-104 | The padded message is a whole number of blocks, with the least padding that does it |
| Sha256.PaddedFields | src/core/digest.c:88-104 | What stands at each place of a padded message: the message, a one bit, zeros, and the bit length, highest byte first |
| Sha256.BigEndianDigit | src/core/digest.c:100-112 | Byte k of a number is its digit of that weight, the highest first |
| Sha256.DigestBytes | src/core/digest.c:105-112 | Each byte of a digest is that byte of its word |
| Sha256.PaddingInjective | src/core/digest.c:88-104 | Different messages have different padded forms |
| Json.ScanIsExact | src/core/json_min.c:32-85 | For every JSON text with any layout, the scan stops exactly at the end of the value at any depth, although it counts one kind of bracket |
| Json.PassValue | src/core/json_min.c:46-62 | Any value, whatever it nests, leaves the bracket count where it was |
| JsonReader.ScanValue | src/core/json_min.c:32-85 | The loops compute the specified scan |
| JsonSpans.ObjectFindIsExact | src/core/json_min.c:100-139 | Looking up a key in a printed object gives the span of the first member whose raw key is the same, or nothing if there is none |
| JsonReader.Find | src/core/json_min.c:100-139 | The member loop computes the specified search on any input |
| JsonSpans.ArrayIsExact | src/core/json_min.c:141-190 | A printed array lists exactly its elements, each span holding its element |
| JsonReader.ArrayCount | src/core/json_min.c:149-167 | The count is the length of the listing, or -1 unless it is properly closed |
| JsonReader.ArrayGet | src/core/json_min.c:169-190 | Getting an element succeeds exactly below the length of the listing and gives its span |
| JsonReader.DecodeString | src/core/json_min.c:192-229 | The decoded bytes with a terminator, or -1 exactly when the literal is malformed or does not fit |
| JsonReader.EscapeInto | src/cli/main.c:39-58 | The output is the escaped form of a prefix, cut only between escapes, and of the whole string when there is room |
| JsonSpans.EscapeDecodes | src/cli/main.c:39-58 | Decoding an escaped string gives it back without the control characters that escaping drops |
| JsonSpans.EscapesMean | src/core/json_min.c:192-229 | Each escape of section 7 of RFC 8259 but \u decodes to its character |
| JsonSpans.RoundTripIff | src/cli/main.c:39-58 | The round trip is faithful if and only if the string has none of them |
| JsonSpans.PrintedStringReadsBack | src/core/json_min.c:100-229 | A string printed as a member is found under its key and decodes to what was kept of it |

## Left out

- Floating-point rounding, NaN and infinity in the numeric modules: values are exact reals, except that observation validation distinguishes finite from other patterns and the selector treats a zero scale as a loss that is not finite.
- Overflow of signed 64-bit time arithmetic: time differences and the lateness bound are computed over the integers.
- The inside of the SHA-256 compression function, and any claim about collisions.
- The control messages of src/core/wire.c: they have fixed layouts of the same cursor calls and would add only easy members.
- Comparison of results (src/core/gate.c:119-133), manifest parsing and directory loading, number parsing, the supervisor, the worker, and all commands but replay.
- Threads, processes and clocks: a locked section is one step, time is an input, and delivery of an entry by the journal includes its encoding and decoding. Connections are modelled in WireFrame and WireSession, the pairing of messages in WindowStream; listening, accepting and the hello exchange are not.
- JournalRuns.ReceivesContiguously: an entry counts as delivered once it is handed to the sending code. Results about what a broker computes from deliveries are about sends that succeed; WireSession and WindowStream say what failed ones do.
- Null pointers and wrong struct sizes of arguments, except where a struct carries its own size.
- The struct sizes that decoders write assume 8-byte pointers and alignment.
- Epochs and windows at the 64-bit limit: run lemmas about epochs assume fewer than 2^64 - 1 events, and the journal stops before window 2^64.
- A persist that reports failure after the file was in fact replaced is the same step as one whose acknowledgement is lost; only acknowledged commits are claimed.
- JSON texts are taken to be shorter than 2^31 bytes, so that positions fit the code's integers.
- Dgt.SelectAction: for an invalid table whose counts exceed its arrays the C code would read outside them; the contract asks that the storage it touches exists.
- Broker.Process.Turn: the selection policy, results sent to the gate and freshness bookkeeping are not part of this model of the broker. Taking a batch and applying it are one step, although the reader thread may receive windows in between; these are then taken by the next turn.
- Replay.LiveIsReplay: equality is not claimed with the policy on, because eligibility then depends on each broker's own clock.
- Journal.Daemon: the cursor of a delivery thread is kept in its connection slot, and accepting a connection and learning its role are one step.
