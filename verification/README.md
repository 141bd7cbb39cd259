# A verified model of the pm-ws book, its consumers and its exact decimals

pm-ws keeps one authoritative order book per prediction market. It takes venue snapshots
and deltas, numbers every level change by `(epoch, position)`, publishes the newest state
and sends the changes through a bounded ring to consumers. This project models that core in
Dafny and proves what consumers rely on.

`dafny verify dfyconfig.toml` checks all of it.

## What is modelled

- **Exact decimals** (`Decimals`, `DecimalText`, `Complement`, `StoredDecimal`): 128-bit
  coefficient and 16-bit scale with comparison, normalization, parsing, printing, complement
  and the stored form. Every result is tied to the exact real value.
- **The book** (`Coordinates`, `Observation`, `Book`, `BookSteps`, `BookCommits`,
  `Published`, `OrderBooks`, `BookRuns`, `BookOutcomes`, `ExactReplay`): the operations as
  values, a class that performs them in place and is proved against the values, and theorems
  over whole runs. Counters are unbounded numbers; every 64-bit overflow the source checks is
  an explicit refusal.
- **The consumer surface** (`Attachments`, `ObserverSystem`, `ConsumerTheorems`,
  `MissedCounts`, `ConsumerRuns`, `BookWriters`): writer, ring, latest-state cell and
  consumer as interleaved single steps.
  The ring is first in first out with any capacity of at least one; a consumer that falls
  behind learns how many deliveries it lost and jumps to the oldest one retained. A reattach
  is two steps, so it can land between a publish and its sends.
- **The calibration seqlock** (`Calibrations`): keeper and reader interleaved access by
  access, with 32-bit version and generation cells.
- **The venue decoder** (`LimitlessLevels`), **the exact projection** (`Projection`) and
  **the shared-memory reader** (`Bits`, `SegmentGeometry`, `SegmentReader`,
  `SegmentDirectory`).

## Main results

- A lossless, drained consumer has replayed its way to the book, in every interleaving
  (`ConsumerTheorems.ReplayRefinement`).
- Delivery is gapless and exactly once, and the overrun verdict is exact
  and counts exactly what was missed (`ConsumerTheorems.GaplessExactlyOnce`,
  `ConsumerTheorems.OverrunVerdictIsExact`, `MissedCounts.MissedIsExact`).
- Cursors over whole runs are gapless and never reused, and the delta rail is permanent
  (`BookRuns.CursorAllocation`, `BookRuns.RailIsForever`).
- A snapshot difference is the exact minimal ordered one, and a delta commit is the venue's
  own fold (`BookCommits.DiffIsExact`, `BookCommits.DeltaIsExact`).
- Comparison is the order of real values, acceptance and the print/parse round trip have
  exact conditions (`Decimals.CompareExact`, `DecimalText.AcceptsExactly`,
  `DecimalText.RoundTrip`).
- Every byte of an accepted segment lies in exactly one record and every read stays in its
  own (`SegmentGeometry.AcceptedTiles`, `SegmentReader.ReadEvent`).

## Where a plausible property fails

- Replay equality is of depth, not exact, on the delta rail: an agreeing checkpoint adopts
  zero-quantity levels without announcing them (src/book.rs:335).
  `ExactReplay.ZeroLevelIsAdoptedSilently` is such a run. Of every run within an epoch
  `ExactReplay.RunReplaysExactly` says exactly when replay is exact all along, and
  `ExactReplay.EndReplaysExactly` when it is exact at the end.
- A loss can be spurious for an attachment to a lost stream, whose boundary is position 0 of
  the epoch. `ConsumerRuns.SpuriousOverrun` is such a run, and
  `ConsumerTheorems.LostAttachmentVerdict` says exactly when one is raised. What such an
  attachment is handed repeats what its state contains
  (`ConsumerTheorems.LostAttachmentRepeats`).
- The coefficient `i128::MIN` prints and does not parse back; `DecimalText.RoundTrip`
  excludes it by an if-and-only-if.
- Projections of different markets can coincide when identifiers contain the field
  separator. `Projection.AmbiguousMarketsCollide` gives two.
  `Projection.ProjectionDetermines` reduces equality to equal headers, and
  `Projection.MarketIsRecoverable` says exactly which markets that can be built share
  theirs with no other.
- A calibration read lapped by a full turn of the version counter can be torn, and
  generations go back when their 32-bit cell wraps; `Calibrations.LappedReadCanTear` and
  `Calibrations.WrappedGenerationGoesBack` are such runs, and
  `Calibrations.GenerationOrderIsExact` gives the exact condition for the second.
- The comment above `apply_snapshot` (src/book.rs:260-262) says a book with no delta since
  the last snapshot takes the derived-diff path. The code never returns to that path after
  a first delta. The model follows the code.

## Model

| member | source | states |
|---|---|---|
| Decimals.CompareMagnitudesExact | src/numeric.rs:130-149 | Comparing two scaled 128-bit magnitudes answers the order of the exact real values, on both overflow exits as well as on the aligned comparison. |
| Decimals.CompareExact | src/numeric.rs:151-172 | `cmp` is the mathematical order of `coefficient * 10^-scale` for every 128-bit coefficient and 16-bit scale, signs included. |
| Decimals.CompareIsTotalOrder | src/numeric.rs:151-172 | `cmp` is reflexive, antisymmetric and transitive, so it may key the book's map. |
| Decimals.NormalFormIsUnique | src/numeric.rs:269-288 | Two normal decimals of one value have identical fields. |
| Decimals.EqualMeansIdentical | src/numeric.rs:151-172 | On normalized values `cmp` says Equal exactly when both fields are identical. |
| Decimals.Normalize | src/numeric.rs:269-288 | The trailing-zero loop computes the closed form `Normalized`: sign, scale and digit limits checked in the source's order, the scale limit before stripping. |
| Decimals.StripKeepsValue | src/numeric.rs:269-288 | Stripping zeros keeps the value, reaches a normal form and never raises the scale or the magnitude. |
| Decimals.NormalizedFixpoint | src/numeric.rs:269-312 | A normal decimal within a grammar's limits normalizes to itself. |
| DecimalText.NumberIsJudged | src/numeric.rs:180-267 | On any JSON-shaped number text, `parse` reaches its arithmetic with exactly that text's whole part, fraction and exponent, or fails with the error of the first check in source order. |
| DecimalText.AcceptedIsNumber | src/numeric.rs:180-267 | Whatever `parse` accepts is a JSON-shaped number text (section 6 of RFC 8259); nothing else gets through. |
| DecimalText.MalformedIsInvalid | src/numeric.rs:180-267 | A plain text without sign or exponent mark that is no number text is an invalid lexeme, and the empty text is told apart. |
| DecimalText.AcceptsExactly | src/numeric.rs:180-267 | A number text is accepted if and only if its parts meet the grammar's limits on length, sign, exponent, digits, scale and 128-bit range. |
| DecimalText.AssembleRefusal | src/numeric.rs:180-267 | Once sign and exponent have passed, a refused number text is refused as a coefficient or a scale that does not fit its type, and otherwise as too precise for the grammar. |
| DecimalText.AcceptedValue | src/numeric.rs:180-267 | An accepted lexeme yields the normal decimal whose real value is the lexeme's mathematical value. |
| DecimalText.EqualLexemes | src/numeric.rs:180-267 | Two accepted lexemes, even under different grammars, give equal decimals exactly when their values are equal. |
| DecimalText.CanonicalIsRendering | src/numeric.rs:314-327 | The printed form is the number text with the decimal's own digits and as many fraction digits as its scale. |
| DecimalText.RoundTrip | src/numeric.rs:180-327 | `parse(canonical(v)) == v` if and only if the grammar has room for the sign, scale, padded digits and length and the coefficient is not the most negative one; a rendering never parses to anything else. |
| DecimalText.CanonicalIsInjective | src/numeric.rs:314-327 | Two normal values with one rendering are one value. |
| DecimalText.CanonicalCharacters | src/numeric.rs:314-327 | A rendering consists of digits, a point and a sign, so no separator byte occurs in it. |
| DecimalText.ParsedShape | src/numeric.rs:180-288 | Anything parsed is normal, within the scale limit and of an allowed sign. |
| Complement.AddIsExact | src/numeric.rs:340-368 | A successful aligned addition is exact in value, and normal. |
| Complement.ComplementShape | src/book.rs:39-46 | `complement_price` in closed form: which of its two refusals it gives and when, including the print-and-reparse it goes through. |
| Complement.ComplementDomain | src/numeric.rs:369-382 | It succeeds exactly for prices of value at most 1 and scale at most 38, with value `1 - p`. |
| Complement.ComplementIsInvolution | src/book.rs:39-46 | Complementing twice returns the identical price. |
| Complement.ComplementReversesOrder | src/book.rs:39-46 | Comparing two complements answers the reverse of comparing the prices. |
| Complement.UnitParses | src/book.rs:39-46 | The unit and the grammar the closed forms use are the ones the source's literals build. |
| StoredDecimal.PartsInvert | src/numeric.rs:304-312 | Storing a normal decimal as two 64-bit halves and a scale, and rebuilding it, is the identity, negative coefficients included. |
| StoredDecimal.DecimalTextOf | examples/reader.py:405-454 | The Python renderer refuses exactly what the Rust decoder refuses under the widest non-negative grammar, and otherwise prints the Rust rendering of the Rust value. |
| Coordinates.BeforeIsStrictTotal | src/book.rs:702-735 | The `(side, price)` order the book's map and sorts rely on is strict and total. |
| Coordinates.BeforeByValue | src/observation.rs:6-10 | The order is bids before asks, then the exact price values. |
| Coordinates.AscendingIsUnique | src/book.rs:702-735 | A set of coordinates has one ascending listing, so iteration order is a function of the map. |
| Coordinates.Sort | src/book.rs:702-735 | Listing a key set in order loses nothing, repeats nothing and ascends strictly. |
| Observation.BoundLevels | src/observation.rs:110-125 | Collecting with a bound yields every level in order, or refuses exactly when there are more than the capacity. |
| Observation.BoundEvidence | src/descriptor.rs:172-187 | Collecting evidence with a bound yields every value in order, or refuses exactly when there are more than the capacity. |
| Observation.BuildProvenance | src/descriptor.rs:244-281 | A provenance is built exactly when family and evidence lengths are within bounds, nothing was committed before it was received, and representation and origin pair in one of three ways. |
| Observation.CandidatesByLabel | src/observation.rs:144-170 | A snapshot candidate may carry any admitted provenance but a derived one, a delta candidate only the venue's own report. |
| Observation.RebaseIsTotal | src/book.rs:754-796 | Rebasing an admitted provenance never fails and changes only revision and epoch, except that a derived difference is relabelled as derived and stripped of family, timestamp and evidence. |
| BookSteps.RefusalIsComplement | src/book.rs:277-289 | The admission test used in the level-list model refuses a price with exactly the error `complement_price` gives. |
| BookSteps.AdmitMeaning | src/book.rs:277-289 | A level list is admitted exactly when every price has a complement and no coordinate repeats; the map then tabulates the list. |
| BookSteps.EmitMeaning | src/book.rs:702-735 | Emission succeeds exactly when its positions fit 64 bits, and yields one record per changed coordinate in list order. |
| BookSteps.ReplayAppliesChanges | src/book.rs:702-735 | Replaying emitted records does what the full list of changes says, unchanged entries contributing nothing. |
| BookCommits.DiffIsExact | src/book.rs:702-735 | Derived mutations name exactly the coordinates that differ, with correct before and after, strictly ascending, at consecutive positions, labelled as derived, and replaying them on the previous map gives exactly the next one. |
| BookCommits.FoldMeaning | src/book.rs:409-477 | After a delta each reported coordinate holds the reported quantity when that is nonzero and is absent when it is zero, and every other coordinate is untouched. |
| BookCommits.DeltaIsExact | src/book.rs:409-477 | A delta emits, in venue order and at consecutive positions, exactly the reported levels the book did not already show, each with the quantity held before and the level reported, or nothing for zero, under the venue's provenance; replaying them gives the folded map. |
| BookCommits.SnapshotAcceptedExactly | src/book.rs:269-348 | A snapshot commits if and only if market, kind and levels are in order and no counter would overflow; the wrapped provenance, mutation and transition errors never occur. |
| BookCommits.DeltaAcceptedExactly | src/book.rs:386-491 | The same for deltas, which also need a base, an intact stream and at least one level. |
| BookCommits.EconomyIsDepth | src/book.rs:687-700 | Two maps are economically equal if and only if the same nonzero quantities rest at the same coordinates, on both sides: nothing but exact zeros is disregarded. |
| BookCommits.ReplayKeepsDepth | src/book.rs:687-700 | One stream replayed on two maps of equal depth leaves equal depth. |
| Published.PublishedLevelsRestore | src/book.rs:575-589 | The published level list spells out the book's map, losing nothing. |
| Published.DerivedComplementLevels | src/book.rs:665-678 | Mirroring level by level and sorting succeeds exactly when every price has a complement, gives the mirrored list back to front, and otherwise fails with the refusal of the first price without one. |
| Published.MirrorAllAscends | src/book.rs:665-678 | The complement view of an ascending list ascends strictly. |
| Published.MirrorAllTwice | src/book.rs:665-678 | The complement of the complement view is the original level sequence, quantities included. |
| OrderBooks.AdmitLevels | src/book.rs:277-289 | The admission loop computes the prefix-recursive admission, the first defect in list order winning. |
| OrderBooks.EmitAll | src/book.rs:702-735 | The emission loop computes the list-order emission, stopping at the first failure. |
| OrderBooks.DeriveMutations | src/book.rs:702-735 | Walking the union of both key sets in order emits the difference of the two maps. |
| OrderBooks.OrderBook.constructor | src/book.rs:168-183 | A new book is empty, synchronizing, intact at epoch 0 position 0, revision 0, off the delta rail. |
| OrderBooks.OrderBook.ApplySnapshot | src/book.rs:269-348 | The in-place method leaves exactly the value-level outcome, and on any refusal every field as it was. |
| OrderBooks.OrderBook.ApplySourceDelta | src/book.rs:386-491 | The same for a venue delta. |
| OrderBooks.OrderBook.FoldInto | src/book.rs:468-477 | Setting and removing coordinates in place amounts to the venue's fold. |
| OrderBooks.OrderBook.Unsubscribe | src/book.rs:508-518 | Only a change of authority moves the revision; a repeat or an overflow changes nothing. |
| OrderBooks.OrderBook.ReportContinuityLoss | src/book.rs:528-545 | The first loss reason stands, authority becomes stale, and a repeat or an overflow changes nothing. |
| OrderBooks.OrderBook.NoteStreamEvent | src/book.rs:561-572 | Allocates the next position of an intact stream and touches nothing else. |
| OrderBooks.OrderBook.Publish | src/book.rs:575-589 | The published copy is the book's view with levels ascending. |
| BookRuns.StepKeeps | src/book.rs:269-572 | Every input, accepted or refused, keeps the book invariant, continues the stream without gap or reuse, and keeps stream and map in agreement. |
| BookRuns.CursorAllocation | src/book.rs:307-334 | Over any run of a new book cursors are gapless, the epoch equals the number of recovery bases, the divergence counter the number of diverging commits, and the delta rail is on exactly if a delta was accepted. |
| BookRuns.CursorsNeverRepeat | src/state.rs:70-114 | Over any run cursors strictly increase, and each epoch's positions are contiguous from 0. |
| BookRuns.CheckpointIsNeverADiff | src/book.rs:290-348 | On the delta rail a committed snapshot emits nothing; on an intact stream it keeps the epoch if the same nonzero quantities rest at the same coordinates, and otherwise opens the next one, counts a divergence and reports the window it invalidated. |
| BookRuns.AgreeingCheckpointReplays | src/book.rs:335 | An agreeing checkpoint keeps the stream where it is, and replay still gives the stored map exactly if and only if the venue restated the map held, zeros included. |
| ExactReplay.RunReplaysExactly | src/book.rs:335 | From any established book, over any run within its epoch, replay is exact all along if and only if every checkpoint committed on the delta rail restated, zeros included, the map then held. |
| ExactReplay.EndReplaysExactly | src/book.rs:335 | At the end of such a run, past the last checkpoint that did not restate: replay is exact if and only if every coordinate at which the stream up to there and the map left there disagree is settled by a later mutation. |
| ExactReplay.ReplayAgreesAt | src/book.rs:269-491 | One stream replayed on two maps agrees at a coordinate if and only if the maps did or the stream settles it. |
| ExactReplay.StepReplaysExactly | src/book.rs:269-572 | One input within the epoch is replayed exactly if and only if it is not a rail checkpoint that says something else than the map held. |
| ExactReplay.ZeroLevelIsAdoptedSilently | src/book.rs:335 | A run from a new book whose replay is not exact: an empty snapshot, a delta removing an absent level, a checkpoint naming that level at zero. |
| BookRuns.RailIsForever | src/book.rs:482 | After an accepted delta no later input ever leaves the delta rail or produces a derived mutation. |
| BookOutcomes.SnapshotRefusals | src/book.rs:269-348 | Why a snapshot is refused: another market, another kind, the first defective level, and only then a full counter or a stream that cannot go on, each with its own error. |
| BookOutcomes.DeltaRefusedFor | src/book.rs:386-491 | The same for a delta, which is also refused for being empty, without a base and on a lost stream, before its levels are looked at. |
| BookOutcomes.RefusedForFirstDefect | src/book.rs:277-289 | A level list is refused for its first defect in list order: a price without a complement before a repeated coordinate. |
| BookOutcomes.CommitLeaves | src/book.rs:318-348 | A commit makes the book live, moves the revision by one and publishes the candidate's own provenance under the new revision and the epoch it committed in. |
| BookOutcomes.MutationsAreLabelled | src/book.rs:754-796 | Every mutation says where it came from: a snapshot's are derived and carry no evidence, a delta's carry the venue's own provenance, both under the revision they are part of and the epoch of their cursor. |
| BookOutcomes.BasesAreSilent | src/book.rs:307-334 | The first base emits nothing and opens no epoch; a base that recovers a lost stream emits nothing and opens the next. |
| BookOutcomes.LossIsRecorded | src/book.rs:528-545 | A reported loss makes the book stale for the reason given, and the stream lost for the reason given unless it already was, and touches nothing else. |
| BookOutcomes.ResolutionTakesOneCursor | src/book.rs:561-572 | A resolution takes the next position of an intact stream under the unchanged revision and moves nothing else; without a position left, or on a lost stream, it does nothing. |
| BookOutcomes.QuietRefusals | src/book.rs:508-545 | Unsubscribing and reporting a loss are refused only for want of a revision, and only when there is something to change. |
| BookOutcomes.StreamEventRefusals | src/book.rs:561-572 | A stream event is refused as such on a lost stream, and as an overflow when no position is left. |
| BookOutcomes.PublishedOverRun | src/book.rs:575-589 | What is published after any run of a new book: its market, the authority the inputs left, the divergences and recovery bases counted so far, and the book's own levels, revision, provenance and continuity. |
| BookOutcomes.UnsubscribeIsRecorded | src/book.rs:508-518 | Unsubscribing changes the authority and nothing else. |
| BookOutcomes.RevisionCounts | src/book.rs:508-572 | Every input moves the revision by one exactly if it changed what is published; allocating a stream position does not. |
| BookOutcomes.FirstReasonStands | src/state.rs:70-78 | Once lost, the stream stays lost for its first reason and carries nothing, through any run that commits no snapshot. |
| BookOutcomes.WindowIsCounted | src/book.rs:290-348 | Over any run of a new book, the window a divergence reports is the number of deltas accepted since the last committed snapshot. |
| BookRuns.RunReplays | src/book.rs:269-491 | From any established book, over any run within one epoch, replaying the whole stream gives the book's depth, every nonzero quantity at its coordinate; off the delta rail it gives the very map. |
| BookRuns.ReachableBookMirrors | src/book.rs:665-678 | Whatever a new book is fed, its published levels ascend, all have complements, and the complement view ascends and mirrors back. |
| Attachments.BookObserver.constructor | src/observer.rs:291-308 | Attaching records the state's revision and stream boundary with no loss and nothing pending. |
| Attachments.BookObserver.Reattach | src/observer.rs:486-496 | Reattaching clears loss and pending span and restarts from the state just read. |
| Attachments.BookObserver.FailWith | src/observer.rs:689-693 | A failure is recorded and ends continuity, nothing else moves. |
| Attachments.BookObserver.Resolve | src/observer.rs:713-719 | Judging a pending overrun clears it, and raises a loss exactly by the overrun classification. |
| Attachments.BookObserver.AdmitDelivery | src/observer.rs:648-665 | The one decision per delivery: redundant, fenced by an epoch change, an overrun judged, or admitted. |
| Attachments.BookObserver.TryRecv | src/observer.rs:507-523 | A standing loss is repeated without touching the ring; otherwise ring answers are drained until one decides, and the object ends in the drained attachment. |
| Attachments.HarmlessMeansContained | src/observer.rs:85-97 | An overrun is harmless if and only if the ring resumes in the boundary's epoch and everything of that epoch before where it resumes lies before the boundary. |
| Attachments.CloseIsExact | src/observer.rs:695-701 | A stream that ends with a span unresolved is a loss of that many deliveries; one that ends with none is closed. |
| BookWriters.BookWriter.constructor | src/observer.rs:264-272 | The state cell starts as the book's own view. |
| BookWriters.BookWriter.PublishThenSend | src/observer.rs:337-349 | The state is the book's view and the commit's deliveries are appended in order. |
| BookWriters.BookWriter.ApplySnapshot | src/observer.rs:321-324 | The writer leaves the book, the cell and the ring exactly as one step of the model does, and answers with the book's own commit or refusal. |
| BookWriters.BookWriter.ApplySourceDelta | src/observer.rs:332-335 | The same for a delta. |
| BookWriters.BookWriter.PublishResolution | src/observer.rs:375-390 | One resolution takes one cursor under the unchanged revision and is sent after the state; a refusal is the book's own and sends nothing. |
| BookWriters.BookWriter.UnsubscribeBook | src/observer.rs:399-405 | Only the state cell follows, nothing is sent, and the answer is whether the book changed, or its own refusal. |
| BookWriters.BookWriter.ReportContinuityLoss | src/observer.rs:412-422 | Only the state cell follows, nothing is sent, and the answer is whether the book changed, or its own refusal. |
| BookWriters.OperationIsItsSteps | src/observer.rs:337-349 | Run uninterrupted, the small steps of one operation (commit, publish, each send) leave what the writer's method leaves. |
| ObserverSystem.ApplyKeeps | src/observer.rs:291-349 | Every small step of writer, ring or consumer keeps the system invariant, including a reattach that lands between a publish and its sends. |
| ObserverSystem.ExecInv | src/observer.rs:291-349 | The invariant holds after every interleaving, for every ring capacity of at least one. |
| ConsumerTheorems.GaplessExactlyOnce | src/observer.rs:648-693 | From an intact attachment at `(e, p)` the deliveries handed over are the log from the boundary on, with cursors exactly `(e, p)`, `(e, p + 1)`, and so on. |
| ConsumerTheorems.DrainedIsComplete | src/observer.rs:507-523 | Drained without a loss, nothing at or past the boundary is missing. |
| ConsumerTheorems.LossIsSticky | src/observer.rs:507-523 | Through any run in which the state is not read again a loss stands, nothing more is handed over and the base stays. |
| ConsumerTheorems.AttachedIsContinuous | src/observer.rs:601-624 | A consumer that reports itself attached is continuous and lossless, and a close never finds an overrun unresolved. |
| ConsumerTheorems.ReportedStateIsExact | src/observer.rs:601-624 | In every reachable state of an intact attachment the reported state says which loss stands, if any, and names the last delivery handed over, or the boundary before the first. |
| ConsumerTheorems.DetachedIsExact | src/observer.rs:695-701 | Detached means the writer is gone; once it is, a lossless consumer that has drained the ring is detached by its next receive. |
| ConsumerTheorems.DetachedIsForever | src/observer.rs:601-624 | Detached is terminal, through any run, a reattach included. |
| ConsumerTheorems.OverrunVerdictIsExact | src/observer.rs:85-97 | When the ring resumes in the attachment's own epoch, a loss is raised if and only if some dropped delivery's cursor was at or past the boundary, across accumulated and cleared overruns. |
| ConsumerTheorems.BoundaryIsTheCut | src/observer.rs:743-751 | On an intact attachment a delivery came after the state read was cut if and only if its cursor does not precede the boundary. |
| ConsumerTheorems.LossIsNeverSpurious | src/observer.rs:648-719 | A standing loss of an intact attachment has a cause: a needed delivery was dropped, or the book really moved to a later epoch. |
| MissedCounts.PendingIsExact | src/observer.rs:703-705 | In every interleaving an unresolved overrun counts exactly the deliveries dropped since the last one handed over, saturated at 64 bits. |
| MissedCounts.MissedIsExact | src/observer.rs:648-719 | In every interleaving a standing loss reports exactly the deliveries dropped right before the one it was raised on: at least one for an overrun, none for a rebase that found nothing pending. |
| ConsumerTheorems.LostAttachmentVerdict | src/observer.rs:743-751 | Where that guarantee stops, in every interleaving: on an attachment to a lost stream the next delivery taken raises an overrun if and only if a span is pending and it is a resolution of the boundary's epoch other than the first; and then nothing the attachment needed was dropped. |
| ConsumerTheorems.LostOverrunIsSpurious | src/observer.rs:743-751 | Every overrun that stands on an attachment to a lost stream, in any reachable state, dropped only what the state read already contained. |
| ConsumerTheorems.LostAttachmentRepeats | src/observer.rs:678-687 | Everything an attachment to a lost stream is ever handed is a resolution that the state it read already contained. |
| ConsumerRuns.ContainedIsHandedOver | src/observer.rs:678-687 | A run in which it happens: a new ring position, one resolution, the stream lost, the state read, the resolution received. |
| ConsumerRuns.SpuriousOverrun | src/observer.rs:743-751 | A run that reaches one: a ring of one, two resolutions after a new ring position, the stream lost, the state read, the rest received. |
| ConsumerRuns.ReceiveIsItsSteps | src/observer.rs:507-523 | As many uninterrupted single ring answers as one receive uses leave the attachment the receive leaves, hand over exactly the delivery it returns and move nothing but the consumer. |
| ConsumerTheorems.ReplayRefinement | src/observer.rs:291-349 | In every interleaving, a lossless, drained consumer on an established base, in the book's epoch and between operations, has replayed its way to the book: every nonzero quantity at its coordinate always, the very map off the delta rail and also on it when every checkpoint since the attachment's state restated the map held. |
| Calibrations.NoTornCalibration | examples/bench_consumer.ts:790-803 | In every interleaving, a read not lapped by the version counter returns whole the initial calibration or the offset and rate one publication was begun with, under its generation, namely the one that stood when the read began. |
| Calibrations.HistoryIsTold | examples/bench_consumer.ts:885-892 | Over any run the published calibrations are, in order, the offset and rate each publication was begun with, numbered as a 32-bit cell numbers them. |
| Calibrations.ReadsNeverGoBack | examples/bench_consumer.ts:790-803 | Successive unlapped reads never return an earlier publication. |
| Calibrations.GenerationsNeverDecrease | examples/bench_consumer.ts:885-892 | While at most 2^31 calibrations exist no read is lapped, and returned generations never decrease. |
| Calibrations.GenerationOrderIsExact | examples/bench_consumer.ts:885-892 | Beyond that, for any two unlapped reads: generations do not decrease if and only if the later publication is no earlier in its turn of the 32-bit cell; with fewer than 2^32 publications between, if and only if the cell did not come round. |
| Calibrations.WrappedGenerationGoesBack | examples/bench_consumer.ts:885-892 | A run of 2^31 publications in which a later unlapped read returns a smaller generation. |
| Calibrations.LappedReadCanTear | examples/bench_consumer.ts:790-803 | A run in which a read lapped by one full turn of the version counter returns a calibration nobody published. |
| LimitlessLevels.DecodeLevels | src/limitless.rs:292-334 | The decoding loop computes the entry-by-entry decode, the first defect in array order winning, a missing array being its own error. |
| LimitlessLevels.DecodesExactly | src/limitless.rs:292-334 | Accepted if and only if every lexeme parses under the venue grammar, every price is worth at most 1 and the side runs strictly best first by value; the levels are exactly those reported. |
| LimitlessLevels.RefusedForFirstEntry | src/limitless.rs:292-334 | A refused array is refused for its first defective entry, everything before it having decoded, with the error of that entry's first defect: field, lexeme, domain by value, or place by value. |
| LimitlessLevels.VenueGrammarIsBuilt | src/limitless.rs:34-36 | The venue grammar is the one the source's literals build. |
| LimitlessLevels.BuildCandidate | src/limitless.rs:140-162 | A snapshot candidate is built exactly for venue-native source-reported provenance within capacity, bids before asks; the labels are refused before the capacity. |
| LimitlessLevels.DecoderMeetsBook | src/limitless.rs:140-162 | A snapshot built from decoded sides is never refused by the book for a repeated coordinate or a price without a complement. |
| Projection.CandidateProjection | src/dedup.rs:430-457 | The appending loop builds the projection of the whole candidate. |
| Projection.LevelsTextIsInjective | src/dedup.rs:430-457 | The level part of a projection determines the level list. |
| Projection.ProjectionIsExact | src/dedup.rs:430-457 | For one market, projections are equal if and only if kind and levels are equal, value by value and in order. |
| Projection.ProjectionDetermines | src/dedup.rs:430-457 | For any two candidates, projections are equal if and only if the market headers, the kind of operation and the levels are: peeling records from the end finds the operation whatever the identifiers contain. |
| Projection.ProjectionSeparatesMarkets | src/dedup.rs:430-457 | Between markets whose venue and kind hold no field separator, projections are equal if and only if market, kind of operation and levels are; keys may contain anything. |
| Projection.MarketIsRecoverable | src/dedup.rs:430-457 | Among markets that can be built, a candidate's projection is shared by no candidate of another market if and only if no other pair of field separators cuts its header into three admissible identifiers. |
| Projection.HeaderIsUnique | src/identity.rs:345-351 | With identifiers non-empty and within their byte limits, a market header belongs to one market if and only if it can be cut into admissible identifiers in one place only. |
| Projection.OtherCutIsATwin | src/identity.rs:345-351 | Any other admissible cut of a header is a different market that can be built and has the same header. |
| Projection.UnambiguousHasOneCut | src/dedup.rs:430-457 | Identifiers without a field separator leave one cut only. |
| Projection.SeparatorCanBeHarmless | src/identity.rs:345-351 | A market that can be built, holds a field separator and still leaves one cut only, because the identifier before it would be empty. |
| Projection.AmbiguousMarketsCollide | src/identity.rs:345-351 | Two distinct markets, both of which can be built, whose candidates project alike whatever they report. |
| Projection.ProjectionSpelledOut | src/dedup.rs:430-457 | The very bytes, for one level of either side and either kind of operation. |
| Bits.MaskIsModulo | examples/reader.py:319-324 | The capacity test is satisfied if and only if masking is wrap-around for every position. |
| Bits.TestIsPowerOfTwo | examples/reader.py:319-324 | The capacity test passes exactly the powers of two. |
| SegmentGeometry.RoundUpIsLeast | examples/reader.py:262-263 | Rounding gives the least aligned size that is large enough. |
| SegmentGeometry.SupportedFeatureWords | examples/reader.py:297-304 | Exactly two feature words are supported. |
| SegmentGeometry.FirstMismatch | examples/reader.py:348-350 | The comparison loop passes exactly when every declared word equals its recomputation. |
| SegmentGeometry.GateIsShut | examples/reader.py:266-274 | A gate shows nothing exactly when its eight bytes are all zero or all ones, and otherwise its word. |
| SegmentGeometry.LittleEndian | examples/reader.py:254-259 | Words are little-endian, the low half of a 64-bit word first. |
| SegmentGeometry.Validate | examples/reader.py:277-369 | A mapping is accepted if and only if its own words make it a segment: markers, version 5, alignment 128, declared size, feature word 3 or 5, five capacity words within limits and of the right shape, every stride and offset following from them, and the trailer; every read made on the way is inside the mapping. |
| SegmentGeometry.AcceptedTiles | examples/reader.py:325-347 | In an accepted mapping every byte lies in exactly one record and no record reaches outside: header, entries, slots, event slots, dirty slots and trailer are disjoint and fill it. |
| SegmentGeometry.RecordsAreDisjoint | examples/reader.py:325-347 | Two records that share a byte are one record. |
| SegmentGeometry.AcceptedIsMarked | examples/reader.py:277-369 | Both markers are present byte for byte. |
| SegmentGeometry.AcceptedIsAligned | examples/reader.py:284-347 | Every table starts on an alignment boundary, so the dirty ring has a multiple of four entries although the capacity checks alone admit fewer. |
| SegmentDirectory.Resolve | examples/reader.py:389-402 | Under memory that may change between any two reads: the first entry that names the market when it is judged, with the slot of its own record, or nothing when none does; every read stays in the record it is about. |
| SegmentDirectory.MatchIdentity | examples/reader.py:372-386 | The identity text is judged by five separate reads of the mapping: the two short lengths, the long one, and each identifier. |
| SegmentDirectory.WriteOnceIsJudgedWhole | examples/reader.py:389-402 | Over write-once entries the separate reads judge the entry as it stood at the first of them, slot index included. |
| SegmentDirectory.DecodesIdentityExactly | examples/reader.py:372-386 | Bytes decode to an identity if and only if they hold its three lengths and then its three texts. |
| SegmentReader.ReadEvent | examples/reader.py:540-595 | Under memory that may change between any two reads, every read stays in the one event record the position wraps to; a copy comes only from between two equal, even, non-zero sequence words, and is that record if it held still. |
| SegmentReader.ReadEventRecord | examples/reader.py:555-595 | Each answer of the retry loop is justified by what was read: a zero word, a bracketed copy, or 64 attempts that each met an odd or moving word. |
| SegmentReader.QuietEventIsRead | examples/reader.py:555-595 | A published event record nobody writes is always read, and field by field from its own words at their offsets, by its delivery kind. |
| SegmentReader.QuietSlotIsRead | examples/reader.py:474-515 | A published slot record nobody writes is always answered for: by its owner and count words first, and otherwise field by field and level by level from its own words at their offsets. |
| SegmentReader.ReadSlot | examples/reader.py:461-515 | Out-of-range indices are refused, the no-state marker reads nothing, and otherwise every read stays in the indexed slot record. |
| SegmentReader.ReadRecord | examples/reader.py:474-515 | Each answer of the retry loop is justified by what was read: a zero word, a bracketed copy judged by owner, count and levels, one odd word seen on all 64 attempts, or 64 missed attempts that did not all see one odd word. |
| SegmentReader.ValidateLevels | examples/reader.py:427-438 | Passes exactly when every side is known and both decimals of every level are storable. |

## Left out

- Projection.CandidateProjection: an identifier stands for its UTF-8 bytes, one character for a byte; that they are valid UTF-8 is not modelled. Both separators are ASCII, so cutting valid text at one leaves valid text.
- Calibrations.NoTornCalibration: the offset and rate cells hold their values unchanged; wrap-around of the 64-bit cells, and whether the calibration is accurate, are not modelled.
- SegmentReader.ReadEvent: which deliveries a writer puts into a slot is not modelled, because the shared-memory writer is not part of this model; a copy is tied to the record's bytes, on the condition that they held still between the two sequence readings. Text decoding and the origin table are left out.
- SegmentDirectory.Resolve: identifiers are compared as bytes; the source decodes them as UTF-8 first, which tells exactly the same ones apart and refuses bytes that no identifier encodes to.
- SegmentGeometry.Validate: which of the several refusals is reported is not part of the contract; the source raises one exception type for all.
- LimitlessLevels.DecodeLevels: a JSON entry is reduced to the number lexemes of its two fields; frame and lexeme reading are not part of this model.
- OrderBooks.OrderBook.Publish: sharing of the published copy is not modelled; it is a value.
- ObserverSystem: one consumer is modelled, since consumers share only the ring and the cell and do not affect each other; blocking waits, wake-ups, cancellation and the channels' internals are the environment.
- Attachments: `recv`, `changed` and the watch side of an observer; they wrap the same decision in waiting.
- Source evidence text, timestamps and connection identities are carried along and never interpreted.
- `SourceState`, its replica slots and standby reports (src/state.rs).
- The rest of src/dedup.rs: fingerprints and classification, whose hashes claim no collision property.
- src/daemon.rs, src/control.rs and src/main.rs: configuration, range checks and process plumbing.
- src/pool.rs, src/shm, src/ffi, src/wire and the connection and supervisor code under src/limitless.
- Serialization, display and error text.
- bindings and the benchmark programs, apart from the seqlock; clock accuracy, timing and lease renewal.
