# Verified model of the Volta calling stack

Volta negotiates freight bookings over WhatsApp calls. This project models, in Dafny, the parts of it whose
correctness is hardest to see by reading, and proves what they are for.

1. **The booking ledger.** `Store` and `StoreProofs` model the optimistic snapshot store as a step system: any number of
   processes queue their mutations, read, compute on a clone and write back only if the version is still the one they read.
   The theorems say that every interleaving is equivalent to a sequential run, and in `StoreProgress` that every call is
   answered. `Domain`, `Policy`, `Ledger` and `LedgerDraft` model the domain types, the mandate and ranking rules, and the
   operations as the code performs them on a draft it mutates; `LedgerProofs` proves what every reachable snapshot
   satisfies, `MarketProofs`, `BookingProofs` and `DeskProofs` what callers get, `LedgerRun` that the mutating methods
   reach those snapshots, and `LedgerStore` joins ledger and store.
2. **The MLow speech codec.** `Fft` and `FftInverse` cover the mixed-radix Fourier transform and its packed real form;
   `A2Nlsf` and `TransPolyMeaning` the polynomials of the root search that turns filter coefficients into line spectral
   frequencies, `RootPolys` which polynomials those are, `RootScan` the search, `RootSearch` what it finds, `RootMeaning`
   how exact it is, `TameSearch` and `SmallCoefficients` where it cannot fail; `Stabilize` and `FilterMeaning` the
   stability test and repair of filters; `Pulses`, `PulseTotal`, `PulseRuns`, `PulseFrame`, `PulseModel` and `PulseTables`
   the coding of pulses, `PulseMeaning` and `ModelMeaning` what its symbols and tables stand for; `Symbols`, `Mirror`,
   `MirrorPacket` and `MirrorMeaning` the predictors that encoder and decoder must keep in step; `MinDist`, `Cmf` and
   `Survivors` the spacing repair, the expansion of probability tables and the division of search effort; `SplitRed` the
   redundant payload format.
3. **Media plumbing.** `Rtp` and `Srtp` cover packets and their protection, `Stun` the session messages, `WireLayout` where
   things stand in both, `Resampler` and `Pacer` the streaming audio stages.

`Arith`, `Reals`, `Complex`, `Bytes`, `Fixed` and `Wrappers` hold what these share. `dafny verify dfyconfig.toml` checks
everything.

## How the model stands for the code

- Floating-point numbers are reals and complex numbers pairs of reals. Twiddle factors are any function with the laws of
  roots of unity (`Fft.RootsOfUnity`); the inverse also needs the primitive root and unit circle laws.
- 32-bit integer code wraps around explicitly (`Fixed.Wrap32`), divides toward zero, and reports a division by zero or a
  slice out of range as an outcome (`panicked`, `Rtp.Panic`).
- Fresh ids are a counter, times are integers, tokens are compared as numbers. The locale's string order is any
  three-way comparison with the laws of an order (`Policy.IsCollation`).
- The entropy coder is a channel of symbols: reading under the table a symbol was written under returns it, and naming
  that table is a precondition of reading, so the decoder is proved to choose it. The pulse count travels as an interval,
  of which the decoder sees an arbitrary point.
- AES, HMAC-SHA1 and CRC-32 are arbitrary functions with results of the right size.
- Methods with loops and updates keep the code's order of reads, tests and writes. A loop nested in another is often a
  method of its own.

## What turned out not to hold

- The packed real transform pair is inverse up to the factor n exactly for even n (`FftInverse.RoundTripExactlyWhenEven`).
- A reset can be lost: its write is conditional and nobody looks at the answer. `StoreProofs.ResetCanBeLost` gives the
  run, `StoreProofs.ResetLandsIfUndisturbed` the exact condition.
- The root search can divide by zero. `RootSearch.SearchCanPanic` gives the coefficients,
  `RootSearch.ZeroDivisionExactly` the exact condition on the values of a bracket.
- In configuration 1 no count table of the decoder agrees with the prior the encoder writes counts under
  (`PulseTables.LowRateCountIsMisread`). The analysis only produces configuration 0 (`analysis.go:238` in the codec's
  directory).
- The sigmoid of the pulse model is not monotone: its last pieces overshoot their neighbours, so it falls by two from 159
  to 160 and from -160 to -159 (`ModelMeaning.SigmoidGrowsExactly`).
- With fewer than two survivors the division of search effort leaves pulses without any, unless 16-bit wrap-around hides
  the loss (`Survivors.DistributeFcbSurv`).
- Decoding an RTP packet cut off inside the extension's own header slices out of range (`Rtp.PanicsExactlyWhenCut`).
- Under a locale that ranks some strings and ties others the ranking has no order
  (`Policy.ChainsExactlyWhenTimesAreToldApart`). The tool interface admits only times of the form 00:00
  (`lib/mcp/tools.ts:105`), for which telling those times apart is enough (`LedgerProofs.WinnerBeatsAll`).

## Model

| member | source | states |
|---|---|---|
| Fft.SmallestFactor | services/wacalls/internal/voip/media/mlow/fft.go:24-37 | the result is the least divisor of n that is at least 2, so the recursion on n / p shrinks |
| Fft.CooleyTukey | services/wacalls/internal/voip/media/mlow/fft.go:61-75 | splitting n into p interleaved transforms of length m and recombining them with twiddles gives the transform of length n |
| Fft.PrimeTransform | services/wacalls/internal/voip/media/mlow/fft.go:48-60 | for a prime length the direct double loop writes every bin of the transform and nothing outside its output range |
| Fft.Combine | services/wacalls/internal/voip/media/mlow/fft.go:66-75 | from p finished sub-transforms the butterfly loop writes every bin of the whole transform |
| Fft.FftRec | services/wacalls/internal/voip/media/mlow/fft.go:41-76 | for every length, offset, stride and sign the output is exactly the discrete Fourier transform of the strided input; the recursion ends |
| Fft.Cfft | services/wacalls/internal/voip/media/mlow/fft.go:80-83 | the output array is the spectrum of the input array |
| FftInverse.InverseUndoesForward | services/wacalls/internal/voip/media/mlow/fft.go:80-83 | forward transform followed by the transform with the opposite sign is multiplication by n, for every n and every input |
| FftInverse.RfftForwardOrdered | services/wacalls/internal/voip/media/mlow/fft.go:88-103 | the packed real spectrum: zero frequency and bin n / 2 first, then the bins between as pairs |
| FftInverse.RfftBackwardOrdered | services/wacalls/internal/voip/media/mlow/perc.go:185-201 | the output is the inverse transform of the conjugate-symmetric spectrum that the packed values stand for |
| FftInverse.BinsMirror | services/wacalls/internal/voip/media/mlow/perc.go:190-195 | the spectrum of real samples is conjugate symmetric, the fact the backward packing relies on |
| FftInverse.EvenRoundTrip | services/wacalls/internal/voip/media/mlow/perc.go:185-201 | for even n the backward transform of the forward one returns every sample, times n |
| FftInverse.OddRoundTripFails | services/wacalls/internal/voip/media/mlow/perc.go:185-201 | for odd n above 1 a unit impulse does not come back: its bins are all one, and bin n / 2 + 1 gets no value from the unpacking |
| FftInverse.RoundTripExactlyWhenEven | services/wacalls/internal/voip/media/mlow/perc.go:185-201 | the pair is inverse up to n for all inputs if and only if n is even |
| StoreProofs.StepKeeps | lib/store/base.ts:72-97 | every step of every process (submit, read, compute, conditional write, reset) keeps the store invariant: one chain of snapshots, versions rising by one, every pending or answered call accounted for |
| StoreProofs.Serialisable | lib/store/base.ts:81-97 | after any interleaving the stored snapshot is the replay of the committed mutations one after another, and its version counts them |
| StoreProofs.ResultIsSequential | lib/store/base.ts:87-90 | a result returned to a caller is what the sequential machine computes at the commit of that call |
| StoreProofs.ErrorIsSequential | lib/store/base.ts:83-87 | an error thrown to a caller is what the sequential machine gives at some commit between the call and the throw |
| StoreProgress.ThrowIsDelivered | lib/store/base.ts:83-87 | after a read and a computation that throws, the call at the head of its queue is answered with exactly that error, has left the queue, and nothing is stored |
| StoreProgress.WriteEnds | lib/store/base.ts:87-96 | a write has three outcomes: at the version it read, the result is answered and the snapshot stored; at another version before the sixth attempt, the next attempt starts; at the sixth, the call is refused |
| StoreProgress.AttemptAlone | lib/store/base.ts:81-97 | one undisturbed attempt answers the call at the head: with the error if the mutation throws on the stored snapshot, else with its result, and the snapshot is the one it made |
| StoreProgress.QueueDrains | lib/store/base.ts:72-79 | a process left alone, in whatever phase its attempt is and however stale what it read, answers every call of its queue, within two attempts each |
| StoreProgress.EveryCallIsAnswered | lib/store/base.ts:70-97 | from every reachable state, when the process of a call then runs alone for as many attempts as its queue is long, that call has its answer |
| StoreProofs.ExactlyOnce | lib/store/base.ts:72-97 | a call that returned is committed exactly once; one that threw, was refused or still waits is not committed |
| StoreProofs.CallOrder | lib/store/base.ts:70-79 | calls of one process commit in the order they were made |
| StoreProofs.RealTimeOrder | lib/store/base.ts:72-97 | across processes, a call made after another returned commits after it |
| StoreProofs.RefusedOnlyUnderContention | lib/store/base.ts:82-96 | a call gives up only after at least six other commits since it was made |
| StoreProofs.FirstAttemptWins | lib/store/base.ts:62-71 | with one process and no reset every write succeeds at the first attempt |
| StoreProofs.ResetLandsIfUndisturbed | lib/store/base.ts:690-696 | a reset enters the log, with the seed as the new snapshot, if and only if nothing was committed between its read and its write |
| StoreProofs.ResetCanBeLost | lib/store/base.ts:690-696 | in every initial state with a process, a mutation committed between the read and the write of a reset leaves its own snapshot; the reset is gone |
| StoreProofs.SnapshotInvariant | lib/store/base.ts:81-97 | a property kept by each single mutation, the time stamp and the seed holds of the stored snapshot after any interleaving |
| LedgerStore.MemoryStore.WriteSnapshot | lib/store/memory.ts:16-20 | compare and swap: the snapshot is replaced exactly if its version is the expected one |
| LedgerStore.MemoryStore.AttemptMutation | lib/store/base.ts:81-97 | the retry loop, with commits of other instances falling between read and write, ends as the attempts specification says |
| LedgerStore.AttemptsAddOneVersion | lib/store/base.ts:81-97 | the attempt that ends the loop is the first not overtaken or throwing, its answer is the mutation's on what that attempt read, a result is stored one version up, and giving up means that all six attempts were overtaken |
| LedgerStore.BookingSafeUnderConcurrency | lib/store/base.ts:72-97 | with any number of processes running ledger operations, the stored snapshot keeps the market, commitment and decision rules |
| Policy.EvaluateOffer | lib/domain/policy.ts:17-43 | the violations pushed are exactly those that apply, in order, and eligible means none |
| Policy.EligibleIff | lib/domain/policy.ts:17-43 | an offer is eligible if and only if its revision is within 1 plus the counter budget and currency, rate, day, window and conditions respect the mandate |
| Policy.StringLessMeans | lib/domain/policy.ts:33-38 | one time is before another exactly if they agree up to a place where the first ends or has the smaller code unit |
| Policy.LatestOffers | lib/domain/policy.ts:45-52 | the map-filling loop returns the latest-offers list of its specification |
| Policy.LatestIsLatest | lib/domain/policy.ts:45-52 | one live offer per carrier, and for every live offer one of the same carrier with at least its revision |
| Policy.SortedPermutes | lib/domain/policy.ts:54-65 | ranking loses and invents no offer |
| Policy.SortedHead | lib/domain/policy.ts:58-64 | the first ranked offer comes strictly before every earlier candidate and not after any later one |
| Policy.CompareMeans | lib/domain/policy.ts:58-64 | the comparison puts the cheaper offer first, of equal amounts the one whose pickup time collates first, and of equal times the one whose carrier name does |
| Policy.CarrierNameIsLast | lib/domain/policy.ts:55 | a carrier is known by the name of the last entry with its id |
| Policy.WinnerIsLive | lib/domain/policy.ts:67-69 | there is a winner if and only if there is an eligible latest offer, and the winner is live and eligible |
| Policy.WinnerIsLeast | lib/domain/policy.ts:54-69 | the winner is, among the eligible latest offers, cheaper than every earlier one or ahead of it in the tie, and no dearer than any later one and not behind it in the tie, where ties go by pickup time and then carrier name |
| Policy.ChainsExactlyWhenTimesAreToldApart | lib/domain/policy.ts:58-64 | the ranking comparison is transitive, over all offers and carriers, if and only if the locale tells all strings apart or none |
| Policy.BookableExactlyWinner | lib/domain/policy.ts:71-80 | booking an offer is allowed if and only if it is the winner; the last eligibility check never fails |
| LedgerDraft.Draft.PushEvent | lib/store/base.ts:639-653 | the event goes to the front and at most 100 are kept; nothing else changes |
| LedgerDraft.Draft.PushDecision | lib/store/base.ts:655-688 | a decision already in the window under the same key is returned, otherwise one is added in front |
| LedgerDraft.Draft.RecordOffer | lib/store/base.ts:286-364 | the whole new draft or the error: restated terms return the standing offer, others supersede it and add a revision |
| MarketProofs.RecordOfferAnswers | lib/store/base.ts:286-364 | the call succeeds exactly for the operation's own id, and then the offer returned has the carrier, amount, currency, pickup date, pickup time and number of conditions of the input, and each of its conditions is among the input's |
| MarketProofs.RecordedExactlyWhenNew | lib/store/base.ts:40-50 | the snapshot stays if and only if a standing offer of the carrier has these terms, which is then returned; otherwise the offer returned is new, live, one revision above the standing one, which is superseded now, or revision 1 |
| MarketProofs.NewOfferJudged | lib/domain/policy.ts:17-43 | a violation is on a new offer exactly if the offer breaks its rule, and the offer is eligible exactly if it breaks none |
| MarketProofs.NewOfferMovesOperation | lib/store/base.ts:317-322 | the operation is quoted after a new offer if there are at least as many quote calls as carriers and all are over, else it is scanning |
| MarketProofs.NewOfferNoted | lib/store/base.ts:323-361 | a new offer leaves its evaluation among the decisions, allowed or blocked as it is eligible, and its selection exactly if it is the winner now |
| LedgerDraft.Draft.StageBooking | lib/store/base.ts:366-419 | the whole new draft or the error, in the order of the checks |
| LedgerDraft.Draft.ConfirmBooking | lib/store/base.ts:421-456 | the whole new draft or the error, with the token checks |
| BookingProofs.StagedExactlyForWinner | lib/store/base.ts:366-375 | a booking is staged if and only if the operation is the right one, the offer is the winner, its carrier is known and no other booking is under way |
| BookingProofs.StagedProposal | lib/store/base.ts:376-399 | what staging writes: a fresh proposal for the offer and its carrier, with the token and twenty minutes to live |
| BookingProofs.ConfirmedExactly | lib/store/base.ts:421-431 | a confirmation succeeds if and only if the booking is the proposed one, the time is not past the expiry, the token is the one stored and the offer is still the winner; it changes status and time of the booking and no terms |
| BookingProofs.TokenErrorsComeFirst | lib/store/base.ts:423-428 | the expiry error is reported exactly past the expiry, the token error exactly for a wrong token in time, whatever else fails |
| BookingProofs.StagedTokenConfirms | lib/store/base.ts:366-456 | whatever happens to the market after staging, the booking can be confirmed exactly with the token issued for it, within twenty minutes, and if its offer is the winner at that time |
| BookingProofs.ConfirmedOnce | lib/store/base.ts:421-456 | a confirmed booking is never confirmed again, by any token after any run |
| LedgerDraft.Draft.MarkRecapSent | lib/store/base.ts:458-489 | the whole new draft or the error, committing if evidence is already linked |
| LedgerDraft.Draft.SupersedeCommitment | lib/store/base.ts:497-525 | the whole new draft or the error |
| LedgerDraft.Draft.LinkEvidence | lib/store/base.ts:527-573 | the whole new draft or the error, committing if the recap is already sent |
| BookingProofs.ClosingAcceptedExactly | lib/store/base.ts:458-573 | on a reachable ledger a recap is accepted exactly for a confirmed booking, evidence exactly for one that is past the proposal, retirement exactly for one not yet retired; and what recap and evidence then write |
| BookingProofs.SupersedingFrees | lib/store/base.ts:497-525 | retiring a booking drops its evidence, puts the operation at risk and frees the place for another |
| LedgerDraft.Draft.UpdateConfiguration | lib/store/base.ts:99-127 | the whole new draft or the error; the carriers are checked after operation and mandate are changed |
| DeskProofs.BriefingTakenExactly | lib/store/base.ts:99-115 | with distinct carriers, a change of the briefing is taken if and only if the operation is the right one and the carriers it names, if any, are exactly those of the operation |
| DeskProofs.BriefingApplied | lib/store/base.ts:105-120 | named fields take the given values, the others stay; carriers keep ids and places and become the given entries |
| DeskProofs.CallUpdated | lib/store/base.ts:161-190 | the first call with the id changes status and no other; the operation becomes quoted exactly if this ends a quote call and all quotes are then given |
| DeskProofs.HandoffJoins | lib/store/base.ts:575-633 | asking for a human again returns the open handoff of the call and changes nothing; after it is resolved a new one is opened |
| LedgerDraft.Draft.Perform | lib/store/base.ts:99-637 | any of the thirteen operations on the draft gives the snapshot or the error of its function |
| LedgerRun.Work | lib/store/base.ts:81-97 | any list of operations, each on a clone that is kept exactly if nothing was thrown: the final snapshot and every error are those of the run, the ledger rules hold, and COMMITTED means the three proofs |
| LedgerProofs.PerformKeeps | lib/store/base.ts:286-573 | every operation keeps the market rules, the commitment rules and the decision window |
| LedgerProofs.ReachableOk | lib/store/base.ts:286-696 | these rules hold after every run of operations from the seed |
| LedgerProofs.CommittedIffThreeProofs | lib/store/base.ts:421-573 | after any run a standing commitment is COMMITTED if and only if the run confirmed it, sent its recap and linked evidence to it; it never rests in EVIDENCE_LINKED |
| LedgerProofs.RecapAndEvidenceCommute | lib/store/base.ts:458-573 | recap and evidence in either order commit a confirmed booking, with the same commitment |
| LedgerProofs.CommittedStands | lib/store/base.ts:366-573 | a committed booking stays until it is superseded and nothing else can be staged; its evidence stays unless evidence is linked to it anew, and is then exactly the new one |
| LedgerProofs.RevisionsCount | lib/store/base.ts:286-315 | after any run each carrier's offers are revisions 1, 2, ... in recording order and only the last is not superseded |
| LedgerProofs.WinnerAfterAnyRun | lib/domain/policy.ts:45-80 | after any run there is a winner if and only if some live offer is eligible, and exactly the winner can be booked |
| LedgerProofs.WinnerBeatsAll | lib/domain/policy.ts:54-69 | after any run that records offers at times of the form 00:00, under a locale that tells such times apart, the winner's amount is at most that of every live eligible offer; at equal amounts and different times its pickup time collates strictly first, and at equal times its carrier name does not collate later |
| MarketProofs.TieGoesToFirstRecorded | lib/domain/policy.ts:45-69 | of live eligible offers that tie in amount, pickup time and carrier name the one recorded first wins |
| LedgerProofs.EligibleOffersBounded | lib/domain/policy.ts:13-27 | under one mandate any run leaves at most 1 plus the counter budget eligible offers per carrier |
| LedgerProofs.RepeatedOfferIsFree | lib/store/base.ts:293-296 | repeating a recordOffer call returns the same offer and changes nothing |
| LedgerProofs.DecisionIdempotent | lib/store/base.ts:655-688 | a decision is recorded at most once while it is in the window |
| A2Nlsf.EvalPoly | services/wacalls/internal/voip/media/mlow/lpc.go:436-444 | the Horner loop in wrapping 32-bit arithmetic computes the polynomial value of its specification |
| A2Nlsf.BwExpander | services/wacalls/internal/voip/media/mlow/lpc.go:414-424 | the in-place chirp expansion computes the expanded coefficients |
| A2Nlsf.InitPolys | services/wacalls/internal/voip/media/mlow/lpc.go:446-460 | folding, deflation and basis change in place build the sum and difference polynomials, which are the quotients of the next rows |
| RootPolys.PolyIsQuotient | services/wacalls/internal/voip/media/mlow/lpc.go:446-460 | z^(d/2) times the sum polynomial at z + 1/z, times z + 1, is z A(z) plus A(z) read backwards, and likewise the difference polynomial with z - 1 and minus, coefficient by coefficient modulo 2^32 |
| RootPolys.PolyIsDetermined | services/wacalls/internal/voip/media/mlow/lpc.go:446-460 | a 32-bit polynomial of that length has this product if and only if it is the one built |
| RootPolys.DeflatedTimesFactor | services/wacalls/internal/voip/media/mlow/lpc.go:446-458 | the deflated polynomial times z + 1 or z - 1 is the undivided one, at every coefficient modulo 2^32 |
| RootMeaning.EvalIsNear | services/wacalls/internal/voip/media/mlow/lpc.go:436-444 | polynomials of small size are evaluated at x / 4096 up to an error below 2 to the degree |
| RootMeaning.ExpandScales | services/wacalls/internal/voip/media/mlow/lpc.go:414-424 | coefficient k of the expansion is that of the input times power k + 1 of the factor, up to one unit and k half units of the factor; coefficients from d on stay |
| TransPolyMeaning.TransPolyKeepsValue | services/wacalls/internal/voip/media/mlow/lpc.go:426-434 | the basis change turns a cosine series into the power series with the same value, modulo 2^32, for every argument |
| TransPolyMeaning.TransPolyKeeps | services/wacalls/internal/voip/media/mlow/lpc.go:426-434 | the basis change also keeps every coefficient of the Laurent polynomial in z that the series stands for, modulo 2^32 |
| RootScan.Bisect | services/wacalls/internal/voip/media/mlow/lpc.go:500-513 | the loop narrows the interval as three halvings of its specification do |
| RootScan.ScanTable | services/wacalls/internal/voip/media/mlow/lpc.go:488-566 | one pass over the 129-entry cosine table is the scan of its specification: every root, the table index of each, and whether the table ran out or a division failed |
| RootSearch.RefinedBracket | services/wacalls/internal/voip/media/mlow/lpc.go:500-513 | after the halvings the ends are points of the interval with the values of the polynomial there, they still hold a sign change, and an eighth of the interval is left |
| RootSearch.ZeroDivisionExactly | services/wacalls/internal/voip/media/mlow/lpc.go:514-525 | for bracketing 32-bit values the interpolation divides by zero if and only if y0 is not -2^31 and y1 - y0 is at least 2^32 - 31 |
| RootSearch.SearchCanPanic | services/wacalls/internal/voip/media/mlow/lpc.go:464-567 | a coefficient vector of order 2 on which the search divides by zero in its first round |
| RootSearch.SearchExplained | services/wacalls/internal/voip/media/mlow/lpc.go:464-567 | for every vector: each root is the first sign change, after the root before it, of the polynomial whose turn it is, refined, a zero shared with the other polynomial at the end of a step counting once; giving up means that all 17 rounds ran out of table; a panic means a polynomial whose values within a bracket are nearly 2^32 apart |
| RootSearch.RootsDetermined | services/wacalls/internal/voip/media/mlow/lpc.go:488-566 | for given polynomials there is only one list of roots that is explained this way |
| RootSearch.RestartAlternates | services/wacalls/internal/voip/media/mlow/lpc.go:533-535 | roots alternate between the two polynomials, and after each of its roots a polynomial is taken up with the other sign |
| RootMeaning.NarrowedIsPart | services/wacalls/internal/voip/media/mlow/lpc.go:500-513 | the three halvings end in one of eight equal parts of the table step, up to rounding, and the fraction counts the parts before it |
| RootMeaning.InterpolationIsLinear | services/wacalls/internal/voip/media/mlow/lpc.go:514-525 | inside a bracket of values below 2^30 the interpolation is where the straight line between the ends crosses zero, within two parts in 32 |
| RootMeaning.RefinedMeans | services/wacalls/internal/voip/media/mlow/lpc.go:500-526 | the root is, in 1/256 of a table step, the parts before the narrowed interval and the crossing of the line through its ends, capped at 32767 |
| RootSearch.SilkA2Nlsf | services/wacalls/internal/voip/media/mlow/lpc.go:464-567 | for every vector the loops end, write exactly the outputs of the search and leave exactly its expanded coefficients; the outputs are explained as above, and a panic needs a steep round |
| TameSearch.InterpolationBounded | services/wacalls/internal/voip/media/mlow/lpc.go:514-525 | inside a bracket of values below 2^30 in size the interpolation adds 0 to 33 units and divides by no zero |
| TameSearch.TameSearchSucceeds | services/wacalls/internal/voip/media/mlow/lpc.go:464-567 | where polynomial values stay below 2^30 there is no panic, all outputs are 0 to 32767, and each root lies in 256(k-1) to 256k+1 for its table index k |
| TameSearch.RootsNearlySorted | services/wacalls/internal/voip/media/mlow/lpc.go:464-567 | roots at different table indices are in order up to one unit |
| SmallCoefficients.SmallCoefficientsAreTamed | services/wacalls/internal/voip/media/mlow/lpc.go:414-460 | a bound on the coefficients that keeps every polynomial value of every round below 2^30 |
| SmallCoefficients.CodecSearchSucceeds | services/wacalls/internal/voip/media/mlow/lpc.go:464-567 | at order 16, coefficients up to 28000 / 65536 in size never make the search panic |
| Pulses.BuildPulseParams | services/wacalls/internal/voip/media/mlow/analysis.go:528-608 | counts, run lengths and packed signs are those of the pulse vector, and there are as many runs as units of magnitude |
| Pulses.ReadRunsOfBlock | services/wacalls/internal/voip/media/mlow/pulse.go:137-176 | reading the runs of any block finds its pulses at their places with their magnitudes |
| PulseMeaning.RunsLeadToPulse | services/wacalls/internal/voip/media/mlow/analysis.go:556-584 | the runs up to a pulse add up to its place in the block; it takes as many runs as its magnitude, all but the first zero |
| PulseMeaning.SignsFollow | services/wacalls/internal/voip/media/mlow/analysis.go:577-582 | one sign for each nonzero sample, in order, set exactly for the positive ones |
| PulseMeaning.BatchAt | services/wacalls/internal/voip/media/mlow/analysis.go:587-606 | sign symbol k carries the signs from 15 k on, fifteen or what is left, the first in its highest bit |
| Pulses.PackSigns | services/wacalls/internal/voip/media/mlow/analysis.go:587-606 | the signs in batches of at most 15, most significant first |
| Pulses.SignsRoundTrip | services/wacalls/internal/voip/media/mlow/analysis.go:587-606 | unpacking the batches returns the signs |
| PulseTotal.TriIsExact | services/wacalls/internal/voip/media/mlow/encoder.go:371-380 | within one frame the wrapping 32-bit count prior equals the exact triangular sum |
| PulseTotal.ReadTotal | services/wacalls/internal/voip/media/mlow/pulse.go:58-87 | for any point of the written interval the decoder's search stops at the count that was sent and consumes the same interval |
| PulseMeaning.IntervalsTile | services/wacalls/internal/voip/media/mlow/encoder.go:371-387 | the intervals of the counts 0 to l lie side by side from 0 to the bound; each count after the first takes one unit less than the one before |
| PulseTotal.WriteSplit | services/wacalls/internal/voip/media/mlow/encoder.go:389-414 | the symbols written for the division of the count over four subframes |
| PulseTotal.ReadSplit | services/wacalls/internal/voip/media/mlow/pulse.go:90-135 | the decoder recovers the four counts, choosing the window each symbol was written under |
| PulseMeaning.PairNamed | services/wacalls/internal/voip/media/mlow/encoder.go:443-465 | the symbol of a pair of subframes names the first one's pulses among exactly the divisions that neither exceeds the limit; there is none where one division is possible |
| PulseMeaning.SumNamed | services/wacalls/internal/voip/media/mlow/encoder.go:389-405 | the symbol of the two halves names the first one's pulses, counted from the least the table provides for |
| PulseMeaning.RoomForPulses | services/wacalls/internal/voip/media/mlow/encoder.go:363-367 | a subframe has room for 40 pulses, in configuration 1 for 8 |
| PulseTotal.SplitStaysInTables | services/wacalls/internal/voip/media/mlow/encoder.go:389-465 | every split symbol lies in its window and every window in its table |
| PulseRuns.RunInRange | services/wacalls/internal/voip/media/mlow/encoder.go:416-440 | every run is non-negative and shorter than what remains of the subframe, and 1 to 80 samples remain |
| PulseMeaning.RunNamed | services/wacalls/internal/voip/media/mlow/encoder.go:416-440 | a run is written in the table for the samples left, rounded up to eights, in the row for the pulses left, as the entry for the samples left after it |
| PulseRuns.WriteRuns | services/wacalls/internal/voip/media/mlow/encoder.go:416-440 | the replay loop writes each run under the window for the remaining samples and pulses, or indexes past the tables, exactly if a subframe has more than 40 pulses |
| PulseRuns.FrameFits | services/wacalls/internal/voip/media/mlow/encoder.go:416-440 | every window ends exactly at its table row's end if and only if no subframe has more than 40 pulses |
| PulseRuns.FittingWindow | services/wacalls/internal/voip/media/mlow/cc_tables.go:479-487 | where a symbol fits, the window is the tail of the row: no entry is filled with zero |
| PulseRuns.ReadRunBlock | services/wacalls/internal/voip/media/mlow/pulse.go:137-176 | the decoder selects the windows of the encoder and finds all pulses, or indexes past the tables, exactly if a subframe has more than 40 pulses |
| PulseFrame.ReadSignBlock | services/wacalls/internal/voip/media/mlow/pulse.go:178-200 | the bit-field loop applies to each magnitude the sign that was packed |
| PulseFrame.DecodePositions | services/wacalls/internal/voip/media/mlow/pulse.go:137-209 | runs and signs restore all 320 entries, or the tables are indexed out of range, exactly if a subframe has more than 40 pulses |
| PulseFrame.EncodePulses | services/wacalls/internal/voip/media/mlow/encoder.go:360-446 | the pulse block of a frame as symbols |
| PulseFrame.DecodePulses | services/wacalls/internal/voip/media/mlow/pulse.go:34-210 | reading a pulse block consumes exactly its symbols and returns the frame and its counts |
| PulseFrame.RoundTrip | services/wacalls/internal/voip/media/mlow/analysis.go:528-608 | pulse vector to parameters to symbols and back is the identity when subframes hold at most 40 pulses |
| PulseTables.LowRateCountIsMisread | services/wacalls/internal/voip/media/mlow/pulse.go:52-57 | in configuration 1, whatever 3 to 574 weights the decoder's count table holds, some count the encoder writes under its triangular prior can be read as another |
| PulseModel.Log2linRange | services/wacalls/internal/voip/media/mlow/cc_tables.go:57-74 | the fixed-point power lies between a power of two and the next one and never leaves 32 bits |
| ModelMeaning.Lin2logRange | services/wacalls/internal/voip/media/mlow/cc_tables.go:43-55 | the fixed-point logarithm lies in the octave of its argument and is exact at powers of two |
| ModelMeaning.PowerOfLogarithm | services/wacalls/internal/voip/media/mlow/cc_tables.go:43-74 | the power of the logarithm stays in the octave of its argument and returns powers of two |
| ModelMeaning.SigmoidGrowsExactly | services/wacalls/internal/voip/media/mlow/cc_tables.go:76-96 | the sigmoid does not fall from one step to the next if and only if the step is neither from 159 nor from -160 |
| ModelMeaning.SigmoidMirrors | services/wacalls/internal/voip/media/mlow/cc_tables.go:76-96 | the values at x and -x add up to 32767 or 32768 |
| ModelMeaning.SplitPdfMirrors | services/wacalls/internal/voip/media/mlow/cc_tables.go:132-158 | the weights of a split table read the same from both ends |
| PulseModel.ProbSplitRange | services/wacalls/internal/voip/media/mlow/cc_tables.go:132-140 | a split probability, if its division succeeds, is 0 to 2^30 |
| PulseModel.RunPdfIsWeights | services/wacalls/internal/voip/media/mlow/cc_tables.go:165-199 | the probabilities of run lengths are non-negative with a positive sum, for every table and pulse count |
| ModelMeaning.RunsShareOut | services/wacalls/internal/voip/media/mlow/cc_tables.go:165-199 | what the first n samples take and what reaches the next one add up to 2^31, less at most one unit for each sample |
| ModelMeaning.DampedIsPower | services/wacalls/internal/voip/media/mlow/cc_tables.go:171-175 | the repeated product is the power it stands for, up to a unit for each factor |
| PulseTables.CreateRunlenTable | services/wacalls/internal/voip/media/mlow/cc_tables.go:165-202 | 40 rows, each the table of the run probabilities the fixed-point model computes for its pulse count |
| PulseTables.CreateSplitCmfs | services/wacalls/internal/voip/media/mlow/cc_tables.go:142-158 | 159 tables, each of the split probabilities of its count with one entry for each possible first half and one to close the range; or a panic, exactly if some probability or some row sum is a division by zero |
| PulseTables.RunHasRoom | services/wacalls/internal/voip/media/mlow/cc_tables.go:479-487 | every run symbol that fits has a nonempty interval |
| PulseTables.SplitHasRoom | services/wacalls/internal/voip/media/mlow/cc_tables.go:479-487 | every split symbol that fits has a nonempty interval |
| Mirror.EncodeLsf | services/wacalls/internal/voip/media/mlow/encoder.go:311-355 | the symbols of the LSF block and the predictors after it |
| Mirror.DecodeLsf | services/wacalls/internal/voip/media/mlow/lsf.go:93-155 | every table is the encoder's; stage 1, grid, 16 residuals and extra come back; predictors agree; the state before does not matter in a packet's first frame |
| Mirror.AdvanceLsfState | services/wacalls/internal/voip/media/mlow/lsf.go:57-71 | the analysis copy of the state moves as the encoder's does |
| Mirror.EncodeGains | services/wacalls/internal/voip/media/mlow/encoder.go:469-508 | the symbols of the gain block, a residual only for subframes with pulses |
| Mirror.DecodeGains | services/wacalls/internal/voip/media/mlow/gains.go:18-65 | gains and residuals of non-empty subframes come back, from tables chosen by reconstructed gains |
| Mirror.OffsetInRow | services/wacalls/internal/voip/media/mlow/gains.go:47-62 | the residual table is one of four and its 92-entry window stays inside the row |
| Mirror.OffsetMeans | services/wacalls/internal/voip/media/mlow/encoder.go:494-506 | the table is that of the tens of pulses, from 30 on the last; the window starts at the gain rounded to whole steps below zero, at most 85 |
| MirrorMeaning.GainQMeans | services/wacalls/internal/voip/media/mlow/encoder.go:478-489 | the reconstructed gain is 85 steps down, the main gain's steps up and the shape's entry, in one wrap-around |
| MirrorMeaning.ModeMeans | services/wacalls/internal/voip/media/mlow/encoder.go:549-558 | the lag mode by the sum of the four gain weights: below 40028, below 56340, or above |
| Mirror.EncodePitch | services/wacalls/internal/voip/media/mlow/encoder.go:513-564 | the symbols of the long-term gains and filters, and the predictors after them |
| Mirror.DecodePitch | services/wacalls/internal/voip/media/mlow/pitch.go:47-76 | gain indices and the filter indices of non-empty subframes come back; predictors and lag mode agree |
| MirrorPacket.StateIsForgotten | services/wacalls/internal/voip/media/mlow/encoder.go:311-355 | symbols and later predictors of a packet do not depend on the predictors before it |
| MirrorMeaning.TablesFromFrames | services/wacalls/internal/voip/media/mlow/encoder.go:311-355 | the tables in the frames' own terms: the selector row is 0 first and then tells whether the frame before was voiced, the grid table whether the two agree; a voiced frame predicts its first gain from the last one of a voiced frame right before it and its filter from the last one sent since the last unvoiced frame, else from nothing |
| MirrorMeaning.LoopMeans | services/wacalls/internal/voip/media/mlow/encoder.go:513-547 | within a frame each gain is predicted from the one before, each filter from the last subframe with pulses, and the sum is that of the gain weights |
| MirrorPacket.EncodePrefix | services/wacalls/internal/voip/media/mlow/encoder.go:568-602 | after the first n frames of a packet, for every n, symbols and predictors are those of the specification |
| MirrorPacket.EncodePacket | services/wacalls/internal/voip/media/mlow/encoder.go:568-602 | the symbols of three frames, and the predictors of the state it returns |
| MirrorPacket.DecodePrefix | services/wacalls/internal/voip/media/mlow/decoder.go:105-149 | from any state the decoder reads the first n frames to their end, for every n, recovers every parameter and pulse, and then holds the encoder's predictors |
| MirrorPacket.DecodePacket | services/wacalls/internal/voip/media/mlow/decoder.go:105-149 | from any state the decoder reads a three-frame packet to its end, recovers every parameter and pulse, and holds the encoder's predictors |
| MirrorPacket.RoundTrip | services/wacalls/internal/voip/media/mlow/encoder.go:568-602 | encoder and decoder together, from unrelated states and after any number of frames: nothing lost, nothing unread, equal predictors |
| MinDist.LsfMinDist | services/wacalls/internal/voip/media/mlow/lsf_quant.go:217-264 | the result is rebuilt from the first of at most 1000 iterates whose slacks are all non-negative; unchanged if there is none, or if the least slack is positive to begin with |
| MinDist.IterateConserves | services/wacalls/internal/voip/media/mlow/lsf_quant.go:237-253 | every iterate has the total slack of the start |
| MinDist.RepairSucceeds | services/wacalls/internal/voip/media/mlow/lsf_quant.go:217-264 | the frequencies change if and only if some gap is too small and an iterate suffices; then all 17 gaps are at least their minimum, and the minima sum to at most pi |
| MinDist.SpacedStays | services/wacalls/internal/voip/media/mlow/lsf_quant.go:217-264 | frequencies with sufficient gaps stay, also when a slack is zero and the rebuilding runs |
| MinDist.RepairIsIdempotent | services/wacalls/internal/voip/media/mlow/lsf_quant.go:217-264 | repairing twice is repairing once |
| MinDist.RebuiltSlacks | services/wacalls/internal/voip/media/mlow/lsf_quant.go:255-259 | rebuilding the frequencies realises all slacks, also the one up to pi that is never written |
| MinDist.PushConserves | services/wacalls/internal/voip/media/mlow/lsf_quant.go:242-251 | moving slack between neighbours keeps its sum |
| MinDist.PushedAt | services/wacalls/internal/voip/media/mlow/lsf_quant.go:240-251 | the least gap gains the whole amount, the gaps beside it lose half each, or the only one all, and no other changes |
| MinDist.LiftedTo | services/wacalls/internal/voip/media/mlow/lsf_quant.go:237-253 | after round k the slack that was least is k millionths |
| Cmf.TableShape | services/wacalls/internal/voip/media/mlow/celp_enc.go:250-266 | every table starts at 0, rises strictly, and for n entries ends above 32767 - n and not above 32767 |
| ModelMeaning.StepIsShare | services/wacalls/internal/voip/media/mlow/celp_enc.go:262-266 | each symbol gets one entry and its share of the remaining 32767 - n, rounded down |
| Cmf.WeightsAreSquares | services/wacalls/internal/voip/media/mlow/celp_enc.go:253-258 | the weights are 1, 4, 9, ... up to the square of 255; the last is capped one short of the square of 256 |
| Cmf.ProperExactlyWhenShort | services/wacalls/internal/voip/media/mlow/celp_enc.go:250-266 | in each of the three widths a list of bytes expands to a strictly rising table from 0 within 32767 if and only if it has at most 32767 entries |
| Cmf.Next32Exact | services/wacalls/internal/voip/media/mlow/celp_enc.go:263-265 | the 32-bit product and the 16-bit sum never overflow |
| Cmf.CelpDcmfToCmf | services/wacalls/internal/voip/media/mlow/celp_enc.go:250-266 | the in-place 32-bit expansion, of any length, divides by a sum that wrapped to zero or leaves the table of its arithmetic, which up to 32767 entries is the exact one; the rest of the buffer stays |
| Cmf.LsfDcmfToCmf | services/wacalls/internal/voip/media/mlow/lsf_seed.go:328-349 | the 64-bit expansion, of any length, with 16-bit entries; up to 32767 entries the exact table |
| Cmf.PitchDcmfToCmf | services/wacalls/internal/voip/media/mlow/pitch_seed.go:149-170 | the 64-bit expansion, of any length, with 32-bit entries; up to 32767 entries the exact table |
| Cmf.PdfToCmf | services/wacalls/internal/voip/media/mlow/cc_tables.go:99-113 | from any numbers the division by zero, exactly if the list is not empty and sums to zero, or the entries of the 64-bit arithmetic; the exact table for weights |
| Survivors.DistributeFcbSurv | services/wacalls/internal/voip/media/mlow/celp_enc.go:1505-1535 | for two pulses or more and any 32-bit total: entries 1 to 4 with the exact sum, the first ones non-decreasing and at most 1 apart, if and only if there are at least two survivors or the amount taken from each pulse is a multiple of 65536 |
| Survivors.EnoughIsDistributed | services/wacalls/internal/voip/media/mlow/celp_enc.go:1514-1534 | the amounts of the loops are the even distribution |
| Stabilize.LpcIsStable | services/wacalls/internal/voip/media/mlow/lpc.go:288-331 | the unrolled loop over two buffers computes the stability test; its division is never by zero |
| Stabilize.Rc2A | services/wacalls/internal/voip/media/mlow/lpc.go:225-241 | the in-place construction gives the filter of the reflection coefficients |
| Stabilize.StableIffBounded | services/wacalls/internal/voip/media/mlow/lpc.go:288-331 | the filter of any reflection coefficients passes if and only if the square of each is at most 0.9995 |
| Stabilize.StableIsFilter | services/wacalls/internal/voip/media/mlow/lpc.go:288-331 | every filter that passes is built from such reflection coefficients |
| FilterMeaning.UpIsLattice | services/wacalls/internal/voip/media/mlow/lpc.go:225-241 | one step of the construction adds r times the polynomial read backwards, coefficient by coefficient |
| FilterMeaning.StableMeans | services/wacalls/internal/voip/media/mlow/lpc.go:288-331 | the filter passes if and only if each reflection coefficient squared is at most 0.9995 |
| Stabilize.BweExpand | services/wacalls/internal/voip/media/mlow/lpc.go:244-251 | coefficient i is multiplied by the i-th power of the factor |
| Stabilize.LpcStabilize | services/wacalls/internal/voip/media/mlow/lpc.go:334-347 | ends after at most 1000 rounds for every input, at the first expansion that is stable; stable input stays |
| FilterMeaning.ExpandedIsShrunk | services/wacalls/internal/voip/media/mlow/lpc.go:244-251 | the expanded filter has at every point the value of the filter at that point times the factor |
| FilterMeaning.RoundsShrink | services/wacalls/internal/voip/media/mlow/lpc.go:334-347 | after i rounds the filter is evaluated at 0.999 * 0.998 * ... times the point, i factors |
| SplitRed.Depack | services/wacalls/internal/voip/media/mlow/red.go:31-83 | the frames of the packet's layout, or the error; the header-too-short error never occurs |
| SplitRed.UnpackOfPack | services/wacalls/internal/voip/media/mlow/red.go:31-83 | every well-formed layout is read back |
| SplitRed.PackOfUnpack | services/wacalls/internal/voip/media/mlow/red.go:31-83 | what is accepted is a well-formed layout whose bytes are the packet |
| SplitRed.AcceptsExactlyLayouts | services/wacalls/internal/voip/media/mlow/red.go:31-83 | a packet is accepted if and only if it is some well-formed layout |
| SplitRed.FramesReadPacket | services/wacalls/internal/voip/media/mlow/red.go:31-83 | the frames byte by byte: only the last is main; each other one has its time code with the top bit set and its size in front, the main one its bare time code; their data together is the rest of the packet |
| SplitRed.RefusedExactly | services/wacalls/internal/voip/media/mlow/red.go:31-83 | the empty packet has its own error; a missing main frame is reported exactly for packets that are a layout with an empty main frame; the header-too-short error never occurs |
| Rtp.EncodeHeader | services/wacalls/internal/voip/media/rtp.go:49-78 | on any header and buffer: the error for a short buffer, the store out of range for a source list longer than its count, or the header bytes with the extension cut to the room and the rest unchanged |
| Rtp.DecodeHeader | services/wacalls/internal/voip/media/rtp.go:80-124 | the parsed header or the error, on any bytes |
| Rtp.HeaderRoundTrip | services/wacalls/internal/voip/media/rtp.go:80-124 | a well-formed header comes back from its bytes whatever follows (section 5.1 of RFC 3550) |
| WireLayout.HeaderWords | services/wacalls/internal/voip/media/rtp.go:49-78 | where the fields stand: version, flags, count, marker, type and sequence number in the first word, then time stamp, source, listed sources, and profile, length and data of the extension (section 5.1 of RFC 3550) |
| Rtp.EncodePacket | services/wacalls/internal/voip/media/rtp.go:135-143 | header bytes, as many as the count field says, followed by the payload; or the store out of range |
| Rtp.DecodePacket | services/wacalls/internal/voip/media/rtp.go:145-152 | the parsed packet, the error, or the out-of-range slice |
| Rtp.ParsedIsWellFormed | services/wacalls/internal/voip/media/rtp.go:80-124 | whatever bytes are parsed, a header that comes out is well formed |
| Rtp.ReturnsExactlyWhenWellFormed | services/wacalls/internal/voip/media/rtp.go:135-152 | any packet comes back from its encoding if and only if its header is well formed |
| Rtp.PanicsExactlyWhenCut | services/wacalls/internal/voip/media/rtp.go:145-152 | decoding slices out of range if and only if the extension bit is set and the packet ends inside the extension's own four-byte header |
| Rtp.RtpSession.CreatePacketWithDuration | services/wacalls/internal/voip/media/rtp.go:182-190 | sequence numbers rise by 1 modulo 2^16, time stamps by the duration modulo 2^32 |
| Srtp.SrtpContext.UpdateRoc | services/wacalls/internal/voip/media/srtp.go:124-136 | the rollover counter after one sequence number |
| Srtp.OneStep | services/wacalls/internal/voip/media/srtp.go:124-140 | the next packet gets its true index if and only if the gap is below 65536 and, after a wrap, below 32768 |
| Srtp.FollowsStream | services/wacalls/internal/voip/media/srtp.go:124-140 | over any in-order stream with gaps below 32768 that starts before the first wrap the counter stands at the true index |
| Srtp.DistinctIvs | services/wacalls/internal/voip/media/srtp.go:142-159 | different indices below 2^48 give different initialization vectors |
| Srtp.IvGivesBack | services/wacalls/internal/voip/media/srtp.go:142-159 | from the vector and the salt, bytes 4 to 7 give back the source and bytes 8 to 13 the index; the other bytes are the salt and two zeros |
| Srtp.IvDetermines | services/wacalls/internal/voip/media/srtp.go:142-159 | under one salt two vectors are equal if and only if source and index below 2^48 are |
| Srtp.SrtpContext.GenerateIv | services/wacalls/internal/voip/media/srtp.go:142-159 | salt with source and index folded in at their places |
| Srtp.SrtpContext.Protect | services/wacalls/internal/voip/media/srtp.go:72-95 | the counter moves; then header, encrypted payload and tag for the moved counter, or the store out of range for a source list longer than its count |
| Srtp.SrtpContext.Unprotect | services/wacalls/internal/voip/media/srtp.go:97-122 | the decrypted packet, or which refusal; a refused packet leaves the counter alone |
| Srtp.OpensWire | services/wacalls/internal/voip/media/srtp.go:97-122 | opening undoes protecting at the same index for non-empty payloads |
| Srtp.ProtectAll | services/wacalls/internal/voip/media/srtp.go:72-95 | the sender's index rises by one with every packet of a numbered stream |
| Srtp.Relay | services/wacalls/internal/voip/media/srtp.go:72-122 | a receiver fed any in-order part of a sender's stream, its start before the first wrap and gaps below 32768, recovers every packet |
| Stun.EncodeAttribute | services/wacalls/internal/voip/transport/stun.go:44-54 | type, length, data and padding to a multiple of four |
| Stun.BuildStunMessage | services/wacalls/internal/voip/transport/stun.go:60-101 | around any bytes and any transaction id: header, bytes, integrity and fingerprint, the checksums computed over headers that state the length through them |
| Stun.BuiltOfAttrs | services/wacalls/internal/voip/transport/stun.go:60-101 | around a list of attributes this is the message of the list with integrity and fingerprint as its last members |
| WireLayout.MessageHeader | services/wacalls/internal/voip/transport/stun.go:60-101 | type, length of what follows the header, cookie 0x2112a442 and transaction id at their places (section 6 of RFC 5389) |
| WireLayout.AttributeLayout | services/wacalls/internal/voip/transport/stun.go:44-54 | type, length, value, and zeros up to a multiple of four, at their places |
| WireLayout.IntegrityCovers | services/wacalls/internal/voip/transport/stun.go:63-71 | the integrity attribute follows the caller's bytes and is the MAC of the message up to it with the length stated as if it came last |
| WireLayout.FingerprintCovers | services/wacalls/internal/voip/transport/stun.go:72-80 | the fingerprint is the last attribute and is the checksum of the message up to it exactly as it is sent, exclusive-or 0x5354554e |
| Stun.HashedLengths | services/wacalls/internal/voip/transport/stun.go:63-80 | the length hashed for each checksum is that of the message through the attribute carrying it (sections 15.4 and 15.5 of RFC 5389) |
| Stun.ParseAttributes | services/wacalls/internal/voip/transport/stun.go:282-312 | on any bytes the loop ends, stays in bounds, and returns the attributes and fields the bytes hold |
| Stun.ParseStunResponse | services/wacalls/internal/voip/transport/stun.go:210-315 | the response with method and attribute names, or the bare ping or pong, or nothing, on any bytes |
| Stun.HexDetermines | services/wacalls/internal/voip/transport/stun.go:236 | the hexadecimal rendering tells transaction ids apart |
| WireLayout.HexAt | services/wacalls/internal/voip/transport/stun.go:236 | two lower-case hexadecimal digits for each byte, the higher half first |
| WireLayout.ErrorCodeIsLast | services/wacalls/internal/voip/transport/stun.go:282-312 | the error code is that of the last error attribute, class times 100 plus number; zero without one |
| WireLayout.RoutingIdIsLast | services/wacalls/internal/voip/transport/stun.go:282-312 | the routing id is that of the last such attribute of a success response; zero otherwise |
| Stun.ParseOfMessage | services/wacalls/internal/voip/transport/stun.go:282-312 | every attribute list whose padded size fits 16 bits comes back in order |
| Stun.RoundTrip | services/wacalls/internal/voip/transport/stun.go:60-101 | building then parsing returns the caller's attributes followed by integrity and fingerprint when requested |
| Stun.TypeWordRoundTrip | services/wacalls/internal/voip/transport/stun.go:238-247 | method and class come back from the type word with the class bits between the method bits (section 6 of RFC 5389) |
| Resampler.OutputsExtend | services/wacalls/cmd/server/resample.go:36-44 | more input never changes outputs already made |
| Resampler.ChunksJoin | services/wacalls/cmd/server/resample.go:20-48 | two chunks give the output and position that their concatenation gives |
| Resampler.Count | services/wacalls/cmd/server/resample.go:38-43 | the number of outputs for n samples: exactly the k with k * step + 1 below n |
| Resampler.LinesAreExact | services/wacalls/cmd/server/resample.go:36-44 | a straight line is resampled exactly at every rate: the output at a place is the line there |
| Resampler.SampleIsLocal | services/wacalls/cmd/server/resample.go:36-44 | an output depends only on the two samples around its place and lies between them |
| Resampler.LinearResampler.Process | services/wacalls/cmd/server/resample.go:20-48 | output and new state depend only on the stream so far and the chunk |
| Pacer.PcmPacer.Enqueue | services/wacalls/cmd/server/pcm_pacer.go:53-67 | the part of the burst that fits joins the queue |
| Pacer.TakesWhatFits | services/wacalls/cmd/server/pcm_pacer.go:53-67 | of a burst the longest beginning that leaves no more than the maximum waiting is taken in |
| Pacer.PcmPacer.NextFrame | services/wacalls/cmd/server/pcm_pacer.go:77-98 | the next frame of the queue or nothing; compaction does not show |
| Pacer.PcmPacer.Clear | services/wacalls/cmd/server/pcm_pacer.go:69-75 | back to the fresh state |
| Pacer.BufferBound | services/wacalls/cmd/server/pcm_pacer.go:92-96 | the physical buffer stays below the maximum plus the larger of the maximum and 8192 |
| Pacer.FirstInFirstOut | services/wacalls/cmd/server/pcm_pacer.go:53-98 | over any run, frames given out followed by the queue are the samples accepted, never more than the maximum wait, and only whole frames leave |
| Pacer.EveryTickServed | services/wacalls/cmd/server/pcm_pacer.go:77-98 | over any run from a playing pacer, every tick gives a frame if and only if every tick finds a frame waiting |
| Pacer.SilentWhileFilling | services/wacalls/cmd/server/pcm_pacer.go:77-98 | over any run from a pacer that is filling up nothing leaves if and only if every tick finds less than the prebuffer or less than a frame |
| Pacer.FreshIsSilent | services/wacalls/cmd/server/pcm_pacer.go:69-98 | a new or cleared pacer gives nothing, over any run without another clear, until a tick finds the prebuffer and a frame |

## Left out

- LedgerProofs.WinnerBeatsAll: pickup times of the form 00:00, which is what the tool interface admits, under a locale that tells them apart; with ties the comparison is not an order and the language leaves the result of sorting open.
- TameSearch.TameSearchSucceeds: says when the search cannot panic for values below 2^30 in size; between that and the exact condition on a bracket the vectors that panic are not characterised by their coefficients.
- PulseFrame.EncodePulses: subframes hold at most 40 pulses, 8 in configuration 1; beyond that the loops index past their tables, which `PulseRuns.WriteRuns` and `PulseFrame.DecodePositions` state for 40.
- MirrorPacket.DecodePacket: configuration 0 only, because of the differing count tables; the LSF, gain and pitch blocks are modelled for both.
- Mirror.EncodePitch: the lag block is one token written under the lag mode; its tables are binary data that is not part of this model, and the lag predictors appear only where they are reset.
- Mirror.DecodePitch: the lag block is one token, as for the encoder.
- Pulses.BuildPulseParams: sums of magnitudes are unbounded integers; a frame would need more than 2^31 units to wrap around in the code.
- PulseModel.ProbSplitRange: how near the formula for factorials and the scaling of run probabilities come to the true probabilities is not stated; both are approximations the tables are defined by.
- PulseTables.CreateRunlenTable: tables of at most 32767 samples; the codec builds those of 8 to 160.
- PulseTables.CreateSplitCmfs: says exactly when it panics; whether one of the 159 fixed rows makes it is a finite computation over constants and not shown.
- MinDist.RepairSucceeds: does not say for which frequencies a thousand rounds are enough; where they are not, the code returns its input.
- Stun.ParseOfMessage: lists whose padded size does not fit the 16-bit length field are excluded, as the format has no room for them.
- Stabilize.LpcIsStable: that bounded reflection coefficients put the poles inside the unit circle is a theorem of analysis that is not part of this model.
- Survivors.DistributeFcbSurv: at most 2^29 pulses, far more than a frame has samples.
- Srtp.SrtpContext.Unprotect: says nothing of authenticity, because the code does not look at the tag.
- Srtp.Relay: packets in order only; the counter's update is right for in-order delivery alone.
- Arithmetic rounding of floats, the accuracy of sine and cosine, and the quality of the codec's searches: no exact property.
- The range coder below the symbol channel, synthesis, postfilters, voice activity and noise shaping.
- Call details other than mode and status, and escalation texts: no rule depends on them.
- Transcripts, call briefs, recap texts and event payloads: text that no rule depends on.
- The conditional update of the Supabase store, which is the same compare and swap with network errors; SQLite, route handlers, user interface, providers and timers.
- The back-off delay between attempts: it changes which interleavings are likely, not which are possible.
- Key derivation, reading of WhatsApp signalling, relays and WebRTC.
