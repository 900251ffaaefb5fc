# Verified model of the civic platform's stateful cores

Dafny models of the parts of the repository whose correctness is more than plumbing, each with proofs over all
inputs and, for the services, over all runs. `dafny verify dfyconfig.toml` verifies the project.

The files come in layers:

- *Algorithms*, in the source's imperative shape and tied to an independent definition: the edit-distance
  table (`EditDistance`, `DuplicateScan`), the delegation walk (`DelegationGraph`, `DelegationCycles`,
  `DelegationListings`), the election outcome (`Outcome`), the jurisdiction tree on the heap
  (`JurisdictionTree`, read back by `JurisdictionRows`, `JurisdictionForest` and `JurisdictionOrder`), the
  in-place failure window (`MfaWindow`), the log verifier (`AuditLog`), the approval loops of both services
  (`ProtocolApprovals`, `ProtocolOrders`), and access evaluation (`IamService`).
- *Services as state machines*: what each call turns the tables into (`Voting`, `Delegation`, `Auth`,
  `AuditConsumer`, `Governance`, `ProtocolGate`, `Proposals`, `Iam`, `ReplayGuard`, `RateLimit`), and what
  every run of calls keeps (`VotingSafety`, `VotingSpoilt`, `AuthRuns`, `RevocationRuns`, `ProposalRuns`,
  `IamRuns`).
- *What each call means*: when it succeeds and what it then changes, with every condition and constant written out
  on the rows, and where that matters what it is good for in every later state (`DelegationEffects`,
  `VotingEffects`, `AuthEffects`, `AuditEffects`, `GovernanceEffects`, `GateEffects`, `ProposalEffects`,
  `IamEffects`, `GuardEffects`).
- *Services as classes*: fields updated method by method, as in the source, each method proved to end in the
  state, and with the answer, that the state machine gives (`VotingStore`, `DelegationStore`, `AuthStore`,
  `AuditStore`, `GateService`, `GovernanceService`, `ProposalService`, `IamService`, `ReplayStore`,
  `RateLimit`). Map iteration picks the next key arbitrarily, so every order is covered.

`Runs` holds the induction over runs, `Wrappers` the two usual datatypes, and `Sizes`, `Lines` and
`Repetition` facts about finite sets, joined lines and repeated sequences.

## What is assumed

- One call is one atomic step. For a store call its lock or transaction makes it so; for a service call that
  makes several store calls (creating a delegation, refreshing a session, certifying a vote) it is an
  assumption.
- Hashes and signatures are arguments. Where a proof needs the hash to be injective it says so, and that such
  hashes exist is proved; new ids and tokens are values not used before.
- Clock readings are arguments. Theorems that need a clock that never goes back say so, and the replay store
  has a separate argument for each reading the source takes.
- Answers of other services (identity status, competency, affectedness, constitutional clearance) are
  arguments of the calls.

## Where the code does less than it says or suggests

Each of these is proved by a concrete case, by the exact condition, or by both.

- The cycle check of delegations can be relied on, whatever order the store lists the rows in, exactly while
  no citizen has active delegations to two delegates in the domain, which the insert does not enforce;
  otherwise some order lets a cycle through (`DelegationListings.AlwaysExactIffOneDelegateEach`,
  `DelegationListings.OtherwiseACyclePasses`).
- Replay protection reads the clock once for the window and again while purging, and a request that arrives in
  between is accepted twice (`ReplayGuard.SlowReplayIsAccepted`,
  `ReplayGuard.AcceptedAgainIffThePurgeOvertakesIt`).
- A deadlocked proposal's status is not changed by a conclusion alone: support crossing the threshold and a
  certified result change it too (`ProposalRuns.WhatMovesADeadlockedProposal`).
- The two-person gate looks at the first row of either kind only, so with more than two approvals its answer
  can depend on row order (`Governance.OpensInSomeOrderIff`, `Governance.OpensInEveryOrderIff`).
- Picking protocol approvals first-fit can refuse although an independent triple exists; whether it does can
  depend on row order (`ProtocolApprovals.FirstFitCanMiss`, `ProtocolOrders.SucceedsInSomeOrderIff`,
  `ProtocolOrders.SucceedsInEveryOrderIff`).
- The tree builder drops the rows on and under a cycle of parents
  (`JurisdictionForest.NothingLostIffAcyclic`).
- The audit log links entries by payload hash, so a link does not fix who wrote the entry before, or what kind
  of action it was (`AuditLog.HashBindsTheEntry`, `AuditLog.LinkDoesNotBindTheActorBefore`).
- A session can be tallied exactly when all its ballots name its options, which casting does not check; one
  that cannot is never tallied or certified later (`VotingSpoilt.TalliesIffAllNameOptions`,
  `VotingSpoilt.SpoiltForGood`, `VotingSpoilt.CheckedRunsCanBeTallied`).
- The tree depends on the order of the rows exactly when an id that occurs in it has different rows
  (`JurisdictionOrder.OrderIgnoredIffOneRowThroughout`).
- Exactly-once is per key, and posts over HTTP choose their keys freely: an event is lost exactly if a post
  has used its key before (`AuditConsumer.LoggedIffKeyIsFree`).
- A suspended session is said to be restored by a fresh second factor (`apps/api-go/internal/auth/service.go:258-259`),
  but nothing restores it: it is out of reach for good (`AuthEffects.SuspendedForGood`).

## Model

| member | source | states |
|---|---|---|
| EditDistance.Levenshtein | apps/api-ts/src/identity/duplicate-detection.service.ts:6-17 | The table-filling loops, shortcut included, leave the optimum of the unrestricted recurrence in the last cell, for all strings |
| EditDistance.NeighboursDifferByAtMostOne | apps/api-ts/src/identity/duplicate-detection.service.ts:7-15 | Cells next to each other in a row or a column of the table differ by at most one |
| EditDistance.EqualCharactersTakeTheDiagonal | apps/api-ts/src/identity/duplicate-detection.service.ts:12-14 | On equal characters the three-way minimum is the diagonal, which is why the source may skip the other two |
| EditDistance.CellIsBest | apps/api-ts/src/identity/duplicate-detection.service.ts:12-14 | The cell rule of the source, both branches, gives the optimum for the two prefixes |
| EditDistance.BestZero | apps/api-ts/src/identity/duplicate-detection.service.ts:6-17 | The cost between two prefixes is 0 exactly when they are equal |
| EditDistance.BestTriangle | apps/api-ts/src/identity/duplicate-detection.service.ts:6-17 | Triangle inequality for all prefixes of any three strings |
| EditDistance.DistanceIsAMetric | apps/api-ts/src/identity/duplicate-detection.service.ts:6-17 | Zero exactly for equal strings, symmetric, triangle inequality |
| EditDistance.OneEditCostsAtMostOne | apps/api-ts/src/identity/duplicate-detection.service.ts:6-17 | A single insertion, deletion or substitution anywhere changes the distance by at most one |
| EditDistance.NoScriptIsShorter | apps/api-ts/src/identity/duplicate-detection.service.ts:6-17 | No edit script from a to b, in whatever order its edits come, is shorter than the distance |
| EditDistance.CheapestScript | apps/api-ts/src/identity/duplicate-detection.service.ts:6-17 | A script of exactly that length exists |
| EditDistance.DistanceIsTheLeastScript | apps/api-ts/src/identity/duplicate-detection.service.ts:6-17 | The distance is the least length of any sequence of single-character edits from a to b |
| DuplicateScan.NearPairsExact | apps/api-ts/src/identity/duplicate-detection.service.ts:63-73 | The specification lists every pair at distance at most 2 once, smaller index first, and nothing else |
| DuplicateScan.MorePairsRemain | apps/api-ts/src/identity/duplicate-detection.service.ts:63-73 | Exceeding the cap part-way through the scan implies that the complete result exceeds it |
| DuplicateScan.CompareAll | apps/api-ts/src/identity/duplicate-detection.service.ts:63-75 | The double loop returns exactly one signal per near pair, or refuses exactly when there are more than 1000 |
| DuplicateScan.Scan | apps/api-ts/src/identity/duplicate-detection.service.ts:54-76 | In terms of the rows alone: one signal for every two places, neither revoked, whose normalised handles are at distance at most 2, in row order with the smaller place first, and no other signal; or the one refusal that applies (over 500 unrevoked rows, a handle over 64 characters, over 1000 such pairs) |
| DuplicateScan.NonRevokedStand | apps/api-ts/src/identity/duplicate-detection.service.ts:54-62 | The citizens compared are exactly the rows that are not revoked, in row order |
| DuplicateScan.AsManyAsPlaces | apps/api-ts/src/identity/duplicate-detection.service.ts:54-62 | There are as many of them as unrevoked rows, so the limit of 500 counts those |
| DuplicateScan.NearPairsAreNearPlaces | apps/api-ts/src/identity/duplicate-detection.service.ts:63-73 | The near pairs among them are exactly the near places of the rows, once each and in order |
| DelegationGraph.BuildNext | apps/api-go/internal/delegation/service.go:168-171 | The loop builds the map in which the last listed edge of a delegator wins |
| DelegationGraph.CreatesCycle | apps/api-go/internal/delegation/service.go:167-181 | Ends on every edge list, cyclic or not, and answers true exactly when the walk from the delegate meets the delegator or never ends |
| DelegationGraph.ResolveChain | apps/api-go/internal/delegation/service.go:184-197 | Ends on every edge list and returns the longest walk from the delegator that repeats nobody |
| DelegationGraph.RepeatNeverEnds | apps/api-go/internal/delegation/service.go:174-180 | A walk that meets a citizen twice never reaches a citizen without a delegation |
| DelegationCycles.EdgeClosesCycleIffTargetLeadsBack | apps/api-go/internal/delegation/service.go:163-166 | On an acyclic graph, adding an edge closes a cycle exactly when its target already leads back to its source |
| DelegationCycles.CheckFollowsTheWalk | apps/api-go/internal/delegation/service.go:167-181 | On an acyclic graph the check says exactly whether the delegator lies on the walk from the delegate |
| DelegationCycles.CheckIsExactIffEveryEdgeIsVisible | apps/api-go/internal/delegation/service.go:167-181 | For one listing, the check is right for all pairs if and only if every active edge appears in its delegator's own chain over that listing |
| DelegationListings.AlwaysExactIffOneDelegateEach | apps/api-go/internal/delegation/service.go:89-103 | The check is right for all pairs in every order the store may list the rows in if and only if no citizen has active delegations to two delegates in the domain |
| DelegationListings.OtherwiseACyclePasses | apps/api-go/internal/delegation/service.go:89-103 | Whenever some citizen has two delegates, there is an order of the rows in which some new edge passes the check and closes a cycle |
| DelegationListings.ExactForEveryListIffFunctional | apps/api-go/internal/delegation/service.go:167-181 | Of a bare acyclic graph: the check is right on every list of its edges if and only if each delegator has one edge |
| DelegationCycles.CheckDecidesCycles | apps/api-go/internal/delegation/service.go:167-181 | With at most one active edge per delegator the check is true exactly when the new edge would close a cycle, for every listing order |
| DelegationCycles.VisibleMeansInTheChain | apps/api-go/internal/delegation/service.go:184-197 | Over one and the same listing, lying on the walk is appearing in the resolved chain |
| DelegationCycles.ChainEndsAtVoter | apps/api-go/internal/delegation/service.go:184-197 | On an acyclic graph a chain stops only at a citizen who does not delegate |
| Delegation.CreateKeepsSound | apps/api-go/internal/delegation/service.go:78-118 | An accepted creation by a delegator without an active edge to anyone else in the domain keeps every domain acyclic; renewals are included |
| Delegation.EveryRunIsAcyclic | apps/api-go/internal/delegation/service.go:78-160 | Over every run of creations, renewals, revocations and sweeps, as long as nobody delegates to two citizens in a domain, each domain is acyclic now and at every later time |
| Delegation.SweepKeepsActiveRows | apps/api-go/internal/delegation/store.go:85-100 | A sweep changes no row that is active at its own time or later |
| Delegation.SweepKeepsChains | apps/api-go/internal/delegation/store.go:85-113 | A sweep never changes what can be listed, hence resolved, at its time or later |
| Delegation.ChainIsTheDelegationPath | apps/api-go/internal/delegation/service.go:140-197 | With acyclic, single delegations the chain is the same for every listing order, a path of active edges without repetition, and ends at a voter |
| Delegation.TwoDelegationsCanHideACycle | apps/api-go/internal/delegation/service.go:89-103 | Without that premise the promise fails: a concrete table and listing in which the service accepts an edge that closes a cycle |
| DelegationStore.MemoryStore.Revoke | apps/api-go/internal/delegation/store.go:69-83 | Sets the revocation time once; a second revocation returns the same row unchanged |
| DelegationStore.MemoryStore.ExpireDue | apps/api-go/internal/delegation/store.go:85-100 | The loop, in any map order, revokes and reports exactly the due rows |
| DelegationStore.MemoryStore.ActiveDelegations | apps/api-go/internal/delegation/store.go:102-113 | Lists every active row of the domain exactly once, in some order |
| DelegationStore.Service.Create | apps/api-go/internal/delegation/service.go:78-118 | Every refusal leaves the table alone; otherwise the call is the specified creation for the listing it saw |
| DelegationStore.Service.Revoke | apps/api-go/internal/delegation/service.go:121-138 | The call is the specified revocation: by its delegator only, anything else refused without effect; what a revocation does is DelegationEffects.RevocationRevokes |
| DelegationStore.Service.ResolveChain | apps/api-go/internal/delegation/service.go:140-150 | The chain of the walk over the listing of the domain at that time |
| DelegationEffects.RevocationRevokes | apps/api-go/internal/delegation/service.go:121-138 | A non-empty caller who is the delegator gets no error and the row is out of force since now or its earlier revocation, all else in it and every other row unchanged; anyone else, or an unknown row, changes nothing |
| DelegationEffects.RevokedIsNeverListed | apps/api-go/internal/delegation/store.go:102-113 | After that call the row is in no listing of active delegations, in any domain at any time |
| DelegationEffects.RevokingEndsTheChain | apps/api-go/internal/delegation/service.go:140-150 | Without another active delegation of theirs in the domain, the citizen then resolves to themselves in every listing order |
| DelegationEffects.RevocationIsForGood | apps/api-go/internal/delegation/store.go:69-113 | ... nor after any run of further creations, revocations and sweeps |
| DelegationEffects.RevokedForGood | apps/api-go/internal/delegation/store.go:21-100 | In every run no row vanishes or changes its parties, domain or end, and a revocation time, once set, stays |
| DelegationEffects.ListedExactly | apps/api-go/internal/delegation/store.go:102-113 | Listed are exactly the rows of the domain that are neither revoked nor past their end |
| DelegationEffects.SweepRevokesTheDue | apps/api-go/internal/delegation/store.go:85-100 | After a sweep no row is due: exactly those past their end and not revoked are now revoked at its time |
| DelegationEffects.CreationAdds | apps/api-go/internal/delegation/service.go:78-118 | Accepted if and only if the three references have 1 to 256 characters, the two citizens differ, the delegate is competent, the end lies ahead and the check finds no cycle; then one unrevoked row is added as asked |
| DelegationEffects.AcceptedIffNotLeadingBack | apps/api-go/internal/delegation/service.go:78-118 | With single, acyclic delegations, a well-formed creation for a competent delegate is accepted if and only if the delegate does not delegate, directly or through others, to the delegator |
| Outcome.EvaluateOutcome | apps/api-go/internal/voting/service.go:334-368 | The loop over the map in any order names a choice that wins under the rule, or nobody because nobody wins |
| Outcome.OutcomeExactly | apps/api-go/internal/voting/service.go:334-368 | An outcome in plain numbers: two thirds of all ballots under a supermajority, more than half by approval, strictly most otherwise; nobody is named exactly if nobody reaches it |
| Outcome.WinnerIsTheUniqueMaximum | apps/api-go/internal/voting/service.go:334-368 | For complete counts a decided winner is the unique strict maximum, under every method and rule |
| Outcome.OutcomeIsOrderIndependent | apps/api-go/internal/voting/service.go:334-368 | For complete counts any two iteration orders give the same winner and decision |
| Outcome.ExtraBallotForTheWinner | apps/api-go/internal/voting/service.go:334-368 | One more ballot for the winner leaves it the winner, under every method and rule |
| VotingSafety.KeyDeterminesCitizen | apps/api-go/internal/voting/store.go:149-173 | The concatenated index key determines session and citizen, session ids being free of the separator |
| VotingSafety.EveryReachableStateIsSound | apps/api-go/internal/voting/store.go:50-230 | Every run keeps the token index exact, ballots paired one-to-one with used tokens, options listed, and stored tallies equal to recounts |
| VotingSafety.OneBallotPerCitizen | apps/api-go/internal/voting/store.go:194-229 | In every sound state two ballots of one session used the tokens of two different citizens |
| VotingSafety.TurnoutIsAtMostOne | apps/api-go/internal/voting/service.go:372-433 | A session never holds more ballots than issued tokens, so the turnout certification computes lies between 0 and 1 |
| VotingSafety.StoredTallyIsTheRecount | apps/api-go/internal/voting/service.go:281-328 | A stored tally equals a recount of the ballots the session holds now, sums to their number, mentions only its own options and names the outcome the rules allow |
| VotingSafety.EveryRunIsInOrder | apps/api-go/internal/voting/store.go:149-229 | In every state a run reaches from the empty service: ballots in bijection with used tokens, two ballots of a session from two citizens, no more ballots than tokens, every stored tally a correct recount |
| VotingSafety.RecountSumsUp | apps/api-go/internal/voting/service.go:293-307 | The counts of any set of ballots add up to their number |
| VotingSafety.StepFreezes | apps/api-go/internal/voting/store.go:84-229 | No call changes the ballots, options or stored tally of a finished session |
| VotingSafety.FinishedSessionsAreFrozen | apps/api-go/internal/voting/store.go:84-229 | The same over every run: once closed, ballots, options and first tally never change again |
| VotingStore.MemoryStore.UpdateSessionStatus | apps/api-go/internal/voting/store.go:84-97 | Opens only scheduled sessions inside their window, closes only open ones, certifies only closed ones; a refusal changes nothing |
| VotingStore.MemoryStore.SetTally | apps/api-go/internal/voting/store.go:99-113 | The first committed tally wins: a later one is ignored |
| VotingStore.MemoryStore.AddOption | apps/api-go/internal/voting/store.go:115-130 | Options join scheduled sessions only, indexed under their session |
| VotingStore.MemoryStore.IssueToken | apps/api-go/internal/voting/store.go:149-173 | One token per session and citizen: what is returned is a known token of exactly that session and citizen, new or not |
| VotingStore.KeyLeadsToItsToken | apps/api-go/internal/voting/store.go:149-173 | An indexed key leads to the token of exactly its session and citizen |
| VotingStore.MemoryStore.CastBallot | apps/api-go/internal/voting/store.go:194-229 | Session and window, token, citizen, single use and blind are checked in order, for any input; success uses the token and adds one ballot |
| VotingStore.MemoryStore.FindBallotByVerification | apps/api-go/internal/voting/store.go:232-242 | Finds a ballot with the code exactly when there is one |
| VotingStore.MemoryStore.BallotsForSession | apps/api-go/internal/voting/store.go:244-255 | Exactly the ballots of the session, each once, in some order |
| VotingStore.CountChoices | apps/api-go/internal/voting/service.go:293-307 | The counting loop gives the recount of the ballots, or fails, which it does exactly when one of them names an unknown option |
| VotingStore.GroupedIsRecount | apps/api-go/internal/voting/service.go:293-307 | Counting one ballot after the other, in whatever order they are listed, gives the recount |
| VotingStore.Service.TryOpen | apps/api-go/internal/voting/service.go:170-192 | Opens exactly the scheduled, cooled-off sessions whose window has begun |
| VotingStore.Service.TryClose | apps/api-go/internal/voting/service.go:194-213 | Closes exactly the open sessions whose window has ended |
| VotingStore.Service.IssueTokens | apps/api-go/internal/voting/service.go:215-236 | Issues citizen by citizen, reusing existing tokens; the first empty id stops the batch and keeps the tokens issued by then |
| VotingStore.Service.CastBallot | apps/api-go/internal/voting/service.go:239-266 | Refuses missing or oversized input before the store is asked; the choice is only required to be given and not too long |
| VotingSpoilt.TalliesIffAllNameOptions | apps/api-go/internal/voting/service.go:281-330 | A finished, untallied session can be tallied if and only if each of its ballots names one of its options; a refusal changes nothing |
| VotingSpoilt.SpoiltForGood | apps/api-go/internal/voting/service.go:281-330 | Closed and untallied with a ballot that names no option, a session stays so over every run: tallying and certifying it are refused ever after |
| VotingSpoilt.AnyChoiceIsAccepted | apps/api-go/internal/voting/service.go:249-254 | A ballot that is accepted is accepted with any other choice of admissible length |
| VotingSpoilt.OneBallotSpoils | apps/api-go/internal/voting/service.go:239-266 | So one accepted ballot that names no option leaves its session spoilt when it closes |
| VotingSpoilt.CheckedRunsCanBeTallied | apps/api-go/internal/voting/service.go:239-330 | Over every run in which each cast is checked to name an option of its session, every finished session can be tallied |
| VotingStore.Service.Tally | apps/api-go/internal/voting/service.go:281-328 | Counting in any order stores the one tally of the session, once |
| VotingStore.Service.Certify | apps/api-go/internal/voting/service.go:372-433 | The call is the specified certification, whatever the order of rows and counts; whom it certifies is VotingEffects.CertifiedIffQuorate |
| VotingStore.TallyIsUnique | apps/api-go/internal/voting/service.go:281-328 | However ballots were listed and counts walked, the resulting tally is the session's |
| VotingEffects.CertifiedIffQuorate | apps/api-go/internal/voting/service.go:372-433 | A closed session that can be counted is certified if and only if ballots are at least the minimum share of the tokens issued, or there are no tokens and the minimum is 0; otherwise it stays closed; its tally is stored either way. One that cannot be counted is refused unchanged |
| VotingEffects.OnlyClosedSessionsAreCertified | apps/api-go/internal/voting/service.go:372-385 | In any other status certification changes nothing |
| VotingEffects.EveryCertifiedSessionWasQuorate | apps/api-go/internal/voting/service.go:372-433 | In every run a certified session was closed, countable and had that turnout at the call that certified it |
| VotingEffects.TalliedExactly | apps/api-go/internal/voting/service.go:281-330 | Tallied if and only if over and countable, which else is an error; a tally that is there stays |
| VotingEffects.OpensExactly | apps/api-go/internal/voting/service.go:170-192 | Opens if and only if scheduled, cooled off and in its window by both clock readings |
| VotingEffects.ClosesExactly | apps/api-go/internal/voting/service.go:194-213 | Closes if and only if open and past its window |
| VotingEffects.CreatesExactly | apps/api-go/internal/voting/service.go:131-160 | Created if and only if proposal and jurisdiction are named within 256 characters, the minimum is a share and the window lasts |
| VotingEffects.OptionJoinsExactly | apps/api-go/internal/voting/store.go:115-130 | Added if and only if the session is scheduled and the texts are within bounds; to that session's options alone |
| VotingEffects.BallotCountsExactly | apps/api-go/internal/voting/service.go:239-266 | Accepted if and only if the session is open in its window, the input within its bounds, and the token unused, of that session and citizen and with that blind; then one ballot is added and that token used up, nothing else |
| VotingEffects.BallotIsRefusedFor | apps/api-go/internal/voting/service.go:239-266 | Which refusal applies when: a conflict for a used token, not found for one of another session or an unknown session, a state error outside the window |
| VotingEffects.EveryoneInTheBatchHasAToken | apps/api-go/internal/voting/service.go:215-236 | After a batch without empty ids everyone in it has a token of the session, and every earlier token is as it was |
| VotingEffects.BatchStopsAtAnEmptyId | apps/api-go/internal/voting/service.go:215-236 | At the first empty id the batch ends with an error and the tokens of exactly those before it |
| JurisdictionTree.BuildJurisdictionTree | apps/api-ts/src/jurisdiction/jurisdiction.service.ts:15-32 | For every list, duplicates and cycles included: one fresh node per id carrying its last row, hung under its parent's node if there is one and among the roots otherwise, in input order |
| JurisdictionOrder.OrderIgnoredIffOneRowThroughout | apps/api-ts/src/jurisdiction/jurisdiction.service.ts:15-32 | Every order of the rows gives the same forest, up to the order of siblings and roots, if and only if each id that occurs in the forest has one row |
| JurisdictionOrder.BuildIsReadAsForest | apps/api-ts/src/jurisdiction/jurisdiction.service.ts:15-32 | What the nodes of a build are read back as is exactly this forest of the rows, duplicate ids included |
| JurisdictionOrder.Rebuilt | apps/api-ts/src/jurisdiction/jurisdiction.service.ts:15-32 | If one order of the rows gives a finite forest, so does every other |
| JurisdictionOrder.ForestIgnoresInputOrder | apps/api-ts/src/jurisdiction/jurisdiction.service.ts:15-32 | Two builds from the same rows in different orders, one row for every id in the first forest, are read back as forests equal up to the order of siblings and roots |
| JurisdictionOrder.BuildsShowTheOrder | apps/api-ts/src/jurisdiction/jurisdiction.service.ts:15-32 | Two builds are read back as different forests whenever the second carries another row for an id in the first |
| JurisdictionOrder.NodesIgnoreOrderIffOneRowPerId | apps/api-ts/src/jurisdiction/jurisdiction.service.ts:15-32 | The nodes carry the same rows in every input order if and only if no two different rows share an id |
| JurisdictionOrder.DuplicateIdsDependOnOrder | apps/api-ts/src/jurisdiction/jurisdiction.service.ts:16-19 | Any two different roots sharing an id give different forests in the two orders: the later row twice, the earlier never |
| JurisdictionRows.AllRootedIffAcyclic | apps/api-ts/src/jurisdiction/jurisdiction.service.ts:15-32 | Every chain of parents ends exactly when nobody is its own ancestor |
| JurisdictionForest.ForestHoldsTheRootedRows | apps/api-ts/src/jurisdiction/jurisdiction.service.ts:15-32 | With distinct ids the heap structure reads back as a forest holding exactly the rows whose chain of parents ends, each once |
| JurisdictionForest.NothingLostIffAcyclic | apps/api-ts/src/jurisdiction/jurisdiction.service.ts:15-32 | The forest is a permutation of the input if and only if no row is its own ancestor |
| EligibilityPaging.PageIsTheNextSlice | apps/api-ts/src/jurisdiction/jurisdiction.service.ts:101-119 | A page is the next 500 of the roster after the cursor, with a cursor exactly when more follow |
| EligibilityPaging.CursorsListEveryoneOnce | apps/api-ts/src/jurisdiction/jurisdiction.service.ts:101-119 | Following the cursors lists the roster in order without gap or repetition, and they end exactly when all are listed |
| EligibilityPaging.ZeroIdIsNeverListed | apps/api-ts/src/jurisdiction/jurisdiction.service.ts:112-117 | A citizen whose id equals the default cursor is on no page |
| Auth.StepKeeps | apps/api-go/internal/auth/store.go:49-211 | Every service call keeps the access and refresh indexes exact and retired hashes disjoint from current ones |
| AuthRuns.EveryReachableStateIsSound | apps/api-go/internal/auth/store.go:49-211 | The same in every reachable state, given fresh tokens: no lookup dangles |
| AuthRuns.RetiredIsRefused | apps/api-go/internal/auth/service.go:170-215 | A retired refresh token is refused, and flagged as reuse exactly when it was retired, without any effect |
| AuthRuns.HonouredAtMostOnce | apps/api-go/internal/auth/service.go:170-215 | After a refresh token has been honoured once, every later presentation in any run is refused as reuse |
| AuthRuns.RevokedIsForever | apps/api-go/internal/auth/store.go:122-211 | A revoked session is never reactivated, suspended or purged in any run |
| AuthRuns.RevokeAllEndsEverySession | apps/api-go/internal/auth/service.go:272-284 | After revoking all of a citizen's sessions, no token whatever, past or present, gets any of them validated or refreshed at any later point of a run |
| AuthRuns.ValidatedTierIsCurrent | apps/api-go/internal/auth/service.go:237-257 | A validated session shows T3 only within 5 minutes and T2 only within 12 hours of the second factor |
| AuthRuns.RefreshNeverRaisesTheTier | apps/api-go/internal/auth/service.go:186-205 | No session leaves a refresh at T3, and none gains assurance by it |
| AuthStore.MemoryStore.RotateRefresh | apps/api-go/internal/auth/store.go:102-120 | Swaps both hashes in the session and both indexes and retires the old refresh hash |
| AuthStore.MemoryStore.RotateAccess | apps/api-go/internal/auth/store.go:149-162 | Swaps the access hash in session and index, nothing else |
| AuthStore.MemoryStore.RevokeAll | apps/api-go/internal/auth/store.go:166-178 | Revokes every session of the citizen, whatever the map order, and counts those that were not revoked before |
| AuthStore.MemoryStore.PurgeExpired | apps/api-go/internal/auth/store.go:195-211 | Removes exactly the long-expired sessions that were not revoked, with both their index entries, and counts them |
| AuthStore.Service.IssueSession | apps/api-go/internal/auth/service.go:113-166 | New sessions start at T1 for active citizens; every refusal leaves the tables alone |
| AuthStore.Service.Refresh | apps/api-go/internal/auth/service.go:170-215 | The call is the specified refresh, in the tables and the answer; whom it serves is AuthEffects.RefreshBindsThePlace |
| AuthStore.Service.Logout | apps/api-go/internal/auth/service.go:219-233 | Revokes the session behind the access token |
| AuthStore.Service.Validate | apps/api-go/internal/auth/service.go:237-257 | Read-only: an active, unexpired session of an active citizen with its tier lowered as time demands |
| AuthEffects.RefreshBindsThePlace | apps/api-go/internal/auth/service.go:170-193 | Rotated if and only if the hash leads to an active, unexpired session of an active citizen and device and subnet are the session's; suspended if and only if all that holds but device or subnet differs |
| AuthEffects.RotationSwapsTokens | apps/api-go/internal/auth/service.go:194-215 | A rotation installs the new tokens for 15 minutes of access, retires the old refresh token and lets the tier drop at most to what time allows |
| AuthEffects.SuspensionSuspends | apps/api-go/internal/auth/service.go:190-193 | A suspension changes the status of that session and nothing else, and hands out nothing |
| AuthEffects.OtherwiseRefused | apps/api-go/internal/auth/service.go:170-189 | Whatever leads to no such session is refused without effect |
| AuthEffects.SuspendedForGood | apps/api-go/internal/auth/service.go:258-268 | In every run, a session once presented from another device or subnet is never again validated or refreshed, whatever is presented |
| AuthEffects.InactiveForGood | apps/api-go/internal/auth/service.go:170-257 | The same of every session that is not active, or is gone |
| AuthEffects.ValidatedExactly | apps/api-go/internal/auth/service.go:237-257 | Validated if and only if the token leads to an active session of an active citizen within its access time; T3 for 5 minutes and T2 for 12 hours after the second factor |
| AuthEffects.StepUpSwapsAccess | apps/api-go/internal/auth/store.go:149-162 | A step-up gives one session a new access token for 15 minutes in place of the old, and nothing else changes |
| AuthEffects.HighestTierLastsFiveMinutes | apps/api-go/internal/auth/store.go:134-145 | A session raised to T3 validates at T3 for 5 minutes after it, and at T1 later |
| AuthEffects.PurgeKeepsExactly | apps/api-go/internal/auth/store.go:195-211 | Kept are exactly the revoked sessions and those not a day past their end, with exactly their tokens indexed |
| AuthEffects.RevokeAllRevokesExactly | apps/api-go/internal/auth/store.go:166-178 | Each session of the citizen is revoked, and no other has changed |
| AuthEffects.LogoutRevokes | apps/api-go/internal/auth/service.go:219-233 | The session behind the token is revoked and nothing else changes; an unknown token changes nothing |
| AuthEffects.LoginOpensExactly | apps/api-go/internal/auth/service.go:113-166 | A session opens if and only if an active citizen logs in with a device: T1, 15 minutes of access, 30 days in all |
| MfaWindow.WindowIsTheLastTenMinutes | apps/api-go/internal/auth/store.go:272-285 | With a clock that never goes back, the pruned window equals the failures of the last ten minutes of the whole history |
| MfaWindow.RecentTwice | apps/api-go/internal/auth/store.go:272-285 | Pruning early and again later is pruning later |
| MfaWindow.TripsAtTheFifth | apps/api-go/internal/auth/store.go:272-285 | The window is the suffix of the history within 600 seconds, and trips if and only if the fifth last failure lies in it |
| MfaWindow.Failures.Compact | apps/api-go/internal/auth/store.go:275-281 | The in-place filter over the front of the array it reads keeps exactly the recent times |
| MfaWindow.Failures.RecordMFAFailure | apps/api-go/internal/auth/store.go:272-285 | The window after a failure, and a trip exactly at five |
| ReplayGuard.AcceptedAgainIffThePurgeOvertakesIt | apps/api-go/internal/security/http.go:46-72 | A request accepted before is accepted again if and only if it still passes the first checks, there is room, and the clock read during the purge has passed its expiry |
| ReplayGuard.OneReadingIsPunctual | apps/api-go/internal/security/http.go:97-125 | With one clock reading per request that never happens |
| GuardEffects.AcceptedExactly | apps/api-go/internal/security/http.go:97-125 | Accepted if and only if meant for this service, dated within 5 minutes of now either way, with a 32-character nonce, a fitting body and the right signature, not remembered unexpired, and fewer than 10000 are; then remembered until 5 minutes after its date |
| GuardEffects.RefusedExactly | apps/api-go/internal/security/http.go:97-125 | Which refusal applies when, and that only a replay gets as far as the purge |
| ReplayGuard.EveryRunRemembers | apps/api-go/internal/security/http.go:46-72 | In every run with a clock that never goes back, accepted requests stay remembered while valid, and the map holds at most 10000 |
| ReplayGuard.NoRequestIsAcceptedTwice | apps/api-go/internal/security/http.go:97-125 | In every run that reads the clock once per request, no request is accepted twice |
| ReplayGuard.AcceptedAtMostOnce | apps/api-go/internal/security/http.go:97-125 | Over any run, however often the clock is read, no later arrival whose purge does not overtake its validity is accepted again |
| ReplayGuard.PayloadDeterminesRequest | apps/api-go/internal/security/http.go:74-80 | The newline-joined payload that is signed determines every field of the request |
| ReplayGuard.KeyDeterminesRequest | apps/api-go/internal/security/http.go:118-122 | Requests remembered under one key are one request, given digests without collisions |
| ReplayGuard.SomeSchemeIsCollisionFree | apps/api-go/internal/security/http.go:74-80 | That premise can be met |
| ReplayGuard.SomeRunAcceptsAndRefuses | apps/api-go/internal/security/http.go:97-125 | A run as the theorems assume it, in which a request is accepted and its repetition refused |
| ReplayGuard.SlowReplayIsAccepted | apps/api-go/internal/security/http.go:46-72 | With the two readings the code takes, a concrete replay is accepted |
| ReplayStore.Store.Claim | apps/api-go/internal/security/http.go:46-72 | The purge loop in any map order, then the claim, on the store's map; never more than 10000 entries |
| RateLimit.RequestKeepsBounds | apps/api-go/internal/security/http.go:174-211 | At most 10000 peers are tracked and at most 120 requests admitted per window |
| GuardEffects.AdmittedExactly | apps/api-go/internal/security/http.go:183-206 | Admitted if and only if the peer's window has admitted fewer than 120, or it has none and fewer than 10000 peers have one; a window lasts 60 seconds, and only this peer's changes |
| RateLimit.LessThanTwiceTheLimitPerMinute | apps/api-go/internal/security/http.go:174-211 | In every run at most 239 requests of a peer are admitted in any 60-second interval, wherever it lies |
| RateLimit.TwoWindowsButOneAreReached | apps/api-go/internal/security/http.go:174-211 | A run from the empty table in which 239 requests of a peer are admitted within 60 seconds |
| RateLimit.EveryRunIsBounded | apps/api-go/internal/security/http.go:174-211 | The bounds hold in every reachable table |
| RateLimit.NextWindowOpensRightAfter | apps/api-go/internal/security/http.go:174-211 | A full window blocks to its end and the next tick admits again |
| RateLimit.Limiter.Admit | apps/api-go/internal/security/http.go:183-206 | The purge loop in any order, then the admission decision |
| AuditLog.PreimageDeterminesFields | apps/api-go/internal/audit/domain.go:172-174 | The newline-joined preimage determines all four fields, whatever line breaks the actor holds |
| AuditLog.ActionTypesMustBeOneLine | apps/api-go/internal/audit/domain.go:135-174 | Why action types are restricted: a line break in one could move into the actor unnoticed |
| AuditLog.VerifyChain | apps/api-go/internal/audit/store.go:119-133 | True if and only if every entry is linked, hashed and signed; otherwise the least broken index |
| AuditEffects.VerifiesExactly | apps/api-go/internal/audit/store.go:119-133 | Intact means of every entry: the payload hash before it, or GENESIS, the digest of its four fields, a valid signature |
| AuditLog.PrefixIntact | apps/api-go/internal/audit/store.go:119-133 | Every prefix of an intact log verifies |
| AuditLog.AppendKeepsIntact | apps/api-go/internal/audit/store.go:45-81 | Appending, repeated keys included, keeps the log intact |
| AuditLog.SomeCryptoFits | apps/api-go/internal/audit/domain.go:166-174 | The premises on digests and signatures can be met together |
| AuditLog.HashBindsTheEntry | apps/api-go/internal/audit/domain.go:171-174 | In intact, well-formed logs, equal hashes at a place if and only if equal action, actor and payload hash there and equal payload hash before |
| AuditLog.LinkDoesNotBindTheActorBefore | apps/api-go/internal/audit/domain.go:171-174 | It binds no more: in any intact log the action and actor of any entry can be replaced, that entry hashed and signed anew, with every other entry as it was and the log intact |
| AuditLog.NormalizedIsOneWord | apps/api-go/internal/audit/domain.go:146-153 | Normalised verbs are enumerated one-line words, and normalising twice changes nothing |
| AuditConsumer.ExactlyOnce | apps/api-go/internal/audit/consumer.go:55-75 | Whatever is redelivered, posted, invalid or refused in between, the log holds one entry per append without a key and per first good delivery of a key, in order |
| AuditConsumer.SameLogWithoutTheRest | apps/api-go/internal/audit/consumer.go:55-75 | Delivering only the first good occurrences gives the same log, entry for entry |
| AuditConsumer.FirstGoodHasNoRepeats | apps/api-go/internal/audit/consumer.go:55-75 | No key is logged twice |
| AuditConsumer.NoGoodKeyIsMissing | apps/api-go/internal/audit/consumer.go:55-75 | The keys that are logged are exactly those something good was delivered under |
| AuditConsumer.LoggedIffKeyIsFree | apps/api-go/internal/audit/handlers.go:63-87 | A good event or post is logged if and only if it has no key or nothing good came under its key before; otherwise it leaves no trace, so an event is lost exactly if a post has used its key |
| AuditEffects.NormalizedExactly | apps/api-go/internal/audit/domain.go:35-45 | The seven actions, and the eight verbs that become one of two of them, and no others |
| AuditEffects.AcceptableExactly | apps/api-go/internal/audit/service.go:61-68 | A known verb other than a ballot, sizes in bounds, and none of three texts anywhere in the payload whatever its case |
| AuditEffects.GoodExactly | apps/api-go/internal/audit/consumer.go:66-70 | Taken are exactly what api-go signed, with an id, and what a service may post in that name, if admissible |
| AuditEffects.EventIsLoggedExactly | apps/api-go/internal/audit/consumer.go:55-75 | An event that is taken under a new key becomes the newest entry, linked, hashed and signed; any other leaves the log alone |
| AuditEffects.PostIsLoggedExactly | apps/api-go/internal/audit/handlers.go:63-87 | ... and so does a post, without a key always |
| AuditConsumer.KeyTellsEventsApart | apps/api-go/internal/audit/consumer.go:66-70 | For a fixed producer, different event ids give different keys |
| AuditConsumer.LogAlwaysVerifies | apps/api-go/internal/audit/consumer.go:55-75 | After any deliveries the log passes verification |
| AuditConsumer.LogIsWellFormed | apps/api-go/internal/audit/consumer.go:55-75 | After any deliveries every entry is well formed: one-line action and hashes |
| AuditConsumer.HashesBindWhateverWasDelivered | apps/api-go/internal/audit/consumer.go:55-75 | In the logs of any two histories of deliveries, equal hashes at a place if and only if equal records after equal payloads |
| AuditEffects.OwnIsLoggedExactly | apps/api-go/internal/audit/service.go:61-74 | The service's own append of an enumerated action always becomes the newest entry |
| AuditStore.MemoryStore.Append | apps/api-go/internal/audit/store.go:45-81 | A known key returns its entry without effect; otherwise one linked, hashed, signed entry is added |
| AuditStore.MemoryStore.ListEntries | apps/api-go/internal/audit/store.go:96-109 | The oldest entries up to the limit, all of them when the limit is not positive |
| AuditStore.Service.Append | apps/api-go/internal/audit/service.go:61-72 | Refuses exactly the unacceptable input, without effect |
| AuditStore.Service.Handle | apps/api-go/internal/audit/consumer.go:55-75 | Validate, drop or append, as specified, for every delivery |
| AuditStore.Service.Post | apps/api-go/internal/audit/handlers.go:63-87 | Who may post is checked before what: accepts exactly the good posts, and appends as specified |
| Governance.TargetInvertsActionRef | apps/api-ts/src/identity/identity-revocation.service.ts:18-20 | Reading the citizen back from an action reference inverts writing it, exactly for non-empty one-line ids |
| Governance.OpensInSomeOrderIff | apps/api-ts/src/governance-role/governance-role.service.ts:156-173 | The gate opens for some row order if and only if some two approvals qualify |
| Governance.OpensInEveryOrderIff | apps/api-ts/src/governance-role/governance-role.service.ts:156-173 | It opens for every row order if and only if both kinds are present and every such two qualify: in between the answer depends on row order |
| RevocationRuns.SameTableBothAnswers | apps/api-ts/src/governance-role/governance-role.service.ts:156-173 | A run from the empty tables after which the same three approvals open the gate in one order and not in another |
| RevocationRuns.NobodyIsRevokedWithoutTwoOthers | apps/api-ts/src/identity/identity-revocation.service.ts:67-97 | In every run a revoked citizen has an approved audit confirmation and an approved body endorsement of their own action from two different other citizens in different role types |
| RevocationRuns.ApprovalsStayIndependent | apps/api-ts/src/governance-role/governance-role.service.ts:81-146 | In every run nobody approves an action twice, in whatever roles, or approves their own revocation |
| RevocationRuns.RevokedForGood | apps/api-ts/src/identity/identity-revocation.service.ts:67-97 | Revocation is final in every run |
| GovernanceEffects.SubmissionAddsOneRow | apps/api-ts/src/governance-role/governance-role.service.ts:81-146 | Taken if and only if from an active citizen, not about themselves, with a role in the layer of the kind in term, who has not approved the action; one row is added, in such a role |
| GovernanceEffects.GateIsOpenExactly | apps/api-ts/src/governance-role/governance-role.service.ts:156-173 | Open if and only if the first audit confirmation and the first body endorsement come from two citizens in two role types |
| GovernanceEffects.ExecutionRevokes | apps/api-ts/src/identity/identity-revocation.service.ts:67-97 | Executed if and only if the revocation is known and not executed, the gate open and the citizen known; the citizen is then revoked and the revocation executed, nothing else |
| GovernanceEffects.OnlyTheOpenGateRevokes | apps/api-ts/src/identity/identity-revocation.service.ts:67-97 | Of all calls, exactly the execution of a citizen's own open revocation through the open gate revokes the citizen |
| GovernanceEffects.ExecutedOnce | apps/api-ts/src/identity/identity-revocation.service.ts:67-97 | In every run a revocation is executed at most once |
| GovernanceEffects.RequestOpensOne | apps/api-ts/src/identity/identity-revocation.service.ts:40-65 | Opened if and only if an operator asks about a known, unrevoked citizen without a revocation |
| GovernanceService.Database.FindActiveRole | apps/api-ts/src/governance-role/governance-role.service.ts:230-238 | Some role of the citizen in the layer and in term, or none when there is none |
| GovernanceService.Database.AlreadyApproved | apps/api-ts/src/governance-role/governance-role.service.ts:111-131 | True exactly when some recorded approval of the action came from a role the citizen ever held |
| GovernanceService.Database.SubmitApproval | apps/api-ts/src/governance-role/governance-role.service.ts:81-146 | Inserts one approval in the role found, or refuses without effect |
| GovernanceService.Database.CheckFullyApproved | apps/api-ts/src/governance-role/governance-role.service.ts:156-173 | The gate as specified, on the first row of either kind |
| GovernanceService.Database.RequestRevocation | apps/api-ts/src/identity/identity-revocation.service.ts:40-65 | Opens at most one revocation per citizen |
| GovernanceService.Database.ExecuteRevocation | apps/api-ts/src/identity/identity-revocation.service.ts:67-97 | Marks revocation and citizen together, only through the open gate |
| ProtocolApprovals.ChosenAreIndependent | apps/api-ts/src/governance-role/governance-role.service.ts:175-201 | What is picked is eligible, one of each kind, from three different citizens in three different role types |
| GovernanceEffects.PickedAreThree | apps/api-ts/src/governance-role/governance-role.service.ts:175-201 | What is sent are a citizen, an audit and a protocol approval out of the first hundred rows, each by an active citizen in term in that layer, of three citizens and role types, under their names |
| ProtocolApprovals.PickApprovals | apps/api-ts/src/governance-role/governance-role.service.ts:175-201 | The loop sends exactly the first-fit choice, or refuses when there is none |
| ProtocolApprovals.FirstFitCanMiss | apps/api-ts/src/governance-role/governance-role.service.ts:183-198 | First fit is not complete: a concrete table of approvals with a valid choice that is refused |
| ProtocolApprovals.StuckAfterTheFirst | apps/api-ts/src/governance-role/governance-role.service.ts:183-198 | The family behind it: once the first citizen row shares its role type with every audit row nothing is picked |
| ProtocolOrders.FitsIffIndependent | apps/api-ts/src/governance-role/governance-role.service.ts:184-189 | A row fits after what was picked if and only if picking it keeps the choice independent |
| ProtocolOrders.SucceedsInSomeOrderIff | apps/api-ts/src/governance-role/governance-role.service.ts:175-201 | The choice, from the hundred rows read, succeeds for some row order if and only if three independent approvals are among all rows |
| ProtocolOrders.SucceedsInEveryOrderIff | apps/api-ts/src/governance-role/governance-role.service.ts:175-201 | It succeeds for every row order if and only if, after every independent beginning, fewer rows are unfit to come next than are read |
| ProtocolOrders.FewerUnfitIffOneFits | apps/api-ts/src/governance-role/governance-role.service.ts:175-201 | As long as all rows are read, that is that every independent beginning has a continuation |
| ProtocolApprovals.CheckApprovals | apps/api-go/internal/audit/approvals_http.go:33-49 | Accepts exactly the lists with three required, pairwise different references and actors |
| ProtocolApprovals.ValidCoversRequired | apps/api-go/internal/audit/approvals_http.go:33-49 | An accepted list covers all three required approvals |
| ProtocolApprovals.SentIsValid | apps/api-go/internal/audit/approvals_http.go:33-49 | Every list the governance service picks is accepted by the audit service |
| ProtocolGate.EveryReleaseIsRight | apps/api-go/internal/audit/handlers.go:283-310 | In every run a released change was released at least 24 hours after it became visible, on three valid approvals |
| ProtocolGate.ReleasedOnce | apps/api-go/internal/audit/store.go:228-240 | A released change never changes again, its release time included, and every later release fails |
| ProtocolGate.PickedApprovalsRelease | apps/api-go/internal/audit/handlers.go:233-310 | End to end: a change opened by the handler, whatever is called in between, is released after its day if it has not been yet, on whatever list the other service picks |
| GateEffects.RegisteredExactly | apps/api-go/internal/audit/service.go:148-171 | Registered if and only if named within 256 characters, with visibility, delay and distinct, non-empty requirements; unreleased, without approvals |
| GateEffects.RecordedExactly | apps/api-go/internal/audit/service.go:174-195 | Recorded if and only if both names are given and the change is known, unreleased and without that reference |
| GateEffects.ReleasedExactly | apps/api-go/internal/audit/service.go:198-230 | Released if and only if known, unreleased, with an approval for each requirement, past its delay and visible |
| GateEffects.HandlerReleasesExactly | apps/api-go/internal/audit/handlers.go:283-310 | Released if and only if moreover of the handler's shape (three requirements, a day's delay, visible within a second of creation) and the approvals fetched now are one of each kind from three people; those replace the recorded ones |
| GateService.Service.RegisterChange | apps/api-go/internal/audit/service.go:148-171 | Registers exactly the well-formed inputs without duplicate or empty references |
| GateService.Service.RecordApproval | apps/api-go/internal/audit/service.go:174-195 | Adds one approval, refusing repeats, unknown and released changes |
| GateService.Service.ReleaseChange | apps/api-go/internal/audit/service.go:198-230 | Releases exactly when unreleased, complete, past its delay and visible |
| GateService.Service.HandleRelease | apps/api-go/internal/audit/handlers.go:283-310 | Trusted policy, freshly fetched approvals stored first, then release |
| Proposals.RoundedIsNearest | apps/api-ts/src/proposal/proposal.service.ts:40-49 | The rounded share is the nearest integer, ties upwards, and nothing else is |
| ProposalEffects.ThresholdExactly | apps/api-ts/src/proposal/proposal.service.ts:40-49 | The threshold is the whole number nearest to the share of the population, the larger of two, raised to the minimum, cut to the maximum |
| Proposals.ThresholdIsClamped | apps/api-ts/src/proposal/proposal.service.ts:40-49 | The cap beats the floor, the floor beats the share, and a larger population never lowers the threshold |
| ProposalRuns.CallKeeps | apps/api-ts/src/proposal/proposal.service.ts:80-455 | Every call of the proposal and deadlock services keeps marks, links, histories and projects consistent |
| ProposalRuns.MarkSaysWhetherAChallengeIsOpen | apps/api-ts/src/proposal/proposal.service.ts:178-241 | In every reachable state the challenge mark is set exactly while a challenge is open |
| ProposalRuns.OnlyTheGateOpensTheVote | apps/api-ts/src/proposal/proposal.service.ts:264-304 | A call moves a proposal into voting if and only if its active author advances it from development, undeadlocked, scoped, unchallenged and cleared |
| ProposalRuns.EveryVotePassedTheGate | apps/api-ts/src/proposal/proposal.service.ts:264-304 | In every run a proposal in voting passed that gate at an earlier call and has been in voting since |
| ProposalRuns.ContentIsFrozenForGood | apps/api-ts/src/proposal/proposal.service.ts:113-157 | In every run, once a proposal leaves the editable statuses its details, constraints and budget never change and it never becomes editable again |
| ProposalRuns.HistoryIsWholePasses | apps/api-ts/src/proposal/deadlock.service.ts:56-118 | In every reachable state the deadlock history is complete passes of the eight stages, the final decision twice, then a prefix up to the current stage |
| ProposalRuns.WhatMovesADeadlockedProposal | apps/api-ts/src/proposal/proposal.service.ts:270-274 | A deadlocked proposal changes status if and only if it is concluded otherwise, its support crosses the threshold, or its certified result arrives |
| ProposalRuns.DeadlockDoesNotHoldTheStatus | apps/api-ts/src/proposal/proposal.service.ts:429-441 | A concrete run without any conclusion in which a deadlocked proposal changes status |
| ProposalRuns.ProjectsStay | apps/api-ts/src/journey/journey.service.ts:147-178 | In every run a project keeps the election that certified it, and no election stands behind two projects |
| ProposalRuns.RecomputeLeavesNobodyWaiting | apps/api-ts/src/proposal/proposal.service.ts:429-441 | After a recount no linked proposal still gathers support it has; others are untouched; recounting twice changes nothing |
| ProposalEffects.SomeShareIsNearest | apps/api-ts/src/proposal/proposal.service.ts:40-49 | Every population and rate has such a share, so the threshold is always determined |
| ProposalEffects.CreatedExactly | apps/api-ts/src/proposal/proposal.service.ts:80-111 | Created if and only if an active citizen names a known problem with a population: a draft in their name |
| ProposalEffects.DetailedExactly | apps/api-ts/src/proposal/proposal.service.ts:113-128 | Edited if and only if the active author edits a draft, or what gathers support or is in development; which error otherwise |
| ProposalEffects.BudgetedExactly | apps/api-ts/src/proposal/proposal.service.ts:147-159 | The given fields are replaced, all others kept |
| ProposalEffects.ConstrainedExactly | apps/api-ts/src/proposal/proposal.service.ts:130-145 | A constraint joins the end of the list, for the same callers |
| ProposalEffects.ScopedExactly | apps/api-ts/src/proposal/proposal.service.ts:199-216 | The review body assigns the scope of any known proposal, and nobody else does |
| ProposalEffects.FiledExactly | apps/api-ts/src/proposal/proposal.service.ts:178-192 | Filed if and only if an active, affected citizen challenges a proposal with a scope: an open challenge and the mark |
| ProposalEffects.ResolvedExactly | apps/api-ts/src/proposal/proposal.service.ts:218-241 | Resolved if and only if the review body decides an open challenge; the mark goes exactly with the last open one |
| ProposalEffects.AdvancedExactly | apps/api-ts/src/proposal/proposal.service.ts:264-304 | A draft to gathering support, and development to voting when scoped, unchallenged and cleared, by the active author and not in deadlock; nothing else |
| ProposalEffects.RecountedExactly | apps/api-ts/src/proposal/proposal.service.ts:429-441 | Each proposal of the problem gets the count, and those gathering support with enough of it develop; no other changes |
| ProposalEffects.CertifiedExactly | apps/api-ts/src/journey/journey.service.ts:147-178 | Taken up if and only if the checks pass, the proposal is in voting or approved and neither it nor the election has another counterpart; once |
| ProposalEffects.EnteredExactly | apps/api-ts/src/proposal/deadlock.service.ts:56-73 | Entered if and only if a reviewer asks for a known proposal not on the track; at the first stage, noted |
| ProposalEffects.MovedOnExactly | apps/api-ts/src/proposal/deadlock.service.ts:76-95 | Moved on if and only if a reviewer with notes asks at any stage but the last; to the next of the eight, noted |
| ProposalEffects.ConcludedExactly | apps/api-ts/src/proposal/deadlock.service.ts:99-118 | Concluded if and only if a reviewer asks at the last stage: approved or rejected as decided, and off the track |
| ProposalService.Database.CountOpen | apps/api-ts/src/proposal/proposal.service.ts:235 | The count is positive exactly when a challenge is open |
| ProposalService.Database.FileScopeChallenge | apps/api-ts/src/proposal/proposal.service.ts:178-192 | Challenge row and mark together, or a refusal without effect |
| ProposalService.Database.ResolveScopeChallenge | apps/api-ts/src/proposal/proposal.service.ts:218-241 | Resolves once; clears the mark exactly when none is left open |
| ProposalService.Database.Advance | apps/api-ts/src/proposal/proposal.service.ts:264-304 | The author's transition with all its gates, as specified |
| ProposalService.Database.RecomputeSupportForProblem | apps/api-ts/src/proposal/proposal.service.ts:429-441 | The row loop in any order gives every linked proposal the new count and moves exactly those that reached their threshold |
| ProposalService.Database.Reconcile | apps/api-ts/src/journey/journey.service.ts:147-178 | Approves and opens the project once; repetition changes nothing, another election conflicts |
| ProposalService.Database.EnterDeadlock | apps/api-ts/src/proposal/deadlock.service.ts:56-73 | Enters once, writing the first stage |
| ProposalService.Database.AdvanceDeadlock | apps/api-ts/src/proposal/deadlock.service.ts:76-95 | Moves one stage on, writing it, only with notes and an assignment |
| ProposalService.Database.ConcludeDeadlock | apps/api-ts/src/proposal/deadlock.service.ts:99-118 | Leaves the track from its last stage with an outcome |
| Iam.CoversExactly | apps/api-ts/src/iam/iam.service.ts:413-416 | A starred entry covers exactly the values with its prefix, any other only itself |
| Iam.CompositeConditionsNeverHold | apps/api-ts/src/iam/iam.service.ts:418-423 | A condition with an array or object value can never be met |
| Iam.MatchingIsMonotone | apps/api-ts/src/iam/iam.service.ts:418-423 | Fewer conditions or a richer context never match less |
| Iam.PrincipalInverts | apps/api-ts/src/iam/iam.service.ts:427-430 | A citizen principal reads back as the citizen exactly for non-empty one-line ids |
| IamRuns.NoEndorsementIsEverADuplicate | apps/api-ts/src/iam/iam.service.ts:145-154 | In every reachable state a target has at most one endorsement, and the uniqueness conflict never occurs |
| IamRuns.OnlyApprovalActivates | apps/api-ts/src/iam/iam.service.ts:131-176 | A call puts a target in force if and only if it is an approval by someone other than the proposer who shares an operator role with them at that moment |
| IamRuns.ActiveWasApproved | apps/api-ts/src/iam/iam.service.ts:131-176 | In every run whatever is in force was so approved at an earlier call, in exactly its present terms |
| IamRuns.AllowRestsOnTwoApprovals | apps/api-ts/src/iam/iam.service.ts:220-264 | In every run an allowed request rests on an attachment and a policy in force, each approved that way |
| IamRuns.NothingIsRewritten | apps/api-ts/src/iam/iam.service.ts:65-86 | No run ever changes the terms or the proposer of a policy or attachment |
| IamRuns.WithdrawnForGood | apps/api-ts/src/iam/iam.service.ts:188-215 | Revocation is final in every run |
| IamRuns.RejectedForGood | apps/api-ts/src/iam/iam.service.ts:164-167 | What was rejected or revoked never comes into force |
| IamRuns.WhatWidensAccess | apps/api-ts/src/iam/iam.service.ts:131-264 | A refused request becomes allowed only by a role change, a dual-control approval or the revocation of a denial |
| IamService.Database.FindSharedRole | apps/api-ts/src/iam/iam.service.ts:301-315 | Finds a grantable role both hold, or none when there is none |
| IamService.Database.SubmitEndorsement | apps/api-ts/src/iam/iam.service.ts:131-176 | One endorsement and the status it decides, or a refusal without effect |
| IamService.Database.Revoke | apps/api-ts/src/iam/iam.service.ts:188-215 | Unilateral for the three role types, once |
| IamService.Database.Evaluate | apps/api-ts/src/iam/iam.service.ts:220-264 | In terms of the tables and the request alone, for every row order: allow if and only if an attachment in force for the principal leads to an allowing policy in force with an entry for the action, one for the resource and every condition met in the context, and none leads to a denying one; the policy named is such a one; none is named exactly when nothing matches |
| IamService.MatchedIsWhatBears | apps/api-ts/src/iam/iam.service.ts:223-253 | The policies collected are those that bear on the request, independently of row order |
| IamEffects.AllowedExactly | apps/api-ts/src/iam/iam.service.ts:220-264 | The same of the decision function every theorem over runs speaks of |
| IamEffects.WildcardIsEntry | apps/api-ts/src/iam/iam.service.ts:413-416 | A list matches if and only if an entry equals the value or is a prefix of it followed by a star |
| IamEffects.ConditionsAreMet | apps/api-ts/src/iam/iam.service.ts:418-423 | Conditions match if and only if the context has each key with that value, a scalar |
| IamEffects.NothingForTheResource | apps/api-ts/src/iam/iam.service.ts:250-252 | Where no policy in force has an entry for the resource the answer is a denial that names none |
| IamEffects.NothingForTheAction | apps/api-ts/src/iam/iam.service.ts:250-252 | ... and likewise for the action |
| IamEffects.ProposalsWait | apps/api-ts/src/iam/iam.service.ts:65-106 | What an operator proposes waits for approval in their name; an attachment needs a known policy |
| IamEffects.EndorsementDecides | apps/api-ts/src/iam/iam.service.ts:131-176 | Taken if and only if the target is pending, of somebody else who shares an operator role, and not endorsed by the same citizen; approval puts it in force, rejection rejects a policy and withdraws an attachment |
| IamEffects.RevocationWithdraws | apps/api-ts/src/iam/iam.service.ts:188-215 | Taken if and only if an operator or auditor names a target not withdrawn, which it withdraws |

## Left out

- HTTP handlers, routing and JSON decoding, other than the gate logic of the audit handlers: no state of their own.
- SQL stores, row-level security and migrations: tables are maps, transactions atomic steps.
- Message bus, TLS, WebAuthn, and the insides of SHA-256, HMAC and Ed25519: abstract functions.
- Notifications, metrics, best-effort audit emits and event records: they change no modelled state.
- Interleavings inside one call: a call that reads and then writes is one step.
- Records behind pointers are map values, since the stores hand out copies; only the jurisdiction tree and the failure window are modelled with aliasing and update in place.
- `createdAt` fields, titles, descriptions, rationales and notes are kept only where a decision reads them.
- Session, option, delegation and protocol-change listings, and filters on them: they would add only easy members.
- Constitutional rights and reviews, competency, civic duty, budget, reputation, problem and project services: mostly single-row updates.
- The production switch that blocks tallies until the ballot cryptography is in place, and the empty delegation resolver of the voting service.
- Floating point: turnout is an exact `real`, the support threshold an integer rounded half up.
- Unicode normalisation of handles is an argument of the scan.
- Methods, rules and statuses outside their enumerations, which the database and the input checks exclude.
- The action types and references that clients send beyond the length and enumeration checks of the services.
- Residency review and membership enrolment; eligibility is the roster the query selects.
- Revocation requests only ever become executed; the other statuses of that table are never written.
- The checks on the election inside the reconciliation of certified results are one argument, what they report.
- A second project for one election is answered with a conflict; the source passes the database's own error on.
- ReplayStore.Store.Claim: covers the in-memory branch; the shared external store is not part of this model.
