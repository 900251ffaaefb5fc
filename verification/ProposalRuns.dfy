/**
 What holds of every proposal in every run of the calls in `Proposals`: the voting gate, the freeze that
 follows it, the scope-challenge mark and the deadlock history.
 */
module ProposalRuns {
  import opened Wrappers
  import opened Runs
  import opened Proposals
  import opened Repetition

  datatype Call =
    | DoCreate(id: string, author: string, active: bool, problem: Option<string>, population: Option<int>, rule: SupportRule)
    | DoDetails(citizen: string, active: bool, id: string, details: Details)
    | DoConstraint(citizen: string, active: bool, id: string, text: string)
    | DoBudget(citizen: string, active: bool, id: string, fields: Budget)
    | DoFile(citizen: string, active: bool, id: string, affected: bool, challengeId: string, reason: string, now: int)
    | DoScope(reviewBody: bool, id: string, jurisdiction: string)
    | DoResolve(reviewBody: bool, challengeId: string, outcome: ChallengeStatus)
    | DoAdvance(citizen: string, active: bool, id: string, cleared: bool)
    | DoRecompute(endorsed: string, count: int)
    | DoComplete(id: string, session: string, checks: Option<Error>)
    | DoEnter(isReviewer: bool, id: string)
    | DoNextStage(isReviewer: bool, id: string, notesGiven: bool)
    | DoConclude(isReviewer: bool, id: string, approve: bool)

  /** New rows get new ids, and a resolution is one of the two outcomes. */
  predicate Premise(s: State, c: Call) {
    match c
    case DoCreate(id, _, _, _, _, _) => id !in s.proposals
    case DoFile(_, _, _, _, challengeId, _, _) => challengeId !in s.challenges
    case DoResolve(_, _, outcome) => outcome != Open
    case _ => true
  }

  function Perform(s: State, c: Call): (State, Option<Error>) {
    match c
    case DoCreate(id, author, active, problem, population, rule) => Create(s, id, author, active, problem, population, rule)
    case DoDetails(citizen, active, id, details) => UpdateDetails(s, citizen, active, id, details)
    case DoConstraint(citizen, active, id, text) => AddConstraint(s, citizen, active, id, text)
    case DoBudget(citizen, active, id, fields) => AddBudget(s, citizen, active, id, fields)
    case DoFile(citizen, active, id, affected, challengeId, reason, now) =>
      FileChallenge(s, citizen, active, id, affected, challengeId, reason, now)
    case DoScope(reviewBody, id, jurisdiction) => AssignScope(s, reviewBody, id, jurisdiction)
    case DoResolve(reviewBody, challengeId, outcome) =>
      if outcome == Open then (s, Some(InvalidState)) else ResolveChallenge(s, reviewBody, challengeId, outcome)
    case DoAdvance(citizen, active, id, cleared) => Proposals.Advance(s, citizen, active, id, cleared)
    case DoRecompute(problem, count) => (RecomputeSupport(s, problem, count), None)
    case DoComplete(id, session, checks) => CompleteCertified(s, id, session, checks)
    case DoEnter(isReviewer, id) => EnterDeadlock(s, isReviewer, id)
    case DoNextStage(isReviewer, id, notesGiven) => AdvanceDeadlock(s, isReviewer, id, notesGiven)
    case DoConclude(isReviewer, id, approve) => ConcludeDeadlock(s, isReviewer, id, approve)
  }

  function Step(s: State, c: Call): State {
    Perform(s, c).0
  }

  // ----- the invariant -----

  /** The mark on a proposal says exactly whether a challenge to its scope is open. */
  ghost predicate Marked(s: State) {
    forall id :: id in s.proposals ==> (s.proposals[id].scopeChallengedAt.Some? <==> HasOpen(s.challenges, id))
  }

  ghost predicate Linked(s: State) {
    && (forall c :: c in s.challenges ==> s.challenges[c].proposalId in s.proposals)
    && (forall id :: id in s.history ==> id in s.proposals)
    && (forall id :: id in s.projects ==> id in s.proposals)
  }

  /** One pass of the track: the eight stages in order, and the last one again when it is concluded. */
  const PASS: seq<Stage> := STAGES + [FinalDecision]

  /** A history repeats the pass, and how far into it the history is says where the proposal stands. */
  ghost predicate OnTrack(p: Proposal, h: seq<Stage>) {
    && (forall j :: 0 <= j < |h| ==> h[j] == PASS[j % 9])
    && (p.deadlockActive <==> |h| % 9 != 0)
    && (p.deadlockActive ==> p.deadlockStage == Some(PASS[|h| % 9 - 1]))
  }

  ghost predicate Tracked(s: State) {
    forall id :: id in s.proposals ==> OnTrack(s.proposals[id], ListAt(s.history, id))
  }

  /** No election stands behind two projects. */
  ghost predicate OneProjectEach(s: State) {
    forall a, b :: a in s.projects && b in s.projects && s.projects[a] == s.projects[b] ==> a == b
  }

  ghost predicate Sound(s: State) {
    Marked(s) && Linked(s) && Tracked(s) && OneProjectEach(s)
  }

  lemma StartIsSound()
    ensures Sound(Empty)
  {
  }

  /** A new or changed proposal that keeps its mark and its place on the track keeps the invariant. */
  lemma PutKeeps(s: State, id: string, p: Proposal)
    requires Sound(s)
    requires p.scopeChallengedAt.Some? <==> HasOpen(s.challenges, id)
    requires OnTrack(p, ListAt(s.history, id))
    ensures Sound(s.(proposals := s.proposals[id := p]))
  {
  }

  /** A change of the named fields alone. */
  lemma FieldsKeep(s: State, id: string, p: Proposal)
    requires Sound(s) && id in s.proposals
    requires p.scopeChallengedAt == s.proposals[id].scopeChallengedAt
    requires p.deadlockActive == s.proposals[id].deadlockActive && p.deadlockStage == s.proposals[id].deadlockStage
    ensures Sound(s.(proposals := s.proposals[id := p]))
  {
    PutKeeps(s, id, p);
  }

  lemma CreateKeeps(s: State, c: Call)
    requires Sound(s) && c.DoCreate? && Premise(s, c)
    ensures Sound(Step(s, c))
  {
    if Step(s, c) != s {
      assert !HasOpen(s.challenges, c.id);
      assert ListAt(s.history, c.id) == [];
      PutKeeps(s, c.id, Step(s, c).proposals[c.id]);
    }
  }

  /** A challenge filed: the row, and the mark on its proposal. */
  function Filed(s: State, challengeId: string, ch: Challenge, now: int): State
    requires ch.proposalId in s.proposals
  {
    s.(challenges := s.challenges[challengeId := ch],
       proposals := s.proposals[ch.proposalId := s.proposals[ch.proposalId].(scopeChallengedAt := Some(now))])
  }

  lemma FiledMarks(s: State, challengeId: string, ch: Challenge, now: int)
    requires Marked(s) && challengeId !in s.challenges && ch.status == Open && ch.proposalId in s.proposals
    ensures Marked(Filed(s, challengeId, ch, now))
  {
    var t := Filed(s, challengeId, ch, now);
    assert OpenFor(t.challenges, challengeId, ch.proposalId);
    forall id | id in t.proposals
      ensures t.proposals[id].scopeChallengedAt.Some? <==> HasOpen(t.challenges, id)
    {
      if id != ch.proposalId {
        OthersKeepTheirChallenges(s.challenges, t.challenges, challengeId, id);
      }
    }
  }

  lemma FiledKeeps(s: State, challengeId: string, ch: Challenge, now: int)
    requires Sound(s) && challengeId !in s.challenges && ch.status == Open && ch.proposalId in s.proposals
    ensures Sound(Filed(s, challengeId, ch, now))
  {
    FiledMarks(s, challengeId, ch, now);
    SameTrackKeeps(s, Filed(s, challengeId, ch, now));
  }

  lemma FileKeeps(s: State, citizen: string, active: bool, id: string, affected: bool, challengeId: string, reason: string, now: int)
    requires Sound(s) && challengeId !in s.challenges
    ensures Sound(FileChallenge(s, citizen, active, id, affected, challengeId, reason, now).0)
  {
    if active && id in s.proposals && s.proposals[id].scope.Some? && affected {
      FiledKeeps(s, challengeId, Challenge(id, citizen, reason, Open), now);
    }
  }

  lemma OthersKeepTheirChallenges(before: map<string, Challenge>, after: map<string, Challenge>, c: string, id: string)
    requires c in after && after == before[c := after[c]]
    requires after[c].proposalId != id && (c in before ==> before[c].proposalId != id)
    ensures HasOpen(before, id) <==> HasOpen(after, id)
  {
    if x :| x in before && OpenFor(before, x, id) {
      assert OpenFor(after, x, id);
    }
    if x :| x in after && OpenFor(after, x, id) {
      assert OpenFor(before, x, id);
    }
  }

  predicate SameTrack(s: State, t: State) {
    && t.history == s.history
    && forall id :: id in t.proposals ==>
         && id in s.proposals
         && t.proposals[id].deadlockActive == s.proposals[id].deadlockActive
         && t.proposals[id].deadlockStage == s.proposals[id].deadlockStage
  }

  lemma ResolveMarks(s: State, challengeId: string, outcome: ChallengeStatus, id: string)
    requires Sound(s) && outcome != Open && challengeId in s.challenges && s.challenges[challengeId].status == Open
    requires id in s.proposals
    ensures var t := ResolveChallenge(s, true, challengeId, outcome).0;
            id in t.proposals && (t.proposals[id].scopeChallengedAt.Some? <==> HasOpen(t.challenges, id))
  {
    var t := ResolveChallenge(s, true, challengeId, outcome).0;
    var resolved := s.challenges[challengeId].proposalId;
    assert s.proposals[id].scopeChallengedAt.Some? <==> HasOpen(s.challenges, id);
    assert OpenFor(s.challenges, challengeId, resolved);
    if id != resolved {
      OthersKeepTheirChallenges(s.challenges, t.challenges, challengeId, id);
    }
  }

  lemma ResolveMovesNoTrack(s: State, reviewBody: bool, challengeId: string, outcome: ChallengeStatus)
    requires outcome != Open
    ensures var t := ResolveChallenge(s, reviewBody, challengeId, outcome).0;
            SameTrack(s, t) && t.projects == s.projects && t.proposals.Keys == s.proposals.Keys
  {
  }

  lemma ResolveKeepsLinks(s: State, reviewBody: bool, challengeId: string, outcome: ChallengeStatus)
    requires Linked(s) && outcome != Open
    ensures Linked(ResolveChallenge(s, reviewBody, challengeId, outcome).0)
  {
    var t := ResolveChallenge(s, reviewBody, challengeId, outcome).0;
    ResolveMovesNoTrack(s, reviewBody, challengeId, outcome);
    forall x | x in t.challenges
      ensures t.challenges[x].proposalId in t.proposals
    {
      assert x in s.challenges && t.challenges[x].proposalId == s.challenges[x].proposalId;
    }
  }

  lemma ResolveKeeps(s: State, reviewBody: bool, challengeId: string, outcome: ChallengeStatus)
    requires Sound(s) && outcome != Open
    ensures Sound(ResolveChallenge(s, reviewBody, challengeId, outcome).0)
  {
    var t := ResolveChallenge(s, reviewBody, challengeId, outcome).0;
    if reviewBody && challengeId in s.challenges && s.challenges[challengeId].status == Open {
      forall id | id in t.proposals
        ensures t.proposals[id].scopeChallengedAt.Some? <==> HasOpen(t.challenges, id)
      {
        ResolveMovesNoTrack(s, reviewBody, challengeId, outcome);
        ResolveMarks(s, challengeId, outcome, id);
      }
      ResolveMovesNoTrack(s, reviewBody, challengeId, outcome);
      ResolveKeepsLinks(s, reviewBody, challengeId, outcome);
      SameTrackKeeps(s, t);
    }
  }

  lemma SameTrackKeeps(s: State, t: State)
    requires Tracked(s) && SameTrack(s, t)
    ensures Tracked(t)
  {
    forall id | id in t.proposals
      ensures OnTrack(t.proposals[id], ListAt(t.history, id))
    {
      assert OnTrack(s.proposals[id], ListAt(s.history, id));
    }
  }

  lemma RecomputeKeeps(s: State, problem: string, count: int)
    requires Sound(s)
    ensures Sound(RecomputeSupport(s, problem, count))
  {
    var t := RecomputeSupport(s, problem, count);
    forall id | id in t.proposals
      ensures t.proposals[id].scopeChallengedAt.Some? <==> HasOpen(t.challenges, id)
      ensures OnTrack(t.proposals[id], ListAt(t.history, id))
    {
      assert t.proposals[id] == Recomputed(s.proposals[id], problem, count);
      assert s.proposals[id].scopeChallengedAt.Some? <==> HasOpen(s.challenges, id);
      assert OnTrack(s.proposals[id], ListAt(s.history, id));
    }
  }

  lemma CompleteKeeps(s: State, id: string, session: string, checks: Option<Error>)
    requires Sound(s)
    ensures Sound(CompleteCertified(s, id, session, checks).0)
  {
    var t := CompleteCertified(s, id, session, checks).0;
    if t != s {
      FieldsKeep(s, id, s.proposals[id].(status := Approved));
    }
  }

  /** One more entry of the pass moves the proposal one place along the track. */
  lemma OneStageOn(p: Proposal, h: seq<Stage>, q: Proposal, stage: Stage)
    requires OnTrack(p, h) && stage == PASS[|h| % 9]
    requires q.deadlockActive <==> |h| % 9 != 8
    requires q.deadlockActive ==> q.deadlockStage == Some(stage)
    ensures OnTrack(q, h + [stage])
  {
    NextPlace(|h|);
  }

  lemma SetDeadlockKeepsTracks(s: State, id: string, q: Proposal, stage: Stage)
    requires Tracked(s) && OnTrack(q, ListAt(s.history, id) + [stage])
    ensures Tracked(SetDeadlock(s, id, q, stage))
  {
    var t := SetDeadlock(s, id, q, stage);
    forall x | x in t.proposals
      ensures OnTrack(t.proposals[x], ListAt(t.history, x))
    {
      if x != id {
        assert OnTrack(s.proposals[x], ListAt(s.history, x));
      }
    }
  }

  lemma SetDeadlockKeepsMarks(s: State, id: string, q: Proposal, stage: Stage)
    requires Marked(s) && id in s.proposals && q.scopeChallengedAt == s.proposals[id].scopeChallengedAt
    ensures Marked(SetDeadlock(s, id, q, stage))
  {
    var t := SetDeadlock(s, id, q, stage);
    assert forall x :: x in t.proposals ==> t.proposals[x].scopeChallengedAt == s.proposals[x].scopeChallengedAt;
  }

  lemma SetDeadlockKeeps(s: State, id: string, q: Proposal, stage: Stage)
    requires Sound(s) && id in s.proposals
    requires q.scopeChallengedAt == s.proposals[id].scopeChallengedAt
    requires OnTrack(q, ListAt(s.history, id) + [stage])
    ensures Sound(SetDeadlock(s, id, q, stage))
  {
    SetDeadlockKeepsTracks(s, id, q, stage);
    SetDeadlockKeepsMarks(s, id, q, stage);
  }

  /** The stage is the one at its place, so the place can be read off the stage. */
  lemma PlaceOfStage(p: Proposal, h: seq<Stage>)
    requires OnTrack(p, h) && p.deadlockActive
    ensures p.deadlockStage.Some? && IndexOf(p.deadlockStage.value) == |h| % 9 - 1
  {
    AllStagesDiffer(|h| % 9 - 1);
  }

  lemma AllStagesDiffer(i: nat)
    requires i < 8
    ensures IndexOf(STAGES[i]) == i && PASS[i] == STAGES[i]
  {
  }

  lemma TrackKeeps(s: State, c: Call)
    requires Sound(s) && (c.DoEnter? || c.DoNextStage? || c.DoConclude?)
    ensures Sound(Step(s, c))
  {
    var t := Step(s, c);
    if t != s {
      var p, h := s.proposals[c.id], ListAt(s.history, c.id);
      var q, stage := t.proposals[c.id], t.history[c.id][|h|];
      assert OnTrack(p, h);
      if p.deadlockActive {
        PlaceOfStage(p, h);
      }
      OneStageOn(p, h, q, stage);
      SetDeadlockKeeps(s, c.id, q, stage);
    }
  }

  lemma CallKeeps(s: State, c: Call)
    requires Sound(s) && Premise(s, c)
    ensures Sound(Step(s, c))
  {
    match c
    case DoCreate(_, _, _, _, _, _) => CreateKeeps(s, c);
    case DoFile(citizen, active, id, affected, challengeId, reason, now) =>
      FileKeeps(s, citizen, active, id, affected, challengeId, reason, now);
    case DoResolve(reviewBody, challengeId, outcome) => ResolveKeeps(s, reviewBody, challengeId, outcome);
    case DoRecompute(problem, count) => RecomputeKeeps(s, problem, count);
    case DoComplete(id, session, checks) => CompleteKeeps(s, id, session, checks);
    case DoEnter(_, _) => TrackKeeps(s, c);
    case DoNextStage(_, _, _) => TrackKeeps(s, c);
    case DoConclude(_, _, _) => TrackKeeps(s, c);
    case _ => FieldCallKeeps(s, c);
  }

  /** The calls that change single fields or lists. */
  lemma FieldCallKeeps(s: State, c: Call)
    requires Sound(s) && (c.DoDetails? || c.DoConstraint? || c.DoBudget? || c.DoScope? || c.DoAdvance?)
    ensures Sound(Step(s, c))
  {
    if Step(s, c) != s && (c.DoDetails? || c.DoScope? || c.DoAdvance?) {
      FieldsKeep(s, c.id, Step(s, c).proposals[c.id]);
    }
  }

  lemma CallsPreserve()
    ensures Preserves(Step, Premise, Sound)
  {
    forall s, c | Sound(s) && Premise(s, c)
      ensures Sound(Step(s, c))
    {
      CallKeeps(s, c);
    }
  }

  // ----- scope challenges -----

  /** In every reachable state a proposal is marked exactly while a challenge to its scope is open. */
  lemma MarkSaysWhetherAChallengeIsOpen(calls: seq<Call>, n: nat, id: string)
    requires Admissible(Step, Premise, Empty, calls) && n <= |calls|
    requires id in After(Step, Empty, calls, n).proposals
    ensures After(Step, Empty, calls, n).proposals[id].scopeChallengedAt.Some? <==>
            HasOpen(After(Step, Empty, calls, n).challenges, id)
  {
    StartIsSound();
    CallsPreserve();
    InvariantHolds(Step, Premise, Sound, Empty, calls, n);
    assert Marked(After(Step, Empty, calls, n));
  }

  // ----- the voting gate -----

  predicate InVoting(s: State, id: string) {
    id in s.proposals && s.proposals[id].status == Voting
  }

  /** What has to be the case for a call to open the vote. */
  ghost predicate GatePassed(s: State, c: Call, id: string) {
    && c.DoAdvance? && c.id == id && c.active && c.cleared
    && id in s.proposals && s.proposals[id].authorId == c.citizen && s.proposals[id].status == Development
    && s.proposals[id].scope.Some? && !HasOpen(s.challenges, id) && !s.proposals[id].deadlockActive
  }

  /** The calls that leave every status alone. */
  predicate Minor(c: Call) {
    c.DoDetails? || c.DoConstraint? || c.DoBudget? || c.DoFile? || c.DoScope? || c.DoResolve? || c.DoEnter? || c.DoNextStage?
  }

  /** A row that existed keeps its status, and rows do not appear. */
  ghost predicate SameStatus(s: State, t: State, id: string) {
    (id in t.proposals <==> id in s.proposals) && (id in s.proposals ==> t.proposals[id].status == s.proposals[id].status)
  }

  lemma EditsKeepStatus(s: State, c: Call, id: string)
    requires c.DoDetails? || c.DoConstraint? || c.DoBudget?
    ensures SameStatus(s, Step(s, c), id)
  {
  }

  lemma ChallengesKeepStatus(s: State, c: Call, id: string)
    requires c.DoFile? || c.DoScope? || c.DoResolve?
    ensures SameStatus(s, Step(s, c), id)
  {
  }

  lemma StagesKeepStatus(s: State, c: Call, id: string)
    requires c.DoEnter? || c.DoNextStage?
    ensures SameStatus(s, Step(s, c), id)
  {
  }

  lemma MinorCallsKeepStatus(s: State, c: Call, id: string)
    requires Minor(c)
    ensures SameStatus(s, Step(s, c), id)
  {
    if c.DoDetails? || c.DoConstraint? || c.DoBudget? {
      EditsKeepStatus(s, c, id);
    } else if c.DoEnter? || c.DoNextStage? {
      StagesKeepStatus(s, c, id);
    } else {
      ChallengesKeepStatus(s, c, id);
    }
  }

  lemma AdvanceOpensTheVote(s: State, citizen: string, active: bool, id: string, cleared: bool, x: string)
    requires !InVoting(s, x)
    ensures InVoting(Proposals.Advance(s, citizen, active, id, cleared).0, x) <==>
            && x == id && AdvanceError(s, citizen, active, id, cleared).None? && s.proposals[id].status == Development
  {
  }

  lemma AdvanceIsTheGate(s: State, c: Call, id: string)
    requires Sound(s) && c.DoAdvance? && !InVoting(s, id)
    ensures InVoting(Proposals.Advance(s, c.citizen, c.active, c.id, c.cleared).0, id) <==> GatePassed(s, c, id)
  {
    AdvanceOpensTheVote(s, c.citizen, c.active, c.id, c.cleared, id);
    assert id in s.proposals ==> (s.proposals[id].scopeChallengedAt.Some? <==> HasOpen(s.challenges, id));
  }

  lemma OtherCallsOpenNoVote(s: State, c: Call, id: string)
    requires c.DoCreate? || c.DoRecompute? || c.DoComplete? || c.DoConclude?
    requires !InVoting(s, id)
    ensures !InVoting(Step(s, c), id)
  {
    if c.DoRecompute? && id in s.proposals {
      assert Step(s, c).proposals[id] == Recomputed(s.proposals[id], c.endorsed, c.count);
    }
  }

  lemma OnlyTheGateOpensTheVote(s: State, c: Call, id: string)
    requires Sound(s) && Premise(s, c) && !InVoting(s, id)
    ensures InVoting(Step(s, c), id) <==> GatePassed(s, c, id)
  {
    if Minor(c) {
      MinorCallsKeepStatus(s, c, id);
    } else if c.DoAdvance? {
      AdvanceIsTheGate(s, c, id);
    } else {
      OtherCallsOpenNoVote(s, c, id);
    }
  }

  /**
   A proposal that is being voted on, in whatever run, got there at a moment when it had a scope that nobody
   was challenging, its constitutional review had cleared, it was not deadlocked, and its own author, an
   active citizen, asked; and it has been in voting ever since.
   */
  lemma EveryVotePassedTheGate(calls: seq<Call>, n: nat, id: string) returns (m: nat)
    requires Admissible(Step, Premise, Empty, calls) && n <= |calls|
    requires InVoting(After(Step, Empty, calls, n), id)
    ensures m < n && GatePassed(After(Step, Empty, calls, m), calls[m], id)
    ensures forall k :: m < k <= n ==> InVoting(After(Step, Empty, calls, k), id)
  {
    var made := (s: State) => InVoting(s, id);
    m := MadeToHold(Step, made, Empty, calls, n);
    StartIsSound();
    CallsPreserve();
    InvariantHolds(Step, Premise, Sound, Empty, calls, m);
    OnlyTheGateOpensTheVote(After(Step, Empty, calls, m), calls[m], id);
  }

  // ----- the freeze -----

  predicate Closed(s: State, id: string) {
    id in s.proposals && !Editable(s.proposals[id].status)
  }

  /** The lists an author adds to. */
  ghost predicate SameLists(s: State, t: State, id: string) {
    ListAt(t.constraints, id) == ListAt(s.constraints, id) && BudgetAt(t, id) == BudgetAt(s, id)
  }

  /** The part of the row an author can edit, and what ties it to its author, problem and threshold. */
  predicate SameText(p: Proposal, q: Proposal) {
    q.details == p.details && q.authorId == p.authorId && q.problemId == p.problemId && q.supportThreshold == p.supportThreshold
  }

  ghost predicate SameContent(s: State, t: State, id: string)
    requires id in s.proposals
  {
    id in t.proposals && SameText(s.proposals[id], t.proposals[id]) && SameLists(s, t, id)
  }

  lemma DetailsLeaveClosedAlone(s: State, citizen: string, active: bool, x: string, details: Details, id: string)
    requires Closed(s, id)
    ensures var t := UpdateDetails(s, citizen, active, x, details).0; Closed(t, id) && SameContent(s, t, id)
  {
  }

  lemma ConstraintLeavesClosedAlone(s: State, citizen: string, active: bool, x: string, text: string, id: string)
    requires Closed(s, id)
    ensures var t := AddConstraint(s, citizen, active, x, text).0; Closed(t, id) && SameContent(s, t, id)
  {
  }

  lemma BudgetLeavesClosedAlone(s: State, citizen: string, active: bool, x: string, fields: Budget, id: string)
    requires Closed(s, id)
    ensures var t := AddBudget(s, citizen, active, x, fields).0; Closed(t, id) && SameContent(s, t, id)
  {
  }

  lemma OnlyEditsTouchLists(s: State, c: Call, id: string)
    requires !c.DoDetails? && !c.DoConstraint? && !c.DoBudget?
    ensures Step(s, c).constraints == s.constraints && Step(s, c).budgets == s.budgets
  {
  }

  /** The row survives with its text, and stays closed. */
  predicate RowKept(s: State, t: State, id: string)
    requires Closed(s, id)
  {
    Closed(t, id) && SameText(s.proposals[id], t.proposals[id])
  }

  lemma FileKeepsRow(s: State, citizen: string, active: bool, x: string, affected: bool, challengeId: string, reason: string,
                     now: int, id: string)
    requires Closed(s, id)
    ensures RowKept(s, FileChallenge(s, citizen, active, x, affected, challengeId, reason, now).0, id)
  {
  }

  lemma ScopeKeepsRow(s: State, reviewBody: bool, x: string, jurisdiction: string, id: string)
    requires Closed(s, id)
    ensures RowKept(s, AssignScope(s, reviewBody, x, jurisdiction).0, id)
  {
  }

  lemma ResolveKeepsRow(s: State, reviewBody: bool, challengeId: string, outcome: ChallengeStatus, id: string)
    requires Closed(s, id) && outcome != Open
    ensures RowKept(s, ResolveChallenge(s, reviewBody, challengeId, outcome).0, id)
  {
  }

  lemma AdvanceKeepsRow(s: State, citizen: string, active: bool, x: string, cleared: bool, id: string)
    requires Closed(s, id)
    ensures RowKept(s, Proposals.Advance(s, citizen, active, x, cleared).0, id)
  {
  }

  lemma RecomputeKeepsRow(s: State, problem: string, count: int, id: string)
    requires Closed(s, id)
    ensures RowKept(s, RecomputeSupport(s, problem, count), id)
  {
    assert RecomputeSupport(s, problem, count).proposals[id] == Recomputed(s.proposals[id], problem, count);
  }

  lemma ResultKeepsRow(s: State, x: string, session: string, checks: Option<Error>, id: string)
    requires Closed(s, id)
    ensures RowKept(s, CompleteCertified(s, x, session, checks).0, id)
  {
  }

  lemma EnterKeepsRow(s: State, isReviewer: bool, x: string, id: string)
    requires Closed(s, id)
    ensures RowKept(s, EnterDeadlock(s, isReviewer, x).0, id)
  {
  }

  lemma NextStageKeepsRow(s: State, isReviewer: bool, x: string, notesGiven: bool, id: string)
    requires Closed(s, id)
    ensures RowKept(s, AdvanceDeadlock(s, isReviewer, x, notesGiven).0, id)
  {
  }

  lemma ConcludeKeepsRow(s: State, isReviewer: bool, x: string, approve: bool, id: string)
    requires Closed(s, id)
    ensures RowKept(s, ConcludeDeadlock(s, isReviewer, x, approve).0, id)
  {
  }

  /** No call but an edit touches the row's text, and no call opens it again. */
  lemma NoEditKeepsRow(s: State, c: Call, id: string)
    requires Closed(s, id) && Premise(s, c) && !c.DoDetails? && !c.DoConstraint? && !c.DoBudget?
    ensures RowKept(s, Step(s, c), id)
  {
    match c
    case DoCreate(_, _, _, _, _, _) =>
    case DoFile(citizen, active, x, affected, challengeId, reason, now) =>
      FileKeepsRow(s, citizen, active, x, affected, challengeId, reason, now, id);
    case DoScope(reviewBody, x, jurisdiction) => ScopeKeepsRow(s, reviewBody, x, jurisdiction, id);
    case DoResolve(reviewBody, challengeId, outcome) => ResolveKeepsRow(s, reviewBody, challengeId, outcome, id);
    case DoAdvance(citizen, active, x, cleared) => AdvanceKeepsRow(s, citizen, active, x, cleared, id);
    case DoRecompute(problem, count) => RecomputeKeepsRow(s, problem, count, id);
    case DoComplete(x, session, checks) => ResultKeepsRow(s, x, session, checks, id);
    case DoEnter(isReviewer, x) => EnterKeepsRow(s, isReviewer, x, id);
    case DoNextStage(isReviewer, x, notesGiven) => NextStageKeepsRow(s, isReviewer, x, notesGiven, id);
    case DoConclude(isReviewer, x, approve) => ConcludeKeepsRow(s, isReviewer, x, approve, id);
  }

  lemma ClosedStaysClosed(s: State, c: Call, id: string)
    requires Closed(s, id) && Premise(s, c)
    ensures Closed(Step(s, c), id) && SameContent(s, Step(s, c), id)
  {
    match c
    case DoDetails(citizen, active, x, details) => DetailsLeaveClosedAlone(s, citizen, active, x, details, id);
    case DoConstraint(citizen, active, x, text) => ConstraintLeavesClosedAlone(s, citizen, active, x, text, id);
    case DoBudget(citizen, active, x, fields) => BudgetLeavesClosedAlone(s, citizen, active, x, fields, id);
    case _ =>
      OnlyEditsTouchLists(s, c, id);
      NoEditKeepsRow(s, c, id);
  }

  /**
   From the moment a proposal leaves the editable statuses, nothing any call does ever changes its details,
   constraints or budget, or makes it editable again.
   */
  lemma ContentIsFrozenForGood(s: State, calls: seq<Call>, i: nat, n: nat, id: string)
    requires Sound(s) && Admissible(Step, Premise, s, calls) && i <= n <= |calls|
    requires Closed(After(Step, s, calls, i), id)
    ensures Closed(After(Step, s, calls, n), id)
    ensures SameContent(After(Step, s, calls, i), After(Step, s, calls, n), id)
  {
    var from := After(Step, s, calls, i);
    var kept := (t: State) => Closed(t, id) && SameContent(from, t, id);
    CallsPreserve();
    forall t, c | Sound(t) && kept(t) && Premise(t, c)
      ensures kept(Step(t, c))
    {
      ClosedStaysClosed(t, c, id);
    }
    HoldsFromThere(Step, Premise, Sound, kept, s, calls, i, n);
  }

  // ----- the deadlock track -----

  /**
   In every reachable state a proposal's deadlock history is complete passes of the eight stages, each with
   its final decision recorded twice, followed by the stages of the pass under way up to the current one.
   */
  lemma HistoryIsWholePasses(calls: seq<Call>, n: nat, id: string)
    requires Admissible(Step, Premise, Empty, calls) && n <= |calls|
    requires id in After(Step, Empty, calls, n).proposals
    ensures var t := After(Step, Empty, calls, n);
            var p, h := t.proposals[id], ListAt(t.history, id);
            if p.deadlockActive then
              p.deadlockStage.Some? && h == Repeated(PASS, |h| / 9) + STAGES[..IndexOf(p.deadlockStage.value) + 1]
            else h == Repeated(PASS, |h| / 9)
  {
    StartIsSound();
    CallsPreserve();
    InvariantHolds(Step, Premise, Sound, Empty, calls, n);
    var t := After(Step, Empty, calls, n);
    var p, h := t.proposals[id], ListAt(t.history, id);
    assert OnTrack(p, h);
    RepetitionIsWholeBlocks(PASS, h);
    if p.deadlockActive {
      PlaceOfStage(p, h);
      assert PASS[..|h| % 9] == STAGES[..|h| % 9];
    }
  }

  /** Support crossing the threshold, and a certified result: the ways past the track. */
  predicate MovesPastTheTrack(s: State, c: Call, id: string)
    requires id in s.proposals
  {
    var p := s.proposals[id];
    || (c.DoRecompute? && c.endorsed == p.problemId && p.status == GatheringSupport && c.count >= p.supportThreshold)
    || (c.DoComplete? && c.id == id && c.checks.None? && p.status == Voting
        && id !in s.projects && c.session !in s.projects.Values)
  }

  predicate ConcludesOtherwise(s: State, c: Call, id: string)
    requires id in s.proposals
  {
    && c.DoConclude? && c.id == id && c.isReviewer && s.proposals[id].deadlockStage == Some(FinalDecision)
    && s.proposals[id].status != if c.approve then Approved else Rejected
  }

  /**
   The comment at proposal.service.ts:270-272 says that only a conclusion changes the status of a proposal in
   the deadlock track. These are exactly the calls that do.
   */
  lemma WhatMovesADeadlockedProposal(s: State, c: Call, id: string)
    requires Premise(s, c) && id in s.proposals && s.proposals[id].deadlockActive
    ensures !SameStatus(s, Step(s, c), id) <==> ConcludesOtherwise(s, c, id) || MovesPastTheTrack(s, c, id)
  {
    if Minor(c) {
      MinorCallsKeepStatus(s, c, id);
    } else if c.DoRecompute? {
      assert Step(s, c).proposals[id] == Recomputed(s.proposals[id], c.endorsed, c.count);
    } else {
      AuthorAndReviewCalls(s, c, id);
    }
  }

  lemma AuthorAndReviewCalls(s: State, c: Call, id: string)
    requires Premise(s, c) && id in s.proposals && s.proposals[id].deadlockActive
    requires c.DoCreate? || c.DoAdvance? || c.DoComplete? || c.DoConclude?
    ensures !SameStatus(s, Step(s, c), id) <==> ConcludesOtherwise(s, c, id) || MovesPastTheTrack(s, c, id)
  {
  }

  /** A run in which support crossing its threshold moves a deadlocked proposal, with no conclusion anywhere. */
  lemma DeadlockDoesNotHoldTheStatus(id: string, author: string, problem: string) returns (calls: seq<Call>)
    ensures Admissible(Step, Premise, Empty, calls) && |calls| == 4
    ensures forall i :: 0 <= i < |calls| ==> !calls[i].DoConclude?
    ensures var before, after := After(Step, Empty, calls, 3), After(Step, Empty, calls, 4);
            && id in before.proposals && before.proposals[id].deadlockActive && before.proposals[id].status == GatheringSupport
            && id in after.proposals && after.proposals[id].deadlockActive && after.proposals[id].status == Development
  {
    calls := [DoCreate(id, author, true, Some(problem), Some(0), SupportRule(0, 1, None)),
              DoAdvance(author, true, id, false), DoEnter(true, id), DoRecompute(problem, 1)];
    var s1 := After(Step, Empty, calls, 1);
    assert s1 == Step(After(Step, Empty, calls, 0), calls[0]);
    var s2 := After(Step, Empty, calls, 2);
    assert s2 == Step(s1, calls[1]);
    var s3 := After(Step, Empty, calls, 3);
    assert s3 == Step(s2, calls[2]);
    assert After(Step, Empty, calls, 4) == Step(s3, calls[3]);
  }

  // ----- certified results -----

  predicate HasProject(s: State, id: string, session: string) {
    id in s.projects && s.projects[id] == session
  }

  lemma ProjectStays(s: State, c: Call, id: string, session: string)
    requires HasProject(s, id, session)
    ensures HasProject(Step(s, c), id, session)
  {
    if c.DoComplete? {
      assert id in s.projects;
    } else {
      OnlyResultsOpenProjects(s, c);
    }
  }

  lemma OnlyResultsOpenProjects(s: State, c: Call)
    requires !c.DoComplete?
    ensures Step(s, c).projects == s.projects
  {
  }

  /** A project stays with the election that certified it, and no election opens a second one. */
  lemma ProjectsStay(calls: seq<Call>, i: nat, n: nat, id: string, session: string)
    requires Admissible(Step, Premise, Empty, calls) && i <= n <= |calls|
    requires HasProject(After(Step, Empty, calls, i), id, session)
    ensures HasProject(After(Step, Empty, calls, n), id, session)
    ensures forall other :: HasProject(After(Step, Empty, calls, n), other, session) ==> other == id
  {
    var kept := (t: State) => HasProject(t, id, session);
    StartIsSound();
    CallsPreserve();
    forall t, c | Sound(t) && kept(t) && Premise(t, c)
      ensures kept(Step(t, c))
    {
      ProjectStays(t, c, id, session);
    }
    HoldsFromThere(Step, Premise, Sound, kept, Empty, calls, i, n);
    InvariantHolds(Step, Premise, Sound, Empty, calls, n);
    assert OneProjectEach(After(Step, Empty, calls, n));
  }

  // ----- support -----

  /** After a recount no proposal of the problem is still gathering support it already has, and no other proposal moved. */
  lemma RecomputeLeavesNobodyWaiting(s: State, problem: string, count: int, id: string)
    requires id in s.proposals
    ensures var t := RecomputeSupport(s, problem, count);
            && id in t.proposals
            && (if s.proposals[id].problemId == problem then
                  && t.proposals[id].supportCount == count
                  && !(t.proposals[id].status == GatheringSupport && count >= t.proposals[id].supportThreshold)
                else t.proposals[id] == s.proposals[id])
    ensures RecomputeSupport(RecomputeSupport(s, problem, count), problem, count) == RecomputeSupport(s, problem, count)
  {
    var t := RecomputeSupport(s, problem, count);
    assert t.proposals[id] == Recomputed(s.proposals[id], problem, count);
    assert RecomputeSupport(t, problem, count).proposals == t.proposals;
  }
}
