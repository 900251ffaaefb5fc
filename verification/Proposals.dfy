/**
 The life of a proposal (apps/api-ts/src/proposal/proposal.service.ts and deadlock.service.ts, and the
 certified result of apps/api-ts/src/journey/journey.service.ts), as tables and what each call turns them
 into.

 What other services answer (whether a citizen is active or affected, holds a review role or assignment,
 whether constitutional review has cleared) is an argument of the calls.
 */
module Proposals {
  import opened Wrappers

  datatype Status = Draft | GatheringSupport | Development | Voting | Approved | Rejected | Archived

  datatype Stage =
    | ConstraintAnalysis | AlternativeGeneration | ResourcePartitioning | CompensationAssessment
    | CitizenAssemblyReview | EscalationReview | ConstitutionalReview | FinalDecision

  const STAGES: seq<Stage> := [ConstraintAnalysis, AlternativeGeneration, ResourcePartitioning, CompensationAssessment,
                               CitizenAssemblyReview, EscalationReview, ConstitutionalReview, FinalDecision]

  datatype Details = Details(objectives: string, measurableOutcomes: string, implementationTimeline: string)

  datatype Proposal = Proposal(
    problemId: string, authorId: string, scope: Option<string>, supportCount: int, supportThreshold: int, status: Status,
    scopeChallengedAt: Option<int>, details: Option<Details>, deadlockActive: bool, deadlockStage: Option<Stage>)

  datatype ChallengeStatus = Open | Upheld | Dismissed

  datatype Challenge = Challenge(proposalId: string, challengerId: string, reason: string, status: ChallengeStatus)

  datatype BudgetField = Cost | FundingSource | FundingCategory | MaintenanceCost | LongTermCost | ExpectedBenefits

  /** A field absent from the map is null in the row. */
  type Budget = map<BudgetField, string>

  datatype State = State(proposals: map<string, Proposal>, constraints: map<string, seq<string>>, budgets: map<string, Budget>,
                         challenges: map<string, Challenge>, history: map<string, seq<Stage>>, projects: map<string, string>)

  const Empty: State := State(map[], map[], map[], map[], map[], map[])

  datatype Error = NotFound | Forbidden | InvalidState | Conflict

  // ----- the support threshold -----

  datatype SupportRule = SupportRule(supportRateBps: int, minThreshold: int, maxThreshold: Option<int>)

  function Max(x: int, y: int): int {
    if x >= y then x else y
  }

  /** Rounds half up, as the source's rounding does, in integers. */
  function Rounded(numerator: int, denominator: int): int
    requires denominator > 0
  {
    (2 * numerator + denominator) / (2 * denominator)
  }

  function ComputeSupportThreshold(population: int, rule: SupportRule): int {
    var floored := Max(Rounded(population * rule.supportRateBps, 10000), rule.minThreshold);
    if rule.maxThreshold.Some? && rule.maxThreshold.value < floored then rule.maxThreshold.value else floored
  }

  /** The rounded share is the integer nearest to the exact one, and of two equally near the larger. */
  lemma RoundedIsNearest(n: int, d: int, r: int)
    requires d > 0
    ensures r == Rounded(n, d) <==> -d < 2 * (d * r - n) <= d
  {
    var q, m := Rounded(n, d), (2 * n + d) % (2 * d);
    assert 2 * n + d == (2 * d) * q + m;
    assert 2 * (d * q - n) == d - m;
    if -d < 2 * (d * r - n) <= d {
      assert -2 * d < 2 * (d * r - n) - 2 * (d * q - n) < 2 * d;
      assert 2 * (d * r - n) - 2 * (d * q - n) == 2 * (d * (r - q));
      SmallMultiple(d, r - q);
    }
  }

  lemma SmallMultiple(d: int, k: int)
    requires d > 0 && -d < d * k < d
    ensures k == 0
  {
    assert k >= 1 ==> d * k >= d * 1;
    assert k <= -1 ==> d * (-k) >= d * 1;
  }

  /** The cap beats the floor, the floor beats the share, and a larger population never needs fewer votes. */
  lemma ThresholdIsClamped(population: int, larger: int, rule: SupportRule)
    requires population <= larger && rule.supportRateBps >= 0
    ensures rule.maxThreshold.Some? ==> ComputeSupportThreshold(population, rule) <= rule.maxThreshold.value
    ensures rule.maxThreshold.Some? && rule.maxThreshold.value < rule.minThreshold ==>
              ComputeSupportThreshold(population, rule) == rule.maxThreshold.value
    ensures rule.maxThreshold.None? || rule.minThreshold <= rule.maxThreshold.value ==>
              rule.minThreshold <= ComputeSupportThreshold(population, rule)
    ensures ComputeSupportThreshold(population, rule) <= ComputeSupportThreshold(larger, rule)
  {
    var n, m := population * rule.supportRateBps, larger * rule.supportRateBps;
    assert n <= m by {
      assert (larger - population) * rule.supportRateBps >= 0;
    }
    RoundedMonotone(n, m);
  }

  lemma RoundedMonotone(n: int, m: int)
    requires n <= m
    ensures Rounded(n, 10000) <= Rounded(m, 10000)
  {
  }

  // ----- calls on one proposal -----

  predicate Editable(status: Status) {
    status == Draft || status == GatheringSupport || status == Development
  }

  /** The checks every author call begins with. */
  function AuthorError(s: State, citizen: string, active: bool, id: string): Option<Error> {
    if !active then Some(Forbidden)
    else if id !in s.proposals then Some(NotFound)
    else if s.proposals[id].authorId != citizen then Some(Forbidden)
    else None
  }

  function Create(s: State, id: string, author: string, active: bool, problem: Option<string>, population: Option<int>,
                  rule: SupportRule): (State, Option<Error>)
  {
    if !active then (s, Some(Forbidden))
    else if problem.None? then (s, Some(NotFound))
    else if population.None? then (s, Some(InvalidState))
    else
      var p := Proposal(problem.value, author, None, 0, ComputeSupportThreshold(population.value, rule), Draft, None, None, false, None);
      (s.(proposals := s.proposals[id := p]), None)
  }

  function EditError(s: State, citizen: string, active: bool, id: string): Option<Error> {
    var e := AuthorError(s, citizen, active, id);
    if e.Some? then e
    else if !Editable(s.proposals[id].status) then Some(InvalidState)
    else None
  }

  function UpdateDetails(s: State, citizen: string, active: bool, id: string, details: Details): (State, Option<Error>) {
    var e := EditError(s, citizen, active, id);
    if e.Some? then (s, e) else (s.(proposals := s.proposals[id := s.proposals[id].(details := Some(details))]), None)
  }

  function AddConstraint(s: State, citizen: string, active: bool, id: string, text: string): (State, Option<Error>) {
    var e := EditError(s, citizen, active, id);
    if e.Some? then (s, e) else (s.(constraints := s.constraints[id := ListAt(s.constraints, id) + [text]]), None)
  }

  function BudgetAt(s: State, id: string): Budget {
    if id in s.budgets then s.budgets[id] else map[]
  }

  /** The given fields replace those of the one budget row, the others stay. */
  function AddBudget(s: State, citizen: string, active: bool, id: string, fields: Budget): (State, Option<Error>) {
    var e := EditError(s, citizen, active, id);
    if e.Some? then (s, e) else (s.(budgets := s.budgets[id := BudgetAt(s, id) + fields]), None)
  }

  function FileChallenge(s: State, citizen: string, active: bool, id: string, affected: bool, challengeId: string,
                         reason: string, now: int): (State, Option<Error>)
  {
    if !active then (s, Some(Forbidden))
    else if id !in s.proposals then (s, Some(NotFound))
    else if s.proposals[id].scope.None? then (s, Some(InvalidState))
    else if !affected then (s, Some(Forbidden))
    else (s.(challenges := s.challenges[challengeId := Challenge(id, citizen, reason, Open)],
             proposals := s.proposals[id := s.proposals[id].(scopeChallengedAt := Some(now))]), None)
  }

  function AssignScope(s: State, reviewBody: bool, id: string, jurisdiction: string): (State, Option<Error>) {
    if !reviewBody then (s, Some(Forbidden))
    else if id !in s.proposals then (s, Some(NotFound))
    else (s.(proposals := s.proposals[id := s.proposals[id].(scope := Some(jurisdiction))]), None)
  }

  predicate OpenFor(challenges: map<string, Challenge>, c: string, id: string) {
    c in challenges && challenges[c].proposalId == id && challenges[c].status == Open
  }

  predicate HasOpen(challenges: map<string, Challenge>, id: string) {
    exists c :: c in challenges && OpenFor(challenges, c, id)
  }

  /** Resolving the last open challenge clears the proposal's mark in the same transaction. */
  function ResolveChallenge(s: State, reviewBody: bool, challengeId: string, outcome: ChallengeStatus): (State, Option<Error>)
    requires outcome != Open
  {
    if !reviewBody then (s, Some(Forbidden))
    else if challengeId !in s.challenges then (s, Some(NotFound))
    else if s.challenges[challengeId].status != Open then (s, Some(InvalidState))
    else
      var id := s.challenges[challengeId].proposalId;
      var challenges := s.challenges[challengeId := s.challenges[challengeId].(status := outcome)];
      if !HasOpen(challenges, id) && id in s.proposals then
        (s.(challenges := challenges, proposals := s.proposals[id := s.proposals[id].(scopeChallengedAt := None)]), None)
      else (s.(challenges := challenges), None)
  }

  function SetStatus(s: State, id: string, status: Status): State
    requires id in s.proposals
  {
    s.(proposals := s.proposals[id := s.proposals[id].(status := status)])
  }

  /** The only two transitions an author can ask for. */
  function NextStatus(status: Status): Option<Status> {
    match status
    case Draft => Some(GatheringSupport)
    case Development => Some(Voting)
    case _ => None
  }

  function AdvanceError(s: State, citizen: string, active: bool, id: string, cleared: bool): Option<Error> {
    var e := AuthorError(s, citizen, active, id);
    if e.Some? then e
    else
      var p := s.proposals[id];
      if p.deadlockActive then Some(InvalidState)
      else if NextStatus(p.status).None? then Some(InvalidState)
      else if p.status == Development && (p.scope.None? || p.scopeChallengedAt.Some? || !cleared) then Some(InvalidState)
      else None
  }

  function Advance(s: State, citizen: string, active: bool, id: string, cleared: bool): (State, Option<Error>) {
    var e := AdvanceError(s, citizen, active, id, cleared);
    if e.Some? then (s, e) else (SetStatus(s, id, NextStatus(s.proposals[id].status).value), None)
  }

  function Recomputed(p: Proposal, problem: string, count: int): Proposal {
    if p.problemId != problem then p
    else
      var q := p.(supportCount := count);
      if p.status == GatheringSupport && count >= p.supportThreshold then q.(status := Development) else q
  }

  /** Every proposal of the problem gets the new count; those that reach their threshold enter development. */
  function RecomputeSupport(s: State, problem: string, count: int): State {
    s.(proposals := map id | id in s.proposals :: Recomputed(s.proposals[id], problem, count))
  }

  /** What keeps a certified result from being taken up; `checks` is what the checks on the election itself report. */
  function CompleteError(s: State, id: string, session: string, checks: Option<Error>): Option<Error> {
    if checks.Some? then checks
    else if id !in s.proposals then Some(NotFound)
    else if s.proposals[id].status != Voting && s.proposals[id].status != Approved then Some(InvalidState)
    else if id in s.projects then (if s.projects[id] == session then None else Some(Conflict))
    else if session in s.projects.Values then Some(Conflict)
    else None
  }

  /**
   A certified election result for its winning proposal. The first one approves the proposal and opens its
   project, a repetition changes nothing.
   */
  function CompleteCertified(s: State, id: string, session: string, checks: Option<Error>): (State, Option<Error>) {
    var e := CompleteError(s, id, session, checks);
    if e.Some? || id in s.projects then (s, e)
    else (SetStatus(s, id, Approved).(projects := s.projects[id := session]), None)
  }

  // ----- the deadlock track -----

  function SetDeadlock(s: State, id: string, p: Proposal, stage: Stage): State {
    s.(proposals := s.proposals[id := p], history := s.history[id := ListAt(s.history, id) + [stage]])
  }

  function EnterDeadlock(s: State, isReviewer: bool, id: string): (State, Option<Error>) {
    if id !in s.proposals then (s, Some(NotFound))
    else if s.proposals[id].deadlockActive then (s, Some(InvalidState))
    else if !isReviewer then (s, Some(Forbidden))
    else (SetDeadlock(s, id, s.proposals[id].(deadlockActive := true, deadlockStage := Some(STAGES[0])), STAGES[0]), None)
  }

  /** The position of a stage in the list. */
  function IndexOf(stage: Stage): (i: nat)
    ensures i < 8 && STAGES[i] == stage
  {
    match stage
    case ConstraintAnalysis => 0
    case AlternativeGeneration => 1
    case ResourcePartitioning => 2
    case CompensationAssessment => 3
    case CitizenAssemblyReview => 4
    case EscalationReview => 5
    case ConstitutionalReview => 6
    case FinalDecision => 7
  }

  function AdvanceDeadlock(s: State, isReviewer: bool, id: string, notesGiven: bool): (State, Option<Error>) {
    if id !in s.proposals then (s, Some(NotFound))
    else
      var p := s.proposals[id];
      if !p.deadlockActive || p.deadlockStage.None? then (s, Some(InvalidState))
      else if p.deadlockStage == Some(FinalDecision) then (s, Some(InvalidState))
      else if !notesGiven then (s, Some(InvalidState))
      else if !isReviewer then (s, Some(Forbidden))
      else
        var next := STAGES[IndexOf(p.deadlockStage.value) + 1];
        (SetDeadlock(s, id, p.(deadlockStage := Some(next)), next), None)
  }

  function ConcludeDeadlock(s: State, isReviewer: bool, id: string, approve: bool): (State, Option<Error>) {
    if id !in s.proposals then (s, Some(NotFound))
    else
      var p := s.proposals[id];
      if !p.deadlockActive || p.deadlockStage != Some(FinalDecision) then (s, Some(InvalidState))
      else if !isReviewer then (s, Some(Forbidden))
      else (SetDeadlock(s, id, p.(deadlockActive := false, status := if approve then Approved else Rejected), FinalDecision), None)
  }
}
