/**
 When each call about a proposal succeeds and what it then writes, with every condition written out on the rows
 (apps/api-ts/src/proposal/proposal.service.ts and deadlock.service.ts, and apps/api-ts/src/journey/journey.service.ts).
 */
module ProposalEffects {
  import opened Wrappers
  import opened Proposals

  /** The proposals with this row under this id. */
  predicate OnlyRow(s: State, t: State, id: string, p: Proposal) {
    t.proposals.Keys == s.proposals.Keys + {id} && t.proposals[id] == p && forall x :: x in s.proposals && x != id ==> t.proposals[x] == s.proposals[x]
  }

  /** Nothing but proposals may differ. */
  predicate RestSame(s: State, t: State) {
    && t.constraints == s.constraints && t.budgets == s.budgets && t.challenges == s.challenges && t.history == s.history
    && t.projects == s.projects
  }

  /** The author, active, asks about their own proposal. */
  predicate Asks(s: State, citizen: string, active: bool, id: string) {
    active && id in s.proposals && s.proposals[id].authorId == citizen
  }

  // ----- the threshold -----

  /**
   The threshold is the whole number nearest to the rate's share of the population, of two equally near the
   larger, raised to the minimum and then cut to the maximum.
   */
  lemma ThresholdExactly(population: int, rule: SupportRule, share: int)
    requires -10000 < 2 * (10000 * share - population * rule.supportRateBps) <= 10000
    ensures var x := ComputeSupportThreshold(population, rule);
            var floored := if share < rule.minThreshold then rule.minThreshold else share;
            x == (match rule.maxThreshold case Some(cap) => if cap < floored then cap else floored case None => floored)
  {
    RoundedIsNearest(population * rule.supportRateBps, 10000, share);
  }

  /** There is such a share for every population and rate, so the threshold is always determined. */
  lemma SomeShareIsNearest(population: int, rule: SupportRule) returns (share: int)
    ensures -10000 < 2 * (10000 * share - population * rule.supportRateBps) <= 10000
  {
    share := Rounded(population * rule.supportRateBps, 10000);
    RoundedIsNearest(population * rule.supportRateBps, 10000, share);
  }

  // ----- writing a proposal -----

  /** Created by an active citizen for a known problem and population: a draft without scope, support, details or deadlock. */
  lemma CreatedExactly(s: State, id: string, author: string, active: bool, problem: Option<string>, population: Option<int>,
                       rule: SupportRule)
    ensures var (t, e) := Create(s, id, author, active, problem, population, rule);
            && (e.None? <==> active && problem.Some? && population.Some?)
            && (e.Some? ==> e.value == if !active then Forbidden else if problem.None? then NotFound else InvalidState)
            && RestSame(s, t)
            && (if e.None? then
                  OnlyRow(s, t, id, Proposal(problem.value, author, None, 0, ComputeSupportThreshold(population.value, rule), Draft,
                                             None, None, false, None))
                else t == s)
  {
  }

  /** The author edits, and only a draft, a proposal gathering support or one in development. */
  predicate MayEdit(s: State, citizen: string, active: bool, id: string) {
    && Asks(s, citizen, active, id)
    && (s.proposals[id].status == Draft || s.proposals[id].status == GatheringSupport || s.proposals[id].status == Development)
  }

  /** An inactive citizen and another one are turned away, and an unknown proposal is reported as such; the rest is a matter of state. */
  predicate RefusedFor(s: State, citizen: string, active: bool, id: string, e: Option<Error>) {
    e == Some(if !active then Forbidden
              else if id !in s.proposals then NotFound
              else if s.proposals[id].authorId != citizen then Forbidden
              else InvalidState)
  }

  lemma DetailedExactly(s: State, citizen: string, active: bool, id: string, details: Details)
    ensures var (t, e) := UpdateDetails(s, citizen, active, id, details);
            && (e.None? <==> MayEdit(s, citizen, active, id)) && (e.Some? ==> RefusedFor(s, citizen, active, id, e))
            && (if e.None? then OnlyRow(s, t, id, s.proposals[id].(details := Some(details))) && RestSame(s, t) else t == s)
  {
  }

  /** A constraint joins the end of the proposal's list. */
  lemma ConstrainedExactly(s: State, citizen: string, active: bool, id: string, text: string)
    ensures var (t, e) := AddConstraint(s, citizen, active, id, text);
            && (e.None? <==> MayEdit(s, citizen, active, id)) && (e.Some? ==> RefusedFor(s, citizen, active, id, e))
            && t == if e.None? then s.(constraints := s.constraints[id := (if id in s.constraints then s.constraints[id] else []) + [text]])
                    else s
  {
  }

  /** The given fields of the budget are replaced, the others and other budgets kept. */
  lemma BudgetedExactly(s: State, citizen: string, active: bool, id: string, fields: Budget)
    ensures var (t, e) := AddBudget(s, citizen, active, id, fields);
            && (e.None? <==> MayEdit(s, citizen, active, id)) && (e.Some? ==> RefusedFor(s, citizen, active, id, e))
            && (if e.None? then
                  && t == s.(budgets := t.budgets) && t.budgets.Keys == s.budgets.Keys + {id}
                  && (forall x :: x in s.budgets && x != id ==> t.budgets[x] == s.budgets[x])
                  && forall f :: (f in t.budgets[id] <==> f in fields || (id in s.budgets && f in s.budgets[id]))
                                 && (f in t.budgets[id] ==> t.budgets[id][f] == if f in fields then fields[f] else s.budgets[id][f])
                else t == s)
  {
  }

  // ----- scope -----

  /** Filed by an active, affected citizen against a proposal with a scope: an open challenge, and the mark. */
  lemma FiledExactly(s: State, citizen: string, active: bool, id: string, affected: bool, challengeId: string, reason: string, now: int)
    ensures var (t, e) := FileChallenge(s, citizen, active, id, affected, challengeId, reason, now);
            && (e.None? <==> active && affected && id in s.proposals && s.proposals[id].scope.Some?)
            && (e.Some? ==> e.value == if !active then Forbidden else if id !in s.proposals then NotFound
                                       else if s.proposals[id].scope.None? then InvalidState else Forbidden)
            && (if e.None? then
                  && OnlyRow(s, t, id, s.proposals[id].(scopeChallengedAt := Some(now)))
                  && t == s.(proposals := t.proposals,
                             challenges := s.challenges[challengeId := Challenge(id, citizen, reason, Open)])
                else t == s)
  {
  }

  lemma ScopedExactly(s: State, reviewBody: bool, id: string, jurisdiction: string)
    ensures var (t, e) := AssignScope(s, reviewBody, id, jurisdiction);
            && (e.None? <==> reviewBody && id in s.proposals)
            && (e.Some? ==> e.value == if reviewBody then NotFound else Forbidden)
            && (if e.None? then OnlyRow(s, t, id, s.proposals[id].(scope := Some(jurisdiction))) && RestSame(s, t) else t == s)
  {
  }

  /** No other challenge to the proposal is still open. */
  predicate LastOpen(s: State, challengeId: string, id: string) {
    forall c :: c in s.challenges && c != challengeId && s.challenges[c].proposalId == id ==> s.challenges[c].status != Open
  }

  /** Resolved by the review body, once: the challenge gets its outcome, and with the last open one the mark goes. */
  lemma ResolvedExactly(s: State, reviewBody: bool, challengeId: string, outcome: ChallengeStatus)
    requires outcome != Open
    ensures var (t, e) := ResolveChallenge(s, reviewBody, challengeId, outcome);
            && (e.None? <==> reviewBody && challengeId in s.challenges && s.challenges[challengeId].status == Open)
            && (e.Some? ==> e.value == if !reviewBody then Forbidden else if challengeId in s.challenges then InvalidState else NotFound)
            && (if e.None? then
                  var id := s.challenges[challengeId].proposalId;
                  && t == s.(proposals := t.proposals,
                             challenges := s.challenges[challengeId := s.challenges[challengeId].(status := outcome)])
                  && (if LastOpen(s, challengeId, id) && id in s.proposals then
                        OnlyRow(s, t, id, s.proposals[id].(scopeChallengedAt := None))
                      else t.proposals == s.proposals)
                else t == s)
  {
    if challengeId in s.challenges {
      LastOpenExactly(s, challengeId, s.challenges[challengeId].proposalId, outcome);
    }
  }

  lemma LastOpenExactly(s: State, challengeId: string, id: string, outcome: ChallengeStatus)
    requires outcome != Open && challengeId in s.challenges
    ensures HasOpen(s.challenges[challengeId := s.challenges[challengeId].(status := outcome)], id) <==> !LastOpen(s, challengeId, id)
  {
    var after := s.challenges[challengeId := s.challenges[challengeId].(status := outcome)];
    if c :| c in s.challenges && c != challengeId && s.challenges[c].proposalId == id && s.challenges[c].status == Open {
      assert c in after && OpenFor(after, c, id);
    }
  }

  // ----- status -----

  /**
   The author takes a draft into gathering support, and what is in development into voting once it has a scope
   nobody challenges and its review has cleared; neither while it is deadlocked, and nothing else.
   */
  lemma AdvancedExactly(s: State, citizen: string, active: bool, id: string, cleared: bool)
    ensures var (t, e) := Advance(s, citizen, active, id, cleared);
            && (e.None? <==>
                  && Asks(s, citizen, active, id) && !s.proposals[id].deadlockActive
                  && (s.proposals[id].status == Draft
                      || (s.proposals[id].status == Development && s.proposals[id].scope.Some?
                          && s.proposals[id].scopeChallengedAt.None? && cleared)))
            && (e.Some? ==> RefusedFor(s, citizen, active, id, e))
            && RestSame(s, t)
            && (if e.None? then
                  OnlyRow(s, t, id, s.proposals[id].(status := if s.proposals[id].status == Draft then GatheringSupport else Voting))
                else t == s)
  {
  }

  /** A recount gives each proposal of the problem, and no other, the count; those that gather support and have enough develop. */
  lemma RecountedExactly(s: State, problem: string, count: int)
    ensures var t := RecomputeSupport(s, problem, count);
            && RestSame(s, t) && t.proposals.Keys == s.proposals.Keys
            && forall id :: id in s.proposals ==>
                 t.proposals[id] ==
                 if s.proposals[id].problemId != problem then s.proposals[id]
                 else s.proposals[id].(supportCount := count,
                                       status := if s.proposals[id].status == GatheringSupport && s.proposals[id].supportThreshold <= count
                                                 then Development else s.proposals[id].status)
  {
  }

  /** A certified result counts, once, for a proposal in voting or approved when the election has no other project. */
  lemma CertifiedExactly(s: State, id: string, session: string, checks: Option<Error>)
    ensures var (t, e) := CompleteCertified(s, id, session, checks);
            && (e.None? <==>
                  && checks.None? && id in s.proposals && (s.proposals[id].status == Voting || s.proposals[id].status == Approved)
                  && (if id in s.projects then s.projects[id] == session
                      else forall x :: x in s.projects ==> s.projects[x] != session))
            && (e.Some? && checks.None? ==>
                  e.value == if id !in s.proposals then NotFound
                             else if s.proposals[id].status != Voting && s.proposals[id].status != Approved then InvalidState
                             else Conflict)
            && (if e.None? && id !in s.projects then
                  && OnlyRow(s, t, id, s.proposals[id].(status := Approved))
                  && t == s.(proposals := t.proposals, projects := s.projects[id := session])
                else t == s)
  {
    assert session in s.projects.Values <==> exists x :: x in s.projects && s.projects[x] == session;
  }

  // ----- the deadlock track -----

  /** The stage is written at the end of the proposal's history. */
  predicate Noted(s: State, t: State, id: string, stage: Stage) {
    t == s.(proposals := t.proposals, history := s.history[id := (if id in s.history then s.history[id] else []) + [stage]])
  }

  /** Entered by a reviewer when not on the track: active, at the first stage, which is noted. */
  lemma EnteredExactly(s: State, isReviewer: bool, id: string)
    ensures var (t, e) := EnterDeadlock(s, isReviewer, id);
            && (e.None? <==> isReviewer && id in s.proposals && !s.proposals[id].deadlockActive)
            && (e.Some? ==> e.value == if id !in s.proposals then NotFound
                                       else if s.proposals[id].deadlockActive then InvalidState else Forbidden)
            && (if e.None? then
                  && OnlyRow(s, t, id, s.proposals[id].(deadlockActive := true, deadlockStage := Some(ConstraintAnalysis)))
                  && Noted(s, t, id, ConstraintAnalysis)
                else t == s)
  {
  }

  /** The stage after another. */
  predicate Next(stage: Stage, next: Stage) {
    || (stage == ConstraintAnalysis && next == AlternativeGeneration)
    || (stage == AlternativeGeneration && next == ResourcePartitioning)
    || (stage == ResourcePartitioning && next == CompensationAssessment)
    || (stage == CompensationAssessment && next == CitizenAssemblyReview)
    || (stage == CitizenAssemblyReview && next == EscalationReview)
    || (stage == EscalationReview && next == ConstitutionalReview)
    || (stage == ConstitutionalReview && next == FinalDecision)
  }

  lemma NextIsInTheList(stage: Stage)
    requires stage != FinalDecision
    ensures Next(stage, STAGES[IndexOf(stage) + 1])
  {
  }

  /** Moved on by a reviewer with notes, from any stage but the last to the next, which is noted. */
  lemma MovedOnExactly(s: State, isReviewer: bool, id: string, notesGiven: bool)
    ensures var (t, e) := AdvanceDeadlock(s, isReviewer, id, notesGiven);
            && (e.None? <==>
                  && isReviewer && notesGiven && id in s.proposals && s.proposals[id].deadlockActive
                  && s.proposals[id].deadlockStage.Some? && s.proposals[id].deadlockStage.value != FinalDecision)
            && (e.Some? ==>
                  e.value == if id !in s.proposals then NotFound
                             else if s.proposals[id].deadlockActive && s.proposals[id].deadlockStage.Some?
                                     && s.proposals[id].deadlockStage.value != FinalDecision && notesGiven then Forbidden
                             else InvalidState)
            && (if e.None? then
                  && id in t.proposals && t.proposals[id].deadlockStage.Some?
                  && Next(s.proposals[id].deadlockStage.value, t.proposals[id].deadlockStage.value)
                  && OnlyRow(s, t, id, s.proposals[id].(deadlockStage := t.proposals[id].deadlockStage))
                  && Noted(s, t, id, t.proposals[id].deadlockStage.value)
                else t == s)
  {
    if id in s.proposals && s.proposals[id].deadlockStage.Some? && s.proposals[id].deadlockStage.value != FinalDecision {
      NextIsInTheList(s.proposals[id].deadlockStage.value);
    }
  }

  /** Concluded by a reviewer from the last stage: approved or rejected as decided, and off the track. */
  lemma ConcludedExactly(s: State, isReviewer: bool, id: string, approve: bool)
    ensures var (t, e) := ConcludeDeadlock(s, isReviewer, id, approve);
            && (e.None? <==>
                  && isReviewer && id in s.proposals && s.proposals[id].deadlockActive
                  && s.proposals[id].deadlockStage == Some(FinalDecision))
            && (e.Some? ==>
                  e.value == if id !in s.proposals then NotFound
                             else if s.proposals[id].deadlockActive && s.proposals[id].deadlockStage == Some(FinalDecision) then Forbidden
                             else InvalidState)
            && (if e.None? then
                  && OnlyRow(s, t, id, s.proposals[id].(deadlockActive := false, status := if approve then Approved else Rejected))
                  && Noted(s, t, id, FinalDecision)
                else t == s)
  {
  }
}
