/**
 The proposal and deadlock services over their tables, in the source's own shape. Every call ends with the
 tables, and the answer, that `Proposals` says.
 */
module ProposalService {
  import opened Wrappers
  import opened Proposals

  class Database {
    var proposals: map<string, Proposal>
    var constraints: map<string, seq<string>>
    var budgets: map<string, Budget>
    var challenges: map<string, Challenge>
    var history: map<string, seq<Stage>>
    var projects: map<string, string>

    ghost function View(): State
      reads this
    {
      State(proposals, constraints, budgets, challenges, history, projects)
    }

    constructor ()
      ensures View() == Empty
    {
      proposals, constraints, budgets, challenges, history, projects := map[], map[], map[], map[], map[], map[];
    }

    method Create(id: string, author: string, active: bool, problem: Option<string>, population: Option<int>, rule: SupportRule)
      returns (e: Option<Error>)
      modifies this`proposals
      ensures (View(), e) == Proposals.Create(old(View()), id, author, active, problem, population, rule)
    {
      if !active {
        return Some(Forbidden);
      }
      if problem.None? {
        return Some(NotFound);
      }
      if population.None? {
        return Some(InvalidState);
      }
      var supportThreshold := ComputeSupportThreshold(population.value, rule);
      proposals := proposals[id := Proposal(problem.value, author, None, 0, supportThreshold, Draft, None, None, false, None)];
      e := None;
    }

    /** The checks every edit makes. */
    method CheckEdit(citizen: string, active: bool, id: string) returns (e: Option<Error>)
      ensures e == EditError(View(), citizen, active, id)
    {
      if !active {
        return Some(Forbidden);
      }
      if id !in proposals {
        return Some(NotFound);
      }
      if proposals[id].authorId != citizen {
        return Some(Forbidden);
      }
      if !Editable(proposals[id].status) {
        return Some(InvalidState);
      }
      e := None;
    }

    method UpdateDetails(citizen: string, active: bool, id: string, details: Details) returns (e: Option<Error>)
      modifies this`proposals
      ensures (View(), e) == Proposals.UpdateDetails(old(View()), citizen, active, id, details)
    {
      e := CheckEdit(citizen, active, id);
      if e.None? {
        proposals := proposals[id := proposals[id].(details := Some(details))];
      }
    }

    method AddConstraint(citizen: string, active: bool, id: string, text: string) returns (e: Option<Error>)
      modifies this`constraints
      ensures (View(), e) == Proposals.AddConstraint(old(View()), citizen, active, id, text)
    {
      e := CheckEdit(citizen, active, id);
      if e.None? {
        constraints := constraints[id := ListAt(constraints, id) + [text]];
      }
    }

    method AddBudget(citizen: string, active: bool, id: string, fields: Budget) returns (e: Option<Error>)
      modifies this`budgets
      ensures (View(), e) == Proposals.AddBudget(old(View()), citizen, active, id, fields)
    {
      e := CheckEdit(citizen, active, id);
      if e.None? {
        if id in budgets {
          budgets := budgets[id := budgets[id] + fields];
        } else {
          budgets := budgets[id := fields];
          assert map[] + fields == fields;
        }
      }
    }

    method FileScopeChallenge(citizen: string, active: bool, id: string, affected: bool, challengeId: string, reason: string, now: int)
      returns (e: Option<Error>)
      modifies this`challenges, this`proposals
      ensures (View(), e) == FileChallenge(old(View()), citizen, active, id, affected, challengeId, reason, now)
    {
      if !active {
        return Some(Forbidden);
      }
      if id !in proposals {
        return Some(NotFound);
      }
      if proposals[id].scope.None? {
        return Some(InvalidState);
      }
      if !affected {
        return Some(Forbidden);
      }
      challenges := challenges[challengeId := Challenge(id, citizen, reason, Open)];
      proposals := proposals[id := proposals[id].(scopeChallengedAt := Some(now))];
      e := None;
    }

    method AssignScope(reviewBody: bool, id: string, jurisdiction: string) returns (e: Option<Error>)
      modifies this`proposals
      ensures (View(), e) == Proposals.AssignScope(old(View()), reviewBody, id, jurisdiction)
    {
      if !reviewBody {
        return Some(Forbidden);
      }
      if id !in proposals {
        return Some(NotFound);
      }
      proposals := proposals[id := proposals[id].(scope := Some(jurisdiction))];
      e := None;
    }

    /** How many challenges to a proposal's scope are still open. */
    method CountOpen(id: string) returns (stillOpen: nat)
      ensures stillOpen > 0 <==> HasOpen(challenges, id)
    {
      stillOpen := 0;
      var rest := challenges.Keys;
      while rest != {}
        invariant rest <= challenges.Keys
        invariant stillOpen > 0 <==> exists c :: c in challenges && c !in rest && OpenFor(challenges, c, id)
      {
        var c :| c in rest;
        ghost var before := rest;
        rest := rest - {c};
        if OpenFor(challenges, c, id) {
          stillOpen := stillOpen + 1;
          assert c in challenges && c !in rest && OpenFor(challenges, c, id);
        } else {
          assert forall x :: x in challenges && OpenFor(challenges, x, id) ==> (x !in rest <==> x !in before);
        }
      }
    }

    method ResolveScopeChallenge(reviewBody: bool, challengeId: string, outcome: ChallengeStatus) returns (e: Option<Error>)
      requires outcome != Open
      requires challengeId in challenges ==> challenges[challengeId].proposalId in proposals
      modifies this`challenges, this`proposals
      ensures (View(), e) == ResolveChallenge(old(View()), reviewBody, challengeId, outcome)
    {
      if !reviewBody {
        return Some(Forbidden);
      }
      if challengeId !in challenges {
        return Some(NotFound);
      }
      var challenge := challenges[challengeId];
      if challenge.status != Open {
        return Some(InvalidState);
      }
      challenges := challenges[challengeId := challenge.(status := outcome)];
      var stillOpen := CountOpen(challenge.proposalId);
      if stillOpen == 0 {
        proposals := proposals[challenge.proposalId := proposals[challenge.proposalId].(scopeChallengedAt := None)];
      }
      e := None;
    }

    /** The one place the proposal service writes a status. */
    method TransitionStatus(id: string, status: Status)
      requires id in proposals
      modifies this`proposals
      ensures View() == SetStatus(old(View()), id, status)
    {
      proposals := proposals[id := proposals[id].(status := status)];
    }

    method Advance(citizen: string, active: bool, id: string, cleared: bool) returns (e: Option<Error>)
      modifies this`proposals
      ensures (View(), e) == Proposals.Advance(old(View()), citizen, active, id, cleared)
    {
      if !active {
        return Some(Forbidden);
      }
      if id !in proposals {
        return Some(NotFound);
      }
      var proposal := proposals[id];
      if proposal.authorId != citizen {
        return Some(Forbidden);
      }
      if proposal.deadlockActive {
        return Some(InvalidState);
      }
      var next := NextStatus(proposal.status);
      if next.None? {
        return Some(InvalidState);
      }
      if proposal.status == Development {
        if proposal.scope.None? {
          return Some(InvalidState);
        }
        if proposal.scopeChallengedAt.Some? {
          return Some(InvalidState);
        }
        if !cleared {
          return Some(InvalidState);
        }
      }
      TransitionStatus(id, next.value);
      e := None;
    }

    /** The bulk update of the count. */
    method WriteCounts(linked: set<string>, count: int)
      modifies this`proposals
      ensures proposals == map id | id in old(proposals) ::
                             if id in linked then old(proposals)[id].(supportCount := count) else old(proposals)[id]
    {
      proposals := map id | id in proposals :: if id in linked then proposals[id].(supportCount := count) else proposals[id];
    }

    /**
     Reads the linked proposals, writes the new count to all of them, then moves those that have reached
     their threshold, one by one in whatever order they come.
     */
    method RecomputeSupportForProblem(problem: string, count: int)
      modifies this`proposals
      ensures View() == RecomputeSupport(old(View()), problem, count)
    {
      ghost var before := proposals;
      var rows := map id | id in proposals && proposals[id].problemId == problem :: proposals[id];
      WriteCounts(rows.Keys, count);
      var rest := rows.Keys;
      while rest != {}
        invariant rest <= rows.Keys
        invariant Halfway(before, proposals, rest, problem, count)
        invariant View() == old(View()).(proposals := proposals)
      {
        var id :| id in rest;
        ghost var was := proposals;
        rest := rest - {id};
        if rows[id].status == GatheringSupport && count >= rows[id].supportThreshold {
          TransitionStatus(id, Development);
        }
        OneMore(before, was, proposals, rest, id, problem, count);
      }
      HalfwayDone(before, proposals, problem, count);
    }

    method Reconcile(id: string, session: string, checks: Option<Error>) returns (e: Option<Error>)
      modifies this`proposals, this`projects
      ensures (View(), e) == CompleteCertified(old(View()), id, session, checks)
    {
      if checks.Some? {
        return checks;
      }
      if id !in proposals {
        return Some(NotFound);
      }
      if proposals[id].status != Voting && proposals[id].status != Approved {
        return Some(InvalidState);
      }
      if id in projects {
        return if projects[id] != session then Some(Conflict) else None;
      }
      if session in projects.Values {
        return Some(Conflict);
      }
      TransitionStatus(id, Approved);
      projects := projects[id := session];
      e := None;
    }

    method AddHistory(id: string, stage: Stage)
      modifies this`history
      ensures history == old(history)[id := ListAt(old(history), id) + [stage]]
    {
      history := history[id := ListAt(history, id) + [stage]];
    }

    method EnterDeadlock(isReviewer: bool, id: string) returns (e: Option<Error>)
      modifies this`proposals, this`history
      ensures (View(), e) == Proposals.EnterDeadlock(old(View()), isReviewer, id)
    {
      if id !in proposals {
        return Some(NotFound);
      }
      if proposals[id].deadlockActive {
        return Some(InvalidState);
      }
      if !isReviewer {
        return Some(Forbidden);
      }
      proposals := proposals[id := proposals[id].(deadlockActive := true, deadlockStage := Some(STAGES[0]))];
      AddHistory(id, STAGES[0]);
      e := None;
    }

    method AdvanceDeadlock(isReviewer: bool, id: string, notesGiven: bool) returns (e: Option<Error>)
      modifies this`proposals, this`history
      ensures (View(), e) == Proposals.AdvanceDeadlock(old(View()), isReviewer, id, notesGiven)
    {
      if id !in proposals {
        return Some(NotFound);
      }
      var proposal := proposals[id];
      if !proposal.deadlockActive || proposal.deadlockStage.None? {
        return Some(InvalidState);
      }
      if proposal.deadlockStage == Some(FinalDecision) {
        return Some(InvalidState);
      }
      if !notesGiven {
        return Some(InvalidState);
      }
      if !isReviewer {
        return Some(Forbidden);
      }
      var nextStage := STAGES[IndexOf(proposal.deadlockStage.value) + 1];
      proposals := proposals[id := proposal.(deadlockStage := Some(nextStage))];
      AddHistory(id, nextStage);
      e := None;
    }

    method ConcludeDeadlock(isReviewer: bool, id: string, approve: bool) returns (e: Option<Error>)
      modifies this`proposals, this`history
      ensures (View(), e) == Proposals.ConcludeDeadlock(old(View()), isReviewer, id, approve)
    {
      if id !in proposals {
        return Some(NotFound);
      }
      var proposal := proposals[id];
      if !proposal.deadlockActive || proposal.deadlockStage != Some(FinalDecision) {
        return Some(InvalidState);
      }
      if !isReviewer {
        return Some(Forbidden);
      }
      proposals := proposals[id := proposal.(deadlockActive := false, status := if approve then Approved else Rejected)];
      AddHistory(id, FinalDecision);
      e := None;
    }
  }

  /** Every row has the new count if it is linked, and has moved if it should and its turn has come. */
  ghost predicate Halfway(before: map<string, Proposal>, now: map<string, Proposal>, rest: set<string>, problem: string, count: int) {
    && now.Keys == before.Keys
    && (forall id :: id in rest ==> id in before && before[id].problemId == problem)
    && forall id :: id in now ==>
         now[id] == if id in rest then before[id].(supportCount := count) else Recomputed(before[id], problem, count)
  }

  lemma OneMore(before: map<string, Proposal>, was: map<string, Proposal>, now: map<string, Proposal>, rest: set<string>,
                id: string, problem: string, count: int)
    requires id !in rest && Halfway(before, was, rest + {id}, problem, count)
    requires now == was[id := Recomputed(before[id], problem, count)]
    ensures Halfway(before, now, rest, problem, count)
  {
  }

  lemma HalfwayDone(before: map<string, Proposal>, now: map<string, Proposal>, problem: string, count: int)
    requires Halfway(before, now, {}, problem, count)
    ensures now == map id | id in before :: Recomputed(before[id], problem, count)
  {
  }
}
