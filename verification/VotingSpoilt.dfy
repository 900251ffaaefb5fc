/**
 When a finished session can be tallied. Casting checks that a choice is given and not too long, and nothing
 else about it (apps/api-go/internal/voting/service.go, `CastBallot`), while tallying refuses a ballot whose
 choice is not one of the session's options: one such ballot keeps the session from ever being tallied.
 */
module VotingSpoilt {
  import opened Wrappers
  import opened Outcome
  import opened Voting
  import opened VotingSafety

  /** The ballot's choice is an option of its session. */
  predicate NamesAnOption(s: State, b: string)
    requires b in s.ballots
  {
    s.ballots[b].choice in ListAt(s.optionsBySession, s.ballots[b].sessionID)
  }

  /** What a caller can check before tallying, or rather before accepting the last ballot. */
  predicate AllNameOptions(s: State, id: string) {
    forall b :: b in BallotsOf(s, id) ==> NamesAnOption(s, b)
  }

  /** A finished session without a tally can be tallied if and only if every one of its ballots names an option. */
  lemma TalliesIffAllNameOptions(s: State, id: string)
    requires Finished(s, id) && s.sessions[id].tally.None?
    ensures TallySession(s, id).1 == None <==> AllNameOptions(s, id)
    ensures TallySession(s, id).1.None? ==> TallySession(s, id).0.sessions[id].tally == Some(TallyOf(s, id))
    ensures TallySession(s, id).1.Some? ==> TallySession(s, id) == (s, Some(Invalid))
  {
    if AllNameOptions(s, id) {
      assert forall b :: b in BallotsOf(s, id) ==> NamesAnOption(s, b);
    } else {
      var b :| b in BallotsOf(s, id) && !NamesAnOption(s, b);
    }
  }

  /** Closed without a tally, with a ballot that names no option. */
  predicate Spoilt(s: State, id: string) {
    id in s.sessions && s.sessions[id].status == Closed && s.sessions[id].tally.None? && !AllNameOptions(s, id)
  }

  lemma SpoiltIsRefused(s: State, id: string, sink: Option<bool>)
    requires Spoilt(s, id)
    ensures TallySession(s, id) == (s, Some(Invalid))
    ensures Certify(s, id, sink) == (s, Some(Invalid))
  {
    TalliesIffAllNameOptions(s, id);
  }

  /** Other sessions' calls leave this one's tally and status alone; its own are refused. */
  lemma StepLeavesSpoiltSession(s: State, r: Request, hash: string -> string, id: string)
    requires Fresh(s, r) && Spoilt(s, id)
    ensures id in Step(s, r, hash).sessions && Step(s, r, hash).sessions[id] == s.sessions[id]
  {
    if r.DoTally? {
      TallyLeaves(s, r.id, id);
    } else if r.DoCertify? {
      CertifyLeaves(s, r.id, r.sink, id);
    } else if r.DoIssue? {
      if r.id in s.sessions {
        IssueBatchTouchesTokens(s, r.id, r.citizens, r.minted);
      }
    }
  }

  lemma TallyLeaves(s: State, x: string, id: string)
    requires Spoilt(s, id)
    ensures id in TallySession(s, x).0.sessions && TallySession(s, x).0.sessions[id] == s.sessions[id]
  {
    SpoiltIsRefused(s, id, None);
  }

  lemma CertifyLeaves(s: State, x: string, sink: Option<bool>, id: string)
    requires Spoilt(s, id)
    ensures id in Certify(s, x, sink).0.sessions && Certify(s, x, sink).0.sessions[id] == s.sessions[id]
  {
    TallyLeaves(s, x, id);
    if x == id {
      SpoiltIsRefused(s, id, sink);
    }
  }

  lemma StaysSpoilt(s: State, r: Request, hash: string -> string, id: string)
    requires Fresh(s, r) && Spoilt(s, id)
    ensures Spoilt(Step(s, r, hash), id)
  {
    var t := Step(s, r, hash);
    StepLeavesSpoiltSession(s, r, hash, id);
    StepFreezes(s, r, hash, id);
    var b :| b in BallotsOf(s, id) && !NamesAnOption(s, b);
    assert b in BallotsOf(t, id) && !NamesAnOption(t, b);
  }

  /** Whatever is called from then on, a spoilt session stays spoilt: it is never tallied and never certified. */
  lemma {:induction false} SpoiltForGood(s: State, requests: seq<Request>, hash: string -> string, s': State, id: string,
                                         sink: Option<bool>)
    requires Spoilt(s, id) && Run(s, requests, hash, s')
    ensures Spoilt(s', id)
    ensures TallySession(s', id).1 == Some(Invalid) && Certify(s', id, sink).1 == Some(Invalid)
    decreases |requests|
  {
    if requests == [] {
      SpoiltIsRefused(s, id, sink);
    } else {
      StaysSpoilt(s, requests[0], hash, id);
      SpoiltForGood(Step(s, requests[0], hash), requests[1..], hash, s', id, sink);
    }
  }

  /** A ballot that is accepted would be accepted with any other choice of admissible length. */
  lemma AnyChoiceIsAccepted(s: State, c: Cast, now: int, hash: string -> string, choice: string)
    requires CastError(s, c, now, hash).None? && 0 < |choice| <= MAX_CHOICE
    ensures CastError(s, c.(choice := choice), now, hash).None?
  {
  }

  /** One accepted ballot that names no option is enough: once its time is up the session closes spoilt. */
  lemma OneBallotSpoils(s: State, c: Cast, now: int, hash: string -> string, id: string, code: string, choice: string)
    requires CastError(s, c, now, hash).None? && s.sessions[c.sessionID].tally.None?
    requires 0 < |choice| <= MAX_CHOICE && choice !in ListAt(s.optionsBySession, c.sessionID)
    ensures var t := CastBallot(s, c.(choice := choice), now, hash, id, code).0;
            Spoilt(TryClose(t, c.sessionID, s.sessions[c.sessionID].closesAt).0, c.sessionID)
  {
    AnyChoiceIsAccepted(s, c, now, hash, choice);
    var t := CastBallot(s, c.(choice := choice), now, hash, id, code).0;
    var u := TryClose(t, c.sessionID, s.sessions[c.sessionID].closesAt).0;
    assert id in BallotsOf(u, c.sessionID) && !NamesAnOption(u, id);
  }

  // ----- the condition over runs -----

  /** Every ballot of every session names an option. */
  predicate Unspoilt(s: State) {
    forall b :: b in s.ballots ==> NamesAnOption(s, b)
  }

  /** What a caller would have to check before casting: that the session offers the choice. */
  predicate Offered(s: State, r: Request) {
    r.DoCast? ==> r.cast.choice in ListAt(s.optionsBySession, r.cast.sessionID)
  }

  /** A run in which every cast was so checked. */
  ghost predicate CheckedRun(s: State, requests: seq<Request>, hash: string -> string, s': State)
    decreases |requests|
  {
    if requests == [] then s' == s
    else Fresh(s, requests[0]) && Offered(s, requests[0]) && CheckedRun(Step(s, requests[0], hash), requests[1..], hash, s')
  }

  predicate SameOffers(s: State, t: State) {
    t.ballots == s.ballots && t.optionsBySession == s.optionsBySession
  }

  lemma TallyTouchesNeither(s: State, id: string)
    ensures SameOffers(s, TallySession(s, id).0)
  {
  }

  lemma CertifyTouchesNeither(s: State, id: string, sink: Option<bool>)
    ensures SameOffers(s, Certify(s, id, sink).0)
  {
    TallyTouchesNeither(s, id);
  }

  lemma SessionCallsTouchNeither(s: State, r: Request, hash: string -> string)
    requires r.DoCreate? || r.DoOpen? || r.DoClose?
    ensures SameOffers(s, Step(s, r, hash))
  {
  }

  lemma IssueTouchesNeither(s: State, r: Request, hash: string -> string)
    requires Fresh(s, r) && r.DoIssue?
    ensures SameOffers(s, Step(s, r, hash))
  {
    if r.id in s.sessions {
      IssueBatchTouchesTokens(s, r.id, r.citizens, r.minted);
    }
  }

  /** Ballots and option lists are touched by casting and by adding options alone. */
  lemma OtherCallsTouchNeither(s: State, r: Request, hash: string -> string)
    requires Fresh(s, r) && !r.DoCast? && !r.DoAddOption?
    ensures SameOffers(s, Step(s, r, hash))
  {
    match r
    case DoIssue(_, _, _) => IssueTouchesNeither(s, r, hash);
    case DoTally(id) => TallyTouchesNeither(s, id);
    case DoCertify(id, sink) => CertifyTouchesNeither(s, id, sink);
    case _ => SessionCallsTouchNeither(s, r, hash);
  }

  lemma AddOptionKeepsUnspoilt(s: State, id: string, o: VoteOption)
    requires Unspoilt(s)
    ensures Unspoilt(AddOption(s, id, o).0)
  {
    forall b | b in s.ballots
      ensures NamesAnOption(AddOption(s, id, o).0, b)
    {
      assert NamesAnOption(s, b);
    }
  }

  lemma CastKeepsUnspoilt(s: State, r: Request, hash: string -> string)
    requires Unspoilt(s) && r.DoCast? && Offered(s, r)
    ensures Unspoilt(Step(s, r, hash))
  {
    var t := Step(s, r, hash);
    forall b | b in t.ballots
      ensures NamesAnOption(t, b)
    {
      assert b in s.ballots ==> NamesAnOption(s, b);
    }
  }

  /** If no accepted ballot names anything but an option of its session, every finished session can be tallied. */
  lemma {:induction false} CheckedRunsCanBeTallied(s: State, requests: seq<Request>, hash: string -> string, s': State, id: string)
    requires Unspoilt(s) && CheckedRun(s, requests, hash, s')
    ensures Unspoilt(s')
    ensures Finished(s', id) ==> TallySession(s', id).1.None?
    decreases |requests|
  {
    if requests == [] {
      if Finished(s', id) && s'.sessions[id].tally.None? {
        TalliesIffAllNameOptions(s', id);
      }
    } else {
      var r := requests[0];
      if r.DoCast? {
        CastKeepsUnspoilt(s, r, hash);
      } else if r.DoAddOption? {
        AddOptionKeepsUnspoilt(s, r.id, r.option);
      } else {
        OtherCallsTouchNeither(s, r, hash);
        assert forall b :: b in s.ballots ==> NamesAnOption(s, b);
      }
      CheckedRunsCanBeTallied(Step(s, r, hash), requests[1..], hash, s', id);
    }
  }
}
