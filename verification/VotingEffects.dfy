/**
 When each call of the voting service succeeds and what it does to the tables, described by the fields of the rows
 (apps/api-go/internal/voting/service.go and store.go), and what certification says about the turnout in every run.
 */
module VotingEffects {
  import opened Wrappers
  import opened Outcome
  import opened Voting
  import opened VotingSafety
  import opened VotingSpoilt

  // ----- the quorum -----

  /** As many ballots as the minimum asks of the tokens issued; without tokens the minimum must ask for nothing. */
  predicate EnoughTurnout(ballots: nat, tokens: nat, minimum: real) {
    if tokens > 0 then ballots as real >= minimum * (tokens as real) else minimum <= 0.0
  }

  predicate Quorate(s: State, id: string)
    requires id in s.sessions
  {
    EnoughTurnout(|BallotsOf(s, id)|, |TokensOf(s, id)|, s.sessions[id].minParticipation)
  }

  lemma ShareAtLeast(ballots: nat, tokens: nat, minimum: real)
    ensures Participation(ballots, tokens) >= minimum <==> EnoughTurnout(ballots, tokens, minimum)
  {
    if tokens > 0 {
      var share := (ballots as real) / (tokens as real);
      assert share * (tokens as real) == ballots as real;
    }
  }

  /** The turnout that is compared is that of the ballots and tokens the session has. */
  lemma ParticipationDecides(s: State, spent: Pairing, id: string)
    requires Inv(s, spent) && id in s.sessions
    ensures Participation(|BallotsOf(s, id)|, |ListAt(s.tokensBySession, id)|) >= s.sessions[id].minParticipation <==> Quorate(s, id)
  {
    RollIsTheTokens(s, id);
    ShareAtLeast(|BallotsOf(s, id)|, |TokensOf(s, id)|, s.sessions[id].minParticipation);
  }

  /** The session can be tallied, or is: each of its ballots names one of its options. */
  predicate Countable(s: State, id: string)
    requires id in s.sessions
  {
    s.sessions[id].tally.Some?
    || forall b :: b in s.ballots && s.ballots[b].sessionID == id ==> s.ballots[b].choice in ListAt(s.optionsBySession, id)
  }

  lemma CountableIffAllNameOptions(s: State, id: string)
    requires id in s.sessions && s.sessions[id].tally.None?
    ensures Countable(s, id) <==> AllNameOptions(s, id)
  {
    assert forall b :: b in BallotsOf(s, id) ==> (NamesAnOption(s, b) <==> s.ballots[b].choice in ListAt(s.optionsBySession, id));
  }

  lemma CountableIsTallied(s: State, spent: Pairing, id: string)
    requires Inv(s, spent) && id in s.sessions && s.sessions[id].status == Closed
    ensures var (t, e) := TallySession(s, id);
            && (e.None? <==> Countable(s, id)) && (e.Some? ==> t == s && e == Some(Invalid))
            && (e.None? ==> t == s.(sessions := s.sessions[id := s.sessions[id].(tally := Some(TallyOf(s, id)))]))
  {
    if s.sessions[id].tally.None? {
      TalliesIffAllNameOptions(s, id);
      CountableIffAllNameOptions(s, id);
    } else {
      assert TallyRight(s, id);
    }
  }

  /** The state in which a certification leaves a countable session. */
  ghost predicate CertifiedAs(s: State, t: State, id: string)
    requires id in s.sessions
  {
    && id in t.sessions && t == s.(sessions := s.sessions[id := t.sessions[id]])
    && t.sessions[id].status == (if Quorate(s, id) then Certified else Closed)
    && t.sessions[id].tally == Some(TallyOf(s, id))
    && t.sessions[id].(status := Closed, tally := s.sessions[id].tally) == s.sessions[id]
  }

  /** Once the tally is there, the turnout decides, and only the delivery of the result can still fail. */
  lemma TurnoutDecides(s: State, id: string, sink: Option<bool>, t: State)
    requires id in s.sessions && s.sessions[id].status == Closed && TallySession(s, id) == (t, None)
    requires t == s.(sessions := s.sessions[id := s.sessions[id].(tally := Some(TallyOf(s, id)))])
    requires Participation(|BallotsOf(s, id)|, |ListAt(s.tokensBySession, id)|) >= s.sessions[id].minParticipation <==> Quorate(s, id)
    ensures CertifiedAs(s, Certify(s, id, sink).0, id)
    ensures Certify(s, id, sink).1 ==
            if Quorate(s, id) && sink == Some(false) && TallyOf(s, id).decided then Some(GovernanceUnavailable) else None
  {
    assert TallyOf(s, id).totalBallots == |BallotsOf(s, id)|;
  }

  /**
   A closed session that can be counted is certified exactly if it is quorate, and stays closed otherwise, in either
   case with the tally of its ballots; one that cannot be counted is left as it is. Nothing else changes.
   */
  lemma CertifiedIffQuorate(s: State, spent: Pairing, id: string, sink: Option<bool>)
    requires Inv(s, spent) && id in s.sessions && s.sessions[id].status == Closed
    ensures if Countable(s, id) then
              && CertifiedAs(s, Certify(s, id, sink).0, id)
              && Certify(s, id, sink).1 ==
                 if Quorate(s, id) && sink == Some(false) && TallyOf(s, id).decided then Some(GovernanceUnavailable) else None
            else Certify(s, id, sink) == (s, Some(Invalid))
  {
    CountableIsTallied(s, spent, id);
    if Countable(s, id) {
      ParticipationDecides(s, spent, id);
      TurnoutDecides(s, id, sink, TallySession(s, id).0);
    } else {
      UncountableIsRefused(s, id, sink);
    }
  }

  lemma UncountableIsRefused(s: State, id: string, sink: Option<bool>)
    requires id in s.sessions && s.sessions[id].status == Closed && TallySession(s, id) == (s, Some(Invalid))
    ensures Certify(s, id, sink) == (s, Some(Invalid))
  {
  }

  /** In any other status nothing changes; a certified session's result can be delivered again. */
  lemma OnlyClosedSessionsAreCertified(s: State, id: string, sink: Option<bool>)
    requires id in s.sessions ==> s.sessions[id].status != Closed
    ensures Certify(s, id, sink).0 == s
    ensures Certify(s, id, sink).1 ==
            if id !in s.sessions then Some(NotFound)
            else if s.sessions[id].status != Certified || sink == None then Some(InvalidState)
            else if s.sessions[id].tally.Some? && s.sessions[id].tally.value.decided && sink == Some(false) then Some(GovernanceUnavailable)
            else None
  {
  }

  predicate IsCertified(s: State, id: string) {
    id in s.sessions && s.sessions[id].status == Certified
  }

  /** Calls other than certifying the session leave it as uncertified as it was. */
  lemma OthersDoNotCertify(s: State, r: Request, hash: string -> string, id: string)
    requires Fresh(s, r) && !IsCertified(s, id) && !(r.DoCertify? && r.id == id)
    ensures !IsCertified(Step(s, r, hash), id)
  {
    match r
    case DoTally(x) => TallyCertifiesNothing(s, x, id);
    case DoCertify(x, sink) => CertifyTouchesOne(s, x, sink, id);
    case DoIssue(_, _, _) => IssueTouchesNoSession(s, r, hash);
    case _ => SmallCallsCertifyNothing(s, r, hash, id);
  }

  lemma TallyCertifiesNothing(s: State, x: string, id: string)
    requires !IsCertified(s, id)
    ensures !IsCertified(TallySession(s, x).0, id)
  {
  }

  lemma CertifyTouchesOne(s: State, x: string, sink: Option<bool>, id: string)
    requires !IsCertified(s, id) && x != id
    ensures !IsCertified(Certify(s, x, sink).0, id)
  {
    CertifyIsTallyThenStatus(s, x, sink);
    TallyCertifiesNothing(s, x, id);
  }

  lemma IssueTouchesNoSession(s: State, r: Request, hash: string -> string)
    requires Fresh(s, r) && r.DoIssue?
    ensures Step(s, r, hash).sessions == s.sessions
  {
    if r.id in s.sessions {
      IssueBatchTouchesTokens(s, r.id, r.citizens, r.minted);
    }
  }

  lemma SmallCallsCertifyNothing(s: State, r: Request, hash: string -> string, id: string)
    requires !r.DoTally? && !r.DoCertify? && !r.DoIssue? && !IsCertified(s, id)
    ensures !IsCertified(Step(s, r, hash), id)
  {
  }

  /** What the state was like when the certification was asked for. */
  ghost predicate CertifiedOn(s: State, r: Request, id: string) {
    && r.DoCertify? && r.id == id && id in s.sessions && s.sessions[id].status == Closed && Countable(s, id) && Quorate(s, id)
  }

  lemma CertifyingMeansQuorate(s: State, spent: Pairing, r: Request, hash: string -> string, id: string)
    requires Inv(s, spent) && Fresh(s, r) && !IsCertified(s, id) && IsCertified(Step(s, r, hash), id)
    ensures CertifiedOn(s, r, id)
  {
    if !(r.DoCertify? && r.id == id) {
      OthersDoNotCertify(s, r, hash, id);
    } else if id in s.sessions && s.sessions[id].status == Closed {
      CertifiedIffQuorate(s, spent, id, r.sink);
    } else {
      OnlyClosedSessionsAreCertified(s, id, r.sink);
    }
  }

  /**
   In every run, a session that is certified was certified by a call that found it closed, countable and quorate.
   Tokens may still be issued later, so the turnout is that at the time of the call.
   */
  lemma {:induction false} EveryCertifiedSessionWasQuorate(s: State, spent: Pairing, requests: seq<Request>, hash: string -> string,
                                                           s': State, id: string) returns (m: nat, before: State)
    requires Inv(s, spent) && Run(s, requests, hash, s') && !IsCertified(s, id) && IsCertified(s', id)
    ensures m < |requests| && Run(s, requests[..m], hash, before) && CertifiedOn(before, requests[m], id)
    decreases |requests|
  {
    var next := Step(s, requests[0], hash);
    if IsCertified(next, id) {
      m, before := 0, s;
      CertifyingMeansQuorate(s, spent, requests[0], hash, id);
    } else {
      var spent' := StepKeeps(s, requests[0], hash, spent);
      var k: nat;
      k, before := EveryCertifiedSessionWasQuorate(next, spent', requests[1..], hash, s', id);
      m := k + 1;
      assert requests[..m][0] == requests[0] && requests[..m][1..] == requests[1..][..k];
    }
  }

  // ----- the other calls -----

  /** A session is tallied exactly if it is over and countable; the tally is that of its ballots, unless it has one already. */
  lemma TalliedExactly(s: State, id: string)
    ensures var (t, e) := TallySession(s, id);
            && (e.None? <==>
                  id in s.sessions && (s.sessions[id].status == Closed || s.sessions[id].status == Certified) && Countable(s, id))
            && (e.Some? ==>
                  e.value == if id !in s.sessions then NotFound
                             else if s.sessions[id].status == Closed || s.sessions[id].status == Certified then Invalid
                             else InvalidState)
            && t == if e.None? && s.sessions[id].tally.None? then
                      s.(sessions := s.sessions[id := s.sessions[id].(tally := Some(TallyOf(s, id)))])
                    else s
  {
    if id in s.sessions && s.sessions[id].tally.None? {
      CountableIffAllNameOptions(s, id);
    }
  }

  /** A session opens exactly if it is scheduled, cooled off and in its window by both readings of the clock. */
  lemma OpensExactly(s: State, id: string, now: int, storeNow: int)
    ensures var (t, e) := TryOpen(s, id, now, storeNow);
            && (e.None? <==>
                  && id in s.sessions && s.sessions[id].status == Scheduled
                  && s.sessions[id].opensAt <= now < s.sessions[id].closesAt && s.sessions[id].coolingOffUntil <= now
                  && s.sessions[id].opensAt <= storeNow < s.sessions[id].closesAt && s.sessions[id].coolingOffUntil <= storeNow)
            && (e.Some? ==> e.value == if id in s.sessions then InvalidState else NotFound)
            && t == if e.None? then s.(sessions := s.sessions[id := s.sessions[id].(status := Open)]) else s
  {
  }

  /** A session closes exactly if it is open and its window has ended. */
  lemma ClosesExactly(s: State, id: string, now: int)
    ensures var (t, e) := TryClose(s, id, now);
            && (e.None? <==> id in s.sessions && s.sessions[id].status == Open && s.sessions[id].closesAt <= now)
            && (e.Some? ==> e.value == if id in s.sessions then InvalidState else NotFound)
            && t == if e.None? then s.(sessions := s.sessions[id := s.sessions[id].(status := Closed)]) else s
  {
  }

  /** A session is created exactly for named, not overlong references, a share as minimum and a window that lasts. */
  lemma CreatesExactly(s: State, id: string, session: Session)
    ensures var (t, e) := CreateSession(s, id, session);
            && (e.None? <==>
                  && 0 < |session.proposalID| <= 256 && 0 < |session.jurisdictionID| <= 256
                  && 0.0 <= session.minParticipation <= 1.0 && session.opensAt < session.closesAt)
            && (e.Some? ==> e.value == Invalid)
            && t == if e.None? then s.(sessions := s.sessions[id := session.(status := Scheduled, tally := None)]) else s
  {
  }

  /** An option joins exactly a scheduled session, with texts that are not overlong. */
  lemma OptionJoinsExactly(s: State, id: string, o: VoteOption)
    requires id !in s.options
    ensures var (t, e) := AddOption(s, id, o);
            && (e.None? <==>
                  && o.sessionID in s.sessions && s.sessions[o.sessionID].status == Scheduled
                  && |o.optionLabel| <= 256 && |o.description| <= 4096)
            && (e.Some? ==>
                  e.value == if o.sessionID in s.sessions && s.sessions[o.sessionID].status == Scheduled then Invalid else InvalidState)
            && (if e.None? then
                  && t == s.(options := t.options, optionsBySession := t.optionsBySession)
                  && t.options == s.options[id := o] && id in ListAt(t.optionsBySession, o.sessionID)
                  && (forall x, y :: y in ListAt(s.optionsBySession, x) ==> y in ListAt(t.optionsBySession, x))
                  && (forall x, y :: y in ListAt(t.optionsBySession, x) ==> y in ListAt(s.optionsBySession, x) || (x == o.sessionID && y == id))
                else t == s)
  {
  }

  /** A ballot is accepted exactly on these grounds, and then uses up this token and no other. */
  lemma BallotCountsExactly(s: State, c: Cast, now: int, hash: string -> string, id: string, code: string)
    requires id !in s.ballots
    ensures var (t, e) := CastBallot(s, c, now, hash, id, code);
            && (e.None? <==>
                  && c.sessionID in s.sessions && s.sessions[c.sessionID].status == Open
                  && s.sessions[c.sessionID].opensAt <= now < s.sessions[c.sessionID].closesAt
                  && 0 < |c.tokenBlind| <= 256 && 0 < |c.choice| <= 8192 && c.citizenID != ""
                  && c.tokenID in s.tokens && s.tokens[c.tokenID].sessionID == c.sessionID
                  && s.tokens[c.tokenID].citizenID == c.citizenID && !s.tokens[c.tokenID].used
                  && hash(c.tokenBlind) == s.tokens[c.tokenID].blindHash)
            && (if e.None? then
                  && t == s.(ballots := t.ballots, ballotByCode := t.ballotByCode, tokens := t.tokens)
                  && t.ballots == s.ballots[id := Ballot(c.sessionID, c.choice, code)]
                  && t.ballotByCode == s.ballotByCode[code := id]
                  && t.tokens == s.tokens[c.tokenID := s.tokens[c.tokenID].(used := true)]
                else t == s)
  {
  }

  /** Which error a refused ballot gets: a token already used is a conflict, one of another session is not found. */
  lemma BallotIsRefusedFor(s: State, c: Cast, now: int, hash: string -> string, id: string, code: string)
    requires CastBallot(s, c, now, hash, id, code).1.Some?
    ensures var e := CastBallot(s, c, now, hash, id, code).1.value;
            && (e == Conflict <==>
                  && OpenFor(s, c, now) && InBounds(c) && c.tokenID in s.tokens && s.tokens[c.tokenID].sessionID == c.sessionID
                  && s.tokens[c.tokenID].citizenID == c.citizenID && s.tokens[c.tokenID].used)
            && (e == NotFound <==>
                  || c.sessionID !in s.sessions
                  || (OpenFor(s, c, now) && InBounds(c) && (c.tokenID in s.tokens ==> s.tokens[c.tokenID].sessionID != c.sessionID)))
            && (e == InvalidState <==>
                  && c.sessionID in s.sessions && !OpenFor(s, c, now) && (s.sessions[c.sessionID].status == Open ==> InBounds(c)))
            && (e == Conflict || e == NotFound || e == InvalidState || e == Invalid)
  {
  }

  predicate OpenFor(s: State, c: Cast, now: int) {
    && c.sessionID in s.sessions && s.sessions[c.sessionID].status == Open
    && s.sessions[c.sessionID].opensAt <= now < s.sessions[c.sessionID].closesAt
  }

  predicate InBounds(c: Cast) {
    0 < |c.tokenBlind| <= 256 && 0 < |c.choice| <= 8192 && c.citizenID != ""
  }

  /** After a batch without an empty id, every citizen in it has a token of the session; existing tokens stay. */
  lemma {:induction false} EveryoneInTheBatchHasAToken(s: State, sessionID: string, citizens: seq<string>, minted: seq<FreshToken>,
                                                       k: nat)
    requires TokenInv(s) && sessionID in s.sessions && Fresh(s, DoIssue(sessionID, citizens, minted))
    requires (forall i :: 0 <= i < |citizens| ==> citizens[i] != "") && k < |citizens|
    ensures var (t, e) := IssueTokens(s, sessionID, citizens, minted);
            && e.None? && (forall x :: x in s.tokens ==> x in t.tokens && t.tokens[x] == s.tokens[x])
            && exists x :: x in t.tokens && t.tokens[x].sessionID == sessionID && t.tokens[x].citizenID == citizens[k]
    decreases |citizens|
  {
    var one := IssueToken(s, sessionID, citizens[0], minted[0]);
    IssueTokenKeepsTokenInv(s, sessionID, citizens[0], minted[0]);
    var x := TokenAfterIssue(s, sessionID, citizens[0], minted[0]);
    assert IssueBatch(s, sessionID, citizens, minted) == IssueBatch(one, sessionID, citizens[1..], minted[1..]);
    if |citizens| > 1 {
      assert one.sessions == s.sessions;
      EveryoneInTheBatchHasAToken(one, sessionID, citizens[1..], minted[1..], if k > 0 then k - 1 else 0);
    }
  }

  lemma TokenAfterIssue(s: State, sessionID: string, citizenID: string, minted: FreshToken) returns (x: string)
    requires TokenInv(s) && sessionID in s.sessions && minted.id !in s.tokens
    ensures var t := IssueToken(s, sessionID, citizenID, minted);
            && x in t.tokens && t.tokens[x].sessionID == sessionID && t.tokens[x].citizenID == citizenID
            && (forall y :: y in s.tokens ==> y in t.tokens && t.tokens[y] == s.tokens[y])
            && (forall y :: y in t.tokens ==> y in s.tokens || y == minted.id)
  {
    var key := TokenKey(sessionID, citizenID);
    if key in s.tokenByKey {
      x := s.tokenByKey[key];
      KeyDeterminesCitizen(sessionID, citizenID, s.tokens[x].sessionID, s.tokens[x].citizenID);
    } else {
      x := minted.id;
    }
  }

  /** The first empty id stops a batch: what came before it is issued and stays, the rest is not. */
  lemma {:induction false} BatchStopsAtAnEmptyId(s: State, sessionID: string, citizens: seq<string>, minted: seq<FreshToken>, k: nat)
    requires |minted| == |citizens| && k < |citizens| && citizens[k] == "" && sessionID in s.sessions
    requires forall i :: 0 <= i < k ==> citizens[i] != ""
    ensures IssueTokens(s, sessionID, citizens, minted) ==
            (IssueTokens(s, sessionID, citizens[..k], minted[..k]).0, Some(Invalid))
    decreases k
  {
    if k > 0 {
      var one := IssueToken(s, sessionID, citizens[0], minted[0]);
      assert citizens[..k][1..] == citizens[1..][..k - 1] && minted[..k][1..] == minted[1..][..k - 1];
      BatchStopsAtAnEmptyId(one, sessionID, citizens[1..], minted[1..], k - 1);
    }
  }
}
