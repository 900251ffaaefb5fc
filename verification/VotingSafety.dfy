/**
 What every run of the voting service keeps: ballots match used tokens one to one, a tally is a recount
 of frozen ballots, and turnout never exceeds the roll.
 */
module VotingSafety {
  import opened Wrappers
  import opened Sizes
  import opened Outcome
  import opened Voting

  // ----- tokens -----

  /** Every token is indexed under its session and citizen, and the index holds nothing else. */
  ghost predicate TokensIndexed(s: State) {
    && (forall t :: t in s.tokens ==>
          && s.tokens[t].sessionID in s.sessions
          && TokenKey(s.tokens[t].sessionID, s.tokens[t].citizenID) in s.tokenByKey
          && s.tokenByKey[TokenKey(s.tokens[t].sessionID, s.tokens[t].citizenID)] == t)
    && (forall k :: k in s.tokenByKey ==>
          && s.tokenByKey[k] in s.tokens
          && TokenKey(s.tokens[s.tokenByKey[k]].sessionID, s.tokens[s.tokenByKey[k]].citizenID) == k)
  }

  predicate Distinct(xs: seq<string>) {
    forall i, j :: 0 <= i < j < |xs| ==> xs[i] != xs[j]
  }

  /** The per-session list names each token of the session exactly once. */
  ghost predicate RollsListed(s: State) {
    forall id ::
      && Distinct(ListAt(s.tokensBySession, id))
      && (forall t :: t in ListAt(s.tokensBySession, id) <==> t in s.tokens && s.tokens[t].sessionID == id)
  }

  ghost predicate SessionIdsNulFree(s: State) {
    forall id :: id in s.sessions ==> '\0' !in id
  }

  // ----- ballots -----

  /** Which token each ballot used up, and which ballot each used token bought. */
  datatype Pairing = Pairing(tokenOf: map<string, string>, ballotOf: map<string, string>)

  /** Ballots and used tokens are in bijection, within each session. */
  ghost predicate BallotsPaired(s: State, spent: Pairing) {
    && spent.tokenOf.Keys == s.ballots.Keys
    && (forall b :: b in s.ballots ==>
          && spent.tokenOf[b] in s.tokens && s.tokens[spent.tokenOf[b]].used
          && s.tokens[spent.tokenOf[b]].sessionID == s.ballots[b].sessionID
          && spent.tokenOf[b] in spent.ballotOf && spent.ballotOf[spent.tokenOf[b]] == b)
    && (forall t :: t in s.tokens && s.tokens[t].used ==>
          t in spent.ballotOf && spent.ballotOf[t] in s.ballots && spent.tokenOf[spent.ballotOf[t]] == t)
  }

  function Spend(spent: Pairing, b: string, t: string): Pairing {
    Pairing(spent.tokenOf[b := t], spent.ballotOf[t := b])
  }

  ghost predicate CodesIndexed(s: State) {
    && (forall b :: b in s.ballots ==> s.ballots[b].code in s.ballotByCode && s.ballotByCode[s.ballots[b].code] == b)
    && (forall c :: c in s.ballotByCode ==> s.ballotByCode[c] in s.ballots && s.ballots[s.ballotByCode[c]].code == c)
  }

  // ----- options and tallies -----

  ghost predicate OptionsListed(s: State) {
    forall id, o :: o in ListAt(s.optionsBySession, id) <==> o in s.options && s.options[o].sessionID == id
  }

  /** The stored tally of a session is its recount, and uses only its options. */
  ghost predicate TallyRight(s: State, id: string)
    requires id in s.sessions && s.sessions[id].tally.Some?
  {
    && (s.sessions[id].status == Closed || s.sessions[id].status == Certified)
    && s.sessions[id].tally.value == TallyOf(s, id)
    && (forall c :: c in s.sessions[id].tally.value.counts ==> c in ListAt(s.optionsBySession, id))
  }

  /** Every stored tally belongs to a finished session and is its recount. */
  ghost predicate TalliesAreRecounts(s: State) {
    forall id :: id in s.sessions && s.sessions[id].tally.Some? ==> TallyRight(s, id)
  }

  /** Only a closed session is ever certified, and never without its tally. */
  ghost predicate CertifiedHaveTallies(s: State) {
    forall id :: id in s.sessions && s.sessions[id].status == Certified ==> s.sessions[id].tally.Some?
  }

  ghost predicate TokenInv(s: State) {
    TokensIndexed(s) && RollsListed(s) && SessionIdsNulFree(s)
  }

  ghost predicate BallotInv(s: State, spent: Pairing) {
    BallotsPaired(s, spent) && CodesIndexed(s)
  }

  ghost predicate TallyInv(s: State) {
    OptionsListed(s) && TalliesAreRecounts(s) && CertifiedHaveTallies(s)
  }

  ghost predicate Inv(s: State, spent: Pairing) {
    TokenInv(s) && BallotInv(s, spent) && TallyInv(s)
  }

  // ----- each call keeps the invariant -----

  lemma KeyDeterminesCitizen(id: string, c: string, id': string, c': string)
    requires '\0' !in id && '\0' !in id'
    requires TokenKey(id, c) == TokenKey(id', c')
    ensures id == id' && c == c'
  {
    var key := TokenKey(id, c);
    assert key[|id|] == '\0' && key[|id'|] == '\0';
    assert forall i :: 0 <= i < |id| ==> key[i] == id[i];
    assert forall i :: 0 <= i < |id'| ==> key[i] == id'[i];
    assert key[..|id|] == id && key[..|id'|] == id';
    assert key[|id| + 1..] == c && key[|id'| + 1..] == c';
  }

  /** Tallies depend on nothing but the session's own ballots and rules. */
  lemma TallyDependsOn(s: State, s': State, id: string)
    requires id in s.sessions && id in s'.sessions
    requires s.sessions[id].voteMethod == s'.sessions[id].voteMethod && s.sessions[id].rule == s'.sessions[id].rule
    requires BallotsOf(s, id) == BallotsOf(s', id)
    requires forall b :: b in BallotsOf(s, id) ==> s.ballots[b] == s'.ballots[b]
    ensures TallyOf(s, id) == TallyOf(s', id)
  {
    var ids := BallotsOf(s, id);
    assert Choices(s.ballots, ids) == Choices(s'.ballots, ids);
    forall c
      ensures Choosing(s.ballots, ids, c) == Choosing(s'.ballots, ids, c)
    {
    }
    assert Recount(s.ballots, ids) == Recount(s'.ballots, ids);
  }

  lemma TokensStay(s: State, s': State)
    requires TokenInv(s) && SessionIdsNulFree(s')
    requires s'.tokens == s.tokens && s'.tokenByKey == s.tokenByKey && s'.tokensBySession == s.tokensBySession
    requires s.sessions.Keys <= s'.sessions.Keys
    ensures TokenInv(s')
  {
  }

  lemma BallotsStay(s: State, s': State, spent: Pairing)
    requires BallotInv(s, spent)
    requires s'.tokens == s.tokens && s'.ballots == s.ballots && s'.ballotByCode == s.ballotByCode
    ensures BallotInv(s', spent)
  {
  }

  /** The rules and the stored tally of a session, as far as s' stores a tally at all. */
  ghost predicate SameTally(s: State, s': State, id: string) {
    id in s'.sessions && s'.sessions[id].tally.Some? ==>
      && id in s.sessions && s'.sessions[id].tally == s.sessions[id].tally
      && s'.sessions[id].voteMethod == s.sessions[id].voteMethod && s'.sessions[id].rule == s.sessions[id].rule
      && (s'.sessions[id].status == Closed || s'.sessions[id].status == Certified)
  }

  /** A stored tally stays right as long as the ballots and options behind it stay. */
  lemma TallyStays(s: State, s': State, id: string)
    requires id in s.sessions && s.sessions[id].tally.Some? && TallyRight(s, id)
    requires id in s'.sessions && s'.sessions[id].tally.Some? && SameTally(s, s', id)
    requires BallotsOf(s, id) == BallotsOf(s', id)
    requires ListAt(s.optionsBySession, id) <= ListAt(s'.optionsBySession, id)
    requires forall b :: b in BallotsOf(s, id) ==> s.ballots[b] == s'.ballots[b]
    ensures TallyRight(s', id)
  {
    TallyDependsOn(s, s', id);
  }

  /** A call that only touches sessions, leaving each session's rules and stored tally alone. */
  lemma SessionOnlyStep(s: State, s': State, spent: Pairing)
    requires Inv(s, spent)
    requires s' == s.(sessions := s'.sessions) && s.sessions.Keys <= s'.sessions.Keys
    requires SessionIdsNulFree(s') && CertifiedHaveTallies(s')
    requires forall id :: SameTally(s, s', id)
    ensures Inv(s', spent)
  {
    TokensStay(s, s');
    BallotsStay(s, s', spent);
    forall id | id in s'.sessions && s'.sessions[id].tally.Some?
      ensures TallyRight(s', id)
    {
      assert SameTally(s, s', id) && BallotsOf(s, id) == BallotsOf(s', id);
      TallyStays(s, s', id);
    }
  }

  lemma SetStatusKeeps(s: State, id: string, status: Status, spent: Pairing)
    requires Inv(s, spent) && id in s.sessions
    requires status == Open ==> s.sessions[id].status == Scheduled
    requires status == Closed ==> s.sessions[id].status == Open
    requires status == Certified ==> s.sessions[id].tally.Some?
    requires status != Scheduled
    ensures Inv(SetStatus(s, id, status), spent)
  {
    var s' := SetStatus(s, id, status);
    forall x
      ensures SameTally(s, s', x)
    {
    }
    SessionOnlyStep(s, s', spent);
  }

  lemma CreateKeeps(s: State, id: string, session: Session, spent: Pairing)
    requires Inv(s, spent) && id !in s.sessions && '\0' !in id
    ensures Inv(CreateSession(s, id, session).0, spent)
  {
    var s' := CreateSession(s, id, session).0;
    if s' != s {
      forall x
        ensures SameTally(s, s', x)
      {
      }
      SessionOnlyStep(s, s', spent);
    }
  }

  lemma AddOptionKeepsTallyInv(s: State, s': State, id: string, o: VoteOption)
    requires TallyInv(s) && id !in s.options
    requires s'.sessions == s.sessions && s'.ballots == s.ballots
    requires s'.options == s.options[id := o]
    requires s'.optionsBySession == s.optionsBySession[o.sessionID := ListAt(s.optionsBySession, o.sessionID) + [id]]
    ensures TallyInv(s')
  {
    forall x, p
      ensures p in ListAt(s'.optionsBySession, x) <==> p in s'.options && s'.options[p].sessionID == x
    {
      assert p in ListAt(s.optionsBySession, x) <==> p in s.options && s.options[p].sessionID == x;
    }
    forall x | x in s'.sessions && s'.sessions[x].tally.Some?
      ensures TallyRight(s', x)
    {
      assert BallotsOf(s, x) == BallotsOf(s', x);
      TallyStays(s, s', x);
    }
  }

  lemma AddOptionKeeps(s: State, id: string, o: VoteOption, spent: Pairing)
    requires Inv(s, spent) && id !in s.options
    ensures Inv(AddOption(s, id, o).0, spent)
  {
    var (s', e) := AddOption(s, id, o);
    if e.None? {
      TokensStay(s, s');
      BallotsStay(s, s', spent);
      AddOptionKeepsTallyInv(s, s', id, o);
    }
  }

  lemma IssueTokenKeepsIndex(s: State, sessionID: string, citizenID: string, minted: FreshToken)
    requires TokensIndexed(s) && SessionIdsNulFree(s)
    requires sessionID in s.sessions && minted.id !in s.tokens
    ensures TokensIndexed(IssueToken(s, sessionID, citizenID, minted))
  {
  }

  lemma IssueTokenKeepsRolls(s: State, sessionID: string, citizenID: string, minted: FreshToken)
    requires RollsListed(s) && minted.id !in s.tokens
    ensures RollsListed(IssueToken(s, sessionID, citizenID, minted))
  {
    var s' := IssueToken(s, sessionID, citizenID, minted);
    if s' != s {
      forall id
        ensures Distinct(ListAt(s'.tokensBySession, id))
        ensures forall t :: t in ListAt(s'.tokensBySession, id) <==> t in s'.tokens && s'.tokens[t].sessionID == id
      {
        var roll := ListAt(s.tokensBySession, id);
        assert Distinct(roll) && forall t :: t in roll <==> t in s.tokens && s.tokens[t].sessionID == id;
        assert ListAt(s'.tokensBySession, id) == if id == sessionID then roll + [minted.id] else roll;
      }
    }
  }

  lemma IssueTokenKeepsPairs(s: State, sessionID: string, citizenID: string, minted: FreshToken,
                             spent: Pairing)
    requires BallotsPaired(s, spent) && minted.id !in s.tokens
    ensures BallotsPaired(IssueToken(s, sessionID, citizenID, minted), spent)
  {
  }

  /** A call that leaves sessions, options and ballots alone leaves the tallies right. */
  lemma TokenStepKeepsTallies(s: State, s': State)
    requires TallyInv(s)
    requires s'.sessions == s.sessions && s'.ballots == s.ballots
    requires s'.options == s.options && s'.optionsBySession == s.optionsBySession
    ensures TallyInv(s')
  {
    forall x | x in s'.sessions && s'.sessions[x].tally.Some?
      ensures TallyRight(s', x)
    {
      assert BallotsOf(s, x) == BallotsOf(s', x);
      TallyStays(s, s', x);
    }
  }

  lemma IssueTokenKeepsTokenInv(s: State, sessionID: string, citizenID: string, minted: FreshToken)
    requires TokenInv(s) && sessionID in s.sessions && minted.id !in s.tokens
    ensures TokenInv(IssueToken(s, sessionID, citizenID, minted))
  {
    IssueTokenKeepsIndex(s, sessionID, citizenID, minted);
    IssueTokenKeepsRolls(s, sessionID, citizenID, minted);
  }

  lemma IssueTokenKeepsBallotInv(s: State, sessionID: string, citizenID: string, minted: FreshToken,
                                 spent: Pairing)
    requires BallotInv(s, spent) && minted.id !in s.tokens
    ensures BallotInv(IssueToken(s, sessionID, citizenID, minted), spent)
  {
    IssueTokenKeepsPairs(s, sessionID, citizenID, minted, spent);
  }

  lemma IssueTokenKeepsTallyInv(s: State, sessionID: string, citizenID: string, minted: FreshToken)
    requires TallyInv(s)
    ensures TallyInv(IssueToken(s, sessionID, citizenID, minted))
  {
    TokenStepKeepsTallies(s, IssueToken(s, sessionID, citizenID, minted));
  }

  lemma IssueTokenKeeps(s: State, sessionID: string, citizenID: string, minted: FreshToken, spent: Pairing)
    requires Inv(s, spent) && sessionID in s.sessions && minted.id !in s.tokens
    ensures Inv(IssueToken(s, sessionID, citizenID, minted), spent)
  {
    IssueTokenKeepsTokenInv(s, sessionID, citizenID, minted);
    IssueTokenKeepsBallotInv(s, sessionID, citizenID, minted, spent);
    IssueTokenKeepsTallyInv(s, sessionID, citizenID, minted);
  }

  lemma IssueTouchesOneToken(s: State, sessionID: string, citizenID: string, minted: FreshToken)
    ensures var s' := IssueToken(s, sessionID, citizenID, minted);
            s'.sessions == s.sessions && forall t :: t in s'.tokens ==> t in s.tokens || t == minted.id
  {
  }

  lemma {:induction false} IssueBatchKeeps(s: State, sessionID: string, citizens: seq<string>, minted: seq<FreshToken>,
                                           spent: Pairing)
    requires Inv(s, spent) && sessionID in s.sessions && |minted| == |citizens|
    requires forall i :: 0 <= i < |minted| ==> minted[i].id !in s.tokens
    requires forall i, j :: 0 <= i < j < |minted| ==> minted[i].id != minted[j].id
    ensures Inv(IssueBatch(s, sessionID, citizens, minted).0, spent)
    decreases |citizens|
  {
    if citizens != [] && citizens[0] != "" {
      IssueTokenKeeps(s, sessionID, citizens[0], minted[0], spent);
      var next := IssueToken(s, sessionID, citizens[0], minted[0]);
      IssueTouchesOneToken(s, sessionID, citizens[0], minted[0]);
      IssueBatchKeeps(next, sessionID, citizens[1..], minted[1..], spent);
    }
  }

  /** The tokens of s with one of them used up. */
  ghost predicate UsesUp(s: State, s': State, t: string) {
    && t in s.tokens && !s.tokens[t].used
    && s'.tokens == s.tokens[t := s.tokens[t].(used := true)]
  }

  lemma CastKeepsTokens(s: State, s': State, t: string)
    requires TokenInv(s) && UsesUp(s, s', t)
    requires s'.tokenByKey == s.tokenByKey && s'.tokensBySession == s.tokensBySession && s'.sessions == s.sessions
    ensures TokenInv(s')
  {
    forall id
      ensures Distinct(ListAt(s'.tokensBySession, id))
      ensures forall u :: u in ListAt(s'.tokensBySession, id) <==> u in s'.tokens && s'.tokens[u].sessionID == id
    {
      assert forall u :: u in ListAt(s.tokensBySession, id) <==> u in s.tokens && s.tokens[u].sessionID == id;
    }
  }

  lemma CastKeepsPairs(s: State, s': State, t: string, id: string, b: Ballot, spent: Pairing)
    requires BallotsPaired(s, spent) && id !in s.ballots && UsesUp(s, s', t)
    requires b.sessionID == s.tokens[t].sessionID && s'.ballots == s.ballots[id := b]
    ensures BallotsPaired(s', Spend(spent, id, t))
  {
  }

  lemma CastKeepsBallots(s: State, s': State, t: string, id: string, b: Ballot, spent: Pairing)
    requires BallotInv(s, spent) && id !in s.ballots && b.code !in s.ballotByCode && UsesUp(s, s', t)
    requires b.sessionID == s.tokens[t].sessionID
    requires s'.ballots == s.ballots[id := b] && s'.ballotByCode == s.ballotByCode[b.code := id]
    ensures BallotInv(s', Spend(spent, id, t))
  {
    CastKeepsPairs(s, s', t, id, b, spent);
  }

  /** A ballot only ever joins an open session, which has no tally yet. */
  lemma CastKeepsTallies(s: State, s': State, id: string, b: Ballot)
    requires TallyInv(s) && id !in s.ballots
    requires b.sessionID in s.sessions && s.sessions[b.sessionID].status == Open
    requires s'.sessions == s.sessions && s'.ballots == s.ballots[id := b]
    requires s'.options == s.options && s'.optionsBySession == s.optionsBySession
    ensures TallyInv(s')
  {
    forall x | x in s'.sessions && s'.sessions[x].tally.Some?
      ensures TallyRight(s', x)
    {
      assert TallyRight(s, x) && x != b.sessionID;
      assert BallotsOf(s, x) == BallotsOf(s', x);
      TallyStays(s, s', x);
    }
  }

  lemma CastKeepsAll(s: State, s': State, t: string, id: string, b: Ballot, spent: Pairing)
    requires Inv(s, spent) && id !in s.ballots && b.code !in s.ballotByCode && UsesUp(s, s', t)
    requires b.sessionID == s.tokens[t].sessionID
    requires b.sessionID in s.sessions && s.sessions[b.sessionID].status == Open
    requires s' == s.(tokens := s'.tokens, ballots := s.ballots[id := b], ballotByCode := s.ballotByCode[b.code := id])
    ensures Inv(s', Spend(spent, id, t))
  {
    CastKeepsTokens(s, s', t);
    CastKeepsBallots(s, s', t, id, b, spent);
    CastKeepsTallies(s, s', id, b);
  }

  lemma CastBallotKeeps(s: State, c: Cast, now: int, hash: string -> string, id: string, code: string,
                        spent: Pairing) returns (spent': Pairing)
    requires Inv(s, spent) && id !in s.ballots && code !in s.ballotByCode
    ensures Inv(CastBallot(s, c, now, hash, id, code).0, spent')
  {
    if CastError(s, c, now, hash).None? {
      spent' := Spend(spent, id, c.tokenID);
      CastKeepsAll(s, CastBallot(s, c, now, hash, id, code).0, c.tokenID, id, Ballot(c.sessionID, c.choice, code), spent);
    } else {
      spent' := spent;
    }
  }

  lemma TallyKeepsRecounts(s: State, id: string)
    requires TallyInv(s)
    ensures TallyInv(TallySession(s, id).0)
  {
    var s' := TallySession(s, id).0;
    if s' != s {
      forall x | x in s'.sessions && s'.sessions[x].tally.Some?
        ensures TallyRight(s', x)
      {
        assert BallotsOf(s, x) == BallotsOf(s', x);
        if x == id {
          TallyDependsOn(s, s', x);
        } else {
          TallyStays(s, s', x);
        }
      }
    }
  }

  lemma TallyTouchesOneSession(s: State, id: string)
    ensures var s' := TallySession(s, id).0;
            && s' == s.(sessions := s'.sessions) && s'.sessions.Keys == s.sessions.Keys
  {
  }

  lemma TallyKeeps(s: State, id: string, spent: Pairing)
    requires Inv(s, spent)
    ensures Inv(TallySession(s, id).0, spent)
  {
    TallyTouchesOneSession(s, id);
    TallyKeepsRecounts(s, id);
    var s' := TallySession(s, id).0;
    TokensStay(s, s');
    BallotsStay(s, s', spent);
  }

  /** Certifying is tallying, possibly followed by the one status change. */
  lemma CertifyIsTallyThenStatus(s: State, id: string, sink: Option<bool>)
    ensures var (t, e) := TallySession(s, id);
            || Certify(s, id, sink).0 == s
            || Certify(s, id, sink).0 == t
            || (&& e.None? && id in t.sessions && t.sessions[id].tally.Some? && t.sessions[id].status == Closed
                && Certify(s, id, sink).0 == SetStatus(t, id, Certified))
  {
  }

  lemma CertifyKeeps(s: State, id: string, sink: Option<bool>, spent: Pairing)
    requires Inv(s, spent)
    ensures Inv(Certify(s, id, sink).0, spent)
  {
    TallyKeeps(s, id, spent);
    CertifyIsTallyThenStatus(s, id, sink);
    var t := TallySession(s, id).0;
    if id in t.sessions && t.sessions[id].tally.Some? {
      SetStatusKeeps(t, id, Certified, spent);
    }
  }

  lemma StepKeeps(s: State, r: Request, hash: string -> string, spent: Pairing)
    returns (spent': Pairing)
    requires Inv(s, spent) && Fresh(s, r)
    ensures Inv(Step(s, r, hash), spent')
  {
    spent' := spent;
    match r
    case DoCreate(id, session) => CreateKeeps(s, id, session, spent);
    case DoAddOption(id, o) => AddOptionKeeps(s, id, o, spent);
    case DoOpen(id, now, storeNow) =>
      if TryOpen(s, id, now, storeNow).1.None? {
        SetStatusKeeps(s, id, Open, spent);
      }
    case DoClose(id, now) =>
      if TryClose(s, id, now).1.None? {
        SetStatusKeeps(s, id, Closed, spent);
      }
    case DoIssue(id, citizens, minted) =>
      if id in s.sessions {
        IssueBatchKeeps(s, id, citizens, minted, spent);
      }
    case DoCast(c, now, id, code) => spent' := CastBallotKeeps(s, c, now, hash, id, code, spent);
    case DoTally(id) => TallyKeeps(s, id, spent);
    case DoCertify(id, sink) => CertifyKeeps(s, id, sink, spent);
  }

  /** Whatever the calls, whatever their order: the invariant holds in every reachable state. */
  lemma {:induction false} EveryReachableStateIsSound(s: State, requests: seq<Request>, hash: string -> string, s': State,
                                                      spent: Pairing)
    requires Inv(s, spent) && Run(s, requests, hash, s')
    ensures exists spent' :: Inv(s', spent')
    decreases |requests|
  {
    if requests != [] {
      var next := StepKeeps(s, requests[0], hash, spent);
      EveryReachableStateIsSound(Step(s, requests[0], hash), requests[1..], hash, s', next);
    }
  }

  lemma StartIsSound()
    ensures Inv(Empty, Pairing(map[], map[]))
  {
  }

  // ----- a finished session is frozen -----

  ghost predicate Finished(s: State, id: string) {
    id in s.sessions && (s.sessions[id].status == Closed || s.sessions[id].status == Certified)
  }

  /** The ballots, the options, the rules and a first tally of a finished session are there to stay. */
  ghost predicate Frozen(s: State, s': State, id: string) {
    Finished(s, id) ==>
      && Finished(s', id)
      && (s.sessions[id].status == Certified ==> s'.sessions[id].status == Certified)
      && BallotsOf(s', id) == BallotsOf(s, id)
      && (forall b :: b in BallotsOf(s, id) ==> s'.ballots[b] == s.ballots[b])
      && ListAt(s'.optionsBySession, id) == ListAt(s.optionsBySession, id)
      && s'.sessions[id].voteMethod == s.sessions[id].voteMethod && s'.sessions[id].rule == s.sessions[id].rule
      && (s.sessions[id].tally.Some? ==> s'.sessions[id].tally == s.sessions[id].tally)
  }

  lemma {:induction false} IssueBatchTouchesTokens(s: State, id: string, citizens: seq<string>, minted: seq<FreshToken>)
    requires |minted| == |citizens|
    ensures var s' := IssueBatch(s, id, citizens, minted).0;
            s' == s.(tokens := s'.tokens, tokenByKey := s'.tokenByKey, tokensBySession := s'.tokensBySession)
    decreases |citizens|
  {
    if citizens != [] && citizens[0] != "" {
      IssueBatchTouchesTokens(IssueToken(s, id, citizens[0], minted[0]), id, citizens[1..], minted[1..]);
    }
  }

  /** Tallying stores at most one tally, in a finished session that had none. */
  lemma TallyShape(s: State, id: string) returns (tally: Tally)
    ensures var s' := TallySession(s, id).0;
            || s' == s
            || (&& Finished(s, id) && s.sessions[id].tally.None?
                && s' == s.(sessions := s.sessions[id := s.sessions[id].(tally := Some(tally))]))
  {
    tally := if id in s.sessions then TallyOf(s, id) else Tally("", map[], 0, "", false);
  }

  /** Sessions other than x, or with the same rules and tally and a status no earlier, stay frozen. */
  lemma SessionChangeFreezes(s: State, s': State, x: string, id: string)
    requires s' == s.(sessions := s'.sessions) && x in s'.sessions
    requires s'.sessions == s.sessions[x := s'.sessions[x]]
    requires Finished(s, x) ==>
               && Finished(s', x)
               && (s.sessions[x].status == Certified ==> s'.sessions[x].status == Certified)
               && s'.sessions[x].voteMethod == s.sessions[x].voteMethod && s'.sessions[x].rule == s.sessions[x].rule
               && (s.sessions[x].tally.Some? ==> s'.sessions[x].tally == s.sessions[x].tally)
    ensures Frozen(s, s', id)
  {
    assert BallotsOf(s', id) == BallotsOf(s, id);
  }

  lemma FrozenTransitive(s: State, t: State, u: State, id: string)
    requires Frozen(s, t, id) && Frozen(t, u, id)
    ensures Frozen(s, u, id)
  {
  }

  lemma TallyFreezes(s: State, x: string, id: string)
    ensures Frozen(s, TallySession(s, x).0, id)
  {
    var tally := TallyShape(s, x);
    var s' := TallySession(s, x).0;
    if s' != s {
      SessionChangeFreezes(s, s', x, id);
    }
  }

  lemma CertifyFreezes(s: State, x: string, sink: Option<bool>, id: string)
    ensures Frozen(s, Certify(s, x, sink).0, id)
  {
    CertifyIsTallyThenStatus(s, x, sink);
    TallyFreezes(s, x, id);
    var (t, u) := (TallySession(s, x).0, Certify(s, x, sink).0);
    if u != s && u != t {
      SessionChangeFreezes(t, u, x, id);
      FrozenTransitive(s, t, u, id);
    }
  }

  lemma CastFreezes(s: State, c: Cast, now: int, hash: string -> string, b: string, code: string, id: string)
    requires b !in s.ballots
    ensures Frozen(s, CastBallot(s, c, now, hash, b, code).0, id)
  {
    var (s', e) := CastBallot(s, c, now, hash, b, code);
    if e.None? && id != c.sessionID {
      assert BallotsOf(s', id) == BallotsOf(s, id);
    }
  }

  lemma AddOptionFreezes(s: State, o: string, option: VoteOption, id: string)
    ensures Frozen(s, AddOption(s, o, option).0, id)
  {
    var s' := AddOption(s, o, option).0;
    assert BallotsOf(s', id) == BallotsOf(s, id);
  }

  lemma IssueFreezes(s: State, x: string, citizens: seq<string>, minted: seq<FreshToken>, id: string)
    requires |minted| == |citizens|
    ensures Frozen(s, IssueTokens(s, x, citizens, minted).0, id)
  {
    IssueBatchTouchesTokens(s, x, citizens, minted);
    var s' := IssueTokens(s, x, citizens, minted).0;
    assert BallotsOf(s', id) == BallotsOf(s, id);
  }

  lemma StepFreezes(s: State, r: Request, hash: string -> string, id: string)
    requires Fresh(s, r)
    ensures Frozen(s, Step(s, r, hash), id)
  {
    match r
    case DoCreate(x, session) =>
      if CreateSession(s, x, session).1.None? {
        SessionChangeFreezes(s, CreateSession(s, x, session).0, x, id);
      }
    case DoAddOption(x, o) => AddOptionFreezes(s, x, o, id);
    case DoOpen(x, now, storeNow) =>
      if TryOpen(s, x, now, storeNow).1.None? {
        SessionChangeFreezes(s, SetStatus(s, x, Open), x, id);
      }
    case DoClose(x, now) =>
      if TryClose(s, x, now).1.None? {
        SessionChangeFreezes(s, SetStatus(s, x, Closed), x, id);
      }
    case DoIssue(x, citizens, minted) => IssueFreezes(s, x, citizens, minted, id);
    case DoCast(c, now, b, code) => CastFreezes(s, c, now, hash, b, code, id);
    case DoTally(x) => TallyFreezes(s, x, id);
    case DoCertify(x, sink) => CertifyFreezes(s, x, sink, id);
  }

  /** Once a session is closed nothing a run does changes its ballots, options or first tally. */
  lemma {:induction false} FinishedSessionsAreFrozen(s: State, requests: seq<Request>, hash: string -> string, s': State,
                                                     id: string)
    requires Run(s, requests, hash, s')
    ensures Frozen(s, s', id)
    decreases |requests|
  {
    if requests != [] {
      var next := Step(s, requests[0], hash);
      StepFreezes(s, requests[0], hash, id);
      FinishedSessionsAreFrozen(next, requests[1..], hash, s', id);
      FrozenTransitive(s, next, s', id);
    }
  }

  // ----- what a tally adds up to -----

  lemma ChoosingGrows(ballots: map<string, Ballot>, ids: set<string>, b: string, c: string)
    requires ids <= ballots.Keys && b in ballots && b !in ids
    ensures |Choosing(ballots, ids + {b}, c)| == |Choosing(ballots, ids, c)| + if ballots[b].choice == c then 1 else 0
    ensures c !in Choices(ballots, ids) ==> Choosing(ballots, ids, c) == {}
  {
    assert Choosing(ballots, ids + {b}, c) == Choosing(ballots, ids, c) + if ballots[b].choice == c then {b} else {};
  }

  /** One more ballot in the recount is one more for its choice. */
  lemma RecountGrows(ballots: map<string, Ballot>, ids: set<string>, b: string)
    requires ids <= ballots.Keys && b in ballots && b !in ids
    ensures Recount(ballots, ids + {b}) ==
            Recount(ballots, ids)[ballots[b].choice := CountOf(Recount(ballots, ids), ballots[b].choice) + 1]
  {
    assert Choices(ballots, ids + {b}) == Choices(ballots, ids) + {ballots[b].choice};
    forall c | c in Choices(ballots, ids + {b})
      ensures |Choosing(ballots, ids + {b}, c)| == CountOf(Recount(ballots, ids), c) + if ballots[b].choice == c then 1 else 0
    {
      ChoosingGrows(ballots, ids, b, c);
    }
  }

  lemma {:induction false} RecountSumsUp(ballots: map<string, Ballot>, ids: set<string>)
    requires ids <= ballots.Keys
    ensures Sum(Recount(ballots, ids)) == |ids|
    decreases |ids|
  {
    if ids == {} {
      assert Recount(ballots, ids) == map[];
    } else {
      var b :| b in ids;
      RecountSumsUp(ballots, ids - {b});
      RecountGrows(ballots, ids - {b}, b);
      assert ids - {b} + {b} == ids;
      SumIncrement(Recount(ballots, ids - {b}), ballots[b].choice);
    }
  }

  /** The tally counts the ballots its session holds, adds up, uses its options and follows its rules. */
  ghost predicate TallyInOrder(s: State, id: string)
    requires id in s.sessions && s.sessions[id].tally.Some?
  {
    var t := s.sessions[id].tally.value;
    && t.counts == Recount(s.ballots, BallotsOf(s, id))
    && t.totalBallots == |BallotsOf(s, id)| == Sum(t.counts)
    && (forall c :: c in t.counts ==> c in s.options && s.options[c].sessionID == id)
    && IsOutcome(s.sessions[id].voteMethod, s.sessions[id].rule, t.counts, t.totalBallots, t.winner, t.decided)
  }

  lemma RightTallyAddsUp(s: State, id: string)
    requires id in s.sessions && s.sessions[id].tally.Some? && TallyRight(s, id)
    ensures var t := s.sessions[id].tally.value;
            && t.counts == Recount(s.ballots, BallotsOf(s, id))
            && t.totalBallots == |BallotsOf(s, id)| == Sum(t.counts)
            && IsOutcome(s.sessions[id].voteMethod, s.sessions[id].rule, t.counts, t.totalBallots, t.winner, t.decided)
  {
    RecountSumsUp(s.ballots, BallotsOf(s, id));
  }

  lemma StoredTallyIsRight(s: State, id: string)
    requires TallyInv(s) && id in s.sessions && s.sessions[id].tally.Some?
    ensures TallyRight(s, id)
    ensures forall c :: c in s.sessions[id].tally.value.counts ==> c in s.options && s.options[c].sessionID == id
  {
    assert TallyRight(s, id);
    forall c | c in s.sessions[id].tally.value.counts
      ensures c in s.options && s.options[c].sessionID == id
    {
      assert c in ListAt(s.optionsBySession, id);
    }
  }

  /**
   A stored tally counts exactly the ballots its session holds now, adds up to their number, mentions
   only its options, and names the one outcome its rules allow.
   */
  lemma StoredTallyIsTheRecount(s: State, spent: Pairing, id: string)
    requires Inv(s, spent) && id in s.sessions && s.sessions[id].tally.Some?
    ensures TallyInOrder(s, id)
  {
    StoredTallyIsRight(s, id);
    RightTallyAddsUp(s, id);
  }

  // ----- one citizen, one ballot -----

  /** Two ballots of one session used up the tokens of two different citizens. */
  lemma OneBallotPerCitizen(s: State, spent: Pairing, b: string, c: string)
    requires Inv(s, spent)
    requires b in s.ballots && c in s.ballots && b != c && s.ballots[b].sessionID == s.ballots[c].sessionID
    ensures b in spent.tokenOf && c in spent.tokenOf
    ensures spent.tokenOf[b] in s.tokens && spent.tokenOf[c] in s.tokens
    ensures s.tokens[spent.tokenOf[b]].citizenID != s.tokens[spent.tokenOf[c]].citizenID
  {
    assert TokensIndexed(s) && BallotsPaired(s, spent);
  }

  lemma {:induction false} InjectionFits(from: set<string>, into: set<string>, f: map<string, string>)
    requires from <= f.Keys && forall x :: x in from ==> f[x] in into
    requires forall x, y :: x in from && y in from && x != y ==> f[x] != f[y]
    ensures |from| <= |into|
    decreases |from|
  {
    if from != {} {
      var x :| x in from;
      InjectionFits(from - {x}, into - {f[x]}, f);
    }
  }

  lemma RollIsTheTokens(s: State, id: string)
    requires RollsListed(s)
    ensures |ListAt(s.tokensBySession, id)| == |TokensOf(s, id)|
  {
    var roll := ListAt(s.tokensBySession, id);
    assert Distinct(roll) && forall t :: t in roll <==> t in s.tokens && s.tokens[t].sessionID == id;
    DistinctSize(roll);
    assert (set t | t in roll) == TokensOf(s, id);
  }

  lemma RatioAtMostOne(ballots: nat, tokens: nat)
    requires ballots <= tokens
    ensures 0.0 <= Participation(ballots, tokens) <= 1.0
  {
    if tokens > 0 {
      assert (ballots as real) / (tokens as real) <= (tokens as real) / (tokens as real);
    }
  }

  /** A session never holds more ballots than issued tokens, so certification sees a turnout of at most 1. */
  lemma TurnoutIsAtMostOne(s: State, spent: Pairing, id: string)
    requires Inv(s, spent)
    ensures |BallotsOf(s, id)| <= |ListAt(s.tokensBySession, id)| == |TokensOf(s, id)|
    ensures 0.0 <= Participation(|BallotsOf(s, id)|, |ListAt(s.tokensBySession, id)|) <= 1.0
  {
    RollIsTheTokens(s, id);
    assert BallotsPaired(s, spent);
    InjectionFits(BallotsOf(s, id), TokensOf(s, id), spent.tokenOf);
    RatioAtMostOne(|BallotsOf(s, id)|, |ListAt(s.tokensBySession, id)|);
  }

  // ----- all of it, from the empty service on -----

  /** Under the pairing of ballots with used tokens, no citizen is behind two ballots of one session. */
  ghost predicate VotersDiffer(s: State, spent: Pairing)
    requires BallotsPaired(s, spent)
  {
    forall b, c :: b in s.ballots && c in s.ballots && b != c && s.ballots[b].sessionID == s.ballots[c].sessionID ==>
      s.tokens[spent.tokenOf[b]].citizenID != s.tokens[spent.tokenOf[c]].citizenID
  }

  ghost predicate InOrder(s: State) {
    forall id ::
      && |BallotsOf(s, id)| <= |TokensOf(s, id)|
      && (id in s.sessions && s.sessions[id].tally.Some? ==> TallyInOrder(s, id))
  }

  lemma SoundIsInOrder(s: State, spent: Pairing)
    requires Inv(s, spent)
    ensures InOrder(s)
  {
    forall id
      ensures |BallotsOf(s, id)| <= |TokensOf(s, id)|
      ensures id in s.sessions && s.sessions[id].tally.Some? ==> TallyInOrder(s, id)
    {
      TurnoutIsAtMostOne(s, spent, id);
      if id in s.sessions && s.sessions[id].tally.Some? {
        StoredTallyIsTheRecount(s, spent, id);
      }
    }
  }

  lemma SoundVotersDiffer(s: State, spent: Pairing)
    requires Inv(s, spent)
    ensures BallotsPaired(s, spent) && VotersDiffer(s, spent)
  {
    forall b, c | b in s.ballots && c in s.ballots && b != c && s.ballots[b].sessionID == s.ballots[c].sessionID
      ensures s.tokens[spent.tokenOf[b]].citizenID != s.tokens[spent.tokenOf[c]].citizenID
    {
      OneBallotPerCitizen(s, spent, b, c);
    }
  }

  /**
   In every state that any run of calls reaches from the empty service, ballots and used tokens are in
   bijection, no citizen is behind two ballots of a session, no session holds more ballots than tokens, and
   every stored tally is right.
   */
  lemma EveryRunIsInOrder(requests: seq<Request>, hash: string -> string, s: State) returns (spent: Pairing)
    requires Run(Empty, requests, hash, s)
    ensures BallotsPaired(s, spent) && VotersDiffer(s, spent) && InOrder(s)
  {
    StartIsSound();
    EveryReachableStateIsSound(Empty, requests, hash, s, Pairing(map[], map[]));
    spent :| Inv(s, spent);
    SoundVotersDiffer(s, spent);
    SoundIsInOrder(s, spent);
  }
}
