/**
 The in-memory vote store and the service calls on top of it, in the source's own shape: maps updated
 under one lock, and loops over ballots in whatever order the map yields them. Every call is proved to
 turn the tables into what `Voting` says.
 */
module VotingStore {
  import opened Wrappers
  import opened Sizes
  import opened Outcome
  import opened Voting
  import opened VotingSafety

  class MemoryStore {
    var sessions: map<string, Session>
    var options: map<string, VoteOption>
    var optionsBySession: map<string, seq<string>>
    var tokens: map<string, Token>
    var tokenBySessionCitizen: map<string, string>
    var tokensBySession: map<string, seq<string>>
    var ballots: map<string, Ballot>
    var ballotByVerification: map<string, string>

    ghost function View(): State
      reads this
    {
      State(sessions, options, optionsBySession, tokens, tokenBySessionCitizen, tokensBySession,
            ballots, ballotByVerification)
    }

    constructor ()
      ensures View() == Empty
    {
      sessions, options, optionsBySession := map[], map[], map[];
      tokens, tokenBySessionCitizen, tokensBySession := map[], map[], map[];
      ballots, ballotByVerification := map[], map[];
    }

    method GetSession(id: string) returns (r: Result<Session, Error>)
      ensures r == if id in sessions then Ok(sessions[id]) else Err(NotFound)
    {
      if id in sessions {
        r := Ok(sessions[id]);
      } else {
        r := Err(NotFound);
      }
    }

    /** Opens only scheduled sessions in their window, closes only open ones and certifies only closed ones. */
    method UpdateSessionStatus(id: string, status: Status, now: int) returns (r: Result<Session, Error>)
      modifies this
      ensures r.Err? ==> View() == old(View())
      ensures r.Ok? ==> id in old(sessions) && View() == SetStatus(old(View()), id, status) && r.value == sessions[id]
      ensures r == Err(NotFound) <==> id !in old(sessions)
      ensures r == Err(InvalidState) <==>
              && id in old(sessions)
              && var v := old(sessions)[id];
                 || (status == Open && (v.status != Scheduled || now < v.opensAt || now < v.coolingOffUntil || now >= v.closesAt))
                 || (status == Closed && v.status != Open)
                 || (status == Certified && v.status != Closed)
      ensures r.Err? ==> r.error == NotFound || r.error == InvalidState
    {
      if id !in sessions {
        return Err(NotFound);
      }
      var s := sessions[id];
      if || (status == Open && (s.status != Scheduled || now < s.opensAt || now < s.coolingOffUntil || now >= s.closesAt))
         || (status == Closed && s.status != Open)
         || (status == Certified && s.status != Closed)
      {
        return Err(InvalidState);
      }
      sessions := sessions[id := s.(status := status)];
      r := Ok(sessions[id]);
    }

    /** Keeps the first result of a finished session. */
    method SetTally(id: string, tally: Tally) returns (r: Result<Session, Error>)
      modifies this
      ensures id !in old(sessions) ==> r == Err(NotFound) && View() == old(View())
      ensures id in old(sessions) && !Finished(old(View()), id) ==> r == Err(InvalidState) && View() == old(View())
      ensures Finished(old(View()), id) ==>
                var v := old(sessions)[id];
                var kept := if v.tally.None? then v.(tally := Some(tally)) else v;
                r == Ok(kept) && View() == old(View()).(sessions := old(sessions)[id := kept])
    {
      if id !in sessions {
        return Err(NotFound);
      }
      var s := sessions[id];
      if s.status != Closed && s.status != Certified {
        return Err(InvalidState);
      }
      if s.tally.None? {
        s := s.(tally := Some(tally));
      }
      sessions := sessions[id := s];
      r := Ok(s);
    }

    method AddOption(id: string, o: VoteOption) returns (e: Option<Error>)
      modifies this
      ensures (View(), e) == Voting.AddOption(old(View()), id, o)
    {
      if o.sessionID !in sessions || sessions[o.sessionID].status != Scheduled {
        return Some(InvalidState);
      }
      if |o.optionLabel| > MAX_REF || |o.description| > MAX_DESCRIPTION {
        return Some(Invalid);
      }
      options := options[id := o];
      optionsBySession := optionsBySession[o.sessionID := ListAt(optionsBySession, o.sessionID) + [id]];
      e := None;
    }

    /** One token per session and citizen; what is returned is that one, new or not. */
    method IssueToken(sessionID: string, citizenID: string, minted: FreshToken) returns (tokenID: string)
      modifies this
      ensures View() == Voting.IssueToken(old(View()), sessionID, citizenID, minted)
      ensures TokenKey(sessionID, citizenID) in tokenBySessionCitizen
      ensures tokenID == tokenBySessionCitizen[TokenKey(sessionID, citizenID)]
      ensures TokenInv(old(View())) && sessionID in old(sessions) ==>
                tokenID in tokens && tokens[tokenID].sessionID == sessionID && tokens[tokenID].citizenID == citizenID
    {
      if TokenInv(View()) && sessionID in sessions {
        KeyLeadsToItsToken(View(), sessionID, citizenID);
      }
      var key := TokenKey(sessionID, citizenID);
      if key in tokenBySessionCitizen {
        return tokenBySessionCitizen[key];
      }
      tokens := tokens[minted.id := Token(sessionID, citizenID, minted.blindHash, false)];
      tokenBySessionCitizen := tokenBySessionCitizen[key := minted.id];
      tokensBySession := tokensBySession[sessionID := ListAt(tokensBySession, sessionID) + [minted.id]];
      tokenID := minted.id;
    }

    method CountTokens(sessionID: string) returns (n: nat)
      ensures n == |ListAt(tokensBySession, sessionID)|
    {
      n := |ListAt(tokensBySession, sessionID)|;
    }

    /** The store's half of casting: session window, token, citizen, single use, blind. */
    method CastBallot(c: Cast, now: int, hash: string -> string, id: string, code: string) returns (e: Option<Error>)
      modifies this
      ensures (View(), e) == StoreCast(old(View()), c, now, hash, id, code)
    {
      if c.sessionID !in sessions {
        return Some(InvalidState);
      }
      var s := sessions[c.sessionID];
      if s.status != Open || now >= s.closesAt || now < s.opensAt {
        return Some(InvalidState);
      }
      if c.tokenID !in tokens || tokens[c.tokenID].sessionID != c.sessionID {
        return Some(NotFound);
      }
      var t := tokens[c.tokenID];
      if t.citizenID != c.citizenID {
        return Some(Invalid);
      }
      if t.used {
        return Some(Conflict);
      }
      if hash(c.tokenBlind) != t.blindHash {
        return Some(Invalid);
      }
      ballots := ballots[id := Ballot(c.sessionID, c.choice, code)];
      ballotByVerification := ballotByVerification[code := id];
      tokens := tokens[c.tokenID := t.(used := true)];
      e := None;
    }

    /** Presence confirmation: finds the ballot with the code, whenever there is one. */
    method FindBallotByVerification(code: string) returns (r: Result<Ballot, Error>)
      requires CodesIndexed(View())
      ensures r.Ok? <==> exists b :: b in ballots && ballots[b].code == code
      ensures r.Ok? ==> r.value in ballots.Values && r.value.code == code
      ensures r.Err? ==> r.error == NotFound
    {
      if code !in ballotByVerification {
        return Err(NotFound);
      }
      r := Ok(ballots[ballotByVerification[code]]);
    }

    /** The ballots of a session, each once, in an arbitrary order. */
    method BallotsForSession(sessionID: string) returns (out: seq<Ballot>, ghost ids: seq<string>)
      ensures |out| == |BallotsOf(View(), sessionID)|
      ensures forall b :: b in BallotsOf(View(), sessionID) ==> ballots[b] in out
      ensures ListsBallots(out, ballots, ids) && (set b | b in ids) == BallotsOf(View(), sessionID)
    {
      out, ids := [], [];
      var rest := ballots.Keys;
      while rest != {}
        invariant rest <= ballots.Keys
        invariant |out| == |ids| && Distinct(ids)
        invariant forall b :: b in ids <==> b in ballots && b !in rest && ballots[b].sessionID == sessionID
        invariant forall i :: 0 <= i < |out| ==> ids[i] in ballots && out[i] == ballots[ids[i]]
      {
        var b :| b in rest;
        rest := rest - {b};
        if ballots[b].sessionID == sessionID {
          out, ids := out + [ballots[b]], ids + [b];
        }
      }
      DistinctSize(ids);
      assert (set b | b in ids) == BallotsOf(View(), sessionID);
      forall b | b in BallotsOf(View(), sessionID)
        ensures ballots[b] in out
      {
        assert b in ids;
        var i :| 0 <= i < |ids| && ids[i] == b;
        assert out[i] == ballots[b];
      }
    }
  }

  /** The ballots with the given ids, in their order. */
  ghost predicate ListsBallots(all: seq<Ballot>, table: map<string, Ballot>, ids: seq<string>) {
    |all| == |ids| && Distinct(ids) && forall i :: 0 <= i < |all| ==> ids[i] in table && all[i] == table[ids[i]]
  }

  /** One of the ballots names no valid choice. */
  predicate SomeInvalid(table: map<string, Ballot>, ids: set<string>, valid: set<string>) {
    exists b :: b in ids && b in table && table[b].choice !in valid
  }

  /** The recount of the listed ballots, unless one of them names no valid choice. */
  ghost predicate IsCount(r: Result<Counts, Error>, table: map<string, Ballot>, ids: set<string>, valid: set<string>) {
    if SomeInvalid(table, ids, valid) then r == Err(Invalid)
    else r.Ok? && ids <= table.Keys && r.value == Recount(table, ids)
  }

  /** Grouping the listed ballots gives their recount, unless one of them names an unknown option. */
  method CountChoices(all: seq<Ballot>, valid: set<string>, ghost table: map<string, Ballot>, ghost ids: seq<string>)
    returns (r: Result<Counts, Error>)
    requires ListsBallots(all, table, ids)
    ensures IsCount(r, table, Elements(ids), valid)
  {
    var counts: Counts := map[];
    for i := 0 to |all|
      invariant counts == Grouped(all[..i]) && forall k :: 0 <= k < i ==> all[k].choice in valid
    {
      if all[i].choice !in valid {
        InvalidFound(all, table, ids, i, valid);
        return Err(Invalid);
      }
      assert all[..i + 1][..i] == all[..i];
      counts := counts[all[i].choice := CountOf(counts, all[i].choice) + 1];
    }
    assert all[..|all|] == all;
    AllCounted(all, table, ids, valid);
    return Ok(counts);
  }

  class Service {
    const store: MemoryStore

    constructor (store: MemoryStore)
      ensures this.store == store
    {
      this.store := store;
    }

    method CreateSession(id: string, session: Session) returns (e: Option<Error>)
      modifies store
      ensures (store.View(), e) == Voting.CreateSession(old(store.View()), id, session)
    {
      if session.proposalID == "" || session.jurisdictionID == ""
         || |session.proposalID| > MAX_REF || |session.jurisdictionID| > MAX_REF {
        return Some(Invalid);
      }
      if session.minParticipation < 0.0 || session.minParticipation > 1.0 {
        return Some(Invalid);
      }
      if session.closesAt <= session.opensAt {
        return Some(Invalid);
      }
      store.sessions := store.sessions[id := session.(status := Scheduled, tally := None)];
      e := None;
    }

    method TryOpen(id: string, now: int, storeNow: int) returns (e: Option<Error>)
      modifies store
      ensures (store.View(), e) == Voting.TryOpen(old(store.View()), id, now, storeNow)
    {
      var found := store.GetSession(id);
      if found.Err? {
        return Some(found.error);
      }
      var v := found.value;
      if v.status != Scheduled {
        return Some(InvalidState);
      }
      if v.opensAt > now || now >= v.closesAt || v.coolingOffUntil > now {
        return Some(InvalidState);
      }
      var updated := store.UpdateSessionStatus(id, Open, storeNow);
      e := ErrorOf(updated);
    }

    method TryClose(id: string, now: int) returns (e: Option<Error>)
      modifies store
      ensures (store.View(), e) == Voting.TryClose(old(store.View()), id, now)
    {
      var found := store.GetSession(id);
      if found.Err? {
        return Some(found.error);
      }
      if found.value.status != Open {
        return Some(InvalidState);
      }
      if found.value.closesAt > now {
        return Some(InvalidState);
      }
      var closed := store.UpdateSessionStatus(id, Closed, now);
      e := ErrorOf(closed);
    }

    method IssueTokens(sessionID: string, citizens: seq<string>, minted: seq<FreshToken>) returns (e: Option<Error>)
      requires |minted| == |citizens|
      modifies store
      ensures (store.View(), e) == Voting.IssueTokens(old(store.View()), sessionID, citizens, minted)
    {
      var found := store.GetSession(sessionID);
      if found.Err? {
        return Some(found.error);
      }
      ghost var whole := IssueBatch(store.View(), sessionID, citizens, minted);
      for i := 0 to |citizens|
        invariant whole == IssueBatch(store.View(), sessionID, citizens[i..], minted[i..])
      {
        if citizens[i] == "" {
          return Some(Invalid);
        }
        var _ := store.IssueToken(sessionID, citizens[i], minted[i]);
        assert citizens[i..][1..] == citizens[i + 1..] && minted[i..][1..] == minted[i + 1..];
      }
      e := None;
    }

    method CastBallot(c: Cast, now: int, hash: string -> string, id: string, code: string) returns (e: Option<Error>)
      modifies store
      ensures (store.View(), e) == Voting.CastBallot(old(store.View()), c, now, hash, id, code)
    {
      var found := store.GetSession(c.sessionID);
      if found.Err? {
        return Some(found.error);
      }
      if found.value.status != Open {
        return Some(InvalidState);
      }
      if c.tokenBlind == "" || c.choice == "" || |c.choice| > MAX_CHOICE || |c.tokenBlind| > MAX_REF || c.citizenID == "" {
        return Some(Invalid);
      }
      e := store.CastBallot(c, now, hash, id, code);
    }

    /** Counting in any order stores the session's one tally. */
    method Tally(sessionID: string) returns (e: Option<Error>)
      modifies store
      ensures (store.View(), e) == TallySession(old(store.View()), sessionID)
    {
      var found := store.GetSession(sessionID);
      if found.Err? {
        return Some(found.error);
      }
      var v := found.value;
      if v.status != Closed && v.status != Certified {
        return Some(InvalidState);
      }
      if v.tally.Some? {
        return None;
      }
      var all, ids := store.BallotsForSession(sessionID);
      var options := ListAt(store.optionsBySession, sessionID);
      var counted := CountChoices(all, (set o | o in options), store.ballots, ids);
      if counted.Err? {
        return Some(counted.error);
      }
      var winner, decided := EvaluateOutcome(v.voteMethod, v.rule, counted.value, |all|);
      TallyIsUnique(store.View(), sessionID, ids, counted.value, winner, decided);
      var stored := store.SetTally(sessionID, Voting.Tally(sessionID, counted.value, |all|, winner, decided));
      e := None;
    }

    method Certify(sessionID: string, sink: Option<bool>, now: int) returns (e: Option<Error>)
      modifies store
      ensures (store.View(), e) == Voting.Certify(old(store.View()), sessionID, sink)
    {
      var found := store.GetSession(sessionID);
      if found.Err? {
        return Some(found.error);
      }
      var v := found.value;
      if v.status == Certified && sink.Some? {
        return if v.tally.Some? && v.tally.value.decided && !sink.value then Some(GovernanceUnavailable) else None;
      }
      if v.status != Closed {
        return Some(InvalidState);
      }
      if v.tally.None? {
        e := Tally(sessionID);
        if e.Some? {
          return;
        }
        v := store.sessions[sessionID];
      }
      var tokens := store.CountTokens(sessionID);
      var participation: real := 0.0;
      if tokens > 0 {
        participation := (v.tally.value.totalBallots as real) / (tokens as real);
      }
      if participation >= v.minParticipation {
        var out := store.UpdateSessionStatus(sessionID, Certified, now);
        return if sink == Some(false) && v.tally.value.decided then Some(GovernanceUnavailable) else None;
      }
      e := None;
    }
  }

  /** The counts of a list of ballots, one ballot after the other. */
  function Grouped(all: seq<Ballot>): Counts {
    if all == [] then map[]
    else
      var before, c := Grouped(all[..|all| - 1]), all[|all| - 1].choice;
      before[c := CountOf(before, c) + 1]
  }

  /** They are the recount of the ballots, whatever their order in the list. */
  lemma {:induction false} GroupedIsRecount(all: seq<Ballot>, table: map<string, Ballot>, ids: seq<string>)
    requires ListsBallots(all, table, ids)
    ensures Elements(ids) <= table.Keys && Grouped(all) == Recount(table, Elements(ids))
  {
    if all != [] {
      var front, last := ids[..|ids| - 1], ids[|ids| - 1];
      GroupedIsRecount(all[..|all| - 1], table, front);
      LastIsNew(ids);
      RecountGrows(table, Elements(front), last);
    } else {
      assert Elements(ids) == {};
    }
  }

  lemma LastIsNew(ids: seq<string>)
    requires ids != [] && Distinct(ids)
    ensures var front, last := ids[..|ids| - 1], ids[|ids| - 1];
            last !in Elements(front) && Elements(ids) == Elements(front) + {last}
  {
    assert ids == ids[..|ids| - 1] + [ids[|ids| - 1]];
  }

  lemma InvalidFound(all: seq<Ballot>, table: map<string, Ballot>, ids: seq<string>, i: nat, valid: set<string>)
    requires ListsBallots(all, table, ids) && i < |ids| && all[i].choice !in valid
    ensures IsCount(Err(Invalid), table, Elements(ids), valid)
  {
    assert ids[i] in table && all[i] == table[ids[i]] && ids[i] in Elements(ids);
  }

  lemma AllCounted(all: seq<Ballot>, table: map<string, Ballot>, ids: seq<string>, valid: set<string>)
    requires ListsBallots(all, table, ids) && forall k :: 0 <= k < |all| ==> all[k].choice in valid
    ensures IsCount(Ok(Grouped(all)), table, Elements(ids), valid)
  {
    GroupedIsRecount(all, table, ids);
    forall b | b in Elements(ids)
      ensures b in table && table[b].choice in valid
    {
      var k :| 0 <= k < |ids| && ids[k] == b;
      assert all[k] == table[b];
    }
  }

  /** A key that is indexed leads to the token of exactly that session and citizen. */
  lemma KeyLeadsToItsToken(s: State, sessionID: string, citizenID: string)
    requires TokenInv(s) && sessionID in s.sessions
    ensures TokenKey(sessionID, citizenID) in s.tokenByKey ==>
              var t := s.tokenByKey[TokenKey(sessionID, citizenID)];
              t in s.tokens && s.tokens[t].sessionID == sessionID && s.tokens[t].citizenID == citizenID
  {
    if TokenKey(sessionID, citizenID) in s.tokenByKey {
      var t := s.tokens[s.tokenByKey[TokenKey(sessionID, citizenID)]];
      KeyDeterminesCitizen(sessionID, citizenID, t.sessionID, t.citizenID);
    }
  }

  /** However the ballots were listed and the counts walked, the tally is the session's. */
  lemma TallyIsUnique(s: State, id: string, ids: seq<string>, counts: Counts, winner: string, decided: bool)
    requires id in s.sessions && Distinct(ids) && (set b | b in ids) == BallotsOf(s, id)
    requires counts == Recount(s.ballots, BallotsOf(s, id))
    requires IsOutcome(s.sessions[id].voteMethod, s.sessions[id].rule, counts, |ids|, winner, decided)
    ensures Tally(id, counts, |ids|, winner, decided) == TallyOf(s, id)
  {
    DistinctSize(ids);
    RecountSumsUp(s.ballots, BallotsOf(s, id));
    var outcome := Decide(s.sessions[id].voteMethod, s.sessions[id].rule, counts, |ids|);
    OutcomeIsOrderIndependent(s.sessions[id].voteMethod, s.sessions[id].rule, counts, |ids|, winner, decided, outcome.0, outcome.1);
  }
}
