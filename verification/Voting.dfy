/**
 Vote sessions as values: the tables of apps/api-go/internal/voting/store.go and what each service call
 of apps/api-go/internal/voting/service.go turns them into. Each call is one atomic step.

 Fresh identifiers and tokens, the clock readings, the hash and the delivery of a certificate are
 arguments of the calls.
 */
module Voting {
  import opened Wrappers
  import opened Outcome

  datatype Status = Scheduled | Open | Closed | Certified

  datatype Error = NotFound | Conflict | Invalid | InvalidState | GovernanceUnavailable

  datatype Tally = Tally(sessionID: string, counts: Counts, totalBallots: nat, winner: string, decided: bool)

  datatype Session = Session(
    proposalID: string, jurisdictionID: string, voteMethod: Method, rule: Rule, minParticipation: real,
    coolingOffUntil: int, opensAt: int, closesAt: int, status: Status, tally: Option<Tally>)

  datatype VoteOption = VoteOption(sessionID: string, proposalID: string, optionLabel: string, description: string)

  datatype Token = Token(sessionID: string, citizenID: string, blindHash: string, used: bool)

  datatype Ballot = Ballot(sessionID: string, choice: string, code: string)

  datatype State = State(
    sessions: map<string, Session>,
    options: map<string, VoteOption>, optionsBySession: map<string, seq<string>>,
    tokens: map<string, Token>, tokenByKey: map<string, string>, tokensBySession: map<string, seq<string>>,
    ballots: map<string, Ballot>, ballotByCode: map<string, string>)

  const Empty: State := State(map[], map[], map[], map[], map[], map[], map[], map[])

  const MAX_REF: nat := 256
  const MAX_DESCRIPTION: nat := 4096
  const MAX_CHOICE: nat := 8192

  /** The uniqueness key of a token: the two ids joined by a NUL character. */
  function TokenKey(sessionID: string, citizenID: string): string {
    sessionID + "\0" + citizenID
  }

  // ----- the calls -----

  function CreateSession(s: State, id: string, session: Session): (State, Option<Error>) {
    if |session.proposalID| == 0 || |session.jurisdictionID| == 0
       || |session.proposalID| > MAX_REF || |session.jurisdictionID| > MAX_REF then (s, Some(Invalid))
    else if session.minParticipation < 0.0 || session.minParticipation > 1.0 then (s, Some(Invalid))
    else if session.closesAt <= session.opensAt then (s, Some(Invalid))
    else (s.(sessions := s.sessions[id := session.(status := Scheduled, tally := None)]), None)
  }

  function AddOption(s: State, id: string, o: VoteOption): (State, Option<Error>) {
    if o.sessionID !in s.sessions || s.sessions[o.sessionID].status != Scheduled then (s, Some(InvalidState))
    else if |o.optionLabel| > MAX_REF || |o.description| > MAX_DESCRIPTION then (s, Some(Invalid))
    else (s.(options := s.options[id := o],
             optionsBySession := s.optionsBySession[o.sessionID := ListAt(s.optionsBySession, o.sessionID) + [id]]), None)
  }

  function SetStatus(s: State, id: string, status: Status): State
    requires id in s.sessions
  {
    s.(sessions := s.sessions[id := s.sessions[id].(status := status)])
  }

  /** The service reads the clock for its own checks, the store reads it again under its lock. */
  function TryOpen(s: State, id: string, now: int, storeNow: int): (State, Option<Error>) {
    if id !in s.sessions then (s, Some(NotFound))
    else
      var v := s.sessions[id];
      if v.status != Scheduled then (s, Some(InvalidState))
      else if v.opensAt > now || now >= v.closesAt || v.coolingOffUntil > now then (s, Some(InvalidState))
      else if storeNow < v.opensAt || storeNow < v.coolingOffUntil || storeNow >= v.closesAt then (s, Some(InvalidState))
      else (SetStatus(s, id, Open), None)
  }

  function TryClose(s: State, id: string, now: int): (State, Option<Error>) {
    if id !in s.sessions then (s, Some(NotFound))
    else if s.sessions[id].status != Open || s.sessions[id].closesAt > now then (s, Some(InvalidState))
    else (SetStatus(s, id, Closed), None)
  }

  datatype FreshToken = FreshToken(id: string, blindHash: string)

  /** A citizen who already holds a token of the session keeps it. */
  function IssueToken(s: State, sessionID: string, citizenID: string, minted: FreshToken): State {
    var key := TokenKey(sessionID, citizenID);
    if key in s.tokenByKey then s
    else s.(tokens := s.tokens[minted.id := Token(sessionID, citizenID, minted.blindHash, false)],
            tokenByKey := s.tokenByKey[key := minted.id],
            tokensBySession := s.tokensBySession[sessionID := ListAt(s.tokensBySession, sessionID) + [minted.id]])
  }

  /** A batch stops at the first empty citizen id and keeps what it has issued by then. */
  function IssueBatch(s: State, sessionID: string, citizens: seq<string>, minted: seq<FreshToken>): (State, Option<Error>)
    requires |minted| == |citizens|
    decreases |citizens|
  {
    if citizens == [] then (s, None)
    else if citizens[0] == "" then (s, Some(Invalid))
    else IssueBatch(IssueToken(s, sessionID, citizens[0], minted[0]), sessionID, citizens[1..], minted[1..])
  }

  function IssueTokens(s: State, sessionID: string, citizens: seq<string>, minted: seq<FreshToken>): (State, Option<Error>)
    requires |minted| == |citizens|
  {
    if sessionID !in s.sessions then (s, Some(NotFound)) else IssueBatch(s, sessionID, citizens, minted)
  }

  datatype Cast = Cast(sessionID: string, tokenID: string, tokenBlind: string, choice: string, citizenID: string)

  /** Why the store refuses a ballot: session window, token, citizen, single use, blind. */
  function StoreCastError(s: State, c: Cast, now: int, hash: string -> string): Option<Error> {
    if c.sessionID !in s.sessions || s.sessions[c.sessionID].status != Open
       || now >= s.sessions[c.sessionID].closesAt || now < s.sessions[c.sessionID].opensAt then Some(InvalidState)
    else if c.tokenID !in s.tokens || s.tokens[c.tokenID].sessionID != c.sessionID then Some(NotFound)
    else if s.tokens[c.tokenID].citizenID != c.citizenID then Some(Invalid)
    else if s.tokens[c.tokenID].used then Some(Conflict)
    else if hash(c.tokenBlind) != s.tokens[c.tokenID].blindHash then Some(Invalid)
    else None
  }

  /** Why a ballot is refused, by the service and then by the store. */
  function CastError(s: State, c: Cast, now: int, hash: string -> string): Option<Error> {
    if c.sessionID !in s.sessions then Some(NotFound)
    else if s.sessions[c.sessionID].status != Open then Some(InvalidState)
    else if c.tokenBlind == "" || c.choice == "" || |c.choice| > MAX_CHOICE || |c.tokenBlind| > MAX_REF
            || c.citizenID == "" then Some(Invalid)
    else StoreCastError(s, c, now, hash)
  }

  /** The ballot, its code and the spent token. */
  function Accept(s: State, c: Cast, id: string, code: string): State
    requires c.tokenID in s.tokens
  {
    s.(ballots := s.ballots[id := Ballot(c.sessionID, c.choice, code)],
       ballotByCode := s.ballotByCode[code := id],
       tokens := s.tokens[c.tokenID := s.tokens[c.tokenID].(used := true)])
  }

  function StoreCast(s: State, c: Cast, now: int, hash: string -> string, id: string, code: string): (State, Option<Error>) {
    var e := StoreCastError(s, c, now, hash);
    if e.Some? then (s, e) else (Accept(s, c, id, code), None)
  }

  function CastBallot(s: State, c: Cast, now: int, hash: string -> string, id: string, code: string)
    : (State, Option<Error>)
  {
    var e := CastError(s, c, now, hash);
    if e.Some? then (s, e) else (Accept(s, c, id, code), None)
  }

  function BallotsOf(s: State, sessionID: string): set<string> {
    set b | b in s.ballots && s.ballots[b].sessionID == sessionID
  }

  function TokensOf(s: State, sessionID: string): set<string> {
    set t | t in s.tokens && s.tokens[t].sessionID == sessionID
  }

  function Choices(ballots: map<string, Ballot>, ids: set<string>): set<string>
    requires ids <= ballots.Keys
  {
    set b | b in ids :: ballots[b].choice
  }

  function Choosing(ballots: map<string, Ballot>, ids: set<string>, c: string): set<string>
    requires ids <= ballots.Keys
  {
    set b | b in ids && ballots[b].choice == c
  }

  /** How often each choice occurs among the given ballots. */
  function Recount(ballots: map<string, Ballot>, ids: set<string>): Counts
    requires ids <= ballots.Keys
  {
    map c | c in Choices(ballots, ids) :: |Choosing(ballots, ids, c)|
  }

  /** The one outcome the rules allow for complete counts. */
  ghost function Decide(voteMethod: Method, rule: Rule, counts: Counts, total: nat): (r: (string, bool))
    ensures IsOutcome(voteMethod, rule, counts, total, r.0, r.1)
  {
    if w :| Wins(voteMethod, rule, counts, total, w) then (w, true) else ("", false)
  }

  /** The tally of a session's ballots as they stand. */
  ghost function TallyOf(s: State, sessionID: string): Tally
    requires sessionID in s.sessions
  {
    var v := s.sessions[sessionID];
    var ids := BallotsOf(s, sessionID);
    var counts := Recount(s.ballots, ids);
    var outcome := Decide(v.voteMethod, v.rule, counts, |ids|);
    Tally(sessionID, counts, |ids|, outcome.0, outcome.1)
  }

  /** Counting, which refuses a ballot whose choice is not an option of the session, and keeps a first result. */
  ghost function TallySession(s: State, sessionID: string): (State, Option<Error>) {
    if sessionID !in s.sessions then (s, Some(NotFound))
    else
      var v := s.sessions[sessionID];
      if v.status != Closed && v.status != Certified then (s, Some(InvalidState))
      else if v.tally.Some? then (s, None)
      else if exists b :: b in BallotsOf(s, sessionID) && s.ballots[b].choice !in ListAt(s.optionsBySession, sessionID)
        then (s, Some(Invalid))
      else (s.(sessions := s.sessions[sessionID := v.(tally := Some(TallyOf(s, sessionID)))]), None)
  }

  function Participation(ballots: nat, tokens: nat): real {
    if tokens > 0 then (ballots as real) / (tokens as real) else 0.0
  }

  /** `sink` is None without a certification sink, otherwise whether its delivery succeeds. */
  ghost function Certify(s: State, sessionID: string, sink: Option<bool>): (State, Option<Error>) {
    if sessionID !in s.sessions then (s, Some(NotFound))
    else
      var v := s.sessions[sessionID];
      if v.status == Certified && sink.Some? then
        (s, if v.tally.Some? && v.tally.value.decided && !sink.value then Some(GovernanceUnavailable) else None)
      else if v.status != Closed then (s, Some(InvalidState))
      else
        var (t, e) := TallySession(s, sessionID);
        if e.Some? then (s, e)
        else
          var tally := t.sessions[sessionID].tally.value;
          if Participation(tally.totalBallots, |ListAt(t.tokensBySession, sessionID)|) < v.minParticipation then (t, None)
          else (SetStatus(t, sessionID, Certified),
                if sink == Some(false) && tally.decided then Some(GovernanceUnavailable) else None)
  }

  // ----- runs -----

  datatype Request =
    | DoCreate(id: string, session: Session)
    | DoAddOption(id: string, option: VoteOption)
    | DoOpen(id: string, now: int, storeNow: int)
    | DoClose(id: string, now: int)
    | DoIssue(id: string, citizens: seq<string>, minted: seq<FreshToken>)
    | DoCast(cast: Cast, now: int, id: string, code: string)
    | DoTally(id: string)
    | DoCertify(id: string, sink: Option<bool>)

  ghost function Step(s: State, r: Request, hash: string -> string): State
    requires r.DoIssue? ==> |r.minted| == |r.citizens|
  {
    match r
    case DoCreate(id, session) => CreateSession(s, id, session).0
    case DoAddOption(id, o) => AddOption(s, id, o).0
    case DoOpen(id, now, storeNow) => TryOpen(s, id, now, storeNow).0
    case DoClose(id, now) => TryClose(s, id, now).0
    case DoIssue(id, citizens, minted) => IssueTokens(s, id, citizens, minted).0
    case DoCast(c, now, id, code) => CastBallot(s, c, now, hash, id, code).0
    case DoTally(id) => TallySession(s, id).0
    case DoCertify(id, sink) => Certify(s, id, sink).0
  }

  /** What a random id of 128 or 256 bits is taken to be: never handed out before, and free of NUL. */
  predicate Fresh(s: State, r: Request) {
    match r
    case DoCreate(id, _) => id !in s.sessions && '\0' !in id
    case DoAddOption(id, _) => id !in s.options
    case DoIssue(_, citizens, minted) =>
      && |minted| == |citizens|
      && (forall i :: 0 <= i < |minted| ==> minted[i].id !in s.tokens)
      && (forall i, j :: 0 <= i < j < |minted| ==> minted[i].id != minted[j].id)
    case DoCast(_, _, id, code) => id !in s.ballots && code !in s.ballotByCode
    case _ => true
  }

  /** A run of service calls from one state to another. */
  ghost predicate Run(s: State, requests: seq<Request>, hash: string -> string, s': State)
    decreases |requests|
  {
    if requests == [] then s' == s
    else Fresh(s, requests[0]) && Run(Step(s, requests[0], hash), requests[1..], hash, s')
  }
}
