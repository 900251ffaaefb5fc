/**
 Sessions and their two token indexes (apps/api-go/internal/auth/store.go and service.go) as values: what
 each service call does to the tables, and what every run of calls keeps.

 Tokens appear as their hashes. New ids and hashes, clock readings and the identity service's answer are
 arguments of the calls.
 */
module Auth {
  import opened Wrappers

  datatype Status = Active | Suspended | Revoked

  datatype Tier = T1 | T2 | T3

  datatype Error = NotFound | Invalid | Unauthorized | Forbidden

  datatype Session = Session(
    citizenID: string, access: string, refresh: string, accessExpiresAt: int, device: string, subnet: string,
    tier: Tier, lastMFAAt: int, lastRefreshAt: int, expiresAt: int, status: Status)

  datatype State = State(sessions: map<string, Session>, byAccess: map<string, string>, byRefresh: map<string, string>,
                         used: set<string>)

  const Empty: State := State(map[], map[], map[], {})

  // durations in seconds
  const ACCESS_TTL: int := 15 * 60
  const T2_WINDOW: int := 12 * 60 * 60
  const T3_WINDOW: int := 5 * 60
  const REFRESH_TTL: int := 30 * 24 * 60 * 60
  const PURGE_GRACE: int := 24 * 60 * 60

  // ----- the store -----

  function Insert(s: State, id: string, v: Session): State {
    s.(sessions := s.sessions[id := v], byAccess := s.byAccess[v.access := id], byRefresh := s.byRefresh[v.refresh := id])
  }

  /** Swaps both hashes and retires the old refresh hash. */
  function RotateRefresh(s: State, id: string, access: string, refresh: string, accessExp: int, now: int): State
    requires id in s.sessions
  {
    var v := s.sessions[id];
    State(s.sessions[id := v.(access := access, refresh := refresh, accessExpiresAt := accessExp, lastRefreshAt := now)],
          (s.byAccess - {v.access})[access := id],
          (s.byRefresh - {v.refresh})[refresh := id],
          s.used + {v.refresh})
  }

  function RotateAccess(s: State, id: string, access: string, accessExp: int): State
    requires id in s.sessions
  {
    var v := s.sessions[id];
    s.(sessions := s.sessions[id := v.(access := access, accessExpiresAt := accessExp)],
       byAccess := (s.byAccess - {v.access})[access := id])
  }

  function SetStatus(s: State, id: string, status: Status): State
    requires id in s.sessions
  {
    s.(sessions := s.sessions[id := s.sessions[id].(status := status)])
  }

  function SetTier(s: State, id: string, tier: Tier, mfaAt: int): State
    requires id in s.sessions
  {
    s.(sessions := s.sessions[id := s.sessions[id].(tier := tier, lastMFAAt := mfaAt)])
  }

  predicate Purgeable(v: Session, now: int) {
    v.status != Revoked && now > v.expiresAt + PURGE_GRACE
  }

  // ----- the calls -----

  datatype Login = Login(citizenID: string, device: string, subnet: string)

  /** The identity service answers with a status or fails. */
  function IssueError(l: Login, identity: Result<string, Error>): Option<Error> {
    if l.citizenID == "" || l.device == "" then Some(Invalid)
    else if identity.Err? then Some(Unauthorized)
    else if identity.value == "pending" then Some(Forbidden)
    else if identity.value == "active" then None
    else Some(Unauthorized)
  }

  function NewSession(l: Login, access: string, refresh: string, now: int): Session {
    Session(l.citizenID, access, refresh, now + ACCESS_TTL, l.device, l.subnet, T1, 0, now, now + REFRESH_TTL, Active)
  }

  function Issue(s: State, l: Login, identity: Result<string, Error>, id: string, access: string, refresh: string, now: int)
    : (State, Option<Error>)
  {
    var e := IssueError(l, identity);
    if e.Some? then (s, e) else (Insert(s, id, NewSession(l, access, refresh, now)), None)
  }

  datatype Presented = Presented(hash: string, device: string, subnet: string)

  /** The tier a refreshed session keeps: T3 never survives, T2 only inside its window. */
  function RefreshedTier(v: Session, now: int): Tier {
    if v.tier == T3 || (v.tier == T2 && now - v.lastMFAAt > T2_WINDOW) then T1 else v.tier
  }

  datatype Outcome = Refused(reuse: bool) | Suspend(id: string) | Rotate(id: string)

  /** What presenting a refresh token leads to; `reuse` is the signal that it was rotated away before. */
  function RefreshOutcome(s: State, p: Presented, identity: Result<string, Error>, now: int): (o: Outcome)
    ensures o.Suspend? || o.Rotate? ==> p.hash in s.byRefresh && o.id == s.byRefresh[p.hash] && o.id in s.sessions
  {
    if p.hash !in s.byRefresh then Refused(p.hash in s.used)
    else if s.byRefresh[p.hash] !in s.sessions then Refused(false)
    else
      var id := s.byRefresh[p.hash];
      var v := s.sessions[id];
      if v.status != Active || now > v.expiresAt then Refused(false)
      else if identity != Ok("active") then Refused(false)
      else if v.device != p.device || v.subnet != p.subnet then Suspend(id)
      else Rotate(id)
  }

  function Refresh(s: State, p: Presented, identity: Result<string, Error>, access: string, refresh: string, now: int)
    : (State, bool)
  {
    match RefreshOutcome(s, p, identity, now)
    case Refused(_) => (s, false)
    case Suspend(id) => (SetStatus(s, id, Suspended), false)
    case Rotate(id) =>
      var v := s.sessions[id];
      var t := RotateRefresh(s, id, access, refresh, now + ACCESS_TTL, now);
      (if RefreshedTier(v, now) == v.tier then t else SetTier(t, id, RefreshedTier(v, now), v.lastMFAAt), true)
  }

  function Logout(s: State, access: string): (State, Option<Error>) {
    if access !in s.byAccess || s.byAccess[access] !in s.sessions then (s, Some(NotFound))
    else (SetStatus(s, s.byAccess[access], Revoked), None)
  }

  /** The session copy a valid access token yields, its tier lowered once the second factor is too old. */
  function Validate(s: State, access: string, identity: Result<string, Error>, now: int): Result<Session, Error> {
    if access !in s.byAccess || s.byAccess[access] !in s.sessions then Err(Unauthorized)
    else
      var v := s.sessions[s.byAccess[access]];
      if v.status != Active || now > v.accessExpiresAt || identity != Ok("active") then Err(Unauthorized)
      else if v.tier == T3 && now - v.lastMFAAt > T3_WINDOW then Ok(v.(tier := T1))
      else if v.tier == T2 && now - v.lastMFAAt > T2_WINDOW then Ok(v.(tier := T1))
      else Ok(v)
  }

  function RevokeAll(s: State, citizenID: string): State {
    s.(sessions := map id | id in s.sessions ::
         if s.sessions[id].citizenID == citizenID then s.sessions[id].(status := Revoked) else s.sessions[id])
  }

  /** What is left after purging: an index entry goes with the session it pointed at. */
  function Purge(s: State, now: int): State {
    State(map id | id in s.sessions && !Purgeable(s.sessions[id], now) :: s.sessions[id],
          map h | h in s.byAccess && (s.byAccess[h] in s.sessions ==> !Purgeable(s.sessions[s.byAccess[h]], now)) :: s.byAccess[h],
          map h | h in s.byRefresh && (s.byRefresh[h] in s.sessions ==> !Purgeable(s.sessions[s.byRefresh[h]], now)) :: s.byRefresh[h],
          s.used)
  }

  // ----- runs -----

  datatype Request =
    | DoIssue(login: Login, identity: Result<string, Error>, id: string, access: string, refresh: string)
    | DoRefresh(presented: Presented, identity: Result<string, Error>, access: string, refresh: string)
    | DoLogout(access: string)
    | DoRevokeAll(citizenID: string)
    | DoPurge
    | DoStepUp(id: string, access: string)
    | DoSetTier(id: string, tier: Tier)

  function Step(s: State, r: Request, now: int): State {
    match r
    case DoIssue(l, identity, id, access, refresh) => Issue(s, l, identity, id, access, refresh, now).0
    case DoRefresh(p, identity, access, refresh) => Refresh(s, p, identity, access, refresh, now).0
    case DoLogout(access) => Logout(s, access).0
    case DoRevokeAll(citizenID) => RevokeAll(s, citizenID)
    case DoPurge => Purge(s, now)
    case DoStepUp(id, access) => if id in s.sessions then RotateAccess(s, id, access, now + ACCESS_TTL) else s
    case DoSetTier(id, tier) => if id in s.sessions then SetTier(s, id, tier, now) else s
  }

  /** The hashes and ids a call mints. */
  function Minted(r: Request): set<string> {
    match r
    case DoIssue(_, _, id, access, refresh) => {id, access, refresh}
    case DoRefresh(_, _, access, refresh) => {access, refresh}
    case DoStepUp(_, access) => {access}
    case _ => {}
  }

  /** Random tokens and ids: never minted before. */
  predicate FreshTokens(ever: set<string>, r: Request) {
    Minted(r) !! ever
  }

  // ----- the invariant -----

  /** A hash is indexed under an id exactly when that live session holds it. */
  ghost predicate AccessExact(s: State) {
    && (forall id :: id in s.sessions ==> s.sessions[id].access in s.byAccess && s.byAccess[s.sessions[id].access] == id)
    && (forall h :: h in s.byAccess ==> s.byAccess[h] in s.sessions && s.sessions[s.byAccess[h]].access == h)
  }

  ghost predicate RefreshExact(s: State) {
    && (forall id :: id in s.sessions ==> s.sessions[id].refresh in s.byRefresh && s.byRefresh[s.sessions[id].refresh] == id)
    && (forall h :: h in s.byRefresh ==> s.byRefresh[h] in s.sessions && s.sessions[s.byRefresh[h]].refresh == h)
  }

  /** Retired hashes are never current ones, and nothing is known that was not minted. */
  ghost predicate RetiredApart(s: State, ever: set<string>) {
    && s.used !! s.byRefresh.Keys
    && s.used <= ever && s.byRefresh.Keys <= ever && s.byAccess.Keys <= ever && s.sessions.Keys <= ever
  }

  ghost predicate Inv(s: State, ever: set<string>) {
    AccessExact(s) && RefreshExact(s) && RetiredApart(s, ever)
  }

  lemma InsertKeeps(s: State, id: string, v: Session, ever: set<string>)
    requires Inv(s, ever) && id !in ever && v.access !in ever && v.refresh !in ever
    ensures Inv(Insert(s, id, v), ever + {id, v.access, v.refresh})
  {
  }

  lemma RotateRefreshKeeps(s: State, id: string, access: string, refresh: string, accessExp: int, now: int, ever: set<string>)
    requires Inv(s, ever) && id in s.sessions && access !in ever && refresh !in ever
    ensures Inv(RotateRefresh(s, id, access, refresh, accessExp, now), ever + {access, refresh})
  {
    var v, t := s.sessions[id], RotateRefresh(s, id, access, refresh, accessExp, now);
    assert AccessExact(t) by {
      assert t.byAccess == (s.byAccess - {v.access})[access := id];
    }
    assert RefreshExact(t) by {
      assert t.byRefresh == (s.byRefresh - {v.refresh})[refresh := id];
    }
  }

  lemma RotateAccessKeeps(s: State, id: string, access: string, accessExp: int, ever: set<string>)
    requires Inv(s, ever) && id in s.sessions && access !in ever
    ensures Inv(RotateAccess(s, id, access, accessExp), ever + {access})
  {
  }

  /** Changing anything about sessions but their hashes. */
  lemma SameHashesKeep(s: State, t: State, ever: set<string>)
    requires Inv(s, ever)
    requires t.byAccess == s.byAccess && t.byRefresh == s.byRefresh && t.used == s.used && t.sessions.Keys == s.sessions.Keys
    requires forall id :: id in s.sessions ==>
               t.sessions[id].access == s.sessions[id].access && t.sessions[id].refresh == s.sessions[id].refresh
    ensures Inv(t, ever)
  {
  }

  lemma PurgeKeeps(s: State, now: int, ever: set<string>)
    requires Inv(s, ever)
    ensures Inv(Purge(s, now), ever)
  {
  }

  lemma MoreEver(s: State, ever: set<string>, more: set<string>)
    requires Inv(s, ever)
    ensures Inv(s, ever + more)
  {
  }

  lemma RefreshKeeps(s: State, p: Presented, identity: Result<string, Error>, access: string, refresh: string, now: int,
                     ever: set<string>)
    requires Inv(s, ever) && access !in ever && refresh !in ever
    ensures Inv(Refresh(s, p, identity, access, refresh, now).0, ever + {access, refresh})
  {
    match RefreshOutcome(s, p, identity, now)
    case Refused(_) => MoreEver(s, ever, {access, refresh});
    case Suspend(id) =>
      SameHashesKeep(s, SetStatus(s, id, Suspended), ever);
      MoreEver(SetStatus(s, id, Suspended), ever, {access, refresh});
    case Rotate(id) =>
      var v := s.sessions[id];
      var t := RotateRefresh(s, id, access, refresh, now + ACCESS_TTL, now);
      RotateRefreshKeeps(s, id, access, refresh, now + ACCESS_TTL, now, ever);
      SameHashesKeep(t, SetTier(t, id, RefreshedTier(v, now), v.lastMFAAt), ever + {access, refresh});
  }

  lemma StepKeeps(s: State, r: Request, now: int, ever: set<string>)
    requires Inv(s, ever) && FreshTokens(ever, r)
    ensures Inv(Step(s, r, now), ever + Minted(r))
  {
    match r
    case DoIssue(l, identity, id, access, refresh) =>
      if IssueError(l, identity).None? {
        InsertKeeps(s, id, NewSession(l, access, refresh, now), ever);
      } else {
        MoreEver(s, ever, Minted(r));
      }
    case DoRefresh(p, identity, access, refresh) => RefreshKeeps(s, p, identity, access, refresh, now, ever);
    case DoLogout(access) =>
      SameHashesKeep(s, Logout(s, access).0, ever);
      MoreEver(Logout(s, access).0, ever, {});
    case DoRevokeAll(citizenID) =>
      SameHashesKeep(s, RevokeAll(s, citizenID), ever);
      MoreEver(RevokeAll(s, citizenID), ever, {});
    case DoPurge =>
      PurgeKeeps(s, now, ever);
      MoreEver(Purge(s, now), ever, {});
    case DoStepUp(id, access) =>
      if id in s.sessions {
        RotateAccessKeeps(s, id, access, now + ACCESS_TTL, ever);
      } else {
        MoreEver(s, ever, Minted(r));
      }
    case DoSetTier(id, tier) =>
      SameHashesKeep(s, Step(s, r, now), ever);
      MoreEver(Step(s, r, now), ever, {});
  }
}
