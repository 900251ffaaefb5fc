/**
 When each call of the auth service succeeds and what it does to the sessions, described by the fields of the
 sessions and of what is presented (apps/api-go/internal/auth/service.go and store.go), and what a suspension is
 good for in every run. Durations are in seconds.
 */
module AuthEffects {
  import opened Wrappers
  import opened Runs
  import opened Auth
  import opened AuthRuns

  // ----- refreshing -----

  /** The token leads to this live session, and its citizen is active. */
  predicate LeadsTo(s: State, p: Presented, identity: Result<string, Error>, now: int, id: string) {
    && p.hash in s.byRefresh && s.byRefresh[p.hash] == id && id in s.sessions
    && s.sessions[id].status == Active && now <= s.sessions[id].expiresAt
    && identity.Ok? && identity.value == "active"
  }

  /** From the device and the subnet the session was opened on. */
  predicate FromTheSamePlace(s: State, p: Presented, id: string)
    requires id in s.sessions
  {
    s.sessions[id].device == p.device && s.sessions[id].subnet == p.subnet
  }

  /** New tokens are handed out exactly for a live session from its own place; from another place it is suspended. */
  lemma RefreshBindsThePlace(s: State, p: Presented, identity: Result<string, Error>, now: int, id: string)
    ensures RefreshOutcome(s, p, identity, now) == Rotate(id) <==>
            LeadsTo(s, p, identity, now, id) && FromTheSamePlace(s, p, id)
    ensures RefreshOutcome(s, p, identity, now) == Suspend(id) <==>
            LeadsTo(s, p, identity, now, id) && !FromTheSamePlace(s, p, id)
  {
  }

  /** Every session but this one is as before. */
  predicate OthersSame(s: State, t: State, id: string) {
    t.sessions.Keys == s.sessions.Keys && forall x :: x in s.sessions && x != id ==> t.sessions[x] == s.sessions[x]
  }

  /** A rotation: the new tokens, a quarter of an hour of access, the old refresh token retired, the tier no higher. */
  lemma RotationSwapsTokens(s: State, p: Presented, identity: Result<string, Error>, access: string, refresh: string, now: int, id: string)
    requires LeadsTo(s, p, identity, now, id) && FromTheSamePlace(s, p, id)
    ensures var (t, ok) := Refresh(s, p, identity, access, refresh, now);
            var v, w := s.sessions[id], t.sessions[id];
            && ok && OthersSame(s, t, id)
            && w.access == access && w.refresh == refresh && w.accessExpiresAt == now + 900 && w.lastRefreshAt == now
            && w.tier == (if v.tier == T2 && now - v.lastMFAAt <= 43200 then T2 else T1)
            && w.(access := v.access, refresh := v.refresh, accessExpiresAt := v.accessExpiresAt,
                  lastRefreshAt := v.lastRefreshAt, tier := v.tier) == v
            && v.refresh in t.used && t.used == s.used + {v.refresh}
            && access in t.byAccess && t.byAccess[access] == id && refresh in t.byRefresh && t.byRefresh[refresh] == id
            && (v.access != access ==> v.access !in t.byAccess) && (v.refresh != refresh ==> v.refresh !in t.byRefresh)
  {
  }

  /** A suspension: no tokens, and nothing changes but the status. */
  lemma SuspensionSuspends(s: State, p: Presented, identity: Result<string, Error>, access: string, refresh: string, now: int, id: string)
    requires LeadsTo(s, p, identity, now, id) && !FromTheSamePlace(s, p, id)
    ensures var (t, ok) := Refresh(s, p, identity, access, refresh, now);
            && !ok && OthersSame(s, t, id) && t.sessions[id].status == Suspended
            && t.sessions[id].(status := s.sessions[id].status) == s.sessions[id]
            && t.byAccess == s.byAccess && t.byRefresh == s.byRefresh && t.used == s.used
  {
  }

  /** Presented for anything else, a token gets nothing and changes nothing. */
  lemma OtherwiseRefused(s: State, p: Presented, identity: Result<string, Error>, access: string, refresh: string, now: int)
    requires forall id :: !LeadsTo(s, p, identity, now, id)
    ensures Refresh(s, p, identity, access, refresh, now) == (s, false)
  {
    assert p.hash in s.byRefresh ==> !LeadsTo(s, p, identity, now, s.byRefresh[p.hash]);
  }

  // ----- a suspension is for good -----

  /** An id that was given out and under which no session is active. */
  predicate Inactive(w: World, id: string) {
    id in w.ever && (id in w.s.sessions ==> w.s.sessions[id].status != Active)
  }

  /** Whatever is presented, the session is neither validated nor refreshed. */
  ghost predicate OutOfReach(s: State, id: string) {
    && (forall hash, identity, now :: Validate(s, hash, identity, now).Ok? ==> s.byAccess[hash] != id)
    && (forall p, identity, now :: RefreshOutcome(s, p, identity, now) != Rotate(id))
  }

  lemma InactiveIsOutOfReach(w: World, id: string)
    requires Inactive(w, id)
    ensures OutOfReach(w.s, id)
  {
  }

  lemma RefreshKeepsInactive(s: State, p: Presented, identity: Result<string, Error>, access: string, refresh: string, now: int, id: string)
    requires id in s.sessions ==> s.sessions[id].status != Active
    ensures var t := Refresh(s, p, identity, access, refresh, now).0; id in t.sessions ==> t.sessions[id].status != Active
  {
    match RefreshOutcome(s, p, identity, now)
    case Rotate(other) =>
    case Suspend(other) =>
    case Refused(_) =>
  }

  lemma StepKeepsInactive(w: World, c: Call, id: string)
    requires Sound(w) && Fresh(w, c) && Inactive(w, id)
    ensures Inactive(Advance(w, c), id)
  {
    if c.0.DoRefresh? {
      RefreshKeepsInactive(w.s, c.0.presented, c.0.identity, c.0.access, c.0.refresh, c.1, id);
    }
  }

  lemma InactiveForGood(w: World, calls: seq<Call>, n: nat, id: string)
    requires Sound(w) && Admissible(Advance, Fresh, w, calls) && n <= |calls| && Inactive(w, id)
    ensures OutOfReach(After(Advance, w, calls, n).s, id)
  {
    var kept := (w: World) => Inactive(w, id);
    CallsPreserve();
    forall w: World, c: Call | Sound(w) && kept(w) && Fresh(w, c)
      ensures kept(Advance(w, c))
    {
      StepKeepsInactive(w, c, id);
    }
    HoldsFromThere(Advance, Fresh, Sound, kept, w, calls, 0, n);
    InactiveIsOutOfReach(After(Advance, w, calls, n), id);
  }

  /**
   A session whose refresh token was presented from another device or subnet is never again validated or refreshed,
   at any later point of any run and whatever is presented: nothing restores it.
   */
  lemma SuspendedForGood(w: World, c: Call, rest: seq<Call>, n: nat, id: string)
    requires Sound(w) && Fresh(w, c) && c.0.DoRefresh?
    requires LeadsTo(w.s, c.0.presented, c.0.identity, c.1, id) && !FromTheSamePlace(w.s, c.0.presented, id)
    requires Admissible(Advance, Fresh, Advance(w, c), rest) && n <= |rest|
    ensures OutOfReach(After(Advance, Advance(w, c), rest, n).s, id)
  {
    SuspensionSuspends(w.s, c.0.presented, c.0.identity, c.0.access, c.0.refresh, c.1, id);
    assert Sound(Advance(w, c)) by {
      CallsPreserve();
    }
    InactiveForGood(Advance(w, c), rest, n, id);
  }

  // ----- the other calls -----

  /** A token is validated exactly if it leads to an active session of an active citizen within its access time. */
  lemma ValidatedExactly(s: State, access: string, identity: Result<string, Error>, now: int)
    ensures Validate(s, access, identity, now).Ok? <==>
            && access in s.byAccess && s.byAccess[access] in s.sessions
            && s.sessions[s.byAccess[access]].status == Active && now <= s.sessions[s.byAccess[access]].accessExpiresAt
            && identity.Ok? && identity.value == "active"
    ensures Validate(s, access, identity, now).Ok? ==>
              var v, w := s.sessions[s.byAccess[access]], Validate(s, access, identity, now).value;
              && w.(tier := v.tier) == v
              && w.tier == (if v.tier == T3 && now - v.lastMFAAt <= 300 then T3
                            else if v.tier == T2 && now - v.lastMFAAt <= 43200 then T2 else T1)
  {
  }

  /** A second factor: a new access token for a quarter of an hour in place of the old one, the refresh token untouched. */
  lemma StepUpSwapsAccess(s: State, id: string, access: string, now: int)
    requires AccessExact(s) && id in s.sessions && access !in s.byAccess
    ensures var t := Step(s, DoStepUp(id, access), now);
            && OthersSame(s, t, id) && t.byRefresh == s.byRefresh && t.used == s.used
            && t.sessions[id] == s.sessions[id].(access := access, accessExpiresAt := now + 900)
            && (forall h :: h in t.byAccess <==> h == access || (h in s.byAccess && h != s.sessions[id].access))
            && (forall h :: h in t.byAccess ==> t.byAccess[h] == if h == access then id else s.byAccess[h])
  {
  }

  /** ... and the tier it gives, with the time it was given; every token stays. */
  lemma TierIsGiven(s: State, id: string, tier: Tier, now: int)
    requires id in s.sessions
    ensures var t := Step(s, DoSetTier(id, tier), now);
            && OthersSame(s, t, id) && t.sessions[id] == s.sessions[id].(tier := tier, lastMFAAt := now)
            && t.byAccess == s.byAccess && t.byRefresh == s.byRefresh && t.used == s.used
  {
  }

  /** So the highest tier lasts five minutes, wherever the session's access token is validated. */
  lemma HighestTierLastsFiveMinutes(s: State, id: string, now: int, later: int, identity: Result<string, Error>)
    requires AccessExact(s) && id in s.sessions
    requires Validate(Step(s, DoSetTier(id, T3), now), s.sessions[id].access, identity, later).Ok?
    ensures var v := Validate(Step(s, DoSetTier(id, T3), now), s.sessions[id].access, identity, later).value;
            v.tier == (if later - now <= 300 then T3 else T1) && v.citizenID == s.sessions[id].citizenID
  {
    TierIsGiven(s, id, T3, now);
    ValidatedExactly(Step(s, DoSetTier(id, T3), now), s.sessions[id].access, identity, later);
  }

  /** Logging out revokes the session behind the token, and nothing else. */
  lemma LogoutRevokes(s: State, access: string)
    ensures var (t, e) := Logout(s, access);
            if access in s.byAccess && s.byAccess[access] in s.sessions then
              var id := s.byAccess[access];
              && e == None && OthersSame(s, t, id) && t.sessions[id].status == Revoked
              && t.sessions[id].(status := s.sessions[id].status) == s.sessions[id]
              && t.byAccess == s.byAccess && t.byRefresh == s.byRefresh && t.used == s.used
            else t == s && e == Some(NotFound)
  {
  }

  /** After revoking a citizen's sessions each of them is revoked, and no other session has changed. */
  lemma RevokeAllRevokesExactly(s: State, citizenID: string)
    ensures var t := RevokeAll(s, citizenID);
            && t.sessions.Keys == s.sessions.Keys
            && (forall id :: id in s.sessions ==>
                  if s.sessions[id].citizenID == citizenID then
                    t.sessions[id].status == Revoked && t.sessions[id].(status := s.sessions[id].status) == s.sessions[id]
                  else t.sessions[id] == s.sessions[id])
            && t.byAccess == s.byAccess && t.byRefresh == s.byRefresh && t.used == s.used
  {
  }

  /** A purge keeps exactly the sessions that are revoked or not a day past their end, as they were, with their tokens. */
  lemma PurgeKeepsExactly(s: State, now: int)
    requires AccessExact(s) && RefreshExact(s)
    ensures var t := Purge(s, now);
            && (forall id :: id in t.sessions <==>
                  id in s.sessions && (s.sessions[id].status == Revoked || now <= s.sessions[id].expiresAt + 86400))
            && (forall id :: id in t.sessions ==>
                  && t.sessions[id] == s.sessions[id]
                  && t.sessions[id].access in t.byAccess && t.byAccess[t.sessions[id].access] == id
                  && t.sessions[id].refresh in t.byRefresh && t.byRefresh[t.sessions[id].refresh] == id)
            && (forall h :: h in t.byAccess ==> t.byAccess[h] in t.sessions)
            && (forall h :: h in t.byRefresh ==> t.byRefresh[h] in t.sessions)
            && t.used == s.used
  {
  }

  /** A login opens a session exactly for an active citizen with a device, at the lowest tier, for thirty days. */
  lemma LoginOpensExactly(s: State, l: Login, identity: Result<string, Error>, id: string, access: string, refresh: string, now: int)
    requires id !in s.sessions
    ensures var (t, e) := Issue(s, l, identity, id, access, refresh, now);
            && (e.None? <==> l.citizenID != "" && l.device != "" && identity.Ok? && identity.value == "active")
            && (e == Some(Invalid) <==> l.citizenID == "" || l.device == "")
            && (e == Some(Forbidden) <==> l.citizenID != "" && l.device != "" && identity.Ok? && identity.value == "pending")
            && (e.Some? ==> e.value == Invalid || e.value == Forbidden || e.value == Unauthorized)
            && (if e.Some? then t == s
                else
                  && id in t.sessions && t.sessions.Keys == s.sessions.Keys + {id}
                  && (forall x :: x in s.sessions ==> t.sessions[x] == s.sessions[x])
                  && t.sessions[id] == Session(l.citizenID, access, refresh, now + 900, l.device, l.subnet, T1, 0, now, now + 2592000, Active)
                  && t.byAccess == s.byAccess[access := id] && t.byRefresh == s.byRefresh[refresh := id] && t.used == s.used)
  {
  }
}
