/**
 The in-memory session store and the service on top of it, in the source's own shape, proved to do what
 `Auth` says. Map loops run in an arbitrary order.
 */
module AuthStore {
  import opened Wrappers
  import opened Auth

  class MemoryStore {
    var sessions: map<string, Session>
    var sessionByAccess: map<string, string>
    var sessionByRefresh: map<string, string>
    var usedRefreshHashes: set<string>

    ghost function View(): State
      reads this
    {
      State(sessions, sessionByAccess, sessionByRefresh, usedRefreshHashes)
    }

    constructor ()
      ensures View() == Empty
    {
      sessions, sessionByAccess, sessionByRefresh, usedRefreshHashes := map[], map[], map[], {};
    }

    method InsertSession(id: string, v: Session)
      modifies this
      ensures View() == Insert(old(View()), id, v)
    {
      sessions := sessions[id := v];
      sessionByAccess := sessionByAccess[v.access := id];
      sessionByRefresh := sessionByRefresh[v.refresh := id];
    }

    /** The lookup goes through the index and on into the session map without checking it again. */
    method FindByAccess(hash: string) returns (r: Result<string, Error>)
      requires AccessExact(View())
      ensures r == if hash in sessionByAccess then Ok(sessionByAccess[hash]) else Err(NotFound)
      ensures r.Ok? ==> r.value in sessions && sessions[r.value].access == hash
    {
      r := if hash in sessionByAccess then Ok(sessionByAccess[hash]) else Err(NotFound);
    }

    method FindByRefresh(hash: string) returns (r: Result<string, Error>)
      requires RefreshExact(View())
      ensures r == if hash in sessionByRefresh then Ok(sessionByRefresh[hash]) else Err(NotFound)
      ensures r.Ok? ==> r.value in sessions && sessions[r.value].refresh == hash
    {
      r := if hash in sessionByRefresh then Ok(sessionByRefresh[hash]) else Err(NotFound);
    }

    method RotateRefresh(id: string, access: string, refresh: string, accessExp: int, now: int) returns (e: Option<Error>)
      modifies this
      ensures id !in old(sessions) ==> e == Some(NotFound) && View() == old(View())
      ensures id in old(sessions) ==> e == None && View() == Auth.RotateRefresh(old(View()), id, access, refresh, accessExp, now)
    {
      if id !in sessions {
        return Some(NotFound);
      }
      var s := sessions[id];
      sessionByAccess := sessionByAccess - {s.access};
      sessionByRefresh := sessionByRefresh - {s.refresh};
      usedRefreshHashes := usedRefreshHashes + {s.refresh};
      sessions := sessions[id := s.(access := access, refresh := refresh, accessExpiresAt := accessExp, lastRefreshAt := now)];
      sessionByAccess := sessionByAccess[access := id];
      sessionByRefresh := sessionByRefresh[refresh := id];
      e := None;
    }

    method RotateAccess(id: string, access: string, accessExp: int) returns (e: Option<Error>)
      modifies this
      ensures id !in old(sessions) ==> e == Some(NotFound) && View() == old(View())
      ensures id in old(sessions) ==> e == None && View() == Auth.RotateAccess(old(View()), id, access, accessExp)
    {
      if id !in sessions {
        return Some(NotFound);
      }
      var s := sessions[id];
      sessionByAccess := sessionByAccess - {s.access};
      sessions := sessions[id := s.(access := access, accessExpiresAt := accessExp)];
      sessionByAccess := sessionByAccess[access := id];
      e := None;
    }

    method SetStatus(id: string, status: Status) returns (e: Option<Error>)
      modifies this
      ensures id !in old(sessions) ==> e == Some(NotFound) && View() == old(View())
      ensures id in old(sessions) ==> e == None && View() == Auth.SetStatus(old(View()), id, status)
    {
      if id !in sessions {
        return Some(NotFound);
      }
      sessions := sessions[id := sessions[id].(status := status)];
      e := None;
    }

    method SetTier(id: string, tier: Tier, mfaAt: int) returns (e: Option<Error>)
      modifies this
      ensures id !in old(sessions) ==> e == Some(NotFound) && View() == old(View())
      ensures id in old(sessions) ==> e == None && View() == Auth.SetTier(old(View()), id, tier, mfaAt)
    {
      if id !in sessions {
        return Some(NotFound);
      }
      sessions := sessions[id := sessions[id].(tier := tier, lastMFAAt := mfaAt)];
      e := None;
    }

    /** Counts the sessions that were not revoked before. */
    method RevokeAll(citizenID: string) returns (n: nat)
      modifies this`sessions
      ensures View() == Auth.RevokeAll(old(View()), citizenID)
      ensures exists hit :: RevokedNow(old(sessions), citizenID, hit) && n == |hit|
    {
      ghost var before := sessions;
      n := 0;
      var rest := sessions.Keys;
      ghost var hit: set<string> := {};
      while rest != {}
        invariant RevokedOutside(before, sessions, rest, citizenID)
        invariant RevokedOutsideExactly(before, rest, citizenID, hit) && n == |hit|
      {
        var id :| id in rest;
        var s := sessions[id];
        RevokeStep(before, sessions, rest, citizenID, hit, id);
        rest := rest - {id};
        if s.citizenID == citizenID && s.status != Revoked {
          sessions := sessions[id := s.(status := Revoked)];
          n := n + 1;
          hit := hit + {id};
        }
      }
      AllRevoked(old(View()), sessions, citizenID);
    }

    /** Deletes every long-expired session that was never revoked, with both its index entries, and counts them. */
    method PurgeExpired(now: int) returns (n: nat)
      requires AccessExact(View()) && RefreshExact(View())
      modifies this
      ensures View() == Purge(old(View()), now)
      ensures n == |old(sessions)| - |sessions|
    {
      ghost var before := View();
      n := 0;
      var rest := sessions.Keys;
      ghost var gone: set<string> := {};
      while rest != {}
        invariant rest <= sessions.Keys
        invariant LeftAfter(before, gone, View())
        invariant PurgedOutsideExactly(before.sessions, rest, now, gone)
        invariant n + |sessions| == |before.sessions|
      {
        var id :| id in rest;
        rest := rest - {id};
        if sessions[id].status != Revoked && now > sessions[id].expiresAt + PURGE_GRACE {
          Drop(id, gone, before);
          gone := gone + {id};
          n := n + 1;
        }
      }
      AllGone(before, gone, View(), now);
    }

    /** Removes one session and the index entries it holds. */
    method Drop(id: string, ghost gone: set<string>, ghost s: State)
      requires id in sessions && LeftAfter(s, gone, View()) && AccessExact(s) && RefreshExact(s)
      modifies this
      ensures LeftAfter(s, gone + {id}, View()) && sessions == old(sessions) - {id}
      ensures |sessions| == |old(sessions)| - 1
    {
      sessionByAccess := sessionByAccess - {sessions[id].access};
      sessionByRefresh := sessionByRefresh - {sessions[id].refresh};
      assert (sessions - {id}).Keys == sessions.Keys - {id};
      sessions := sessions - {id};
    }
  }

  /** The sessions outside `rest` that are due for purging. */
  ghost predicate PurgedOutsideExactly(before: map<string, Session>, rest: set<string>, now: int, gone: set<string>) {
    forall id :: id in gone <==> id in before && id !in rest && Purgeable(before[id], now)
  }

  /** The citizen's sessions outside `rest` that were not revoked before. */
  ghost predicate RevokedOutsideExactly(before: map<string, Session>, rest: set<string>, citizenID: string, hit: set<string>) {
    forall id :: id in hit <==> id in before && id !in rest && before[id].citizenID == citizenID && before[id].status != Revoked
  }

  ghost predicate RevokedNow(before: map<string, Session>, citizenID: string, hit: set<string>) {
    RevokedOutsideExactly(before, {}, citizenID, hit)
  }

  /** The citizen's sessions outside `rest` are revoked, everything else is as before. */
  ghost predicate RevokedOutside(before: map<string, Session>, now: map<string, Session>, rest: set<string>, citizenID: string) {
    && now.Keys == before.Keys && rest <= now.Keys
    && forall id :: id in now ==>
         now[id] == if id in rest || before[id].citizenID != citizenID then before[id] else before[id].(status := Revoked)
  }

  lemma RevokeStep(before: map<string, Session>, now: map<string, Session>, rest: set<string>, citizenID: string,
                   hit: set<string>, id: string)
    requires RevokedOutside(before, now, rest, citizenID) && RevokedOutsideExactly(before, rest, citizenID, hit) && id in rest
    ensures id !in hit
    ensures if now[id].citizenID == citizenID && now[id].status != Revoked then
              && RevokedOutside(before, now[id := now[id].(status := Revoked)], rest - {id}, citizenID)
              && RevokedOutsideExactly(before, rest - {id}, citizenID, hit + {id})
            else
              && RevokedOutside(before, now, rest - {id}, citizenID)
              && RevokedOutsideExactly(before, rest - {id}, citizenID, hit)
  {
  }

  lemma AllRevoked(s: State, now: map<string, Session>, citizenID: string)
    requires RevokedOutside(s.sessions, now, {}, citizenID)
    ensures s.(sessions := now) == RevokeAll(s, citizenID)
  {
    assert now == RevokeAll(s, citizenID).sessions;
  }

  /** The tables once the sessions in `gone` and their index entries are deleted. */
  ghost predicate LeftAfter(s: State, gone: set<string>, t: State) {
    && t.used == s.used
    && t.sessions == s.sessions - gone
    && (forall h :: h in t.byAccess <==> h in s.byAccess && s.byAccess[h] !in gone)
    && (forall h :: h in t.byAccess ==> t.byAccess[h] == s.byAccess[h])
    && (forall h :: h in t.byRefresh <==> h in s.byRefresh && s.byRefresh[h] !in gone)
    && (forall h :: h in t.byRefresh ==> t.byRefresh[h] == s.byRefresh[h])
  }

  lemma AllGone(s: State, gone: set<string>, t: State, now: int)
    requires AccessExact(s) && RefreshExact(s) && LeftAfter(s, gone, t)
    requires PurgedOutsideExactly(s.sessions, {}, now, gone)
    ensures t == Purge(s, now)
  {
    var u := Purge(s, now);
    assert t.sessions == u.sessions;
    assert t.byAccess.Keys == u.byAccess.Keys && t.byAccess == u.byAccess;
    assert t.byRefresh.Keys == u.byRefresh.Keys && t.byRefresh == u.byRefresh;
  }

  class Service {
    const store: MemoryStore

    constructor (store: MemoryStore)
      ensures this.store == store
    {
      this.store := store;
    }

    method IssueSession(l: Login, identity: Result<string, Error>, id: string, access: string, refresh: string, now: int)
      returns (e: Option<Error>)
      modifies store
      ensures (store.View(), e) == Issue(old(store.View()), l, identity, id, access, refresh, now)
    {
      if l.citizenID == "" || l.device == "" {
        return Some(Invalid);
      }
      if identity.Err? {
        return Some(Unauthorized);
      }
      var status := identity.value;
      if status == "suspended" || status == "revoked" || status == "inactive" {
        return Some(Unauthorized);
      }
      if status == "pending" {
        return Some(Forbidden);
      }
      if status != "active" {
        return Some(Unauthorized);
      }
      store.InsertSession(id, NewSession(l, access, refresh, now));
      e := None;
    }

    /** `ok` tells whether new tokens were handed out; a device or subnet mismatch suspends the session. */
    method Refresh(p: Presented, identity: Result<string, Error>, access: string, refresh: string, now: int) returns (ok: bool)
      requires RefreshExact(store.View())
      modifies store
      ensures (store.View(), ok) == Auth.Refresh(old(store.View()), p, identity, access, refresh, now)
    {
      var found := store.FindByRefresh(p.hash);
      if found.Err? {
        return false;
      }
      var id := found.value;
      var sess := store.sessions[id];
      if sess.status != Active || now > sess.expiresAt {
        return false;
      }
      if identity.Err? || identity.value != "active" {
        return false;
      }
      if sess.device != p.device || sess.subnet != p.subnet {
        var _ := store.SetStatus(id, Suspended);
        return false;
      }
      var tier := sess.tier;
      if tier == T2 && now - sess.lastMFAAt > T2_WINDOW {
        tier := T1;
      }
      if tier == T3 {
        tier := T1;
      }
      var _ := store.RotateRefresh(id, access, refresh, now + ACCESS_TTL, now);
      if tier != sess.tier {
        var _ := store.SetTier(id, tier, sess.lastMFAAt);
      }
      return true;
    }

    method Logout(access: string) returns (e: Option<Error>)
      requires AccessExact(store.View())
      modifies store
      ensures (store.View(), e) == Auth.Logout(old(store.View()), access)
    {
      var found := store.FindByAccess(access);
      if found.Err? {
        return Some(NotFound);
      }
      var _ := store.SetStatus(found.value, Revoked);
      e := None;
    }

    method Validate(access: string, identity: Result<string, Error>, now: int) returns (r: Result<Session, Error>)
      requires AccessExact(store.View())
      ensures r == Auth.Validate(store.View(), access, identity, now)
    {
      var found := store.FindByAccess(access);
      if found.Err? {
        return Err(Unauthorized);
      }
      var sess := store.sessions[found.value];
      if sess.status != Active || now > sess.accessExpiresAt {
        return Err(Unauthorized);
      }
      if identity.Err? || identity.value != "active" {
        return Err(Unauthorized);
      }
      if sess.tier == T3 && now - sess.lastMFAAt > T3_WINDOW {
        sess := sess.(tier := T1);
      }
      if sess.tier == T2 && now - sess.lastMFAAt > T2_WINDOW {
        sess := sess.(tier := T1);
      }
      r := Ok(sess);
    }
  }
}
