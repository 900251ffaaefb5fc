/**
 What holds over whole runs of the auth service: exact indexes, refresh tokens honoured at most once,
 revocation that sticks.
 */
module AuthRuns {
  import opened Wrappers
  import opened Runs
  import opened Auth

  /** The tables, and every hash and id minted so far. */
  datatype World = World(s: State, ever: set<string>)

  type Call = (Request, int)

  function Advance(w: World, c: Call): World {
    World(Step(w.s, c.0, c.1), w.ever + Minted(c.0))
  }

  /** The only premise on a run: random tokens and ids are new when they are minted. */
  predicate Fresh(w: World, c: Call) {
    FreshTokens(w.ever, c.0)
  }

  ghost predicate Sound(w: World) {
    Inv(w.s, w.ever)
  }

  lemma CallsPreserve()
    ensures Preserves(Advance, Fresh, Sound)
  {
    forall w, c | Sound(w) && Fresh(w, c)
      ensures Sound(Advance(w, c))
    {
      StepKeeps(w.s, c.0, c.1, w.ever);
    }
  }

  lemma StartIsSound()
    ensures Sound(World(Empty, {}))
  {
  }

  /**
   In every reachable state the two indexes are exact, so that no lookup dangles, and retired refresh
   hashes are disjoint from current ones.
   */
  lemma EveryReachableStateIsSound(w: World, calls: seq<Call>, n: nat)
    requires Sound(w) && Admissible(Advance, Fresh, w, calls) && n <= |calls|
    ensures Sound(After(Advance, w, calls, n))
  {
    CallsPreserve();
    InvariantHolds(Advance, Fresh, Sound, w, calls, n);
  }

  // ----- refresh tokens -----

  /** The call presents the hash and gets new tokens for it. */
  predicate Honours(s: State, r: Request, now: int, hash: string) {
    r.DoRefresh? && r.presented.hash == hash && RefreshOutcome(s, r.presented, r.identity, now).Rotate?
  }

  lemma HonouredIsRetired(w: World, c: Call, hash: string)
    requires Sound(w) && Honours(w.s, c.0, c.1, hash)
    ensures hash in Advance(w, c).s.used
  {
    assert RefreshExact(w.s);
  }

  lemma UsedOnlyGrows(s: State, r: Request, now: int)
    ensures s.used <= Step(s, r, now).used
  {
  }

  lemma UsedStaysUsed(w: World, calls: seq<Call>, i: nat, n: nat, hash: string)
    requires Sound(w) && Admissible(Advance, Fresh, w, calls) && i <= n <= |calls|
    requires hash in After(Advance, w, calls, i).s.used
    ensures hash in After(Advance, w, calls, n).s.used
  {
    var kept := (w: World) => hash in w.s.used;
    CallsPreserve();
    forall w: World, c: Call | Sound(w) && kept(w) && Fresh(w, c)
      ensures kept(Advance(w, c))
    {
      UsedOnlyGrows(w.s, c.0, c.1);
    }
    HoldsFromThere(Advance, Fresh, Sound, kept, w, calls, i, n);
  }

  /** A retired token is refused, flagged as reuse, and changes nothing. */
  lemma RetiredIsRefused(w: World, p: Presented, identity: Result<string, Error>, access: string, refresh: string, now: int)
    requires Sound(w)
    ensures RefreshOutcome(w.s, p, identity, now) == Refused(true) <==> p.hash in w.s.used
    ensures p.hash in w.s.used ==> Refresh(w.s, p, identity, access, refresh, now) == (w.s, false)
  {
    assert w.s.used !! w.s.byRefresh.Keys;
  }

  /** The call does not get tokens for the hash; if it presents it, it is refused with the reuse signal. */
  predicate RefusedAsReuse(w: World, c: Call, hash: string) {
    && !Honours(w.s, c.0, c.1, hash)
    && (c.0.DoRefresh? && c.0.presented.hash == hash ==>
          RefreshOutcome(w.s, c.0.presented, c.0.identity, c.1) == Refused(true))
  }

  lemma RetiredCallIsRefused(w: World, c: Call, hash: string)
    requires Sound(w) && hash in w.s.used
    ensures RefusedAsReuse(w, c, hash)
  {
    if c.0.DoRefresh? {
      RetiredIsRefused(w, c.0.presented, c.0.identity, c.0.access, c.0.refresh, c.1);
    }
  }

  lemma UsedIsRefused(w: World, calls: seq<Call>, i: nat, k: nat, hash: string)
    requires Sound(w) && Admissible(Advance, Fresh, w, calls) && i <= k < |calls|
    requires hash in After(Advance, w, calls, i).s.used
    ensures RefusedAsReuse(After(Advance, w, calls, k), calls[k], hash)
  {
    UsedStaysUsed(w, calls, i, k, hash);
    EveryReachableStateIsSound(w, calls, k);
    RetiredCallIsRefused(After(Advance, w, calls, k), calls[k], hash);
  }

  /**
   Once a call has got tokens for a refresh hash, no later call of the run gets any for it: every later
   presentation is refused as reuse.
   */
  lemma HonouredAtMostOnce(w: World, c: Call, rest: seq<Call>, k: nat, hash: string)
    requires Sound(w) && Fresh(w, c) && Honours(w.s, c.0, c.1, hash)
    requires Admissible(Advance, Fresh, Advance(w, c), rest) && k < |rest|
    ensures RefusedAsReuse(After(Advance, Advance(w, c), rest, k), rest[k], hash)
  {
    var next := Advance(w, c);
    assert Sound(next) by { CallsPreserve(); }
    assert hash in next.s.used by { HonouredIsRetired(w, c, hash); }
    UsedIsRefused(next, rest, 0, k, hash);
  }

  // ----- revocation -----

  predicate IsRevoked(s: State, id: string) {
    id in s.sessions && s.sessions[id].status == Revoked
  }

  lemma RefreshKeepsRevoked(s: State, p: Presented, identity: Result<string, Error>, access: string, refresh: string,
                            now: int, id: string)
    requires IsRevoked(s, id)
    ensures IsRevoked(Refresh(s, p, identity, access, refresh, now).0, id)
  {
    match RefreshOutcome(s, p, identity, now)
    case Rotate(other) => assert other != id;
    case Suspend(other) => assert other != id;
    case Refused(_) =>
  }

  lemma StepKeepsRevoked(s: State, r: Request, now: int, id: string)
    requires IsRevoked(s, id)
    requires r.DoIssue? ==> r.id !in s.sessions
    ensures IsRevoked(Step(s, r, now), id)
  {
    if r.DoRefresh? {
      RefreshKeepsRevoked(s, r.presented, r.identity, r.access, r.refresh, now, id);
    }
  }

  /** A revoked session is never reactivated, suspended or purged: it is still there, revoked, ever after. */
  lemma RevokedIsForever(w: World, calls: seq<Call>, i: nat, n: nat, id: string)
    requires Sound(w) && Admissible(Advance, Fresh, w, calls) && i <= n <= |calls|
    requires IsRevoked(After(Advance, w, calls, i).s, id)
    ensures IsRevoked(After(Advance, w, calls, n).s, id)
  {
    var kept := (w: World) => IsRevoked(w.s, id);
    CallsPreserve();
    forall w: World, c: Call | Sound(w) && kept(w) && Fresh(w, c)
      ensures kept(Advance(w, c))
    {
      StepKeepsRevoked(w.s, c.0, c.1, id);
    }
    HoldsFromThere(Advance, Fresh, Sound, kept, w, calls, i, n);
  }

  /** Whatever hash is presented, with whatever device and whenever: no validation and no refresh reaches the session. */
  ghost predicate Useless(s: State, id: string) {
    && IsRevoked(s, id)
    && (forall hash, identity, now :: Validate(s, hash, identity, now).Ok? ==> s.byAccess[hash] != id)
    && (forall p, identity, now :: RefreshOutcome(s, p, identity, now) != Rotate(id) && RefreshOutcome(s, p, identity, now) != Suspend(id))
  }

  lemma RevokedIsUseless(w: World, id: string)
    requires IsRevoked(w.s, id)
    ensures Useless(w.s, id)
  {
  }

  lemma RevokeAllRevokes(s: State, id: string)
    requires id in s.sessions
    ensures IsRevoked(RevokeAll(s, s.sessions[id].citizenID), id)
  {
  }

  lemma RevokedStaysUseless(w: World, calls: seq<Call>, i: nat, n: nat, id: string)
    requires Sound(w) && Admissible(Advance, Fresh, w, calls) && i <= n <= |calls|
    requires IsRevoked(After(Advance, w, calls, i).s, id)
    ensures Useless(After(Advance, w, calls, n).s, id)
  {
    RevokedIsForever(w, calls, i, n, id);
    RevokedIsUseless(After(Advance, w, calls, n), id);
  }

  /**
   Once all of a citizen's sessions are revoked, no token whatever gets any of them validated or refreshed at
   any later point of the run.
   */
  lemma RevokeAllEndsEverySession(w: World, now: int, rest: seq<Call>, n: nat, id: string)
    requires Sound(w) && id in w.s.sessions
    requires var c := (DoRevokeAll(w.s.sessions[id].citizenID), now);
             Admissible(Advance, Fresh, Advance(w, c), rest) && n <= |rest|
    ensures var c := (DoRevokeAll(w.s.sessions[id].citizenID), now);
            Useless(After(Advance, Advance(w, c), rest, n).s, id)
  {
    var c := (DoRevokeAll(w.s.sessions[id].citizenID), now);
    var next := Advance(w, c);
    assert Sound(next) by { CallsPreserve(); }
    assert IsRevoked(next.s, id) by { RevokeAllRevokes(w.s, id); }
    RevokedStaysUseless(next, rest, 0, n, id);
  }

  // ----- assurance tiers -----

  /** A validated session claims T3 only within 5 minutes of the second factor, T2 only within 12 hours. */
  lemma ValidatedTierIsCurrent(s: State, access: string, identity: Result<string, Error>, now: int)
    requires Validate(s, access, identity, now).Ok?
    ensures var v := Validate(s, access, identity, now).value;
            && v.status == Active && now <= v.accessExpiresAt
            && (v.tier == T3 ==> now - v.lastMFAAt <= T3_WINDOW)
            && (v.tier == T2 ==> now - v.lastMFAAt <= T2_WINDOW)
            && (AccessExact(s) ==> v.access == access)
  {
  }

  /** No session comes out of a refresh at T3, and none gains assurance by it. */
  lemma RefreshNeverRaisesTheTier(s: State, p: Presented, identity: Result<string, Error>, access: string, refresh: string,
                                  now: int, id: string)
    requires id in s.sessions && RefreshOutcome(s, p, identity, now) == Rotate(id)
    ensures var v := Refresh(s, p, identity, access, refresh, now).0.sessions[id];
            && v.tier != T3
            && (v.tier == T2 ==> s.sessions[id].tier == T2 && now - v.lastMFAAt <= T2_WINDOW)
            && v.access == access && v.refresh == refresh && v.lastMFAAt == s.sessions[id].lastMFAAt
  {
  }
}
