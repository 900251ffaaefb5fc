/**
 Accepting signed service requests once: the window check of `Verify` and the in-memory branch of
 `ReplayStore.Claim` in apps/api-go/internal/security/http.go.

 The source reads the clock once for the window check and again, entry by entry, while it purges. Both
 readings are arguments here, and so is the digest of a signature. Times are integers in one unit.
 */
module ReplayGuard {
  import opened Wrappers
  import opened Sizes
  import opened Lines
  import Runs

  const MINUTE: int := 60_000_000_000
  const WINDOW: int := 5 * MINUTE
  const CAPACITY: nat := 10000
  const NONCE: nat := 32

  /** Everything the signature covers: parts of an HTTP request, which hold no line breaks, and the body's digest. */
  datatype Fields = Fields(service: string, verb: string, target: string, timestamp: string, nonce: string, bodySum: string)

  predicate SingleLines(r: Fields) {
    OneLine(r.service) && OneLine(r.verb) && OneLine(r.target) && OneLine(r.timestamp) && OneLine(r.nonce) && OneLine(r.bodySum)
  }

  type Signed = r: Fields | SingleLines(r) witness Fields("", "", "", "", "", "")

  /** What is signed. */
  function Payload(r: Fields): string {
    r.service + "\n" + r.verb + "\n" + r.target + "\n" + r.timestamp + "\n" + r.nonce + "\n" + r.bodySum
  }

  /** The digest of a payload's signature, and how a timestamp reads. */
  datatype Scheme = Scheme(digest: string -> string, parse: string -> Option<int>)

  /** How a request is remembered. */
  function Key(c: Scheme, r: Signed): string {
    r.service + ":" + c.digest(Payload(r))
  }

  /** Digests are hexadecimal, so hold no colon, and different payloads have different ones. */
  ghost predicate CollisionFree(c: Scheme) {
    forall x, y :: ':' !in c.digest(x) && (c.digest(x) == c.digest(y) ==> x == y)
  }

  /** There are such schemes, for every reading of timestamps. */
  lemma SomeSchemeIsCollisionFree(parse: string -> Option<int>)
    ensures CollisionFree(Scheme(Escaped, parse))
  {
    forall x, y
      ensures ':' !in Escaped(x) && (Escaped(x) == Escaped(y) ==> x == y)
    {
      EscapedHasNoSeparator(x);
      if Escaped(x) == Escaped(y) {
        EscapedIsInjective(x, y);
      }
    }
  }

  /** The payload determines every field. */
  lemma PayloadDeterminesRequest(r: Signed, q: Signed)
    requires Payload(r) == Payload(q)
    ensures r == q
  {
    var r5, q5 := r.nonce + "\n" + r.bodySum, q.nonce + "\n" + q.bodySum;
    var r4, q4 := r.timestamp + "\n" + r5, q.timestamp + "\n" + q5;
    var r3, q3 := r.target + "\n" + r4, q.target + "\n" + q4;
    var r2, q2 := r.verb + "\n" + r3, q.verb + "\n" + q3;
    assert Payload(r) == r.service + "\n" + r2 && Payload(q) == q.service + "\n" + q2;
    FirstLineSplits(r.service, r2, q.service, q2);
    FirstLineSplits(r.verb, r3, q.verb, q3);
    FirstLineSplits(r.target, r4, q.target, q4);
    FirstLineSplits(r.timestamp, r5, q.timestamp, q5);
    FirstLineSplits(r.nonce, r.bodySum, q.nonce, q.bodySum);
  }

  /** Different requests are remembered under different keys. */
  lemma KeyDeterminesRequest(c: Scheme, r: Signed, q: Signed)
    requires CollisionFree(c) && Key(c, r) == Key(c, q)
    ensures r == q
  {
    LastColonSplits(r.service, c.digest(Payload(r)), q.service, c.digest(Payload(q)));
    PayloadDeterminesRequest(r, q);
  }

  lemma KeysDiffer(c: Scheme)
    requires CollisionFree(c)
    ensures forall r: Signed, q: Signed :: Key(c, r) == Key(c, q) ==> r == q
  {
    forall r: Signed, q: Signed | Key(c, r) == Key(c, q)
      ensures r == q
    {
      KeyDeterminesRequest(c, r, q);
    }
  }

  /** One arrival: the request, whether its signature and size are right, and what the clock showed. */
  datatype Arrival = Arrival(signed: Signed, signatureRight: bool, bodyFits: bool, now: int, claimClock: string -> int)

  datatype Verdict = Unauthorized | PayloadTooLarge | Replayed | Accepted

  function Issued(c: Scheme, r: Signed): int {
    var t := c.parse(r.timestamp);
    if t.Some? then t.value else 0
  }

  function Expiry(c: Scheme, r: Signed): int {
    Issued(c, r) + WINDOW
  }

  /** The checks before the request is claimed. */
  predicate InWindow(c: Scheme, service: string, r: Signed, now: int) {
    && c.parse(r.timestamp).Some?
    && |r.nonce| == NONCE && r.service == service
    && Issued(c, r) >= now - WINDOW && Issued(c, r) <= now + WINDOW
  }

  // ----- claiming -----

  type Seen = map<string, int>

  /** What is left after the purge, each entry judged by the clock as read for it. */
  function Purged(seen: Seen, clock: string -> int): Seen {
    map k | k in seen && seen[k] >= clock(k) :: seen[k]
  }

  function Claim(seen: Seen, key: string, expires: int, clock: string -> int): (Seen, bool) {
    var p := Purged(seen, clock);
    if key in p || |p| >= CAPACITY then (p, false) else (p[key := expires], true)
  }

  function Verify(c: Scheme, service: string, seen: Seen, a: Arrival): (Seen, Verdict) {
    if !InWindow(c, service, a.signed, a.now) then (seen, Unauthorized)
    else if !a.bodyFits then (seen, PayloadTooLarge)
    else if !a.signatureRight then (seen, Unauthorized)
    else
      var (seen', ok) := Claim(seen, Key(c, a.signed), Expiry(c, a.signed), a.claimClock);
      (seen', if ok then Accepted else Replayed)
  }

  lemma PurgeShrinks(seen: Seen, clock: string -> int)
    ensures |Purged(seen, clock)| <= |seen|
  {
    SubsetSize(Purged(seen, clock).Keys, seen.Keys);
  }

  // ----- runs -----

  /** A run's state: the remembered requests, those accepted so far, and the latest clock reading. */
  datatype World = World(seen: Seen, accepted: set<Signed>, latest: int)

  /** No reading of an arrival lies before any reading of the arrivals before it, or after `until`. */
  ghost predicate Monotone(w: World, a: Arrival, until: int) {
    w.latest <= a.now && forall k :: a.now <= a.claimClock(k) <= until
  }

  function Advance(c: Scheme, service: string, w: World, a: Arrival, until: int): World {
    var (seen', v) := Verify(c, service, w.seen, a);
    World(seen', if v == Accepted then w.accepted + {a.signed} else w.accepted, until)
  }

  /** Whatever was accepted is still remembered, unless the clock has already passed its window. */
  ghost predicate Remembers(c: Scheme, w: World) {
    && |w.seen| <= CAPACITY
    && forall r :: r in w.accepted ==>
         Expiry(c, r) < w.latest || (Key(c, r) in w.seen && w.seen[Key(c, r)] == Expiry(c, r))
  }

  lemma ArrivalKeepsRemembering(c: Scheme, service: string, w: World, a: Arrival, until: int)
    requires CollisionFree(c) && Remembers(c, w) && Monotone(w, a, until)
    ensures Remembers(c, Advance(c, service, w, a, until))
  {
    PurgeShrinks(w.seen, a.claimClock);
    KeysDiffer(c);
    var w' := Advance(c, service, w, a, until);
    forall r | r in w'.accepted
      ensures Expiry(c, r) < until || (Key(c, r) in w'.seen && w'.seen[Key(c, r)] == Expiry(c, r))
    {
      assert a.claimClock(Key(c, r)) <= until;
    }
  }

  /** The purge of this arrival does not overtake the arrival's own validity. */
  predicate Punctual(c: Scheme, a: Arrival) {
    a.claimClock(Key(c, a.signed)) <= Expiry(c, a.signed)
  }

  /**
   A request accepted before is accepted again exactly when it still passes the first checks although the
   clock has passed its expiry by the time its own entry is purged, and there is room.
   */
  lemma AcceptedAgainIffThePurgeOvertakesIt(c: Scheme, service: string, w: World, a: Arrival, until: int)
    requires CollisionFree(c) && Remembers(c, w) && Monotone(w, a, until)
    requires a.signed in w.accepted
    ensures Verify(c, service, w.seen, a).1 == Accepted <==>
            && InWindow(c, service, a.signed, a.now) && a.bodyFits && a.signatureRight
            && !Punctual(c, a)
            && |Purged(w.seen, a.claimClock)| < CAPACITY
  {
  }

  /** With a single reading of the clock for the whole request, every arrival that gets that far is punctual. */
  lemma OneReadingIsPunctual(c: Scheme, service: string, a: Arrival)
    requires forall k :: a.claimClock(k) == a.now
    requires InWindow(c, service, a.signed, a.now)
    ensures Punctual(c, a)
  {
  }

  /** One arrival of a run, with the time by which it was dealt with. */
  function Arrive(c: Scheme, service: string): (World, (Arrival, int)) -> World {
    (w: World, x: (Arrival, int)) => Advance(c, service, w, x.0, x.1)
  }

  function After(c: Scheme, service: string, w: World, run: seq<(Arrival, int)>, n: nat): World
    requires n <= |run|
  {
    Runs.After(Arrive(c, service), w, run, n)
  }

  ghost predicate Ordered(c: Scheme, service: string, w: World, run: seq<(Arrival, int)>) {
    forall n :: 0 <= n < |run| ==> Monotone(After(c, service, w, run, n), run[n].0, run[n].1)
  }

  /** In every run with a clock that never goes back, accepted requests stay remembered while they are valid. */
  lemma EveryRunRemembers(c: Scheme, service: string, w: World, run: seq<(Arrival, int)>, n: nat)
    requires CollisionFree(c) && Remembers(c, w) && Ordered(c, service, w, run) && n <= |run|
    ensures Remembers(c, After(c, service, w, run, n))
  {
    var premise := (w: World, x: (Arrival, int)) => Monotone(w, x.0, x.1);
    var inv := (w: World) => Remembers(c, w);
    forall w: World, x: (Arrival, int) | inv(w) && premise(w, x)
      ensures inv(Arrive(c, service)(w, x))
    {
      ArrivalKeepsRemembering(c, service, w, x.0, x.1);
    }
    forall m | 0 <= m < |run|
      ensures premise(Runs.After(Arrive(c, service), w, run, m), run[m])
    {
      assert Monotone(After(c, service, w, run, m), run[m].0, run[m].1);
    }
    Runs.InvariantHolds(Arrive(c, service), premise, inv, w, run, n);
  }

  lemma {:induction false} AcceptedStays(c: Scheme, service: string, w: World, run: seq<(Arrival, int)>, i: nat, n: nat)
    requires i <= n <= |run|
    ensures After(c, service, w, run, i).accepted <= After(c, service, w, run, n).accepted
    decreases n
  {
    if i < n {
      AcceptedStays(c, service, w, run, i, n - 1);
    }
  }

  predicate AcceptedAt(c: Scheme, service: string, w: World, run: seq<(Arrival, int)>, n: nat)
    requires n < |run|
  {
    Verify(c, service, After(c, service, w, run, n).seen, run[n].0).1 == Accepted
  }

  /** As long as it arrives punctually, an accepted request is never accepted again. */
  lemma NeverAcceptedAgain(c: Scheme, service: string, w: World, run: seq<(Arrival, int)>, k: nat)
    requires CollisionFree(c) && Remembers(c, w) && Ordered(c, service, w, run)
    requires k < |run| && run[k].0.signed in w.accepted && Punctual(c, run[k].0)
    ensures !AcceptedAt(c, service, w, run, k)
  {
    AcceptedStays(c, service, w, run, 0, k);
    EveryRunRemembers(c, service, w, run, k);
    assert Monotone(After(c, service, w, run, k), run[k].0, run[k].1);
    AcceptedAgainIffThePurgeOvertakesIt(c, service, After(c, service, w, run, k), run[k].0, run[k].1);
  }

  /** From the arrival that gets a request accepted on, no punctual arrival of it is accepted in the rest of the run. */
  lemma AcceptedAtMostOnce(c: Scheme, service: string, w: World, first: Arrival, until: int,
                           rest: seq<(Arrival, int)>, k: nat)
    requires CollisionFree(c) && Remembers(c, w) && Monotone(w, first, until)
    requires Verify(c, service, w.seen, first).1 == Accepted
    requires Ordered(c, service, Advance(c, service, w, first, until), rest)
    requires k < |rest| && rest[k].0.signed == first.signed && Punctual(c, rest[k].0)
    ensures !AcceptedAt(c, service, Advance(c, service, w, first, until), rest, k)
  {
    ArrivalKeepsRemembering(c, service, w, first, until);
    NeverAcceptedAgain(c, service, Advance(c, service, w, first, until), rest, k);
  }

  /** Every arrival is handled with a single reading of the clock. */
  ghost predicate OneReadingEach(run: seq<(Arrival, int)>) {
    forall n, k :: 0 <= n < |run| ==> run[n].0.claimClock(k) == run[n].0.now
  }

  lemma RefusedOnOneReading(c: Scheme, service: string, w: World, a: Arrival, until: int)
    requires CollisionFree(c) && Remembers(c, w) && Monotone(w, a, until) && a.signed in w.accepted
    requires forall k :: a.claimClock(k) == a.now
    ensures Verify(c, service, w.seen, a).1 != Accepted
  {
    if InWindow(c, service, a.signed, a.now) {
      OneReadingIsPunctual(c, service, a);
      AcceptedAgainIffThePurgeOvertakesIt(c, service, w, a, until);
    }
  }

  lemma AcceptedIsRecorded(c: Scheme, service: string, w: World, run: seq<(Arrival, int)>, i: nat, k: nat)
    requires i < k <= |run| && AcceptedAt(c, service, w, run, i)
    ensures run[i].0.signed in After(c, service, w, run, k).accepted
  {
    assert After(c, service, w, run, i + 1) == Advance(c, service, After(c, service, w, run, i), run[i].0, run[i].1);
    AcceptedStays(c, service, w, run, i + 1, k);
  }

  /** In a run with one reading of the clock for each request, no request is ever accepted twice. */
  lemma NoRequestIsAcceptedTwice(c: Scheme, service: string, w: World, run: seq<(Arrival, int)>, i: nat, k: nat)
    requires CollisionFree(c) && Remembers(c, w) && Ordered(c, service, w, run) && OneReadingEach(run)
    requires i < k < |run| && run[i].0.signed == run[k].0.signed && AcceptedAt(c, service, w, run, i)
    ensures !AcceptedAt(c, service, w, run, k)
  {
    AcceptedIsRecorded(c, service, w, run, i, k);
    EveryRunRemembers(c, service, w, run, k);
    assert Monotone(After(c, service, w, run, k), run[k].0, run[k].1);
    RefusedOnOneReading(c, service, After(c, service, w, run, k), run[k].0, run[k].1);
  }

  /** Such runs exist, with a request accepted and then coming back. */
  lemma SomeRunAcceptsAndRefuses(c: Scheme, r: Signed) returns (run: seq<(Arrival, int)>)
    requires |r.nonce| == NONCE && c.parse(r.timestamp) == Some(0)
    ensures |run| == 2 && run[0].0.signed == run[1].0.signed == r
    ensures Remembers(c, World(map[], {}, 0)) && Ordered(c, r.service, World(map[], {}, 0), run) && OneReadingEach(run)
    ensures AcceptedAt(c, r.service, World(map[], {}, 0), run, 0) && !AcceptedAt(c, r.service, World(map[], {}, 0), run, 1)
  {
    var first := (Arrival(r, true, true, 0, _ => 0), 0);
    var again := (Arrival(r, true, true, WINDOW, _ => WINDOW), WINDOW);
    run := [first, again];
    var w := World(map[], {}, 0);
    assert Purged(map[], first.0.claimClock) == map[];
    var w' := After(c, r.service, w, run, 1);
    assert w' == Advance(c, r.service, After(c, r.service, w, run, 0), first.0, 0);
    assert w' == World(map[Key(c, r) := WINDOW], {r}, 0);
    assert Key(c, r) in Purged(w'.seen, again.0.claimClock);
  }

  /**
   With two readings the promise can fail: a request dated 0 arrives again at the last moment of its
   window, and by the time it is claimed the clock has passed it by one tick.
   */
  lemma SlowReplayIsAccepted(c: Scheme, r: Signed) returns (first: Arrival, again: Arrival)
    requires |r.nonce| == NONCE && c.parse(r.timestamp) == Some(0)
    ensures first.signed == again.signed == r && first.now <= again.now
    ensures var w := World(map[], {}, 0);
            && Monotone(w, first, 0) && Verify(c, r.service, w.seen, first).1 == Accepted
            && var w' := Advance(c, r.service, w, first, 0);
               Monotone(w', again, WINDOW + 1) && Verify(c, r.service, w'.seen, again).1 == Accepted
  {
    first := Arrival(r, true, true, 0, _ => 0);
    again := Arrival(r, true, true, WINDOW, _ => WINDOW + 1);
    assert Purged(map[], first.claimClock) == map[];
    assert Purged(map[Key(c, r) := WINDOW], again.claimClock) == map[];
  }
}
