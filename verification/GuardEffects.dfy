/**
 When a signed request is accepted and when a peer's request is admitted, and what is remembered of either,
 with every condition and constant written out (apps/api-go/internal/security/http.go).
 */
module GuardEffects {
  import opened Wrappers
  import opened ReplayGuard
  import RateLimit

  // ----- signed requests -----

  /** For this service, dated within five minutes of now on either side, with a nonce of 32 characters. */
  predicate Timely(c: Scheme, service: string, r: Signed, now: int) {
    && r.service == service && |r.nonce| == 32
    && c.parse(r.timestamp).Some?
    && now - 300_000_000_000 <= c.parse(r.timestamp).value && c.parse(r.timestamp).value <= now + 300_000_000_000
  }

  /** The service and the digest of the signature over every field, as text. */
  function Name(c: Scheme, r: Signed): string {
    r.service + ":"
    + c.digest(r.service + "\n" + r.verb + "\n" + r.target + "\n" + r.timestamp + "\n" + r.nonce + "\n" + r.bodySum)
  }

  /** What is remembered and has not expired by the clock as read for it. */
  function StillSeen(seen: Seen, a: Arrival): set<string> {
    set k | k in seen && a.claimClock(k) <= seen[k]
  }

  /** The entries under these keys are as they were. */
  predicate Unchanged(before: Seen, after: Seen, keys: set<string>) {
    forall k :: k in keys ==> k in before && k in after && after[k] == before[k]
  }

  lemma PurgedIsStillSeen(seen: Seen, a: Arrival)
    ensures Purged(seen, a.claimClock).Keys == StillSeen(seen, a)
    ensures |Purged(seen, a.claimClock)| == |StillSeen(seen, a)|
    ensures Unchanged(seen, Purged(seen, a.claimClock), StillSeen(seen, a))
  {
    assert |Purged(seen, a.claimClock).Keys| == |Purged(seen, a.claimClock)|;
  }

  /**
   Accepted exactly are the timely requests with a fitting body and the right signature that are not remembered,
   as long as fewer than ten thousand are. They are then remembered for five minutes from their date.
   */
  lemma AcceptedExactly(c: Scheme, service: string, seen: Seen, a: Arrival)
    ensures var (after, v) := Verify(c, service, seen, a);
            && (v == Accepted <==>
                  && Timely(c, service, a.signed, a.now) && a.bodyFits && a.signatureRight
                  && Name(c, a.signed) !in StillSeen(seen, a) && |StillSeen(seen, a)| < 10000)
            && (v == Accepted ==>
                  && after.Keys == StillSeen(seen, a) + {Name(c, a.signed)}
                  && after[Name(c, a.signed)] == c.parse(a.signed.timestamp).value + 300_000_000_000
                  && Unchanged(seen, after, StillSeen(seen, a)))
  {
    PurgedIsStillSeen(seen, a);
  }

  /** The three ways of refusing: before anything is remembered or forgotten, or as a replay, after the purge. */
  lemma RefusedExactly(c: Scheme, service: string, seen: Seen, a: Arrival)
    ensures var (after, v) := Verify(c, service, seen, a);
            && (v == Unauthorized <==> !Timely(c, service, a.signed, a.now) || (a.bodyFits && !a.signatureRight))
            && (v == PayloadTooLarge <==> Timely(c, service, a.signed, a.now) && !a.bodyFits)
            && (v == Unauthorized || v == PayloadTooLarge ==> after == seen)
            && (v == Replayed ==> after.Keys == StillSeen(seen, a) && Unchanged(seen, after, StillSeen(seen, a)))
  {
    PurgedIsStillSeen(seen, a);
  }

  // ----- requests of a peer -----

  /** The peers whose windows have not ended. */
  function Tracked(ws: RateLimit.Windows, now: int): set<string> {
    set h | h in ws && now <= ws[h].end
  }

  lemma CurrentIsTracked(ws: RateLimit.Windows, now: int)
    ensures RateLimit.Current(ws, now).Keys == Tracked(ws, now)
    ensures |RateLimit.Current(ws, now)| == |Tracked(ws, now)|
    ensures forall h :: h in Tracked(ws, now) ==> RateLimit.Current(ws, now)[h] == ws[h]
  {
    assert |RateLimit.Current(ws, now).Keys| == |RateLimit.Current(ws, now)|;
  }

  /**
   A tracked peer is admitted while its window has admitted fewer than 120; another opens a window of sixty
   seconds while fewer than ten thousand are tracked. Ended windows are forgotten, all others are left alone.
   */
  lemma AdmittedExactly(ws: RateLimit.Windows, host: string, now: int)
    requires RateLimit.Valid(ws)
    ensures var (after, admitted) := RateLimit.Request(ws, host, now);
            && (admitted <==> if host in Tracked(ws, now) then ws[host].count < 120 else |Tracked(ws, now)| < 10000)
            && after.Keys == Tracked(ws, now) + (if admitted then {host} else {})
            && (forall h :: h in Tracked(ws, now) && h != host ==> after[h] == ws[h])
            && (host in after ==>
                  after[host] == if host !in Tracked(ws, now) then RateLimit.Window(1, now + 60_000_000_000)
                                 else RateLimit.Window(ws[host].count + (if admitted then 1 else 0), ws[host].end))
  {
    CurrentIsTracked(ws, now);
  }
}
