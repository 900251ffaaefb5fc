/**
 The in-memory replay store (apps/api-go/internal/security/http.go): a map purged entry by entry, in any
 order, each time a request is claimed.
 */
module ReplayStore {
  import opened ReplayGuard

  class Store {
    var seen: Seen

    constructor ()
      ensures seen == map[]
    {
      seen := map[];
    }

    /** The map never holds more than ten thousand entries. */
    method Claim(key: string, expires: int, clock: string -> int) returns (ok: bool)
      modifies this
      ensures (seen, ok) == ReplayGuard.Claim(old(seen), key, expires, clock)
      ensures |old(seen)| <= CAPACITY ==> |seen| <= CAPACITY
    {
      var rest := seen.Keys;
      while rest != {}
        invariant rest <= seen.Keys
        invariant forall k :: k in seen <==> k in old(seen) && (k in rest || old(seen)[k] >= clock(k))
        invariant forall k :: k in seen ==> seen[k] == old(seen)[k]
      {
        var k :| k in rest;
        rest := rest - {k};
        if seen[k] < clock(k) {
          seen := seen - {k};
        }
      }
      assert seen == Purged(old(seen), clock);
      PurgeShrinks(old(seen), clock);
      if key in seen || |seen| >= CAPACITY {
        return false;
      }
      seen := seen[key := expires];
      return true;
    }
  }
}
