/**
 Walks over delegation edges: `createsCycle` and `resolveChain` in apps/api-go/internal/delegation/service.go.

 Both loops build a `next` map in which a later edge of the same delegator replaces an earlier one, and
 follow it with a growing `seen` set until the empty id. Edge lists are arbitrary here: cyclic ones and
 delegators with several edges included.
 */
module DelegationGraph {

  datatype Edge = Edge(from: string, to: string)

  /** The last edge of each delegator. */
  function NextMap(edges: seq<Edge>): map<string, string> {
    if edges == [] then map[]
    else NextMap(edges[..|edges| - 1])[edges[|edges| - 1].from := edges[|edges| - 1].to]
  }

  /** A lookup in the map; a missing key reads as the empty id, which leads nowhere. */
  function Hop(next: map<string, string>, c: string): string {
    if c != "" && c in next then next[c] else ""
  }

  /** Where k hops lead. */
  function Walk(next: map<string, string>, c: string, k: nat): string {
    if k == 0 then c else Hop(next, Walk(next, c, k - 1))
  }

  // ----- walks that come back never end -----

  lemma {:induction false} WalkAdds(next: map<string, string>, c: string, i: nat, k: nat)
    ensures Walk(next, c, i + k) == Walk(next, Walk(next, c, i), k)
  {
    if k > 0 {
      WalkAdds(next, c, i, k - 1);
    }
  }

  lemma {:induction false} WalkStaysEnded(next: map<string, string>, c: string, i: nat, k: nat)
    requires i <= k && Walk(next, c, i) == ""
    ensures Walk(next, c, k) == ""
    decreases k - i
  {
    if i < k {
      WalkStaysEnded(next, c, i, k - 1);
    }
  }

  /** A walk that meets the same citizen twice never reaches the empty id. */
  lemma {:induction false} RepeatNeverEnds(next: map<string, string>, c: string, i: nat, j: nat, k: nat)
    requires i < j && Walk(next, c, i) == Walk(next, c, j) != ""
    ensures Walk(next, c, k) != ""
    decreases k
  {
    if Walk(next, c, k) == "" {
      if k <= j {
        WalkStaysEnded(next, c, k, j);
      } else {
        WalkAdds(next, c, j, k - j);
        WalkAdds(next, c, i, k - j);
        RepeatNeverEnds(next, c, i, j, i + (k - j));
      }
    }
  }

  // ----- createsCycle -----

  /** The walk from `start` ends, and does so without meeting `target`. */
  ghost predicate EndsAvoiding(next: map<string, string>, start: string, target: string) {
    exists k: nat :: Walk(next, start, k) == "" && forall i: nat :: i < k ==> Walk(next, start, i) != target
  }

  /** What createsCycle answers for a list of edges in the order the store yields it. */
  ghost predicate CreatesCycleSpec(edges: seq<Edge>, delegator: string, delegate: string) {
    !EndsAvoiding(NextMap(edges), delegate, delegator)
  }

  method BuildNext(edges: seq<Edge>) returns (next: map<string, string>)
    ensures next == NextMap(edges)
  {
    next := map[];
    for i := 0 to |edges|
      invariant next == NextMap(edges[..i])
    {
      assert edges[..i + 1][..i] == edges[..i];
      next := next[edges[i].from := edges[i].to];
    }
    assert edges[..|edges|] == edges;
  }

  method CreatesCycle(edges: seq<Edge>, delegator: string, delegate: string) returns (cycle: bool)
    ensures cycle == CreatesCycleSpec(edges, delegator, delegate)
  {
    var next := BuildNext(edges);
    var seen := {delegator};
    var cur := delegate;
    ghost var trail: seq<string> := [];
    ghost var universe := {delegate} + next.Values;
    while cur != ""
      invariant IsTrail(next, delegate, trail) && delegator !in trail
      invariant cur == Walk(next, delegate, |trail|)
      invariant seen == {delegator} + Members(trail)
      invariant cur == "" || cur in universe
      decreases universe - seen
    {
      if cur in seen {
        if cur == delegator {
          MeetingMeansNoAvoiding(next, delegate, delegator, |trail|);
        } else {
          ghost var i :| 0 <= i < |trail| && trail[i] == cur;
          RepeatMeansNoAvoiding(next, delegate, delegator, i, |trail|);
        }
        return true;
      }
      assert cur in universe - seen;
      seen := seen + {cur};
      trail := trail + [cur];
      cur := if cur in next then next[cur] else "";
    }
    TrailAvoids(next, delegate, delegator, trail);
    return false;
  }

  function Members(xs: seq<string>): set<string> {
    set x | x in xs
  }

  /** The citizens of the first |trail| steps of a walk. */
  ghost predicate IsTrail(next: map<string, string>, start: string, trail: seq<string>) {
    forall i :: 0 <= i < |trail| ==> trail[i] == Walk(next, start, i) && trail[i] != ""
  }

  lemma TrailAvoids(next: map<string, string>, start: string, target: string, trail: seq<string>)
    requires IsTrail(next, start, trail) && target !in trail && Walk(next, start, |trail|) == ""
    ensures EndsAvoiding(next, start, target)
  {
    forall i: nat | i < |trail|
      ensures Walk(next, start, i) != target
    {
      assert trail[i] in trail;
    }
  }

  lemma MeetingMeansNoAvoiding(next: map<string, string>, start: string, target: string, k: nat)
    requires Walk(next, start, k) == target != ""
    ensures !EndsAvoiding(next, start, target)
  {
    if EndsAvoiding(next, start, target) {
      var e: nat :| Walk(next, start, e) == "" && forall i: nat :: i < e ==> Walk(next, start, i) != target;
      WalkStaysEnded(next, start, e, if e <= k then k else e);
    }
  }

  lemma RepeatMeansNoAvoiding(next: map<string, string>, start: string, target: string, i: nat, j: nat)
    requires i < j && Walk(next, start, i) == Walk(next, start, j) != ""
    ensures !EndsAvoiding(next, start, target)
  {
    if EndsAvoiding(next, start, target) {
      var e: nat :| Walk(next, start, e) == "";
      RepeatNeverEnds(next, start, i, j, e);
    }
  }

  // ----- resolveChain -----

  ghost predicate OnWalk(next: map<string, string>, delegator: string, chain: seq<string>) {
    forall i :: 0 <= i < |chain| ==> chain[i] == Walk(next, delegator, i + 1) && chain[i] != "" && chain[i] != delegator
  }

  /** The citizens met walking on from the delegator, up to the end or the first one already seen. */
  ghost predicate IsChain(next: map<string, string>, delegator: string, chain: seq<string>) {
    && OnWalk(next, delegator, chain)
    && (forall i, j :: 0 <= i < j < |chain| ==> chain[i] != chain[j])
    && var last := Walk(next, delegator, |chain| + 1);
       last == "" || last == delegator || last in chain
  }

  method ResolveChain(edges: seq<Edge>, delegator: string) returns (chain: seq<string>)
    requires delegator != ""  // the service answers for the empty id before it walks
    ensures IsChain(NextMap(edges), delegator, chain)
  {
    var next := BuildNext(edges);
    chain := [];
    var seen := {delegator};
    var cur := if delegator in next then next[delegator] else "";
    ghost var universe := next.Values;
    while cur != "" && cur !in seen
      invariant cur == Walk(next, delegator, |chain| + 1)
      invariant OnWalk(next, delegator, chain)
      invariant forall i, j :: 0 <= i < j < |chain| ==> chain[i] != chain[j]
      invariant seen == {delegator} + Members(chain)
      invariant cur == "" || cur in universe
      decreases universe - seen
    {
      assert cur in universe - seen;
      seen := seen + {cur};
      chain := chain + [cur];
      cur := if cur in next then next[cur] else "";
    }
  }
}
