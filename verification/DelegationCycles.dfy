/**
 Cycles in delegation graphs, stated on sets of edges with no reference to the walk, and how far the
 source's cycle check decides them.
 */
module DelegationCycles {
  import opened DelegationGraph

  // ----- paths -----

  predicate Link(es: set<Edge>, p: seq<string>, i: nat)
    requires i + 1 < |p|
  {
    Edge(p[i], p[i + 1]) in es
  }

  predicate IsPath(es: set<Edge>, p: seq<string>) {
    |p| >= 1 && forall i :: 0 <= i < |p| - 1 ==> Link(es, p, i)
  }

  ghost predicate Joins(es: set<Edge>, p: seq<string>, x: string, y: string) {
    IsPath(es, p) && p[0] == x && p[|p| - 1] == y
  }

  /** Some path, possibly of no edges, leads from x to y. */
  ghost predicate Reaches(es: set<Edge>, x: string, y: string) {
    exists p :: Joins(es, p, x, y)
  }

  ghost predicate Acyclic(es: set<Edge>) {
    forall p :: IsPath(es, p) && |p| >= 2 ==> p[0] != p[|p| - 1]
  }

  /** At most one edge per delegator. */
  predicate Functional(es: set<Edge>) {
    forall e, f :: e in es && f in es && e.from == f.from ==> e == f
  }

  predicate IdsPresent(es: set<Edge>) {
    forall e :: e in es ==> e.from != "" && e.to != ""
  }

  function EdgeSet(edges: seq<Edge>): set<Edge> {
    set e | e in edges
  }

  lemma SubgraphPath(es: set<Edge>, more: set<Edge>, p: seq<string>)
    requires IsPath(es, p) && es <= more
    ensures IsPath(more, p)
  {
    forall i | 0 <= i < |p| - 1
      ensures Link(more, p, i)
    {
      assert Link(es, p, i);
    }
  }

  /** Edges leaving the graph cannot create a cycle. */
  lemma SubgraphAcyclic(es: set<Edge>, more: set<Edge>)
    requires Acyclic(more) && es <= more
    ensures Acyclic(es)
  {
    forall p | IsPath(es, p) && |p| >= 2
      ensures p[0] != p[|p| - 1]
    {
      SubgraphPath(es, more, p);
    }
  }

  lemma SubPath(es: set<Edge>, p: seq<string>, i: nat, j: nat)
    requires IsPath(es, p) && i < j <= |p|
    ensures IsPath(es, p[i..j])
  {
    forall k | 0 <= k < j - i - 1
      ensures Link(es, p[i..j], k)
    {
      assert Link(es, p, i + k);
    }
  }

  lemma JoinPaths(es: set<Edge>, p: seq<string>, q: seq<string>)
    requires IsPath(es, p) && IsPath(es, q) && p[|p| - 1] == q[0]
    ensures IsPath(es, p + q[1..])
    ensures (p + q[1..])[|p + q[1..]| - 1] == q[|q| - 1]
  {
    var r := p + q[1..];
    forall k | 0 <= k < |r| - 1
      ensures Link(es, r, k)
    {
      if k + 1 < |p| {
        assert Link(es, p, k);
      } else {
        assert Link(es, q, k - |p| + 1);
      }
    }
  }

  // ----- one more edge -----

  /** A path that uses the extra edge leads to its source before the first use. */
  lemma {:induction false} FirstUse(es: set<Edge>, e: Edge, p: seq<string>)
    requires IsPath(es + {e}, p) && !IsPath(es, p)
    ensures Reaches(es, p[0], e.from)
    decreases |p|
  {
    var front := p[..|p| - 1];
    if |front| >= 1 {
      SubPath(es + {e}, p, 0, |p| - 1);
      assert p[0..|p| - 1] == front;
      if !IsPath(es, front) {
        FirstUse(es, e, front);
      } else {
        ExtendsUnlessLast(es, p);
        assert Link(es + {e}, p, |p| - 2);
        assert Joins(es, front, p[0], e.from);
      }
    }
  }

  lemma ExtendsUnlessLast(es: set<Edge>, p: seq<string>)
    requires |p| >= 2 && IsPath(es, p[..|p| - 1]) && !IsPath(es, p)
    ensures !Link(es, p, |p| - 2)
  {
    if Link(es, p, |p| - 2) {
      forall i | 0 <= i < |p| - 1
        ensures Link(es, p, i)
      {
        if i < |p| - 2 {
          assert Link(es, p[..|p| - 1], i);
        }
      }
    }
  }

  /** ... and leads on from its target after the last use. */
  lemma {:induction false} LastUse(es: set<Edge>, e: Edge, p: seq<string>)
    requires IsPath(es + {e}, p) && !IsPath(es, p)
    ensures Reaches(es, e.to, p[|p| - 1])
    decreases |p|
  {
    if |p| > 1 {
      var rest := p[1..];
      SubPath(es + {e}, p, 1, |p|);
      assert p[1..|p|] == rest;
      if !IsPath(es, rest) {
        LastUse(es, e, rest);
      } else {
        ExtendsUnlessFirst(es, p);
        assert Link(es + {e}, p, 0);
        assert Joins(es, rest, e.to, p[|p| - 1]);
      }
    }
  }

  lemma ExtendsUnlessFirst(es: set<Edge>, p: seq<string>)
    requires |p| >= 2 && IsPath(es, p[1..]) && !IsPath(es, p)
    ensures !Link(es, p, 0)
  {
    if Link(es, p, 0) {
      forall i | 0 <= i < |p| - 1
        ensures Link(es, p, i)
      {
        if i > 0 {
          assert Link(es, p[1..], i - 1);
        }
      }
    }
  }

  lemma ReachesTransitive(es: set<Edge>, x: string, y: string, z: string)
    requires Reaches(es, x, y) && Reaches(es, y, z)
    ensures Reaches(es, x, z)
  {
    var p :| Joins(es, p, x, y);
    var q :| Joins(es, q, y, z);
    JoinPaths(es, p, q);
    assert Joins(es, p + q[1..], x, z);
  }

  /** An edge closes a cycle exactly when its target already leads back to its source. */
  lemma EdgeClosesCycleIffTargetLeadsBack(es: set<Edge>, e: Edge)
    requires Acyclic(es)
    ensures Acyclic(es + {e}) <==> !Reaches(es, e.to, e.from)
  {
    if Reaches(es, e.to, e.from) {
      var p :| Joins(es, p, e.to, e.from);
      SubgraphPath(es, es + {e}, p);
      assert Link(es + {e}, [e.from, e.to], 0);
      JoinPaths(es + {e}, [e.from, e.to], p);
      var cycle := [e.from, e.to] + p[1..];
      assert IsPath(es + {e}, cycle) && cycle[0] == cycle[|cycle| - 1];
    } else {
      forall p | IsPath(es + {e}, p) && |p| >= 2
        ensures p[0] != p[|p| - 1]
      {
        if p[0] == p[|p| - 1] && !IsPath(es, p) {
          FirstUse(es, e, p);
          LastUse(es, e, p);
          ReachesTransitive(es, e.to, p[0], e.from);
        }
      }
    }
  }

  // ----- the walk is a path -----

  lemma {:induction false} NextMapIsEdges(edges: seq<Edge>, c: string)
    ensures c in NextMap(edges) ==> Edge(c, NextMap(edges)[c]) in EdgeSet(edges)
    ensures c in NextMap(edges) <==> exists e :: e in EdgeSet(edges) && e.from == c
  {
    if edges != [] {
      var front := edges[..|edges| - 1];
      NextMapIsEdges(front, c);
      var last := edges[|edges| - 1];
      assert EdgeSet(edges) == EdgeSet(front) + {last} by {
        assert edges == front + [last];
      }
    }
  }

  /** The first k hops of a walk that has not ended, as a path. */
  lemma {:induction false} WalkIsPath(edges: seq<Edge>, c: string, k: nat) returns (p: seq<string>)
    requires Walk(NextMap(edges), c, k) != ""
    ensures |p| == k + 1 && Joins(EdgeSet(edges), p, c, Walk(NextMap(edges), c, k))
  {
    if k == 0 {
      p := [c];
    } else {
      var before := Walk(NextMap(edges), c, k - 1);
      p := WalkIsPath(edges, c, k - 1);
      NextMapIsEdges(edges, before);
      var step := [before, Walk(NextMap(edges), c, k)];
      assert Link(EdgeSet(edges), step, 0);
      JoinPaths(EdgeSet(edges), p, step);
      p := p + step[1..];
    }
  }

  /** Every walk ends or comes back to a citizen it has met. */
  lemma {:induction false} WalkEndsOrRepeats(next: map<string, string>, start: string, trail: seq<string>)
    returns (i: nat, j: nat)
    requires IsTrail(next, start, trail)
    requires forall k, l :: 0 <= k < l < |trail| ==> trail[k] != trail[l]
    requires forall k :: 0 <= k < |trail| ==> trail[k] in {start} + next.Values
    ensures Walk(next, start, j) == "" || (i < j && Walk(next, start, i) == Walk(next, start, j))
    decreases {start} + next.Values - Members(trail)
  {
    i, j := 0, |trail|;
    var cur := Walk(next, start, |trail|);
    if cur != "" {
      if cur in trail {
        i :| 0 <= i < |trail| && trail[i] == cur;
      } else {
        assert cur in {start} + next.Values;
        assert Members(trail + [cur]) == Members(trail) + {cur};
        i, j := WalkEndsOrRepeats(next, start, trail + [cur]);
      }
    }
  }

  lemma AcyclicWalkEnds(edges: seq<Edge>, c: string) returns (e: nat)
    requires Acyclic(EdgeSet(edges))
    ensures Walk(NextMap(edges), c, e) == ""
  {
    var next := NextMap(edges);
    var i, j := WalkEndsOrRepeats(next, c, []);
    e := j;
    if Walk(next, c, j) != "" {
      var at := Walk(next, c, i);
      WalkAdds(next, c, i, j - i);
      var p := WalkIsPath(edges, at, j - i);
      assert false;
    }
  }

  // ----- what the check decides -----

  ghost predicate OnTheWay(next: map<string, string>, c: string, target: string) {
    exists k: nat :: Walk(next, c, k) == target
  }

  /** On an acyclic graph the check answers true exactly when the walk from the delegate meets the delegator. */
  lemma CheckFollowsTheWalk(edges: seq<Edge>, delegator: string, delegate: string)
    requires Acyclic(EdgeSet(edges)) && delegator != ""
    ensures CreatesCycleSpec(edges, delegator, delegate) <==> OnTheWay(NextMap(edges), delegate, delegator)
  {
    var next := NextMap(edges);
    if OnTheWay(next, delegate, delegator) {
      var k: nat :| Walk(next, delegate, k) == delegator;
      MeetingMeansNoAvoiding(next, delegate, delegator, k);
    } else {
      var e := AcyclicWalkEnds(edges, delegate);
    }
  }

  /** Every edge is visible on its delegator's resolved chain, even where another edge of the delegator shadows it. */
  ghost predicate Visible(edges: seq<Edge>) {
    forall e :: e in EdgeSet(edges) ==> OnTheWay(NextMap(edges), e.from, e.to)
  }

  /** On an acyclic graph, being on the way is being in the chain resolved from the same listing. */
  lemma VisibleMeansInTheChain(edges: seq<Edge>, c: string, target: string, chain: seq<string>)
    requires Acyclic(EdgeSet(edges)) && c != "" && target != "" && c != target
    requires IsChain(NextMap(edges), c, chain)
    ensures OnTheWay(NextMap(edges), c, target) <==> target in chain
  {
    var next := NextMap(edges);
    ChainEndsAtVoter(edges, c, chain);
    if OnTheWay(next, c, target) {
      var k: nat :| Walk(next, c, k) == target;
      if k > |chain| {
        WalkStaysEnded(next, c, |chain| + 1, k);
      }
      assert target == chain[k - 1];
    }
    if target in chain {
      var i :| 0 <= i < |chain| && chain[i] == target;
      assert Walk(next, c, i + 1) == target;
    }
  }

  /** On an acyclic graph a chain stops only at a citizen who does not delegate. */
  lemma ChainEndsAtVoter(edges: seq<Edge>, c: string, chain: seq<string>)
    requires Acyclic(EdgeSet(edges)) && c != ""
    requires IsChain(NextMap(edges), c, chain)
    ensures Walk(NextMap(edges), c, |chain| + 1) == ""
  {
    var next := NextMap(edges);
    var n := |chain| + 1;
    if Walk(next, c, n) != "" {
      var e := AcyclicWalkEnds(edges, c);
      if Walk(next, c, n) == c {
        RepeatNeverEnds(next, c, 0, n, e);
      } else {
        var i :| 0 <= i < |chain| && chain[i] == Walk(next, c, n);
        RepeatNeverEnds(next, c, i + 1, n, e);
      }
    }
  }

  /** Following links one by one stays on the walk when every edge is visible. */
  lemma {:induction false} PathStaysOnTheWay(edges: seq<Edge>, p: seq<string>)
    requires Visible(edges) && IsPath(EdgeSet(edges), p)
    ensures OnTheWay(NextMap(edges), p[0], p[|p| - 1])
    decreases |p|
  {
    var next := NextMap(edges);
    if |p| == 1 {
      assert Walk(next, p[0], 0) == p[0];
    } else {
      var front := p[..|p| - 1];
      SubPath(EdgeSet(edges), p, 0, |p| - 1);
      assert p[0..|p| - 1] == front;
      PathStaysOnTheWay(edges, front);
      var i: nat :| Walk(next, p[0], i) == p[|p| - 2];
      assert Link(EdgeSet(edges), p, |p| - 2);
      var k: nat :| Walk(next, p[|p| - 2], k) == p[|p| - 1];
      WalkAdds(next, p[0], i, k);
    }
  }

  /** What the check is for: telling whether the delegate already leads to the delegator. */
  ghost predicate CheckIsExact(edges: seq<Edge>) {
    forall delegator, delegate :: delegator != "" && delegate != "" ==>
      (CreatesCycleSpec(edges, delegator, delegate) <==> Reaches(EdgeSet(edges), delegate, delegator))
  }

  /**
   For one listing of an acyclic graph, the check is exact if and only if every active edge shows up in its
   delegator's own chain. Several edges per delegator are harmless as long as they are on the chain anyway.
   */
  lemma CheckIsExactIffEveryEdgeIsVisible(edges: seq<Edge>)
    requires Acyclic(EdgeSet(edges)) && IdsPresent(EdgeSet(edges))
    ensures CheckIsExact(edges) <==> Visible(edges)
  {
    var es, next := EdgeSet(edges), NextMap(edges);
    if Visible(edges) {
      forall delegator, delegate | delegator != "" && delegate != ""
        ensures CreatesCycleSpec(edges, delegator, delegate) <==> Reaches(es, delegate, delegator)
      {
        CheckFollowsTheWalk(edges, delegator, delegate);
        if OnTheWay(next, delegate, delegator) {
          var k: nat :| Walk(next, delegate, k) == delegator;
          var p := WalkIsPath(edges, delegate, k);
        }
        if Reaches(es, delegate, delegator) {
          var p :| Joins(es, p, delegate, delegator);
          PathStaysOnTheWay(edges, p);
        }
      }
    }
    if CheckIsExact(edges) {
      forall e | e in es
        ensures OnTheWay(next, e.from, e.to)
      {
        assert Link(es, [e.from, e.to], 0);
        assert Joins(es, [e.from, e.to], e.from, e.to);
        CheckFollowsTheWalk(edges, e.to, e.from);
      }
    }
  }

  /** With at most one edge per delegator every edge is the next hop, hence visible. */
  lemma FunctionalIsVisible(edges: seq<Edge>)
    requires Functional(EdgeSet(edges)) && IdsPresent(EdgeSet(edges))
    ensures Visible(edges)
  {
    forall e | e in EdgeSet(edges)
      ensures OnTheWay(NextMap(edges), e.from, e.to)
    {
      NextMapIsEdges(edges, e.from);
      assert Walk(NextMap(edges), e.from, 0) == e.from;
      assert Walk(NextMap(edges), e.from, 1) == e.to;
    }
  }

  /**
   With at most one active edge per delegator, the check answers true exactly when adding the edge
   would close a cycle, whatever order the store lists the edges in.
   */
  lemma CheckDecidesCycles(edges: seq<Edge>, delegator: string, delegate: string)
    requires Acyclic(EdgeSet(edges)) && Functional(EdgeSet(edges)) && IdsPresent(EdgeSet(edges))
    requires delegator != "" && delegate != ""
    ensures CreatesCycleSpec(edges, delegator, delegate) <==> !Acyclic(EdgeSet(edges) + {Edge(delegator, delegate)})
  {
    FunctionalIsVisible(edges);
    CheckIsExactIffEveryEdgeIsVisible(edges);
    EdgeClosesCycleIffTargetLeadsBack(EdgeSet(edges), Edge(delegator, delegate));
  }
}
