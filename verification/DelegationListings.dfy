/**
 What the cycle check of `Create` can be relied on for, when all that is known are the rows: the store
 ranges over a Go map (apps/api-go/internal/delegation/store.go), so every call may see the active
 delegations in another order, and only what holds for each of them is worth anything to a caller.
 */
module DelegationListings {
  import opened Wrappers
  import opened DelegationGraph
  import opened DelegationCycles
  import opened Delegation

  /** The active rows of a domain, each once, in some order. */
  ghost predicate ListsRows(t: Table, domain: string, now: int, ids: seq<string>) {
    && (forall id :: id in ids <==> id in ActiveIds(t, domain, now))
    && (forall i, k :: 0 <= i < k < |ids| ==> ids[i] != ids[k])
  }

  function EdgesOf(t: Table, ids: seq<string>): (edges: seq<Edge>)
    requires forall id :: id in ids ==> id in t
    ensures |edges| == |ids| && forall i :: 0 <= i < |ids| ==> edges[i] == EdgeOf(t[ids[i]])
  {
    seq(|ids|, i requires 0 <= i < |ids| => assert ids[i] in ids; EdgeOf(t[ids[i]]))
  }

  /** In every order the store may list the rows in, the check tells whether the delegate leads to the delegator. */
  ghost predicate AlwaysExact(t: Table, domain: string, now: int) {
    forall ids :: ListsRows(t, domain, now, ids) ==> CheckIsExact(EdgesOf(t, ids))
  }

  /** No two active rows of the domain give one delegator two delegates. */
  predicate OneDelegateEach(t: Table, domain: string, now: int) {
    forall a, b :: a in ActiveIds(t, domain, now) && b in ActiveIds(t, domain, now) && t[a].delegatorID == t[b].delegatorID ==>
      t[a].delegateID == t[b].delegateID
  }

  lemma OneDelegateIsFunctional(t: Table, domain: string, now: int)
    ensures OneDelegateEach(t, domain, now) <==> Functional(Graph(t, domain, now))
  {
    var ids, es := ActiveIds(t, domain, now), Graph(t, domain, now);
    if OneDelegateEach(t, domain, now) {
      forall e, f | e in es && f in es && e.from == f.from
        ensures e == f
      {
        var a :| a in ids && EdgeOf(t[a]) == e;
        var b :| b in ids && EdgeOf(t[b]) == f;
      }
    }
    if Functional(es) {
      forall a, b | a in ids && b in ids && t[a].delegatorID == t[b].delegatorID
        ensures t[a].delegateID == t[b].delegateID
      {
        assert EdgeOf(t[a]) in es && EdgeOf(t[b]) in es;
      }
    }
  }

  lemma ListedEdges(t: Table, domain: string, now: int, ids: seq<string>)
    requires ListsRows(t, domain, now, ids)
    ensures Listing(t, domain, now, EdgesOf(t, ids))
  {
    var edges, es := EdgesOf(t, ids), Graph(t, domain, now);
    forall e | e in es
      ensures e in EdgeSet(edges)
    {
      var id :| id in ActiveIds(t, domain, now) && EdgeOf(t[id]) == e;
      var i :| 0 <= i < |ids| && ids[i] == id;
      assert edges[i] == e;
    }
    forall e | e in EdgeSet(edges)
      ensures e in es
    {
      var i :| 0 <= i < |edges| && edges[i] == e;
      assert ids[i] in ids && e == EdgeOf(t[ids[i]]);
    }
  }

  // ----- a listing that ends with a given row -----

  lemma {:induction false} SomeOrder<T>(s: set<T>) returns (ids: seq<T>)
    ensures forall id :: id in ids <==> id in s
    ensures forall i, k :: 0 <= i < k < |ids| ==> ids[i] != ids[k]
  {
    if s == {} {
      ids := [];
    } else {
      var x :| x in s;
      ids := SomeOrder(s - {x});
      ids := ids + [x];
    }
  }

  lemma ListingEndingWith(t: Table, domain: string, now: int, last: string) returns (ids: seq<string>)
    requires last in ActiveIds(t, domain, now)
    ensures ListsRows(t, domain, now, ids)
    ensures ids != [] && ids[|ids| - 1] == last
  {
    var rest := SomeOrder(ActiveIds(t, domain, now) - {last});
    ids := rest + [last];
  }

  /** If the check is exact for a list, an edge shadowed by the last one is reached through it. */
  lemma ShadowedIsReached(edges: seq<Edge>, e: Edge)
    requires Acyclic(EdgeSet(edges)) && IdsPresent(EdgeSet(edges)) && CheckIsExact(edges)
    requires e in EdgeSet(edges) && edges[|edges| - 1].from == e.from
    ensures Reaches(EdgeSet(edges), edges[|edges| - 1].to, e.to)
  {
    var es, next, last := EdgeSet(edges), NextMap(edges), edges[|edges| - 1];
    CheckIsExactIffEveryEdgeIsVisible(edges);
    assert OnTheWay(next, e.from, e.to);
    var k: nat :| Walk(next, e.from, k) == e.to;
    assert Link(es, [e.from, e.to], 0);
    assert IsPath(es, [e.from, e.to]);
    assert Walk(next, e.from, 0) == e.from && Walk(next, e.from, 1) == last.to;
    WalkAdds(next, e.from, 1, k - 1);
    var p := WalkIsPath(edges, last.to, k - 1);
  }

  lemma ShadowedRowIsReached(t: Table, domain: string, now: int, shadowed: string, last: string)
    requires Acyclic(Graph(t, domain, now)) && IdsPresent(Graph(t, domain, now)) && AlwaysExact(t, domain, now)
    requires shadowed in ActiveIds(t, domain, now) && last in ActiveIds(t, domain, now)
    requires t[shadowed].delegatorID == t[last].delegatorID
    ensures Reaches(Graph(t, domain, now), t[last].delegateID, t[shadowed].delegateID)
  {
    var ids := ListingEndingWith(t, domain, now, last);
    ListedEdges(t, domain, now, ids);
    assert EdgeOf(t[shadowed]) in Graph(t, domain, now);
    ShadowedIsReached(EdgesOf(t, ids), EdgeOf(t[shadowed]));
  }

  lemma ShadowedEdgeIsReached(es: set<Edge>, e: Edge, last: Edge)
    requires Acyclic(es) && IdsPresent(es) && e in es && last in es && e.from == last.from
    requires forall edges :: EdgeSet(edges) == es ==> CheckIsExact(edges)
    ensures Reaches(es, last.to, e.to)
  {
    var rest := SomeOrder(es - {last});
    assert EdgeSet(rest + [last]) == es;
    ShadowedIsReached(rest + [last], e);
  }

  /** Two citizens who lead to each other are one. */
  lemma MutualReachIsEqual(es: set<Edge>, x: string, y: string)
    requires Acyclic(es) && Reaches(es, x, y) && Reaches(es, y, x)
    ensures x == y
  {
    var p :| Joins(es, p, x, y);
    var q :| Joins(es, q, y, x);
    JoinPaths(es, p, q);
    assert IsPath(es, p + q[1..]);
  }

  /**
   The check can be relied on, whatever order the rows come in, if and only if no citizen has active
   delegations to two delegates in the domain: which a caller can see from the rows before the call.
   */
  lemma AlwaysExactIffOneDelegateEach(t: Table, domain: string, now: int)
    requires Acyclic(Graph(t, domain, now)) && IdsPresent(Graph(t, domain, now))
    ensures AlwaysExact(t, domain, now) <==> OneDelegateEach(t, domain, now)
  {
    if OneDelegateEach(t, domain, now) {
      OneDelegateIsFunctional(t, domain, now);
      forall ids | ListsRows(t, domain, now, ids)
        ensures CheckIsExact(EdgesOf(t, ids))
      {
        ListedEdges(t, domain, now, ids);
        FunctionalIsVisible(EdgesOf(t, ids));
        CheckIsExactIffEveryEdgeIsVisible(EdgesOf(t, ids));
      }
    }
    if AlwaysExact(t, domain, now) {
      forall a, b | a in ActiveIds(t, domain, now) && b in ActiveIds(t, domain, now) && t[a].delegatorID == t[b].delegatorID
        ensures t[a].delegateID == t[b].delegateID
      {
        ShadowedRowIsReached(t, domain, now, a, b);
        ShadowedRowIsReached(t, domain, now, b, a);
        MutualReachIsEqual(Graph(t, domain, now), t[a].delegateID, t[b].delegateID);
      }
    }
  }

  /** The edge back from a delegate that its delegator's chain misses passes the check and closes a cycle. */
  lemma EdgeBackPasses(edges: seq<Edge>, e: Edge)
    requires Acyclic(EdgeSet(edges)) && IdsPresent(EdgeSet(edges))
    requires e in EdgeSet(edges) && !OnTheWay(NextMap(edges), e.from, e.to)
    ensures e.from != e.to && !CreatesCycleSpec(edges, e.to, e.from)
    ensures !Acyclic(EdgeSet(edges) + {Edge(e.to, e.from)})
  {
    var es := EdgeSet(edges);
    assert Link(es, [e.from, e.to], 0);
    assert Joins(es, [e.from, e.to], e.from, e.to);
    assert [e.from, e.to][0] != [e.from, e.to][1];
    CheckFollowsTheWalk(edges, e.to, e.from);
    EdgeClosesCycleIffTargetLeadsBack(es, Edge(e.to, e.from));
  }

  /**
   Whenever it cannot be relied on, it lets a cycle through: in some order of the rows, some new edge passes
   the check although it closes a cycle.
   */
  lemma OtherwiseACyclePasses(t: Table, domain: string, now: int) returns (ids: seq<string>, passed: Edge)
    requires Acyclic(Graph(t, domain, now)) && IdsPresent(Graph(t, domain, now)) && !OneDelegateEach(t, domain, now)
    ensures ListsRows(t, domain, now, ids) && passed.from != passed.to
    ensures !CreatesCycleSpec(EdgesOf(t, ids), passed.from, passed.to)
    ensures !Acyclic(Graph(t, domain, now) + {passed})
  {
    AlwaysExactIffOneDelegateEach(t, domain, now);
    ids :| ListsRows(t, domain, now, ids) && !CheckIsExact(EdgesOf(t, ids));
    ListedEdges(t, domain, now, ids);
    CheckIsExactIffEveryEdgeIsVisible(EdgesOf(t, ids));
    var e :| e in EdgeSet(EdgesOf(t, ids)) && !OnTheWay(NextMap(EdgesOf(t, ids)), e.from, e.to);
    EdgeBackPasses(EdgesOf(t, ids), e);
    passed := Edge(e.to, e.from);
  }

  /** The same of a bare graph and every list of its edges. */
  lemma ExactForEveryListIffFunctional(es: set<Edge>)
    requires Acyclic(es) && IdsPresent(es)
    ensures (forall edges :: EdgeSet(edges) == es ==> CheckIsExact(edges)) <==> Functional(es)
  {
    if Functional(es) {
      forall edges | EdgeSet(edges) == es
        ensures CheckIsExact(edges)
      {
        FunctionalIsVisible(edges);
        CheckIsExactIffEveryEdgeIsVisible(edges);
      }
    }
    if forall edges :: EdgeSet(edges) == es ==> CheckIsExact(edges) {
      forall e, f | e in es && f in es && e.from == f.from
        ensures e == f
      {
        ShadowedEdgeIsReached(es, e, f);
        ShadowedEdgeIsReached(es, f, e);
        MutualReachIsEqual(es, e.to, f.to);
      }
    }
  }
}
