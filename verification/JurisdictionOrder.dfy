/**
 When the forest does not depend on the order of the input rows: two builds from the same rows in different
 orders are read back as forests that differ only in the order of siblings, exactly if no two different rows
 share an id that occurs in them.
 */
module JurisdictionOrder {
  import opened Wrappers
  import opened JurisdictionRows
  import opened JurisdictionTree
  import opened JurisdictionForest

  /** The same row, and the same subtrees in some order. */
  ghost predicate SameTree(t: Tree, u: Tree)
    decreases t, 1
  {
    t.row == u.row && SameForest(t.kids, u.kids)
  }

  /** The trees of one are those of the other, one for one, in some order. */
  ghost predicate SameForest(ts: seq<Tree>, us: seq<Tree>)
    decreases ts, 0
  {
    if ts == [] then us == []
    else exists k :: 0 <= k < |us| && SameTree(ts[0], us[k]) && SameForest(ts[1..], Without(us, k))
  }

  function Without<T>(xs: seq<T>, k: nat): seq<T>
    requires k < |xs|
  {
    xs[..k] + xs[k + 1..]
  }

  /** Rows that share an id are equal, as they trivially are when ids are distinct. */
  predicate OneRowPerId(js: seq<Jurisdiction>) {
    forall i, k :: 0 <= i < |js| && 0 <= k < |js| && js[i].id == js[k].id ==> js[i] == js[k]
  }

  lemma RowOfItsId(js: seq<Jurisdiction>, j: Jurisdiction)
    requires OneRowPerId(js) && j in js
    ensures RowOf(js, j.id) == j
  {
    var i :| 0 <= i < |js| && js[i] == j;
    var k :| 0 <= k < |js| && js[k] == RowOf(js, j.id);
  }

  lemma SameMembers(js: seq<Jurisdiction>, other: seq<Jurisdiction>)
    requires multiset(js) == multiset(other)
    ensures forall j :: j in js <==> j in other
  {
    assert forall j :: j in js <==> j in multiset(js);
    assert forall j :: j in other <==> j in multiset(other);
  }

  // ----- the forest as a function of the rows -----

  /** What the builder makes of an id: its last row, and under it what it makes of the rows that name it. */
  ghost predicate IsTree(js: seq<Jurisdiction>, id: string, t: Tree)
    decreases t, 1
  {
    id in Ids(js) && t.row == RowOf(js, id) && IsForest(js, Kids(js, id), t.kids)
  }

  ghost predicate IsForest(js: seq<Jurisdiction>, rows: seq<Jurisdiction>, ts: seq<Tree>)
    decreases ts, 0
  {
    |rows| == |ts| && forall i :: 0 <= i < |ts| ==> IsTree(js, rows[i].id, ts[i])
  }

  ghost predicate ForestOf(js: seq<Jurisdiction>, forest: seq<Tree>) {
    IsForest(js, Roots(js, Ids(js)), forest)
  }

  lemma RowsAreMembers(js: seq<Jurisdiction>, id: string)
    ensures forall r :: r in Kids(js, id) ==> r in js
    ensures forall r :: r in Roots(js, Ids(js)) ==> r in js
  {
    forall r | r in Kids(js, id)
      ensures r in js
    {
      KidsExact(js, id, r);
    }
    forall r | r in Roots(js, Ids(js))
      ensures r in js
    {
      RootsExact(js, Ids(js), r);
    }
  }

  lemma {:induction false} NodeIsRead(js: seq<Jurisdiction>, nodes: map<string, Node>, id: string, t: Tree)
    requires Built(js, nodes) && id in nodes
    ensures Denotes(nodes[id], t, nodes.Values) <==> IsTree(js, id, t)
    decreases t, 1
  {
    RowsAreMembers(js, id);
    RowsAreRead(js, nodes, Kids(js, id), t.kids);
    assert AreNodesOf(nodes, Kids(js, id), nodes[id].children);
    assert DenotesAll(nodes[id].children, t.kids, nodes.Values) <==> DenoteRows(nodes, Kids(js, id), t.kids);
  }

  lemma {:induction false} RowsAreRead(js: seq<Jurisdiction>, nodes: map<string, Node>, rows: seq<Jurisdiction>, ts: seq<Tree>)
    requires Built(js, nodes) && forall r :: r in rows ==> r in js
    ensures DenoteRows(nodes, rows, ts) <==> IsForest(js, rows, ts)
    decreases ts, 0
  {
    if |rows| == |ts| {
      forall i | 0 <= i < |ts|
        ensures rows[i].id in nodes && (Denotes(nodes[rows[i].id], ts[i], nodes.Values) <==> IsTree(js, rows[i].id, ts[i]))
      {
        assert rows[i] in js;
        NodeIsRead(js, nodes, rows[i].id, ts[i]);
      }
    }
  }

  /** What the nodes left behind by a build are read back as is exactly this forest. */
  lemma BuildIsReadAsForest(js: seq<Jurisdiction>, nodes: map<string, Node>, roots: seq<Node>, forest: seq<Tree>)
    requires Built(js, nodes) && AreNodesOf(nodes, Roots(js, Ids(js)), roots)
    ensures DenotesAll(roots, forest, nodes.Values) <==> ForestOf(js, forest)
  {
    RowsAreMembers(js, "");
    RowsAreRead(js, nodes, Roots(js, Ids(js)), forest);
  }

  // ----- the rows of a forest -----

  lemma FlattenOneMore(ts: seq<Tree>, t: Tree)
    ensures FlattenAll(ts + [t]) == FlattenAll(ts) + Flatten(t)
  {
    assert (ts + [t])[..|ts|] == ts;
  }

  lemma FlattenOne(t: Tree)
    ensures FlattenAll([t]) == Flatten(t)
  {
    FlattenOneMore([], t);
    assert [] + [t] == [t];
  }

  lemma {:induction false} FlattenJoins(ts: seq<Tree>, us: seq<Tree>)
    ensures FlattenAll(ts + us) == FlattenAll(ts) + FlattenAll(us)
    decreases |us|
  {
    if us == [] {
      assert ts + us == ts;
    } else {
      var front, t := us[..|us| - 1], us[|us| - 1];
      FlattenJoins(ts, front);
      FlattenOneMore(ts + front, t);
      FlattenOneMore(front, t);
      assert us == front + [t] && ts + us == ts + front + [t];
    }
  }

  lemma MiddleOut<T>(a: seq<T>, b: seq<T>, c: seq<T>)
    ensures multiset(a + b + c) == multiset(b) + multiset(a + c)
  {
  }

  lemma FlattenMiddle(front: seq<Tree>, t: Tree, back: seq<Tree>)
    ensures multiset(FlattenAll(front + [t] + back)) == multiset(Flatten(t)) + multiset(FlattenAll(front + back))
  {
    FlattenJoins(front + [t], back);
    FlattenOneMore(front, t);
    FlattenJoins(front, back);
    MiddleOut(FlattenAll(front), Flatten(t), FlattenAll(back));
  }

  lemma PartsOf<T>(xs: seq<T>, k: nat)
    requires k < |xs|
    ensures xs[..k] + [xs[k]] + xs[k + 1..] == xs
  {
  }

  lemma FlattenParts(ts: seq<Tree>, front: seq<Tree>, t: Tree, back: seq<Tree>)
    requires front + [t] + back == ts
    ensures multiset(FlattenAll(ts)) == multiset(Flatten(t)) + multiset(FlattenAll(front + back))
  {
    FlattenMiddle(front, t, back);
  }

  lemma FlattenWithout(ts: seq<Tree>, k: nat)
    requires k < |ts|
    ensures multiset(FlattenAll(ts)) == multiset(Flatten(ts[k])) + multiset(FlattenAll(Without(ts, k)))
  {
    PartsOf(ts, k);
    FlattenParts(ts, ts[..k], ts[k], ts[k + 1..]);
  }

  /** Forests that differ only in the order of siblings hold the same rows as often. */
  lemma {:induction false} SameForestSameRows(ts: seq<Tree>, us: seq<Tree>)
    requires SameForest(ts, us)
    ensures multiset(FlattenAll(ts)) == multiset(FlattenAll(us))
    decreases ts, 0
  {
    if ts != [] {
      var k :| 0 <= k < |us| && SameTree(ts[0], us[k]) && SameForest(ts[1..], Without(us, k));
      SameTreeSameRows(ts[0], us[k]);
      SameForestSameRows(ts[1..], Without(us, k));
      FlattenWithout(ts, 0);
      assert Without(ts, 0) == ts[1..];
      FlattenWithout(us, k);
    }
  }

  lemma {:induction false} SameTreeSameRows(t: Tree, u: Tree)
    requires SameTree(t, u)
    ensures multiset(Flatten(t)) == multiset(Flatten(u))
    decreases t, 1
  {
    SameForestSameRows(t.kids, u.kids);
  }

  /** Every row of the forest is the last row of its id. */
  lemma {:induction false} ForestHoldsLastRows(js: seq<Jurisdiction>, rows: seq<Jurisdiction>, ts: seq<Tree>, j: Jurisdiction)
    requires IsForest(js, rows, ts) && j in FlattenAll(ts)
    ensures j.id in Ids(js) && RowOf(js, j.id) == j
    decreases ts, 0
  {
    var n := |ts| - 1;
    assert IsTree(js, rows[n].id, ts[n]);
    if j in Flatten(ts[n]) {
      TreeHoldsLastRows(js, rows[n].id, ts[n], j);
    } else {
      ForestHoldsLastRows(js, rows[..n], ts[..n], j);
    }
  }

  lemma {:induction false} TreeHoldsLastRows(js: seq<Jurisdiction>, id: string, t: Tree, j: Jurisdiction)
    requires IsTree(js, id, t) && j in Flatten(t)
    ensures j.id in Ids(js) && RowOf(js, j.id) == j
    decreases t, 1
  {
    if j != t.row {
      ForestHoldsLastRows(js, Kids(js, id), t.kids, j);
    }
  }

  // ----- enough for the order not to matter -----

  /** The rows of this id are all equal. */
  predicate OneRow(js: seq<Jurisdiction>, id: string) {
    forall a, b :: a in js && b in js && a.id == id && b.id == id ==> a == b
  }

  /** So are those of every id that occurs in the forest. */
  predicate OneRowThroughout(js: seq<Jurisdiction>, forest: seq<Tree>) {
    forall j :: j in FlattenAll(forest) ==> OneRow(js, j.id)
  }

  lemma WithoutOne<T>(xs: seq<T>, k: nat)
    requires k < |xs|
    ensures multiset(Without(xs, k)) == multiset(xs) - multiset{xs[k]}
  {
    assert xs == xs[..k] + [xs[k]] + xs[k + 1..];
  }

  lemma WithoutFirst<T>(xs: seq<T>, ys: seq<T>, k: nat)
    requires xs != [] && k < |ys| && multiset(xs) == multiset(ys) && ys[k] == xs[0]
    ensures multiset(xs[1..]) == multiset(Without(ys, k))
  {
    WithoutOne(xs, 0);
    WithoutOne(ys, k);
    assert Without(xs, 0) == xs[1..];
  }

  lemma ForestWithout(js: seq<Jurisdiction>, rows: seq<Jurisdiction>, ts: seq<Tree>, k: nat)
    requires IsForest(js, rows, ts) && k < |rows|
    ensures IsForest(js, Without(rows, k), Without(ts, k))
  {
  }

  lemma ThroughoutParts(js: seq<Jurisdiction>, ts: seq<Tree>)
    requires ts != [] && OneRowThroughout(js, ts)
    ensures OneRow(js, ts[0].row.id) && OneRowThroughout(js, ts[0].kids) && OneRowThroughout(js, ts[1..])
  {
    FlattenJoins([ts[0]], ts[1..]);
    assert [ts[0]] + ts[1..] == ts;
    FlattenOne(ts[0]);
    assert forall j :: j in Flatten(ts[0]) || j in FlattenAll(ts[1..]) ==> j in FlattenAll(ts);
    assert ts[0].row in Flatten(ts[0]);
  }

  lemma RowOfOnly(js: seq<Jurisdiction>, other: seq<Jurisdiction>, id: string)
    requires multiset(js) == multiset(other) && OneRow(js, id) && id in Ids(js)
    ensures id in Ids(other) && RowOf(js, id) == RowOf(other, id)
  {
    SameMembers(js, other);
    assert RowOf(js, id) in other;
  }

  /** What hangs under the same rows is the same, up to the order of siblings. */
  lemma {:induction false} SameUnderSameRows(js: seq<Jurisdiction>, other: seq<Jurisdiction>, rows: seq<Jurisdiction>,
                                             rows': seq<Jurisdiction>, ts: seq<Tree>, us: seq<Tree>)
    requires multiset(js) == multiset(other) && multiset(rows) == multiset(rows')
    requires IsForest(js, rows, ts) && IsForest(other, rows', us) && OneRowThroughout(js, ts)
    ensures SameForest(ts, us)
    decreases ts, 0
  {
    if ts == [] {
      assert |rows'| == |multiset(rows')| == |multiset(rows)| == 0;
    } else {
      assert rows[0] in multiset(rows');
      var k :| 0 <= k < |rows'| && rows'[k] == rows[0];
      ThroughoutParts(js, ts);
      assert IsTree(js, rows[0].id, ts[0]) && IsTree(other, rows'[k].id, us[k]);
      SameUnderSameRow(js, other, rows[0].id, ts[0], us[k]);
      WithoutFirst(rows, rows', k);
      ForestWithout(js, rows, ts, 0);
      assert Without(rows, 0) == rows[1..] && Without(ts, 0) == ts[1..];
      ForestWithout(other, rows', us, k);
      SameUnderSameRows(js, other, rows[1..], Without(rows', k), ts[1..], Without(us, k));
    }
  }

  lemma {:induction false} SameUnderSameRow(js: seq<Jurisdiction>, other: seq<Jurisdiction>, id: string, t: Tree, u: Tree)
    requires multiset(js) == multiset(other) && IsTree(js, id, t) && IsTree(other, id, u)
    requires OneRow(js, id) && OneRowThroughout(js, t.kids)
    ensures SameTree(t, u)
    decreases t, 1
  {
    RowOfOnly(js, other, id);
    FiltersIgnoreInputOrder(js, other);
    SameUnderSameRows(js, other, Kids(js, id), Kids(other, id), t.kids, u.kids);
  }

  // ----- any order gives a forest -----

  /** In another order of the rows the same things hang together, whichever row a node then carries. */
  lemma {:induction false} Rebuilt(js: seq<Jurisdiction>, other: seq<Jurisdiction>, rows: seq<Jurisdiction>,
                                   rows': seq<Jurisdiction>, ts: seq<Tree>) returns (us: seq<Tree>)
    requires multiset(js) == multiset(other) && multiset(rows) == multiset(rows') && IsForest(js, rows, ts)
    ensures IsForest(other, rows', us)
    decreases ts, 0
  {
    if rows' == [] {
      us := [];
    } else {
      assert rows'[0] in multiset(rows);
      var k :| 0 <= k < |rows| && rows[k] == rows'[0];
      assert IsTree(js, rows[k].id, ts[k]);
      var u := RebuiltTree(js, other, rows[k].id, ts[k]);
      WithoutFirst(rows', rows, k);
      ForestWithout(js, rows, ts, k);
      var rest := Rebuilt(js, other, Without(rows, k), rows'[1..], Without(ts, k));
      us := [u] + rest;
      ForestCons(other, rows'[0], rows'[1..], u, rest);
      assert rows' == [rows'[0]] + rows'[1..];
    }
  }

  lemma ForestCons(js: seq<Jurisdiction>, r: Jurisdiction, rows: seq<Jurisdiction>, t: Tree, ts: seq<Tree>)
    requires IsTree(js, r.id, t) && IsForest(js, rows, ts)
    ensures IsForest(js, [r] + rows, [t] + ts)
  {
  }

  lemma {:induction false} RebuiltTree(js: seq<Jurisdiction>, other: seq<Jurisdiction>, id: string, t: Tree) returns (u: Tree)
    requires multiset(js) == multiset(other) && IsTree(js, id, t)
    ensures IsTree(other, id, u)
    decreases t, 1
  {
    FiltersIgnoreInputOrder(js, other);
    var kids := Rebuilt(js, other, Kids(js, id), Kids(other, id), t.kids);
    u := Tree(RowOf(other, id), kids);
  }

  // ----- the exact condition -----

  function MovedLast(js: seq<Jurisdiction>, i: nat): seq<Jurisdiction>
    requires i < |js|
  {
    Without(js, i) + [js[i]]
  }

  lemma MovedLastIsTheNode(js: seq<Jurisdiction>, i: nat)
    requires i < |js|
    ensures multiset(js) == multiset(MovedLast(js, i))
    ensures js[i].id in Ids(js) && js[i].id in Ids(MovedLast(js, i)) && RowOf(MovedLast(js, i), js[i].id) == js[i]
  {
    var other := MovedLast(js, i);
    assert js == js[..i] + [js[i]] + js[i + 1..];
    assert other[|other| - 1] == js[i] && js[i] in other && js[i] in js;
  }

  /** Every order of the rows gives this forest, up to the order of siblings and roots. */
  ghost predicate OrderIgnored(js: seq<Jurisdiction>, forest: seq<Tree>) {
    forall other, forest' :: multiset(other) == multiset(js) && ForestOf(other, forest') ==> SameForest(forest, forest')
  }

  /** A row that another order does not keep as the last of its id is in that order's forest no more. */
  lemma OrderShows(js: seq<Jurisdiction>, forest: seq<Tree>, other: seq<Jurisdiction>, forest': seq<Tree>, j: Jurisdiction)
    requires multiset(js) == multiset(other) && ForestOf(js, forest) && ForestOf(other, forest')
    requires j in FlattenAll(forest) && j.id in Ids(other) && RowOf(other, j.id) != j
    ensures !SameForest(forest, forest')
  {
    if SameForest(forest, forest') {
      SameForestSameRows(forest, forest');
      assert j in multiset(FlattenAll(forest'));
      ForestHoldsLastRows(other, Roots(other, Ids(other)), forest', j);
    }
  }

  /** If an id in the forest has two different rows, some order gives another forest. */
  lemma SomeOrderShows(js: seq<Jurisdiction>, forest: seq<Tree>, j: Jurisdiction) returns (other: seq<Jurisdiction>, forest': seq<Tree>)
    requires ForestOf(js, forest) && j in FlattenAll(forest) && !OneRow(js, j.id)
    ensures multiset(other) == multiset(js) && ForestOf(other, forest') && !SameForest(forest, forest')
  {
    ForestHoldsLastRows(js, Roots(js, Ids(js)), forest, j);
    var y :| y in js && y.id == j.id && y != j;
    var k :| 0 <= k < |js| && js[k] == y;
    other := MovedLast(js, k);
    MovedLastIsTheNode(js, k);
    FiltersIgnoreInputOrder(js, other);
    forest' := Rebuilt(js, other, Roots(js, Ids(js)), Roots(other, Ids(other)), forest);
    OrderShows(js, forest, other, forest', j);
  }

  /** The order of the rows does not matter for the forest if and only if every id that occurs in it has one row. */
  lemma OrderIgnoredIffOneRowThroughout(js: seq<Jurisdiction>, forest: seq<Tree>)
    requires ForestOf(js, forest)
    ensures OrderIgnored(js, forest) <==> OneRowThroughout(js, forest)
  {
    if OneRowThroughout(js, forest) {
      forall other, forest' | multiset(other) == multiset(js) && ForestOf(other, forest')
        ensures SameForest(forest, forest')
      {
        FiltersIgnoreInputOrder(js, other);
        SameUnderSameRows(js, other, Roots(js, Ids(js)), Roots(other, Ids(other)), forest, forest');
      }
    }
    if OrderIgnored(js, forest) {
      forall j | j in FlattenAll(forest)
        ensures OneRow(js, j.id)
      {
        if !OneRow(js, j.id) {
          var other, forest' := SomeOrderShows(js, forest, j);
        }
      }
    }
  }

  /**
   Of the nodes: two builds from the same rows in different orders, one row for every id in the first forest,
   are read back as forests equal up to the order of siblings and roots.
   */
  lemma ForestIgnoresInputOrder(js: seq<Jurisdiction>, nodes: map<string, Node>, roots: seq<Node>, forest: seq<Tree>,
                                other: seq<Jurisdiction>, nodes': map<string, Node>, roots': seq<Node>, forest': seq<Tree>)
    requires multiset(js) == multiset(other) && OneRowThroughout(js, forest)
    requires Built(js, nodes) && AreNodesOf(nodes, Roots(js, Ids(js)), roots) && DenotesAll(roots, forest, nodes.Values)
    requires Built(other, nodes') && AreNodesOf(nodes', Roots(other, Ids(other)), roots') && DenotesAll(roots', forest', nodes'.Values)
    ensures SameForest(forest, forest')
  {
    BuildIsReadAsForest(js, nodes, roots, forest);
    BuildIsReadAsForest(other, nodes', roots', forest');
    OrderIgnoredIffOneRowThroughout(js, forest);
  }

  /** ... and are not, if the second carries another row for an id of the first forest. */
  lemma BuildsShowTheOrder(js: seq<Jurisdiction>, nodes: map<string, Node>, roots: seq<Node>, forest: seq<Tree>,
                           other: seq<Jurisdiction>, nodes': map<string, Node>, roots': seq<Node>, forest': seq<Tree>, j: Jurisdiction)
    requires multiset(js) == multiset(other) && j in FlattenAll(forest) && j.id in nodes' && nodes'[j.id].row != j
    requires Built(js, nodes) && AreNodesOf(nodes, Roots(js, Ids(js)), roots) && DenotesAll(roots, forest, nodes.Values)
    requires Built(other, nodes') && AreNodesOf(nodes', Roots(other, Ids(other)), roots') && DenotesAll(roots', forest', nodes'.Values)
    ensures !SameForest(forest, forest')
  {
    BuildIsReadAsForest(js, nodes, roots, forest);
    BuildIsReadAsForest(other, nodes', roots', forest');
    OrderShows(js, forest, other, forest', j);
  }

  // ----- rows that share an id -----

  /** Whatever the order of the rows, each id's node carries the same one. */
  ghost predicate NodesIgnoreOrder(js: seq<Jurisdiction>) {
    forall other, id :: multiset(js) == multiset(other) && id in Ids(js) && id in Ids(other) ==> RowOf(other, id) == RowOf(js, id)
  }

  /** That is so exactly when no two different rows share an id: otherwise the last of them wins. */
  lemma NodesIgnoreOrderIffOneRowPerId(js: seq<Jurisdiction>)
    ensures NodesIgnoreOrder(js) <==> OneRowPerId(js)
  {
    if OneRowPerId(js) {
      forall other, id | multiset(js) == multiset(other) && id in Ids(js) && id in Ids(other)
        ensures RowOf(other, id) == RowOf(js, id)
      {
        SameMembers(js, other);
        RowOfItsId(js, RowOf(other, id));
      }
    }
    if NodesIgnoreOrder(js) {
      forall i, k | 0 <= i < |js| && 0 <= k < |js| && js[i].id == js[k].id
        ensures js[i] == js[k]
      {
        LastWins(js, i);
        LastWins(js, k);
      }
    }
  }

  lemma LastWins(js: seq<Jurisdiction>, i: nat)
    requires NodesIgnoreOrder(js) && i < |js|
    ensures js[i].id in Ids(js) && RowOf(js, js[i].id) == js[i]
  {
    MovedLastIsTheNode(js, i);
  }

  /** Two roots that share an id: the node carries the later of the rows, and hangs in the forest twice. */
  lemma TwoRowsOneId(x: Jurisdiction, y: Jurisdiction, nodes: map<string, Node>, roots: seq<Node>, forest: seq<Tree>)
    requires x.id == y.id && x.parentId == y.parentId == None
    requires Built([x, y], nodes) && AreNodesOf(nodes, Roots([x, y], Ids([x, y])), roots) && DenotesAll(roots, forest, nodes.Values)
    ensures |forest| == 2 && forest[0].row == forest[1].row == y
  {
    var js := [x, y];
    assert js[..1] == [x] && [x][..0] == [];
    assert Roots([x], Ids(js)) == [x];
    assert Roots(js, Ids(js)) == [x] + [y];
    assert x in js && y in js && RowOf(js, y.id) == y;
    assert Denotes(roots[0], forest[0], nodes.Values) && Denotes(roots[1], forest[1], nodes.Values);
  }

  /** So for them the order matters: each time the last row appears twice, the other not at all. */
  lemma DuplicateIdsDependOnOrder(x: Jurisdiction, y: Jurisdiction, nodes: map<string, Node>, roots: seq<Node>, forest: seq<Tree>,
                                  nodes': map<string, Node>, roots': seq<Node>, forest': seq<Tree>)
    requires x.id == y.id && x != y && x.parentId == y.parentId == None
    requires Built([x, y], nodes) && AreNodesOf(nodes, Roots([x, y], Ids([x, y])), roots) && DenotesAll(roots, forest, nodes.Values)
    requires Built([y, x], nodes') && AreNodesOf(nodes', Roots([y, x], Ids([y, x])), roots') && DenotesAll(roots', forest', nodes'.Values)
    ensures !SameForest(forest, forest')
  {
    TwoRowsOneId(x, y, nodes, roots, forest);
    TwoRowsOneId(y, x, nodes', roots', forest');
  }
}
