/**
 What the assembled nodes amount to as a forest: which rows it contains, and how often. The heap the
 builder leaves behind is read back as a tree value, which is finite by construction.
 */
module JurisdictionForest {
  import opened Wrappers
  import opened JurisdictionRows
  import opened JurisdictionTree

  datatype Tree = Tree(row: Jurisdiction, kids: seq<Tree>)

  function Flatten(t: Tree): seq<Jurisdiction> {
    [t.row] + FlattenAll(t.kids)
  }

  function FlattenAll(ts: seq<Tree>): seq<Jurisdiction> {
    if ts == [] then [] else FlattenAll(ts[..|ts| - 1]) + Flatten(ts[|ts| - 1])
  }

  /** The node and everything hanging under it is the tree value t. */
  ghost predicate Denotes(n: Node, t: Tree, heap: set<Node>)
    reads heap
    decreases t, 1
  {
    n in heap && n.row == t.row && DenotesAll(n.children, t.kids, heap)
  }

  ghost predicate DenotesAll(ns: seq<Node>, ts: seq<Tree>, heap: set<Node>)
    reads heap
    decreases ts, 0
  {
    |ns| == |ts| && forall i :: 0 <= i < |ts| ==> Denotes(ns[i], ts[i], heap)
  }

  /** The forest holds the row j once if j is below one of the given rows, and not at all otherwise. */
  ghost predicate OnceIfBelow(js: seq<Jurisdiction>, rows: seq<Jurisdiction>, ts: seq<Tree>) {
    forall j :: multiset(FlattenAll(ts))[j] ==
                if j in js && (exists c :: c in rows && Below(js, j.id, c.id)) then 1 else 0
  }

  ghost predicate TreeOnceIfBelow(js: seq<Jurisdiction>, id: string, t: Tree) {
    forall j :: multiset(Flatten(t))[j] == if j in js && Below(js, j.id, id) then 1 else 0
  }

  /** No row is below two of the given ones. */
  ghost predicate Separate(js: seq<Jurisdiction>, rows: seq<Jurisdiction>) {
    forall x, i, k :: x in Ids(js) && 0 <= i < k < |rows| && Below(js, x, rows[i].id) ==> !Below(js, x, rows[k].id)
  }

  /** What the builder guarantees about its nodes. */
  ghost predicate Built(js: seq<Jurisdiction>, nodes: map<string, Node>)
    reads nodes.Values
  {
    OneNodePerId(js, nodes) && ChildrenHung(js, nodes)
  }

  lemma {:induction false} DistinctSublist(js: seq<Jurisdiction>, parent: string)
    requires DistinctIds(js)
    ensures DistinctIds(Kids(js, parent))
  {
    if js != [] {
      var front := js[..|js| - 1];
      DistinctSublist(front, parent);
      forall i | 0 <= i < |Kids(front, parent)|
        ensures Kids(front, parent)[i].id != js[|js| - 1].id
      {
        KidsExact(front, parent, Kids(front, parent)[i]);
      }
    }
  }

  lemma {:induction false} DistinctRoots(js: seq<Jurisdiction>, ids: set<string>)
    requires DistinctIds(js)
    ensures DistinctIds(Roots(js, ids))
  {
    if js != [] {
      var front := js[..|js| - 1];
      DistinctRoots(front, ids);
      forall i | 0 <= i < |Roots(front, ids)|
        ensures Roots(front, ids)[i].id != js[|js| - 1].id
      {
        RootsExact(front, ids, Roots(front, ids)[i]);
      }
    }
  }

  lemma KidsSeparate(js: seq<Jurisdiction>, id: string)
    requires DistinctIds(js) && id in Ids(js) && Rooted(js, id)
    ensures Separate(js, Kids(js, id))
  {
    DistinctSublist(js, id);
    var rows := Kids(js, id);
    forall x, i, k | x in Ids(js) && 0 <= i < k < |rows| && Below(js, x, rows[i].id)
      ensures !Below(js, x, rows[k].id)
    {
      if Below(js, x, rows[k].id) {
        BelowOneKidOnly(js, x, id, rows[i], rows[k]);
      }
    }
  }

  /** A root is where a chain ends, so nobody is below two of them. */
  lemma RootsSeparate(js: seq<Jurisdiction>)
    requires DistinctIds(js)
    ensures Separate(js, Roots(js, Ids(js)))
  {
    DistinctRoots(js, Ids(js));
    var rows := Roots(js, Ids(js));
    forall x, i, k | x in Ids(js) && 0 <= i < k < |rows| && Below(js, x, rows[i].id)
      ensures !Below(js, x, rows[k].id)
    {
      if Below(js, x, rows[k].id) {
        var a: nat :| Up(js, x, a) == Some(rows[i].id);
        var b: nat :| Up(js, x, b) == Some(rows[k].id);
        RootEnds(js, x, rows[i], a);
        RootEnds(js, x, rows[k], b);
        EndsOnce(js, x, a, b);
      }
    }
  }

  lemma RootEnds(js: seq<Jurisdiction>, x: string, r: Jurisdiction, k: nat)
    requires DistinctIds(js) && x in Ids(js) && r in Roots(js, Ids(js)) && Up(js, x, k) == Some(r.id)
    ensures Up(js, x, k + 1) == None
  {
    RootsExact(js, Ids(js), r);
    RowOfIsTheRow(js, r);
  }

  lemma EndsOnce(js: seq<Jurisdiction>, x: string, a: nat, b: nat)
    requires x in Ids(js) && Up(js, x, a).Some? && Up(js, x, b).Some?
    requires Up(js, x, a + 1) == None && Up(js, x, b + 1) == None
    ensures a == b
  {
    if a < b {
      UpAdds(js, x, a + 1, b - (a + 1));
    } else if b < a {
      UpAdds(js, x, b + 1, a - (b + 1));
    }
  }

  /** One more tree in the forest. */
  lemma OnceExtends(js: seq<Jurisdiction>, rows: seq<Jurisdiction>, ts: seq<Tree>, c: Jurisdiction, t: Tree)
    requires OnceIfBelow(js, rows, ts) && TreeOnceIfBelow(js, c.id, t) && Separate(js, rows + [c])
    ensures OnceIfBelow(js, rows + [c], ts + [t])
  {
    assert (ts + [t])[..|ts|] == ts;
    var more := rows + [c];
    forall j
      ensures multiset(FlattenAll(ts + [t]))[j] ==
              if j in js && (exists d :: d in more && Below(js, j.id, d.id)) then 1 else 0
    {
      assert multiset(FlattenAll(ts + [t]))[j] == multiset(FlattenAll(ts))[j] + multiset(Flatten(t))[j];
      if j in js {
        if exists d :: d in rows && Below(js, j.id, d.id) {
          var d :| d in rows && Below(js, j.id, d.id);
          var i :| 0 <= i < |rows| && rows[i] == d;
          assert more[i] == d && more[|rows|] == c;
          assert d in more;
        }
        if Below(js, j.id, c.id) {
          assert c in more;
        }
      }
    }
  }

  /** Ids on the way up from `id`: a tree under a rooted id cannot contain them again. */
  ghost predicate IsAbove(js: seq<Jurisdiction>, id: string, above: set<string>)
    requires id in Ids(js)
  {
    forall a :: a in above ==> exists k: nat :: Up(js, id, k) == Some(a)
  }

  lemma KidIsBelow(js: seq<Jurisdiction>, id: string, c: Jurisdiction)
    requires DistinctIds(js) && id in Ids(js) && Rooted(js, id) && c in Kids(js, id)
    ensures c.id in Ids(js) && Up(js, c.id, 1) == Some(id) && Rooted(js, c.id)
  {
    KidsExact(js, id, c);
    RowOfIsTheRow(js, c);
    assert Up(js, c.id, 0) == Some(c.id) && Up(js, c.id, 1) == Some(id);
    RootedUpwards(js, c.id, id, 1);
  }

  lemma AboveGrows(js: seq<Jurisdiction>, id: string, above: set<string>, c: string)
    requires id in Ids(js) && Rooted(js, id) && IsAbove(js, id, above)
    requires c in Ids(js) && Up(js, c, 1) == Some(id)
    ensures c !in above && IsAbove(js, c, above + {c})
    ensures Ids(js) - (above + {c}) < Ids(js) - above
  {
    forall a | a in above
      ensures exists k: nat :: Up(js, c, k) == Some(a)
    {
      var k: nat :| Up(js, id, k) == Some(a);
      UpAdds(js, c, 1, k);
      assert Up(js, c, 1 + k) == Some(a);
    }
    assert Up(js, c, 0) == Some(c);
    if c in above {
      var k: nat :| Up(js, id, k) == Some(c);
      UpAdds(js, id, k, 1);
      RootedHasNoLoop(js, id, k + 1);
    }
    assert c in Ids(js) - above;
  }

  lemma WithItsKids(js: seq<Jurisdiction>, id: string, t: Tree)
    requires DistinctIds(js) && id in Ids(js) && Rooted(js, id)
    requires t.row == RowOf(js, id) && OnceIfBelow(js, Kids(js, id), t.kids)
    ensures TreeOnceIfBelow(js, id, t)
  {
    forall j
      ensures multiset(Flatten(t))[j] == if j in js && Below(js, j.id, id) then 1 else 0
    {
      assert multiset(Flatten(t))[j] == (if j == t.row then 1 else 0) + multiset(FlattenAll(t.kids))[j];
      if j in js {
        BelowThroughAKid(js, j.id, id);
        RowOfIsTheRow(js, j);
        if j.id == id && exists c :: c in Kids(js, id) && Below(js, j.id, c.id) {
          var c :| c in Kids(js, id) && Below(js, j.id, c.id);
          var k: nat :| Up(js, id, k) == Some(c.id);
          AboveAKid(js, id, id, c, k);
          RootedHasNoLoop(js, id, k + 1);
        }
      }
    }
  }

  lemma SeparatePrefix(js: seq<Jurisdiction>, rows: seq<Jurisdiction>, n: nat)
    requires Separate(js, rows) && n <= |rows|
    ensures Separate(js, rows[..n])
  {
  }

  /** The nodes of the rows, each with everything under it, are the tree values ts. */
  ghost predicate DenoteRows(nodes: map<string, Node>, rows: seq<Jurisdiction>, ts: seq<Tree>)
    reads nodes.Values
  {
    |ts| == |rows| && forall i :: 0 <= i < |rows| ==> rows[i].id in nodes && Denotes(nodes[rows[i].id], ts[i], nodes.Values)
  }

  /** The heap under a node, read back, and how often it holds each row. */
  ghost predicate ReadsTree(js: seq<Jurisdiction>, nodes: map<string, Node>, id: string, t: Tree)
    reads nodes.Values
  {
    id in nodes && Denotes(nodes[id], t, nodes.Values) && TreeOnceIfBelow(js, id, t)
  }

  ghost predicate ReadsRows(js: seq<Jurisdiction>, nodes: map<string, Node>, rows: seq<Jurisdiction>, ts: seq<Tree>)
    reads nodes.Values
  {
    DenoteRows(nodes, rows, ts) && OnceIfBelow(js, rows, ts)
  }

  lemma ReadOneMore(js: seq<Jurisdiction>, nodes: map<string, Node>, rows: seq<Jurisdiction>, n: nat, ts: seq<Tree>, t: Tree)
    requires n < |rows| && Separate(js, rows)
    requires ReadsRows(js, nodes, rows[..n], ts) && ReadsTree(js, nodes, rows[n].id, t)
    ensures ReadsRows(js, nodes, rows[..n + 1], ts + [t])
  {
    assert rows[..n + 1] == rows[..n] + [rows[n]];
    SeparatePrefix(js, rows, n + 1);
    OnceExtends(js, rows[..n], ts, rows[n], t);
    DenoteOneMore(nodes, rows[..n], rows[n], ts, t);
  }

  lemma DenoteOneMore(nodes: map<string, Node>, rows: seq<Jurisdiction>, r: Jurisdiction, ts: seq<Tree>, t: Tree)
    requires DenoteRows(nodes, rows, ts) && r.id in nodes && Denotes(nodes[r.id], t, nodes.Values)
    ensures DenoteRows(nodes, rows + [r], ts + [t])
  {
    forall i | 0 <= i < |rows + [r]|
      ensures (rows + [r])[i].id in nodes && Denotes(nodes[(rows + [r])[i].id], (ts + [t])[i], nodes.Values)
    {
      if i < |rows| {
        assert (rows + [r])[i] == rows[i] && (ts + [t])[i] == ts[i];
      }
    }
  }

  lemma ReadNode(js: seq<Jurisdiction>, nodes: map<string, Node>, id: string, kids: seq<Tree>)
    requires DistinctIds(js) && Built(js, nodes) && id in Ids(js) && Rooted(js, id)
    requires ReadsRows(js, nodes, Kids(js, id), kids)
    ensures ReadsTree(js, nodes, id, Tree(RowOf(js, id), kids))
  {
    WithItsKids(js, id, Tree(RowOf(js, id), kids));
    assert AreNodesOf(nodes, Kids(js, id), nodes[id].children);
    assert DenotesAll(nodes[id].children, kids, nodes.Values);
  }

  /** The heap under the node can be read back. */
  ghost predicate Readable(js: seq<Jurisdiction>, nodes: map<string, Node>, id: string)
    reads nodes.Values
  {
    exists t :: ReadsTree(js, nodes, id, t)
  }

  ghost predicate AllReadable(js: seq<Jurisdiction>, nodes: map<string, Node>, rows: seq<Jurisdiction>)
    reads nodes.Values
  {
    forall i :: 0 <= i < |rows| ==> Readable(js, nodes, rows[i].id)
  }

  /** The trees of the first n rows. */
  lemma {:induction false} ReadFirst(js: seq<Jurisdiction>, nodes: map<string, Node>, rows: seq<Jurisdiction>, n: nat)
    returns (ts: seq<Tree>)
    requires Separate(js, rows) && AllReadable(js, nodes, rows) && n <= |rows|
    ensures ReadsRows(js, nodes, rows[..n], ts)
  {
    if n == 0 {
      ts := [];
    } else {
      ts := ReadFirst(js, nodes, rows, n - 1);
      assert Readable(js, nodes, rows[n - 1].id);
      var t :| ReadsTree(js, nodes, rows[n - 1].id, t);
      ReadOneMore(js, nodes, rows, n - 1, ts, t);
      ts := ts + [t];
    }
  }

  lemma ReadAll(js: seq<Jurisdiction>, nodes: map<string, Node>, rows: seq<Jurisdiction>) returns (ts: seq<Tree>)
    requires Separate(js, rows) && AllReadable(js, nodes, rows)
    ensures ReadsRows(js, nodes, rows, ts)
  {
    ts := ReadFirst(js, nodes, rows, |rows|);
    assert rows[..|rows|] == rows;
  }

  lemma KidGoesDown(js: seq<Jurisdiction>, id: string, above: set<string>, c: Jurisdiction)
    requires DistinctIds(js) && id in Ids(js) && Rooted(js, id) && IsAbove(js, id, above) && c in Kids(js, id)
    ensures c.id in Ids(js) && Rooted(js, c.id) && IsAbove(js, c.id, above + {c.id})
    ensures Ids(js) - (above + {c.id}) < Ids(js) - above
  {
    KidIsBelow(js, id, c);
    AboveGrows(js, id, above, c.id);
  }

  /** Everything under a rooted id can be read back, its kids first. */
  lemma {:induction false} RootedIsReadable(js: seq<Jurisdiction>, nodes: map<string, Node>, id: string, above: set<string>)
    requires DistinctIds(js) && Built(js, nodes)
    requires id in Ids(js) && Rooted(js, id) && IsAbove(js, id, above)
    ensures Readable(js, nodes, id)
    decreases Ids(js) - above
  {
    var rows := Kids(js, id);
    forall i | 0 <= i < |rows|
      ensures Readable(js, nodes, rows[i].id)
    {
      KidGoesDown(js, id, above, rows[i]);
      RootedIsReadable(js, nodes, rows[i].id, above + {rows[i].id});
    }
    KidsSeparate(js, id);
    var kids := ReadAll(js, nodes, rows);
    ReadNode(js, nodes, id, kids);
  }

  lemma RootIsRooted(js: seq<Jurisdiction>, r: Jurisdiction)
    requires DistinctIds(js) && r in Roots(js, Ids(js))
    ensures r.id in Ids(js) && Rooted(js, r.id) && IsAbove(js, r.id, {r.id})
  {
    RootsExact(js, Ids(js), r);
    assert Up(js, r.id, 0) == Some(r.id);
    RootEnds(js, r.id, r, 0);
  }

  lemma RootsAreReadable(js: seq<Jurisdiction>, nodes: map<string, Node>)
    requires DistinctIds(js) && Built(js, nodes)
    ensures AllReadable(js, nodes, Roots(js, Ids(js)))
  {
    var rows := Roots(js, Ids(js));
    forall i | 0 <= i < |rows|
      ensures Readable(js, nodes, rows[i].id)
    {
      RootIsRooted(js, rows[i]);
      RootedIsReadable(js, nodes, rows[i].id, {rows[i].id});
    }
  }

  /** A chain that ends ends at a root. */
  lemma {:induction false} RootedIsBelowARoot(js: seq<Jurisdiction>, x: string, k: nat) returns (r: Jurisdiction)
    requires DistinctIds(js) && x in Ids(js) && Up(js, x, k) == None
    ensures r in Roots(js, Ids(js)) && Below(js, x, r.id)
    decreases k
  {
    if Up(js, x, k - 1) == None {
      r := RootedIsBelowARoot(js, x, k - 1);
    } else {
      r := RowOf(js, Up(js, x, k - 1).value);
      RootsExact(js, Ids(js), r);
      assert Up(js, x, k - 1) == Some(r.id);
    }
  }

  lemma BelowARootIffRooted(js: seq<Jurisdiction>, x: string)
    requires DistinctIds(js) && x in Ids(js)
    ensures (exists r :: r in Roots(js, Ids(js)) && Below(js, x, r.id)) <==> Rooted(js, x)
  {
    if exists r :: r in Roots(js, Ids(js)) && Below(js, x, r.id) {
      var r :| r in Roots(js, Ids(js)) && Below(js, x, r.id);
      var k: nat :| Up(js, x, k) == Some(r.id);
      RootEnds(js, x, r, k);
    }
    if Rooted(js, x) {
      var k: nat :| Up(js, x, k) == None;
      var r := RootedIsBelowARoot(js, x, k);
    }
  }

  /**
   Reading back what the builder made of a list with distinct ids: the forest holds every row whose
   chain of parents ends exactly once, and no row on or under a cycle.
   */
  lemma ForestHoldsTheRootedRows(js: seq<Jurisdiction>, roots: seq<Node>, nodes: map<string, Node>) returns (forest: seq<Tree>)
    requires DistinctIds(js) && Built(js, nodes) && AreNodesOf(nodes, Roots(js, Ids(js)), roots)
    ensures DenotesAll(roots, forest, nodes.Values)
    ensures forall j :: multiset(FlattenAll(forest))[j] == if j in js && Rooted(js, j.id) then 1 else 0
  {
    var rows := Roots(js, Ids(js));
    RootsSeparate(js);
    RootsAreReadable(js, nodes);
    forest := ReadAll(js, nodes, rows);
    forall j
      ensures multiset(FlattenAll(forest))[j] == if j in js && Rooted(js, j.id) then 1 else 0
    {
      if j in js {
        BelowARootIffRooted(js, j.id);
      }
    }
  }

  lemma {:induction false} DistinctRowsOnce(js: seq<Jurisdiction>, j: Jurisdiction)
    requires DistinctIds(js)
    ensures multiset(js)[j] == if j in js then 1 else 0
  {
    if js != [] {
      DistinctRowsOnce(js[..|js| - 1], j);
      assert js == js[..|js| - 1] + [js[|js| - 1]];
    }
  }

  lemma OnceEachIsAll(js: seq<Jurisdiction>, rows: seq<Jurisdiction>)
    requires DistinctIds(js)
    requires forall j :: multiset(rows)[j] == if j in js && Rooted(js, j.id) then 1 else 0
    ensures multiset(rows) == multiset(js) <==> forall id :: id in Ids(js) ==> Rooted(js, id)
  {
    forall j
      ensures multiset(js)[j] == if j in js then 1 else 0
    {
      DistinctRowsOnce(js, j);
    }
    if multiset(rows) == multiset(js) {
      forall id | id in Ids(js)
        ensures Rooted(js, id)
      {
        var j := RowOf(js, id);
        assert multiset(rows)[j] == multiset(js)[j] == 1;
      }
    }
    if forall id :: id in Ids(js) ==> Rooted(js, id) {
      assert forall j :: multiset(rows)[j] == multiset(js)[j];
    }
  }

  /**
   With distinct ids, nothing is lost or duplicated exactly when nobody is its own ancestor: the forest
   is then a rearrangement of the input, and otherwise the rows on and under the cycles are missing.
   */
  lemma NothingLostIffAcyclic(js: seq<Jurisdiction>, roots: seq<Node>, nodes: map<string, Node>) returns (forest: seq<Tree>)
    requires DistinctIds(js) && Built(js, nodes) && AreNodesOf(nodes, Roots(js, Ids(js)), roots)
    ensures DenotesAll(roots, forest, nodes.Values)
    ensures multiset(FlattenAll(forest)) == multiset(js) <==> Acyclic(js)
  {
    forest := ForestHoldsTheRootedRows(js, roots, nodes);
    AllRootedIffAcyclic(js);
    OnceEachIsAll(js, FlattenAll(forest));
  }
}
