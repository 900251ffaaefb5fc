/**
 Assembling the jurisdiction tree (apps/api-ts/src/jurisdiction/jurisdiction.service.ts): every row gets a
 node in a shared map, and a second pass hangs each node under its parent's node or among the roots.
 */
module JurisdictionTree {
  import opened Wrappers
  import opened JurisdictionRows

  class Node {
    const row: Jurisdiction
    var children: seq<Node>

    constructor (row: Jurisdiction)
      ensures this.row == row && children == []
    {
      this.row := row;
      children := [];
    }
  }

  /** `ns` are the nodes of the given rows, in their order. */
  ghost predicate AreNodesOf(nodes: map<string, Node>, rows: seq<Jurisdiction>, ns: seq<Node>) {
    |ns| == |rows| && forall i :: 0 <= i < |rows| ==> rows[i].id in nodes && ns[i] == nodes[rows[i].id]
  }

  /** One node per id, no two ids sharing a node, each carrying the last row of its id. */
  ghost predicate OneNodePerId(js: seq<Jurisdiction>, nodes: map<string, Node>) {
    && nodes.Keys == Ids(js)
    && (forall id :: id in nodes ==> nodes[id].row == RowOf(js, id))
    && OneIdPerNode(nodes)
  }

  /** Every node's children are the nodes of the rows that name it, in input order. */
  ghost predicate ChildrenHung(js: seq<Jurisdiction>, nodes: map<string, Node>)
    reads nodes.Values
  {
    forall id :: id in nodes ==> AreNodesOf(nodes, Kids(js, id), nodes[id].children)
  }

  /** One more row is one more kid of its parent and of nobody else. */
  lemma KidsOfOneMore(js: seq<Jurisdiction>, j: Jurisdiction, id: string)
    ensures Kids(js + [j], id) == Kids(js, id) + if j.parentId == Some(id) then [j] else []
  {
    assert (js + [j])[..|js|] == js;
  }

  lemma RootsOfOneMore(js: seq<Jurisdiction>, j: Jurisdiction, ids: set<string>)
    ensures Roots(js + [j], ids) == Roots(js, ids) + if j.parentId.Some? && j.parentId.value in ids then [] else [j]
  {
    assert (js + [j])[..|js|] == js;
  }

  method MakeNodes(js: seq<Jurisdiction>) returns (nodes: map<string, Node>)
    ensures OneNodePerId(js, nodes)
    ensures forall id :: id in nodes ==> fresh(nodes[id]) && nodes[id].children == []
  {
    nodes := map[];
    for i := 0 to |js|
      invariant OneNodePerId(js[..i], nodes)
      invariant forall id :: id in nodes ==> fresh(nodes[id]) && nodes[id].children == []
    {
      var node := new Node(js[i]);
      assert js[..i + 1] == js[..i] + [js[i]] && js[..i + 1][..i] == js[..i];
      nodes := nodes[js[i].id := node];
    }
    assert js[..|js|] == js;
  }

  /** What the second pass has done once it is through the given rows. */
  ghost predicate HungSoFar(before: seq<Jurisdiction>, nodes: map<string, Node>, roots: seq<Node>)
    reads nodes.Values
  {
    AreNodesOf(nodes, Roots(before, nodes.Keys), roots) && ChildrenHung(before, nodes)
  }

  predicate OneIdPerNode(nodes: map<string, Node>) {
    forall a, b :: a in nodes && b in nodes && a != b ==> nodes[a] != nodes[b]
  }

  /** One row of the second pass: under its parent's node, or among the roots. */
  method HangOne(ghost before: seq<Jurisdiction>, j: Jurisdiction, nodes: map<string, Node>, roots: seq<Node>)
    returns (roots': seq<Node>)
    requires j.id in nodes && OneIdPerNode(nodes) && HungSoFar(before, nodes, roots)
    modifies nodes.Values
    ensures HungSoFar(before + [j], nodes, roots')
  {
    RootsOfOneMore(before, j, nodes.Keys);
    roots' := roots;
    if j.parentId.Some? && j.parentId.value in nodes {
      HangUnder(before, j, nodes, j.parentId.value);
    } else {
      RootHangsNowhere(before, j, nodes);
      roots' := roots + [nodes[j.id]];
    }
  }

  /** The second pass over the input. */
  method HangAll(js: seq<Jurisdiction>, nodes: map<string, Node>) returns (roots: seq<Node>)
    requires Ids(js) <= nodes.Keys && OneIdPerNode(nodes)
    requires forall id :: id in nodes ==> nodes[id].children == []
    modifies nodes.Values
    ensures HungSoFar(js, nodes, roots)
  {
    roots := [];
    for i := 0 to |js|
      invariant HungSoFar(js[..i], nodes, roots)
    {
      roots := HangOne(js[..i], js[i], nodes, roots);
      assert js[..i + 1] == js[..i] + [js[i]];
    }
    assert js[..|js|] == js;
  }

  /**
   Any list, duplicate ids and cycles included: each node ends up under its parent's node when that is in
   the map and among the roots otherwise, siblings and roots in input order.
   */
  method BuildJurisdictionTree(js: seq<Jurisdiction>) returns (roots: seq<Node>, ghost nodes: map<string, Node>)
    ensures OneNodePerId(js, nodes)
    ensures forall id :: id in nodes ==> fresh(nodes[id])
    ensures AreNodesOf(nodes, Roots(js, Ids(js)), roots)
    ensures ChildrenHung(js, nodes)
  {
    var m := MakeNodes(js);
    nodes := m;
    roots := HangAll(js, m);
  }

  lemma RootHangsNowhere(before: seq<Jurisdiction>, j: Jurisdiction, nodes: map<string, Node>)
    requires !(j.parentId.Some? && j.parentId.value in nodes)
    requires ChildrenHung(before, nodes)
    ensures ChildrenHung(before + [j], nodes)
  {
    forall id | id in nodes
      ensures AreNodesOf(nodes, Kids(before + [j], id), nodes[id].children)
    {
      KidsOfOneMore(before, j, id);
    }
  }

  /** Pushing a node onto its parent's children, the parent being reached through the shared map. */
  method HangUnder(ghost before: seq<Jurisdiction>, j: Jurisdiction, nodes: map<string, Node>, parentId: string)
    requires j.id in nodes && parentId in nodes && j.parentId == Some(parentId)
    requires OneIdPerNode(nodes)
    requires ChildrenHung(before, nodes)
    modifies nodes[parentId]
    ensures ChildrenHung(before + [j], nodes)
  {
    var parent := nodes[parentId];
    parent.children := parent.children + [nodes[j.id]];
    forall id | id in nodes
      ensures AreNodesOf(nodes, Kids(before + [j], id), nodes[id].children)
    {
      KidsOfOneMore(before, j, id);
      assert AreNodesOf(nodes, Kids(before, id), old(nodes[id].children));
    }
  }
}
