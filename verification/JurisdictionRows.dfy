/**
 The parent relation of a flat list of jurisdictions, as the tree builder of
 apps/api-ts/src/jurisdiction/jurisdiction.service.ts reads it: a parent that is not in the list counts
 as no parent.
 */
module JurisdictionRows {
  import opened Wrappers

  /** A row of the table; the fields the builder only copies are left to `name`. */
  datatype Jurisdiction = Jurisdiction(id: string, parentId: Option<string>, name: string)

  function Ids(js: seq<Jurisdiction>): set<string> {
    set j | j in js :: j.id
  }

  predicate DistinctIds(js: seq<Jurisdiction>) {
    forall i, k :: 0 <= i < k < |js| ==> js[i].id != js[k].id
  }

  /** The rows that name `parent`, in input order. */
  function Kids(js: seq<Jurisdiction>, parent: string): seq<Jurisdiction> {
    if js == [] then []
    else
      var last := js[|js| - 1];
      Kids(js[..|js| - 1], parent) + if last.parentId == Some(parent) then [last] else []
  }

  /** The rows of js without a parent among `ids`, in input order. */
  function Roots(js: seq<Jurisdiction>, ids: set<string>): seq<Jurisdiction> {
    if js == [] then []
    else
      var last := js[|js| - 1];
      Roots(js[..|js| - 1], ids) + if last.parentId.Some? && last.parentId.value in ids then [] else [last]
  }

  // ----- order of the input -----

  lemma {:induction false} KidsCount(js: seq<Jurisdiction>, parent: string, j: Jurisdiction)
    ensures multiset(Kids(js, parent))[j] == if j.parentId == Some(parent) then multiset(js)[j] else 0
  {
    if js != [] {
      KidsCount(js[..|js| - 1], parent, j);
      assert js == js[..|js| - 1] + [js[|js| - 1]];
    }
  }

  lemma {:induction false} RootsCount(js: seq<Jurisdiction>, ids: set<string>, j: Jurisdiction)
    ensures multiset(Roots(js, ids))[j] ==
            if j.parentId.Some? && j.parentId.value in ids then 0 else multiset(js)[j]
  {
    if js != [] {
      RootsCount(js[..|js| - 1], ids, j);
      assert js == js[..|js| - 1] + [js[|js| - 1]];
    }
  }

  /** The same rows are filtered out of a list in whatever order it comes. */
  lemma FiltersIgnoreInputOrder(js: seq<Jurisdiction>, other: seq<Jurisdiction>)
    requires multiset(js) == multiset(other)
    ensures Ids(js) == Ids(other)
    ensures forall parent :: multiset(Kids(js, parent)) == multiset(Kids(other, parent))
    ensures multiset(Roots(js, Ids(js))) == multiset(Roots(other, Ids(other)))
  {
    assert forall j :: j in js <==> j in multiset(js);
    assert forall j :: j in other <==> j in multiset(other);
    assert Ids(js) == Ids(other);
    forall parent
      ensures multiset(Kids(js, parent)) == multiset(Kids(other, parent))
    {
      forall j
        ensures multiset(Kids(js, parent))[j] == multiset(Kids(other, parent))[j]
      {
        KidsCount(js, parent, j);
        KidsCount(other, parent, j);
      }
    }
    forall j
      ensures multiset(Roots(js, Ids(js)))[j] == multiset(Roots(other, Ids(other)))[j]
    {
      RootsCount(js, Ids(js), j);
      RootsCount(other, Ids(other), j);
    }
  }

  // ----- ancestors -----

  /** The last row carrying an id. */
  function RowOf(js: seq<Jurisdiction>, id: string): (j: Jurisdiction)
    requires id in Ids(js)
    ensures j in js && j.id == id
  {
    if js[|js| - 1].id == id then js[|js| - 1]
    else
      assert js == js[..|js| - 1] + [js[|js| - 1]];
      RowOf(js[..|js| - 1], id)
  }

  lemma RowOfIsTheRow(js: seq<Jurisdiction>, j: Jurisdiction)
    requires DistinctIds(js) && j in js
    ensures RowOf(js, j.id) == j
  {
    var i :| 0 <= i < |js| && js[i] == j;
    var k :| 0 <= k < |js| && js[k] == RowOf(js, j.id);
  }

  /** The parent of an id, if it has one in the list. */
  function ParentOf(js: seq<Jurisdiction>, id: string): (p: Option<string>)
    requires id in Ids(js)
    ensures p.Some? ==> p.value in Ids(js)
  {
    var parentId := RowOf(js, id).parentId;
    if parentId.Some? && parentId.value in Ids(js) then parentId else None
  }

  /** The k-th ancestor of an id, if the chain of parents is that long. */
  function Up(js: seq<Jurisdiction>, id: string, k: nat): (a: Option<string>)
    requires id in Ids(js)
    ensures a.Some? ==> a.value in Ids(js)
  {
    if k == 0 then Some(id)
    else
      match Up(js, id, k - 1)
      case None => None
      case Some(a) => ParentOf(js, a)
  }

  /** The chain of parents comes to an end. */
  ghost predicate Rooted(js: seq<Jurisdiction>, id: string)
    requires id in Ids(js)
  {
    exists k: nat :: Up(js, id, k) == None
  }

  /** x is `id` or somewhere below it. */
  ghost predicate Below(js: seq<Jurisdiction>, x: string, id: string)
    requires x in Ids(js)
  {
    exists k: nat :: Up(js, x, k) == Some(id)
  }

  /** Nobody is a proper ancestor of itself. */
  ghost predicate Acyclic(js: seq<Jurisdiction>) {
    forall id, k: nat :: id in Ids(js) && k > 0 ==> Up(js, id, k) != Some(id)
  }

  lemma {:induction false} UpAdds(js: seq<Jurisdiction>, id: string, i: nat, k: nat)
    requires id in Ids(js)
    ensures Up(js, id, i + k) == if Up(js, id, i).Some? then Up(js, Up(js, id, i).value, k) else None
  {
    if k > 0 {
      UpAdds(js, id, i, k - 1);
    }
  }

  /** A chain that comes to an end never comes back. */
  lemma {:induction false} LoopNeverEnds(js: seq<Jurisdiction>, id: string, loop: nat, k: nat)
    requires id in Ids(js) && loop > 0 && Up(js, id, loop) == Some(id)
    ensures Up(js, id, k).Some?
    decreases k
  {
    if k >= loop {
      LoopNeverEnds(js, id, loop, k - loop);
      UpAdds(js, id, loop, k - loop);
    } else {
      UpAdds(js, id, k, loop - k);
    }
  }

  lemma RootedHasNoLoop(js: seq<Jurisdiction>, id: string, loop: nat)
    requires id in Ids(js) && Rooted(js, id) && loop > 0
    ensures Up(js, id, loop) != Some(id)
  {
    var k: nat :| Up(js, id, k) == None;
    if Up(js, id, loop) == Some(id) {
      LoopNeverEnds(js, id, loop, k);
    }
  }

  lemma RootedUpwards(js: seq<Jurisdiction>, x: string, id: string, k: nat)
    requires x in Ids(js) && Up(js, x, k) == Some(id)
    ensures Rooted(js, x) <==> Rooted(js, id)
  {
    if Rooted(js, x) {
      var e: nat :| Up(js, x, e) == None;
      UpAdds(js, x, k, e);
      UpAdds(js, x, e, k);
      assert Up(js, id, e) == None;
    }
    if Rooted(js, id) {
      var e: nat :| Up(js, id, e) == None;
      UpAdds(js, x, k, e);
      assert Up(js, x, k + e) == None;
    }
  }

  /** Climbing ends or comes back: `trail` holds the distinct ids met so far. */
  lemma {:induction false} ClimbEndsOrRepeats(js: seq<Jurisdiction>, id: string, trail: seq<string>)
    returns (i: nat, k: nat)
    requires id in Ids(js)
    requires forall n :: 0 <= n < |trail| ==> Up(js, id, n) == Some(trail[n])
    requires forall m, n :: 0 <= m < n < |trail| ==> trail[m] != trail[n]
    ensures Up(js, id, k) == None || (i < k && Up(js, id, i) == Up(js, id, k))
    decreases Ids(js) - (set x | x in trail)
  {
    i, k := 0, |trail|;
    var here := Up(js, id, |trail|);
    if here.Some? {
      if here.value in trail {
        i :| 0 <= i < |trail| && trail[i] == here.value;
      } else {
        assert (set x | x in trail + [here.value]) == (set x | x in trail) + {here.value};
        i, k := ClimbEndsOrRepeats(js, id, trail + [here.value]);
      }
    }
  }

  /** Every chain ends exactly when nobody is its own ancestor. */
  lemma AllRootedIffAcyclic(js: seq<Jurisdiction>)
    ensures (forall id :: id in Ids(js) ==> Rooted(js, id)) <==> Acyclic(js)
  {
    if forall id :: id in Ids(js) ==> Rooted(js, id) {
      forall id, k: nat | id in Ids(js) && k > 0
        ensures Up(js, id, k) != Some(id)
      {
        RootedHasNoLoop(js, id, k);
      }
    }
    if Acyclic(js) {
      forall id | id in Ids(js)
        ensures Rooted(js, id)
      {
        var i, k := ClimbEndsOrRepeats(js, id, []);
        if Up(js, id, k).Some? {
          UpAdds(js, id, i, k - i);
        }
      }
    }
  }

  // ----- below -----

  lemma {:induction false} KidsExact(js: seq<Jurisdiction>, parent: string, j: Jurisdiction)
    ensures j in Kids(js, parent) <==> j in js && j.parentId == Some(parent)
  {
    KidsCount(js, parent, j);
    assert j in Kids(js, parent) <==> j in multiset(Kids(js, parent));
    assert j in js <==> j in multiset(js);
  }

  lemma RootsExact(js: seq<Jurisdiction>, ids: set<string>, j: Jurisdiction)
    ensures j in Roots(js, ids) <==> j in js && !(j.parentId.Some? && j.parentId.value in ids)
  {
    RootsCount(js, ids, j);
    assert j in Roots(js, ids) <==> j in multiset(Roots(js, ids));
    assert j in js <==> j in multiset(js);
  }

  /** Being below an id is being it, or being below one of its kids. */
  lemma BelowThroughAKid(js: seq<Jurisdiction>, x: string, id: string)
    requires DistinctIds(js) && x in Ids(js) && id in Ids(js)
    ensures Below(js, x, id) <==> x == id || exists c :: c in Kids(js, id) && Below(js, x, c.id)
  {
    if Below(js, x, id) && x != id {
      var k: nat :| Up(js, x, k) == Some(id);
      var c := RowOf(js, Up(js, x, k - 1).value);
      KidsExact(js, id, c);
      assert Up(js, x, k - 1) == Some(c.id) && c in Kids(js, id);
    }
    if x == id {
      assert Up(js, x, 0) == Some(id);
    }
    if exists c :: c in Kids(js, id) && Below(js, x, c.id) {
      var c :| c in Kids(js, id) && Below(js, x, c.id);
      var k: nat :| Up(js, x, k) == Some(c.id);
      KidsExact(js, id, c);
      RowOfIsTheRow(js, c);
      assert Up(js, x, k + 1) == Some(id);
    }
  }

  /** A rooted id is met once on the way up. */
  lemma {:induction false} MetOnce(js: seq<Jurisdiction>, x: string, id: string, i: nat, k: nat)
    requires x in Ids(js) && id in Ids(js) && Rooted(js, id)
    requires Up(js, x, i) == Some(id) && Up(js, x, k) == Some(id)
    ensures i == k
  {
    var low, high := if i < k then i else k, if i < k then k else i;
    if low < high {
      UpAdds(js, x, low, high - low);
      RootedHasNoLoop(js, id, high - low);
    }
  }

  lemma AboveAKid(js: seq<Jurisdiction>, x: string, id: string, c: Jurisdiction, k: nat)
    requires DistinctIds(js) && x in Ids(js) && c in Kids(js, id) && id in Ids(js)
    requires Up(js, x, k) == Some(c.id)
    ensures Up(js, x, k + 1) == Some(id)
  {
    KidsExact(js, id, c);
    RowOfIsTheRow(js, c);
  }

  /** Nobody is below two different kids of a rooted id. */
  lemma BelowOneKidOnly(js: seq<Jurisdiction>, x: string, id: string, c: Jurisdiction, d: Jurisdiction)
    requires DistinctIds(js) && x in Ids(js) && id in Ids(js) && Rooted(js, id)
    requires c in Kids(js, id) && d in Kids(js, id)
    requires Below(js, x, c.id) && Below(js, x, d.id)
    ensures c == d
  {
    var i: nat :| Up(js, x, i) == Some(c.id);
    var k: nat :| Up(js, x, k) == Some(d.id);
    AboveAKid(js, x, id, c, i);
    AboveAKid(js, x, id, d, k);
    MetOnce(js, x, id, i + 1, k + 1);
    KidsExact(js, id, c);
    KidsExact(js, id, d);
    RowOfIsTheRow(js, c);
    RowOfIsTheRow(js, d);
  }
}
