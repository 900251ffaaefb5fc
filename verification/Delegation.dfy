/**
 The delegation service over time (apps/api-go/internal/delegation): creating, revoking and expiring
 delegations, and what that means for cycles and resolved chains.

 Rows are never deleted; a delegation is active while it is neither revoked nor expired.
 */
module Delegation {
  import opened Wrappers
  import opened DelegationGraph
  import opened DelegationCycles

  datatype Error = NotFound | Conflict | Invalid

  datatype Row = Row(delegatorID: string, delegateID: string, domainID: string, expiresAt: int, revokedAt: Option<int>)

  type Table = map<string, Row>

  const MAX_ID: nat := 256

  predicate Active(d: Row, now: int) {
    d.revokedAt.None? && d.expiresAt > now
  }

  function EdgeOf(d: Row): Edge {
    Edge(d.delegatorID, d.delegateID)
  }

  function ActiveIds(t: Table, domain: string, now: int): set<string> {
    set id | id in t && t[id].domainID == domain && Active(t[id], now)
  }

  /** The active graph of one domain. */
  function Graph(t: Table, domain: string, now: int): set<Edge> {
    set id | id in ActiveIds(t, domain, now) :: EdgeOf(t[id])
  }

  /** Some order in which the store may list the active delegations of a domain. */
  ghost predicate Listing(t: Table, domain: string, now: int, edges: seq<Edge>) {
    EdgeSet(edges) == Graph(t, domain, now)
  }

  // ----- the calls -----

  datatype CreateInput = CreateInput(delegatorID: string, delegateID: string, domainID: string, expiresAt: Option<int>)

  predicate ValidInput(input: CreateInput, now: int) {
    && input.delegatorID != "" && input.delegateID != "" && input.domainID != ""
    && |input.delegatorID| <= MAX_ID && |input.delegateID| <= MAX_ID && |input.domainID| <= MAX_ID
    && input.delegatorID != input.delegateID
    && input.expiresAt.Some? && input.expiresAt.value > now
  }

  function NewRow(input: CreateInput): Row
    requires input.expiresAt.Some?
  {
    Row(input.delegatorID, input.delegateID, input.domainID, input.expiresAt.value, None)
  }

  /** `listed` is the order the store happens to list the domain's active delegations in. */
  ghost function Create(t: Table, input: CreateInput, competent: bool, listed: seq<Edge>, id: string, now: int)
    : (Table, Option<Error>)
  {
    if !ValidInput(input, now) || !competent then (t, Some(Invalid))
    else if CreatesCycleSpec(listed, input.delegatorID, input.delegateID) then (t, Some(Conflict))
    else (t[id := NewRow(input)], None)
  }

  function Revoked(d: Row, now: int): Row {
    if d.revokedAt.None? then d.(revokedAt := Some(now)) else d
  }

  function Revoke(t: Table, id: string, caller: string, now: int): (Table, Option<Error>) {
    if id !in t then (t, Some(NotFound))
    else if caller == "" || t[id].delegatorID != caller then (t, Some(Invalid))
    else (t[id := Revoked(t[id], now)], None)
  }

  predicate Due(d: Row, now: int) {
    d.revokedAt.None? && d.expiresAt <= now
  }

  function ExpireDue(t: Table, now: int): Table {
    map id | id in t :: if Due(t[id], now) then Revoked(t[id], now) else t[id]
  }

  // ----- runs -----

  datatype Request =
    | DoCreate(input: CreateInput, competent: bool, id: string)
    | DoRevoke(id: string, caller: string)
    | DoExpire

  /** One call at time `now`. For creation the listing order is any the store may produce. */
  ghost predicate Step(t: Table, r: Request, now: int, t': Table) {
    match r
    case DoCreate(input, competent, id) =>
      id !in t && exists listed :: Listing(t, input.domainID, now, listed)
                                   && t' == Create(t, input, competent, listed, id, now).0
    case DoRevoke(id, caller) => t' == Revoke(t, id, caller, now).0
    case DoExpire => t' == ExpireDue(t, now)
  }

  /**
   What a caller must check before delegating: that the delegator has no active delegation in the domain to
   anyone else. Renewing a delegation to the same delegate is no matter.
   */
  predicate NoneElsewhere(t: Table, delegator: string, delegate: string, domain: string, now: int) {
    forall id :: id in ActiveIds(t, domain, now) && t[id].delegatorID == delegator ==> t[id].delegateID == delegate
  }

  predicate Checked(t: Table, r: Request, now: int) {
    r.DoCreate? ==> NoneElsewhere(t, r.input.delegatorID, r.input.delegateID, r.input.domainID, now)
  }

  /**
   A run from t, at time `from`, through timed calls with a clock that never goes back, in which every
   creation that takes effect was checked by its caller.
   */
  ghost predicate Run(t: Table, from: int, calls: seq<(Request, int)>, t': Table, until: int)
    decreases |calls|
  {
    if calls == [] then t' == t && from <= until
    else
      && from <= calls[0].1
      && exists next :: Step(t, calls[0].0, calls[0].1, next)
                        && (next != t ==> Checked(t, calls[0].0, calls[0].1))
                        && Run(next, calls[0].1, calls[1..], t', until)
  }

  ghost predicate GraphSound(es: set<Edge>) {
    Functional(es) && Acyclic(es) && IdsPresent(es)
  }

  ghost predicate Sound(t: Table, now: int) {
    forall domain :: GraphSound(Graph(t, domain, now))
  }

  /** Removing edges keeps a graph sound. */
  lemma SubgraphSound(es: set<Edge>, more: set<Edge>)
    requires GraphSound(more) && es <= more
    ensures GraphSound(es)
  {
    SubgraphAcyclic(es, more);
  }

  /** Waiting, revoking and expiring only remove edges. */
  lemma FewerEdgesStaySound(t: Table, now: int, t': Table, later: int)
    requires Sound(t, now)
    requires forall domain :: Graph(t', domain, later) <= Graph(t, domain, now)
    ensures Sound(t', later)
  {
    forall domain
      ensures GraphSound(Graph(t', domain, later))
    {
      SubgraphSound(Graph(t', domain, later), Graph(t, domain, now));
    }
  }

  lemma TimeRemovesEdges(t: Table, domain: string, now: int, later: int)
    requires now <= later
    ensures Graph(t, domain, later) <= Graph(t, domain, now)
  {
    assert ActiveIds(t, domain, later) <= ActiveIds(t, domain, now);
  }

  /** A sound state stays sound while time passes. */
  lemma SoundLater(t: Table, now: int, later: int)
    requires Sound(t, now) && now <= later
    ensures Sound(t, later)
  {
    forall domain
      ensures Graph(t, domain, later) <= Graph(t, domain, now)
    {
      TimeRemovesEdges(t, domain, now, later);
    }
    FewerEdgesStaySound(t, now, t, later);
  }

  lemma RevokeRemovesEdges(t: Table, id: string, caller: string, now: int, domain: string)
    ensures Graph(Revoke(t, id, caller, now).0, domain, now) <= Graph(t, domain, now)
  {
    var t' := Revoke(t, id, caller, now).0;
    forall e | e in Graph(t', domain, now)
      ensures e in Graph(t, domain, now)
    {
      var i :| i in ActiveIds(t', domain, now) && EdgeOf(t'[i]) == e;
      assert i in ActiveIds(t, domain, now) && EdgeOf(t[i]) == e;
    }
  }

  /** The sweep changes no row that could still be active at its own time or later. */
  lemma SweepKeepsActiveRows(t: Table, now: int, domain: string, later: int)
    requires now <= later
    ensures ActiveIds(ExpireDue(t, now), domain, later) == ActiveIds(t, domain, later)
    ensures forall id :: id in ActiveIds(t, domain, later) ==> ExpireDue(t, now)[id] == t[id]
    ensures Graph(ExpireDue(t, now), domain, later) == Graph(t, domain, later)
  {
    var t' := ExpireDue(t, now);
    assert forall id :: id in ActiveIds(t', domain, later) <==> id in ActiveIds(t, domain, later);
    assert Graph(t', domain, later) <= Graph(t, domain, later) by {
      forall e | e in Graph(t', domain, later)
        ensures e in Graph(t, domain, later)
      {
        var i :| i in ActiveIds(t', domain, later) && EdgeOf(t'[i]) == e;
        assert i in ActiveIds(t, domain, later) && EdgeOf(t[i]) == e;
      }
    }
    forall e | e in Graph(t, domain, later)
      ensures e in Graph(t', domain, later)
    {
      var i :| i in ActiveIds(t, domain, later) && EdgeOf(t[i]) == e;
      assert i in ActiveIds(t', domain, later) && EdgeOf(t'[i]) == e;
    }
  }

  lemma InsertAddsOneEdge(t: Table, d: Row, id: string, domain: string, now: int)
    requires id !in t && Active(d, now)
    ensures Graph(t[id := d], domain, now) == Graph(t, domain, now) + if domain == d.domainID then {EdgeOf(d)} else {}
  {
    var t' := t[id := d];
    assert ActiveIds(t', domain, now) == ActiveIds(t, domain, now) + if domain == d.domainID then {id} else {};
    forall e | e in Graph(t, domain, now)
      ensures e in Graph(t', domain, now)
    {
      var i :| i in ActiveIds(t, domain, now) && EdgeOf(t[i]) == e;
      assert i in ActiveIds(t', domain, now) && EdgeOf(t'[i]) == e;
    }
    if domain == d.domainID {
      assert id in ActiveIds(t', domain, now) && EdgeOf(t'[id]) == EdgeOf(d);
    }
  }

  /** A checked creation that the service accepts keeps every domain's graph sound. */
  lemma CreateKeepsSound(t: Table, input: CreateInput, competent: bool, listed: seq<Edge>, id: string, now: int)
    requires Sound(t, now) && id !in t
    requires Listing(t, input.domainID, now, listed)
    requires NoneElsewhere(t, input.delegatorID, input.delegateID, input.domainID, now)
    ensures Sound(Create(t, input, competent, listed, id, now).0, now)
  {
    var (t', e) := Create(t, input, competent, listed, id, now);
    if e.None? {
      var es := Graph(t, input.domainID, now);
      assert GraphSound(es);
      CheckDecidesCycles(listed, input.delegatorID, input.delegateID);
      forall domain
        ensures GraphSound(Graph(t', domain, now))
      {
        InsertAddsOneEdge(t, NewRow(input), id, domain, now);
        if domain != input.domainID {
          assert GraphSound(Graph(t, domain, now)) && Graph(t', domain, now) == Graph(t, domain, now);
        } else {
          assert Graph(t', domain, now) == EdgeSet(listed) + {Edge(input.delegatorID, input.delegateID)};
        }
      }
    }
  }

  lemma StepKeepsSound(t: Table, r: Request, now: int, t': Table)
    requires Sound(t, now) && Checked(t, r, now) && Step(t, r, now, t')
    ensures Sound(t', now)
  {
    match r
    case DoCreate(input, competent, id) =>
      var listed :| Listing(t, input.domainID, now, listed) && t' == Create(t, input, competent, listed, id, now).0;
      CreateKeepsSound(t, input, competent, listed, id, now);
    case DoRevoke(id, caller) =>
      forall domain
        ensures Graph(t', domain, now) <= Graph(t, domain, now)
      {
        RevokeRemovesEdges(t, id, caller, now, domain);
      }
      FewerEdgesStaySound(t, now, t', now);
    case DoExpire =>
      forall domain
        ensures Graph(t', domain, now) <= Graph(t, domain, now)
      {
        SweepKeepsActiveRows(t, now, domain, now);
      }
      FewerEdgesStaySound(t, now, t', now);
  }

  /**
   As long as nobody delegates to two citizens in one domain, every run leaves every domain acyclic, now and at
   every later time.
   */
  lemma {:induction false} EveryRunIsAcyclic(t: Table, from: int, calls: seq<(Request, int)>, t': Table, until: int, later: int)
    requires Sound(t, from) && Run(t, from, calls, t', until) && until <= later
    ensures Sound(t', later)
    decreases |calls|
  {
    if calls == [] {
      SoundLater(t, from, later);
    } else {
      var now := calls[0].1;
      var next :| Step(t, calls[0].0, now, next) && (next != t ==> Checked(t, calls[0].0, now))
                  && Run(next, now, calls[1..], t', until);
      SoundLater(t, from, now);
      if next != t {
        StepKeepsSound(t, calls[0].0, now, next);
      }
      EveryRunIsAcyclic(next, now, calls[1..], t', until, later);
    }
  }

  lemma StartIsSound(now: int)
    ensures Sound(map[], now)
  {
    forall domain
      ensures GraphSound(Graph(map[], domain, now))
    {
      assert Graph(map[], domain, now) == {};
      forall p
        ensures IsPath({}, p) ==> |p| < 2
      {
        assert |p| >= 2 ==> !Link({}, p, 0);
      }
    }
  }

  // ----- chains -----

  /** On a sound graph the chain is the same for every listing, duplicate-free, and ends at a voter. */
  lemma ChainIsTheDelegationPath(edges: seq<Edge>, other: seq<Edge>, delegator: string, chain: seq<string>, chain': seq<string>)
    requires EdgeSet(edges) == EdgeSet(other) && GraphSound(EdgeSet(edges)) && delegator != ""
    requires IsChain(NextMap(edges), delegator, chain) && IsChain(NextMap(other), delegator, chain')
    ensures chain == chain'
    ensures |[delegator] + chain| >= 1 && IsPath(EdgeSet(edges), [delegator] + chain)
    ensures forall e :: e in EdgeSet(edges) ==> e.from != ([delegator] + chain)[|chain|]
  {
    SameNext(edges, other);
    SameChain(NextMap(edges), delegator, chain, chain');
    ChainIsPath(edges, delegator, chain);
    ChainEndsAtVoter(edges, delegator, chain);
    var last := Walk(NextMap(edges), delegator, |chain|);
    assert ([delegator] + chain)[|chain|] == last;
    NextMapIsEdges(edges, last);
    assert Walk(NextMap(edges), delegator, |chain| + 1) == Hop(NextMap(edges), last);
  }

  /** With one edge per delegator the order of the list does not matter. */
  lemma SameNext(edges: seq<Edge>, other: seq<Edge>)
    requires EdgeSet(edges) == EdgeSet(other) && Functional(EdgeSet(edges))
    ensures NextMap(edges) == NextMap(other)
  {
    var next, next' := NextMap(edges), NextMap(other);
    forall c
      ensures c in next <==> c in next'
      ensures c in next && c in next' ==> next[c] == next'[c]
    {
      NextMapIsEdges(edges, c);
      NextMapIsEdges(other, c);
    }
    assert next.Keys == next'.Keys;
  }

  /** Nothing longer follows the same walk without repeating a citizen. */
  lemma CannotGoOn(next: map<string, string>, delegator: string, chain: seq<string>, longer: seq<string>)
    requires IsChain(next, delegator, chain) && |longer| > |chain|
    ensures !IsChain(next, delegator, longer)
  {
    if OnWalk(next, delegator, longer) {
      var last := longer[|chain|];
      assert last == Walk(next, delegator, |chain| + 1);
      var i :| 0 <= i < |chain| && chain[i] == last;
      assert longer[i] == chain[i];
    }
  }

  /** A chain is determined by the walk it follows. */
  lemma SameChain(next: map<string, string>, delegator: string, chain: seq<string>, chain': seq<string>)
    requires IsChain(next, delegator, chain) && IsChain(next, delegator, chain')
    ensures chain == chain'
  {
    if |chain| < |chain'| {
      CannotGoOn(next, delegator, chain, chain');
    } else if |chain'| < |chain| {
      CannotGoOn(next, delegator, chain', chain);
    }
  }

  lemma ChainIsPath(edges: seq<Edge>, delegator: string, chain: seq<string>)
    requires delegator != "" && IsChain(NextMap(edges), delegator, chain)
    ensures IsPath(EdgeSet(edges), [delegator] + chain)
  {
    var p := [delegator] + chain;
    forall i | 0 <= i < |p| - 1
      ensures Link(EdgeSet(edges), p, i)
    {
      assert p[i] == Walk(NextMap(edges), delegator, i) && p[i + 1] == chain[i] == Walk(NextMap(edges), delegator, i + 1);
      NextMapIsEdges(edges, p[i]);
    }
  }

  /** A sweep never changes a chain resolved at its time or later: each listing before it is one after it. */
  lemma SweepKeepsChains(t: Table, now: int, domain: string, later: int, edges: seq<Edge>)
    requires now <= later
    ensures Listing(ExpireDue(t, now), domain, later, edges) <==> Listing(t, domain, later, edges)
  {
    SweepKeepsActiveRows(t, now, domain, later);
  }

  // ----- without the caller's check -----

  const Far: int := 100

  function Row0(from: string, to: string): Row {
    Row(from, to, "health", Far, None)
  }

  function Asking(from: string, to: string): CreateInput {
    CreateInput(from, to, "health", Some(Far))
  }

  /**
   Nothing in the service stops a citizen from delegating twice in one domain, and then the check can
   miss a cycle: after a to b and a to c, a listing that ends with a to b hides c, and c to a is accepted.
   */
  lemma TwoDelegationsCanHideACycle() returns (t: Table, listed: seq<Edge>)
    ensures t == map["1" := Row0("a", "b"), "2" := Row0("a", "c")]
    ensures Acyclic(Graph(t, "health", 0)) && Listing(t, "health", 0, listed)
    ensures !Visible(listed)
    ensures var (t', e) := Create(t, Asking("c", "a"), true, listed, "3", 0);
            e.None? && !Acyclic(Graph(t', "health", 0))
  {
    t := map["1" := Row0("a", "b"), "2" := Row0("a", "c")];
    var ac, ab := Edge("a", "c"), Edge("a", "b");
    listed := [ac, ab];
    assert ActiveIds(t, "health", 0) == {"1", "2"};
    assert Graph(t, "health", 0) == {ab, ac} by {
      assert EdgeOf(t["1"]) == ab && EdgeOf(t["2"]) == ac;
    }
    ForkIsAcyclic();
    var next := NextMap(listed);
    assert listed[..1] == [ac] && [ac][..0] == [];
    assert NextMap([ac]) == map["a" := "c"];
    assert next == map["a" := "b"];
    HiddenWalk(next);
    InsertAddsOneEdge(t, Row0("c", "a"), "3", "health", 0);
    BackEdgeClosesIt();
  }

  lemma ForkIsAcyclic()
    ensures Acyclic({Edge("a", "b"), Edge("a", "c")})
  {
    var es := {Edge("a", "b"), Edge("a", "c")};
    forall p | IsPath(es, p) && |p| >= 2
      ensures p[0] != p[|p| - 1]
    {
      assert Link(es, p, 0) && Link(es, p, |p| - 2);
    }
  }

  lemma BackEdgeClosesIt()
    ensures !Acyclic({Edge("a", "b"), Edge("a", "c")} + {Edge("c", "a")})
  {
    var es := {Edge("a", "b"), Edge("a", "c")} + {Edge("c", "a")};
    assert Link(es, ["a", "c", "a"], 0) && Link(es, ["a", "c", "a"], 1);
    assert IsPath(es, ["a", "c", "a"]);
  }

  lemma HiddenWalk(next: map<string, string>)
    requires next == map["a" := "b"]
    ensures EndsAvoiding(next, "a", "c")
    ensures !OnTheWay(next, "a", "c")
  {
    assert Walk(next, "a", 0) == "a" && Walk(next, "a", 1) == "b" && Walk(next, "a", 2) == "";
    forall k: nat
      ensures Walk(next, "a", k) != "c"
    {
      if k > 2 {
        WalkStaysEnded(next, "a", 2, k);
      }
    }
  }
}
