/**
 The in-memory delegation store and the service on top of it, in the source's own shape. Each call is
 proved to do to the table what `Delegation` says, for whatever order the map yields its rows in.
 */
module DelegationStore {
  import opened Wrappers
  import opened DelegationGraph
  import opened DelegationCycles
  import opened Delegation
  import opened DelegationListings

  class MemoryStore {
    var delegations: Table

    constructor ()
      ensures delegations == map[]
    {
      delegations := map[];
    }

    method Insert(d: Row, id: string)
      modifies this
      ensures delegations == old(delegations)[id := d]
    {
      delegations := delegations[id := d];
    }

    method Get(id: string) returns (r: Result<Row, Error>)
      ensures r == if id in delegations then Ok(delegations[id]) else Err(NotFound)
    {
      r := if id in delegations then Ok(delegations[id]) else Err(NotFound);
    }

    /** Revoking twice returns the same row. */
    method Revoke(id: string, now: int) returns (r: Result<Row, Error>)
      modifies this
      ensures id !in old(delegations) ==> r == Err(NotFound) && delegations == old(delegations)
      ensures id in old(delegations) ==>
                && delegations == old(delegations)[id := Revoked(old(delegations)[id], now)]
                && r == Ok(delegations[id])
    {
      if id !in delegations {
        return Err(NotFound);
      }
      var d := delegations[id];
      if d.revokedAt == None {
        d := d.(revokedAt := Some(now));
      }
      delegations := delegations[id := d];
      r := Ok(d);
    }

    /** The sweep visits every row once, in any order, and reports exactly the rows it revoked. */
    method ExpireDue(now: int) returns (out: set<string>)
      modifies this
      ensures delegations == Delegation.ExpireDue(old(delegations), now)
      ensures out == set id | id in old(delegations) && Due(old(delegations)[id], now)
    {
      out := {};
      var rest := delegations.Keys;
      while rest != {}
        invariant rest <= delegations.Keys == old(delegations).Keys
        invariant forall id :: id in delegations ==>
                    delegations[id] == if id in rest then old(delegations)[id]
                                       else Delegation.ExpireDue(old(delegations), now)[id]
        invariant out == set id | id in old(delegations) && id !in rest && Due(old(delegations)[id], now)
      {
        var id :| id in rest;
        rest := rest - {id};
        var d := delegations[id];
        if d.revokedAt == None && !(d.expiresAt > now) {
          delegations := delegations[id := d.(revokedAt := Some(now))];
          out := out + {id};
        }
      }
    }

    /** The active delegations of a domain, each once, in an arbitrary order. */
    method ActiveDelegations(domainID: string, now: int) returns (out: seq<Edge>, ghost ids: seq<string>)
      ensures ListsRows(delegations, domainID, now, ids) && out == EdgesOf(delegations, ids)
      ensures Listing(delegations, domainID, now, out)
      ensures |out| == |ActiveIds(delegations, domainID, now)|
    {
      out, ids := [], [];
      var rest := delegations.Keys;
      ghost var done: set<string> := {};
      while rest != {}
        invariant rest <= delegations.Keys
        invariant forall id :: id in done <==> id in ActiveIds(delegations, domainID, now) && id !in rest
        invariant forall id :: id in ids <==> id in done
        invariant forall i, k :: 0 <= i < k < |ids| ==> ids[i] != ids[k]
        invariant |out| == |ids| == |done|
        invariant forall i :: 0 <= i < |ids| ==> ids[i] in delegations && out[i] == EdgeOf(delegations[ids[i]])
      {
        var id :| id in rest;
        rest := rest - {id};
        var d := delegations[id];
        if d.domainID == domainID && d.revokedAt == None && d.expiresAt > now {
          out, ids := out + [EdgeOf(d)], ids + [id];
          done := done + {id};
        }
      }
      assert done == ActiveIds(delegations, domainID, now);
      assert out == EdgesOf(delegations, ids);
      ListedEdges(delegations, domainID, now, ids);
    }
  }

  class Service {
    const store: MemoryStore

    constructor (store: MemoryStore)
      ensures this.store == store
    {
      this.store := store;
    }

    /** Validation, competency, the cycle check on whatever listing the store gave, then the insert. */
    method Create(input: CreateInput, competent: Result<bool, Error>, id: string, now: int)
      returns (e: Option<Error>, ghost listed: seq<Edge>)
      modifies store
      ensures !ValidInput(input, now) || competent != Ok(true) ==>
                && store.delegations == old(store.delegations)
                && e == Some(if ValidInput(input, now) && competent.Err? then competent.error else Invalid)
      ensures ValidInput(input, now) && competent == Ok(true) ==>
                && Listing(old(store.delegations), input.domainID, now, listed)
                && (store.delegations, e) == Delegation.Create(old(store.delegations), input, true, listed, id, now)
    {
      listed := [];
      if input.delegatorID == "" || input.delegateID == "" || input.domainID == ""
         || |input.delegatorID| > MAX_ID || |input.delegateID| > MAX_ID || |input.domainID| > MAX_ID {
        return Some(Invalid), listed;
      }
      if input.delegatorID == input.delegateID {
        return Some(Invalid), listed;
      }
      if input.expiresAt == None || !(input.expiresAt.value > now) {
        return Some(Invalid), listed;
      }
      if competent.Err? {
        return Some(competent.error), listed;
      }
      if !competent.value {
        return Some(Invalid), listed;
      }
      var edges, ids := store.ActiveDelegations(input.domainID, now);
      listed := edges;
      var cycle := CreatesCycle(edges, input.delegatorID, input.delegateID);
      if cycle {
        return Some(Conflict), listed;
      }
      store.Insert(NewRow(input), id);
      e := None;
    }

    /** Only the delegator may revoke. */
    method Revoke(id: string, caller: string, now: int) returns (e: Option<Error>)
      modifies store
      ensures (store.delegations, e) == Delegation.Revoke(old(store.delegations), id, caller, now)
    {
      var found := store.Get(id);
      if found.Err? {
        return Some(found.error);
      }
      if caller == "" || found.value.delegatorID != caller {
        return Some(Invalid);
      }
      var revoked := store.Revoke(id, now);
      e := None;
    }

    /** An empty chain means the citizen votes directly. */
    method ResolveChain(citizenID: string, domainID: string, now: int) returns (chain: seq<string>, ghost listed: seq<Edge>)
      ensures citizenID == "" || domainID == "" ==> chain == []
      ensures citizenID != "" && domainID != "" ==>
                Listing(store.delegations, domainID, now, listed) && IsChain(NextMap(listed), citizenID, chain)
    {
      if citizenID == "" || domainID == "" {
        return [], [];
      }
      var edges, ids := store.ActiveDelegations(domainID, now);
      listed := edges;
      chain := DelegationGraph.ResolveChain(edges, citizenID);
    }
  }
}
