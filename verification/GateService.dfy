/**
 The release gate in the source's own shape: the store's map of changes, the service's loops over references
 and approvals, and the handler that replaces recorded approvals before it releases.
 */
module GateService {
  import opened Wrappers
  import opened ProtocolApprovals
  import opened ProtocolGate

  class MemoryStore {
    var changes: Table

    constructor ()
      ensures changes == map[]
    {
      changes := map[];
    }

    method InsertProtocolChange(id: string, c: Change)
      modifies this
      ensures changes == old(changes)[id := c]
    {
      changes := changes[id := c];
    }

    method GetProtocolChange(id: string) returns (r: Result<Change, Error>)
      ensures r == if id in changes then Ok(changes[id]) else Err(NotFound)
    {
      r := if id in changes then Ok(changes[id]) else Err(NotFound);
    }

    method UpdateProtocolChange(id: string, c: Change) returns (e: Option<Error>)
      modifies this
      ensures (changes, e) == Update(old(changes), id, c)
    {
      if id !in changes {
        return Some(NotFound);
      }
      if changes[id].released {
        return Some(Conflict);
      }
      changes := changes[id := c];
      e := None;
    }
  }

  class Service {
    const store: MemoryStore

    constructor (store: MemoryStore)
      ensures this.store == store
    {
      this.store := store;
    }

    method RegisterChange(id: string, input: RegisterInput, createdAt: int) returns (e: Option<Error>)
      modifies store
      ensures (store.changes, e) == ProtocolGate.RegisterChange(old(store.changes), id, input, createdAt)
    {
      if input.changeRef == "" || |input.changeRef| > MAX_REF || |input.required| == 0 {
        return Some(Invalid);
      }
      if input.delayUntil.None? || input.visibleSince.None? {
        return Some(Invalid);
      }
      var seen: set<string> := {};
      for i := 0 to |input.required|
        invariant forall ref :: ref in seen <==> ref in input.required[..i]
        invariant "" !in input.required[..i] && NoDuplicates(input.required[..i])
      {
        var ref := input.required[i];
        assert input.required[..i + 1] == input.required[..i] + [ref];
        if ref == "" || ref in seen {
          assert ref in input.required;
          if ref != "" {
            var k :| 0 <= k < i && input.required[..i][k] == ref;
            assert input.required[k] == input.required[i];
          }
          return Some(Invalid);
        }
        seen := seen + {ref};
      }
      assert input.required[..|input.required|] == input.required;
      store.InsertProtocolChange(id, Change(input.changeRef, input.required, [], input.delayUntil.value,
                                            input.visibleSince.value, false, createdAt, None));
      e := None;
    }

    method RecordApproval(id: string, ref: string, approver: string, now: int) returns (e: Option<Error>)
      modifies store
      ensures (store.changes, e) == ProtocolGate.RecordApproval(old(store.changes), id, ref, approver, now)
    {
      if ref == "" || approver == "" {
        return Some(Invalid);
      }
      var found := store.GetProtocolChange(id);
      if found.Err? {
        return Some(found.error);
      }
      var c := found.value;
      if c.released {
        return Some(InvalidState);
      }
      for i := 0 to |c.approvals|
        invariant forall k :: 0 <= k < i ==> c.approvals[k].ref != ref
      {
        if c.approvals[i].ref == ref {
          return Some(Conflict);
        }
      }
      e := store.UpdateProtocolChange(id, c.(approvals := c.approvals + [ProtocolApproval(ref, approver, now)]));
    }

    method ReleaseChange(id: string, now: int) returns (e: Option<Error>)
      modifies store
      ensures (store.changes, e) == ProtocolGate.ReleaseChange(old(store.changes), id, now)
    {
      var found := store.GetProtocolChange(id);
      if found.Err? {
        return Some(found.error);
      }
      var c := found.value;
      if c.released {
        return Some(InvalidState);
      }
      var have: set<string> := {};
      for i := 0 to |c.approvals|
        invariant forall ref :: ref in have <==> exists k :: 0 <= k < i && c.approvals[k].ref == ref
      {
        have := have + {c.approvals[i].ref};
      }
      for i := 0 to |c.required|
        invariant forall k :: 0 <= k < i ==> HasRef(c.approvals, c.required[k])
      {
        if c.required[i] !in have {
          assert c.required[i] in c.required && !HasRef(c.approvals, c.required[i]);
          return Some(InvalidState);
        }
      }
      if now < c.delayUntil {
        return Some(InvalidState);
      }
      if c.visibleSince > now {
        return Some(InvalidState);
      }
      e := store.UpdateProtocolChange(id, c.(released := true, releasedAt := Some(now)));
    }

    /** Discards recorded approvals for those the governance service gives now, stores them, then releases. */
    method HandleRelease(id: string, received: Option<seq<ProtocolApproval>>, now: int) returns (e: Option<Error>)
      modifies store
      ensures (store.changes, e) == ProtocolGate.HandleRelease(old(store.changes), id, received, now)
    {
      var found := store.GetProtocolChange(id);
      if found.Err? {
        return Some(found.error);
      }
      var change := found.value;
      if |change.required| != 3 || change.delayUntil - change.visibleSince < DAY
         || change.createdAt - change.visibleSince < 0 || change.createdAt - change.visibleSince > SECOND {
        return Some(InvalidState);
      }
      if received.None? {
        return Some(Unavailable);
      }
      var ok := CheckApprovals(received.value);
      if !ok {
        return Some(Unavailable);
      }
      e := store.UpdateProtocolChange(id, change.(approvals := received.value));
      if e.Some? {
        return;
      }
      e := ReleaseChange(id, now);
    }
  }
}
