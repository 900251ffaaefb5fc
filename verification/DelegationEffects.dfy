/**
 What each call of the delegation service does to the rows, and what a revocation is good for in every run
 (apps/api-go/internal/delegation/service.go and store.go). Rows are described by their fields alone.
 */
module DelegationEffects {
  import opened Wrappers
  import opened DelegationGraph
  import opened DelegationCycles
  import opened Delegation
  import opened DelegationListings

  /** Every row but this one is as before. */
  predicate OthersSame(t: Table, t': Table, id: string) {
    t'.Keys - {id} == t.Keys - {id} && forall x :: x in t && x != id ==> x in t' && t'[x] == t[x]
  }

  /** A row that was revoked, whenever and by whom, takes part in nothing at any time. */
  predicate OutOfForce(t: Table, id: string) {
    id in t && t[id].revokedAt.Some?
  }

  /**
   The delegator's revocation is without error and takes the row out of force, keeping an earlier time; nothing
   else about the row or the table changes. Anyone else's, or one of an unknown row, changes nothing.
   */
  lemma RevocationRevokes(t: Table, id: string, caller: string, now: int)
    ensures var (t', e) := Revoke(t, id, caller, now);
            if id in t && caller != "" && t[id].delegatorID == caller then
              && e == None && OutOfForce(t', id) && OthersSame(t, t', id)
              && t'[id].revokedAt.value == (if t[id].revokedAt.Some? then t[id].revokedAt.value else now)
              && t'[id].delegatorID == t[id].delegatorID && t'[id].delegateID == t[id].delegateID
              && t'[id].domainID == t[id].domainID && t'[id].expiresAt == t[id].expiresAt
            else
              t' == t && e == Some(if id in t then Invalid else NotFound)
  {
  }

  /** ... and the store then lists it in no domain at no time. */
  lemma RevokedIsNeverListed(t: Table, id: string, caller: string, now: int, domain: string, later: int, ids: seq<string>)
    requires id in t && caller != "" && t[id].delegatorID == caller
    requires ListsRows(Revoke(t, id, caller, now).0, domain, later, ids)
    ensures id !in ids
  {
    RevocationRevokes(t, id, caller, now);
  }

  /** With nobody else's delegation of the citizen in the domain, the citizen then votes directly. */
  lemma RevokingEndsTheChain(t: Table, id: string, caller: string, now: int, later: int, ids: seq<string>, chain: seq<string>)
    requires id in t && caller != "" && t[id].delegatorID == caller
    requires forall x :: x in t && x != id && t[x].delegatorID == caller ==>
               t[x].domainID != t[id].domainID || t[x].revokedAt.Some? || t[x].expiresAt <= later
    requires ListsRows(Revoke(t, id, caller, now).0, t[id].domainID, later, ids)
    requires IsChain(NextMap(EdgesOf(Revoke(t, id, caller, now).0, ids)), caller, chain)
    ensures chain == []
  {
    var t' := Revoke(t, id, caller, now).0;
    var edges := EdgesOf(t', ids);
    assert |chain| > 0 ==> chain[0] == Walk(NextMap(edges), caller, 1) != "";
    RevocationRevokes(t, id, caller, now);
    NextMapIsEdges(edges, caller);
    forall e | e in EdgeSet(edges)
      ensures e.from != caller
    {
      var k :| 0 <= k < |edges| && edges[k] == e;
      assert ids[k] in ids;
    }
    assert Walk(NextMap(edges), caller, 0) == caller && Walk(NextMap(edges), caller, 1) == "";
  }

  /** After a sweep no row is due: those that were have this time as their revocation, all others are as before. */
  lemma SweepRevokesTheDue(t: Table, now: int)
    ensures var t' := ExpireDue(t, now);
            && t'.Keys == t.Keys
            && forall id :: id in t ==>
                 && (t'[id].revokedAt.Some? || t'[id].expiresAt > now)
                 && if t[id].revokedAt.None? && t[id].expiresAt <= now then
                      OutOfForce(t', id) && t'[id].revokedAt.value == now && t'[id].(revokedAt := None) == t[id]
                    else t'[id] == t[id]
  {
  }

  /** A creation is accepted exactly on these grounds, and then adds this row and changes no other. */
  lemma CreationAdds(t: Table, input: CreateInput, competent: bool, listed: seq<Edge>, id: string, now: int)
    requires id !in t
    ensures var (t', e) := Create(t, input, competent, listed, id, now);
            && (e.None? <==>
                  && 0 < |input.delegatorID| <= 256 && 0 < |input.delegateID| <= 256 && 0 < |input.domainID| <= 256
                  && input.delegatorID != input.delegateID && competent
                  && input.expiresAt.Some? && now < input.expiresAt.value
                  && !CreatesCycleSpec(listed, input.delegatorID, input.delegateID))
            && (if e.None? then
                  && id in t' && OthersSame(t, t', id) && t'[id].revokedAt.None?
                  && t'[id].delegatorID == input.delegatorID && t'[id].delegateID == input.delegateID
                  && t'[id].domainID == input.domainID && Some(t'[id].expiresAt) == input.expiresAt
                else t' == t)
  {
  }

  /**
   Where nobody has two delegates, a well-formed creation for a competent delegate is accepted exactly when the
   delegate does not already delegate, directly or through others, to the delegator.
   */
  lemma AcceptedIffNotLeadingBack(t: Table, input: CreateInput, listed: seq<Edge>, id: string, now: int)
    requires GraphSound(Graph(t, input.domainID, now)) && Listing(t, input.domainID, now, listed)
    requires 0 < |input.delegatorID| <= 256 && 0 < |input.delegateID| <= 256 && 0 < |input.domainID| <= 256
    requires input.delegatorID != input.delegateID && input.expiresAt.Some? && now < input.expiresAt.value
    ensures Create(t, input, true, listed, id, now).1.None? <==>
            !Reaches(Graph(t, input.domainID, now), input.delegateID, input.delegatorID)
  {
    CheckDecidesCycles(listed, input.delegatorID, input.delegateID);
    EdgeClosesCycleIffTargetLeadsBack(EdgeSet(listed), Edge(input.delegatorID, input.delegateID));
  }

  /** What is listed as active: neither revoked nor expired, in the domain. */
  lemma ListedExactly(t: Table, domain: string, now: int, ids: seq<string>, id: string)
    requires ListsRows(t, domain, now, ids)
    ensures id in ids <==> id in t && t[id].domainID == domain && t[id].revokedAt.None? && now < t[id].expiresAt
  {
  }

  // ----- over runs -----

  /** Any calls whatever, in any order and at any times. */
  ghost predicate Calls(t: Table, calls: seq<(Request, int)>, t': Table)
    decreases |calls|
  {
    if calls == [] then t' == t
    else exists next :: Step(t, calls[0].0, calls[0].1, next) && Calls(next, calls[1..], t')
  }

  /** The row is still there, about the same delegation, and if it was revoked then it is, since the same time. */
  predicate StillThere(t: Table, t': Table, id: string)
    requires id in t
  {
    && id in t' && t'[id].(revokedAt := None) == t[id].(revokedAt := None)
    && (t[id].revokedAt.Some? ==> t'[id].revokedAt == t[id].revokedAt)
  }

  lemma StepKeepsRow(t: Table, r: Request, now: int, t': Table, id: string)
    requires id in t && Step(t, r, now, t')
    ensures StillThere(t, t', id)
  {
  }

  /** A delegation that was revoked is never in force again, and no delegation ever changes or vanishes. */
  lemma {:induction false} RevokedForGood(t: Table, calls: seq<(Request, int)>, t': Table, id: string)
    requires id in t && Calls(t, calls, t')
    ensures StillThere(t, t', id)
    ensures OutOfForce(t, id) ==> OutOfForce(t', id)
    decreases |calls|
  {
    if calls != [] {
      var next :| Step(t, calls[0].0, calls[0].1, next) && Calls(next, calls[1..], t');
      StepKeepsRow(t, calls[0].0, calls[0].1, next, id);
      RevokedForGood(next, calls[1..], t', id);
    }
  }

  /** Once its delegator has revoked it, whatever is called afterwards, the store lists it nowhere. */
  lemma RevocationIsForGood(t: Table, id: string, caller: string, now: int, calls: seq<(Request, int)>, t': Table,
                            domain: string, later: int, ids: seq<string>)
    requires id in t && caller != "" && t[id].delegatorID == caller
    requires Calls(Revoke(t, id, caller, now).0, calls, t') && ListsRows(t', domain, later, ids)
    ensures id !in ids
  {
    RevocationRevokes(t, id, caller, now);
    RevokedForGood(Revoke(t, id, caller, now).0, calls, t', id);
  }
}
