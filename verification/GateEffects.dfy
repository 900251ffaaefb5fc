/**
 When a protocol change is registered, gains an approval or is released, and what is then written, with every
 condition written out (apps/api-go/internal/audit/service.go, handlers.go and approvals_http.go).
 */
module GateEffects {
  import opened Wrappers
  import opened ProtocolApprovals
  import opened ProtocolGate

  /** The table with this change under this id. */
  predicate OnlyPut(before: Table, after: Table, id: string, c: Change) {
    after.Keys == before.Keys + {id} && after[id] == c && forall x :: x in before && x != id ==> after[x] == before[x]
  }

  /**
   Registered is what has a name of up to 256 characters, a visibility and a delay, and at least one required
   reference, none empty or repeated; it then has no approvals and is not released.
   */
  lemma RegisteredExactly(t: Table, id: string, input: RegisterInput, createdAt: int)
    ensures var (after, e) := RegisterChange(t, id, input, createdAt);
            && (e.None? <==>
                  && 0 < |input.changeRef| <= 256 && input.delayUntil.Some? && input.visibleSince.Some?
                  && input.required != []
                  && forall i :: 0 <= i < |input.required| ==>
                       input.required[i] != "" && forall k :: 0 <= k < i ==> input.required[i] != input.required[k])
            && (if e.None? then
                  OnlyPut(t, after, id, Change(input.changeRef, input.required, [], input.delayUntil.value, input.visibleSince.value,
                                               false, createdAt, None))
                else after == t && e == Some(Invalid))
  {
  }

  /** An approval is recorded, under both names given, for a known unreleased change without one of that reference; nothing else changes. */
  lemma RecordedExactly(t: Table, id: string, ref: string, approver: string, now: int)
    ensures var (after, e) := RecordApproval(t, id, ref, approver, now);
            && (e.None? <==>
                  && ref != "" && approver != "" && id in t && !t[id].released
                  && forall i :: 0 <= i < |t[id].approvals| ==> t[id].approvals[i].ref != ref)
            && (e.Some? ==>
                  e.value == if ref == "" || approver == "" then Invalid else if id !in t then NotFound
                             else if t[id].released then InvalidState else Conflict)
            && (if e.None? then
                  OnlyPut(t, after, id, t[id].(approvals := t[id].approvals + [ProtocolApproval(ref, approver, now)]))
                else after == t)
  {
  }

  /** Each required reference has an approval. */
  ghost predicate AllApproved(required: seq<string>, approvals: seq<ProtocolApproval>) {
    forall i :: 0 <= i < |required| ==> exists k :: 0 <= k < |approvals| && approvals[k].ref == required[i]
  }

  lemma AllApprovedIsHasRef(required: seq<string>, approvals: seq<ProtocolApproval>)
    ensures AllApproved(required, approvals) <==> forall ref :: ref in required ==> HasRef(approvals, ref)
  {
    if AllApproved(required, approvals) {
      forall ref | ref in required
        ensures HasRef(approvals, ref)
      {
        var i :| 0 <= i < |required| && required[i] == ref;
        assert exists k :: 0 <= k < |approvals| && approvals[k].ref == required[i];
      }
    }
    if forall ref :: ref in required ==> HasRef(approvals, ref) {
      forall i | 0 <= i < |required|
        ensures exists k :: 0 <= k < |approvals| && approvals[k].ref == required[i]
      {
        assert HasRef(approvals, required[i]);
      }
    }
  }

  /** The release itself: of a known, unreleased, visible change whose delay is over and that has all its approvals. */
  lemma ReleasedExactly(t: Table, id: string, now: int)
    ensures var (after, e) := ReleaseChange(t, id, now);
            && (e.None? <==>
                  && id in t && !t[id].released && AllApproved(t[id].required, t[id].approvals)
                  && t[id].delayUntil <= now && t[id].visibleSince <= now)
            && (e.Some? ==> e.value == if id in t then InvalidState else NotFound)
            && (if e.None? then OnlyPut(t, after, id, t[id].(released := true, releasedAt := Some(now))) else after == t)
  {
    if id in t {
      AllApprovedIsHasRef(t[id].required, t[id].approvals);
    }
  }

  /** One approval of each of the three kinds, in any order, from three people with names. */
  predicate ThreeKinds(approvals: seq<ProtocolApproval>) {
    && |approvals| == 3
    && (forall i :: 0 <= i < 3 ==>
          && approvals[i].approverRef != ""
          && (approvals[i].ref == "citizen_supermajority" || approvals[i].ref == "audit_confirmation"
              || approvals[i].ref == "body_endorsement"))
    && approvals[0].ref != approvals[1].ref && approvals[0].ref != approvals[2].ref && approvals[1].ref != approvals[2].ref
    && approvals[0].approverRef != approvals[1].approverRef && approvals[0].approverRef != approvals[2].approverRef
    && approvals[1].approverRef != approvals[2].approverRef
  }

  lemma ValidIsThreeKinds(approvals: seq<ProtocolApproval>)
    ensures Valid(approvals) <==> ThreeKinds(approvals)
  {
  }

  /** As a change is when the handler opens it: three references, a day's delay at least, and visible within a second of its creation. */
  predicate OpenedByHandler(c: Change) {
    && |c.required| == 3 && c.delayUntil >= c.visibleSince + 86_400_000_000_000
    && c.visibleSince <= c.createdAt && c.createdAt <= c.visibleSince + 1_000_000_000
  }

  /**
   Through the handler, a change is released exactly if it is of that shape, not released, visible and past its
   delay, and the governance service now gives three approvals, one of each kind, that cover what it requires. They
   replace the recorded ones, which they also do when they come in but are not enough or too early.
   */
  lemma HandlerReleasesExactly(t: Table, id: string, received: Option<seq<ProtocolApproval>>, now: int)
    ensures var (after, e) := HandleRelease(t, id, received, now);
            && (e.None? <==>
                  && id in t && OpenedByHandler(t[id]) && !t[id].released && received.Some? && ThreeKinds(received.value)
                  && AllApproved(t[id].required, received.value) && t[id].delayUntil <= now && t[id].visibleSince <= now)
            && (e.Some? ==>
                  e.value == if id !in t then NotFound else if !OpenedByHandler(t[id]) then InvalidState
                             else if received.None? || !ThreeKinds(received.value) then Unavailable
                             else if t[id].released then Conflict else InvalidState)
            && (if e.None? then
                  OnlyPut(t, after, id, t[id].(approvals := received.value, released := true, releasedAt := Some(now)))
                else if id in t && OpenedByHandler(t[id]) && !t[id].released && received.Some? && ThreeKinds(received.value) then
                  OnlyPut(t, after, id, t[id].(approvals := received.value))
                else after == t)
  {
    if received.Some? {
      ValidIsThreeKinds(received.value);
      if id in t {
        AllApprovedIsHasRef(t[id].required, received.value);
        ReleasedExactly(t[id := t[id].(approvals := received.value)], id, now);
      }
    }
  }
}
