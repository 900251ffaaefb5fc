/**
 When approvals, revocation requests and revocations succeed and what they then write, described by the fields of
 the rows (apps/api-ts/src/governance-role/governance-role.service.ts and
 apps/api-ts/src/identity/identity-revocation.service.ts).
 */
module GovernanceEffects {
  import opened Wrappers
  import opened Runs
  import opened Governance
  import opened RevocationRuns
  import opened ProtocolApprovals

  // ----- approvals -----

  /** A role in which the citizen may give this kind of approval today. */
  predicate MayApproveIn(s: State, id: string, citizen: string, kind: ApprovalType, today: int) {
    && id in s.roles && s.roles[id].citizenID == citizen
    && s.roles[id].termStart <= today && today <= s.roles[id].termEnd
    && (kind == CitizenSupermajority ==> s.roles[id].layer == CitizenLayer)
    && (kind == AuditConfirmation ==> s.roles[id].layer == AuditLayer)
    && (kind == BodyEndorsement ==> s.roles[id].layer == ProtocolLayer)
  }

  /** The reference names the revocation of this citizen, whose id is not empty and has no line break. */
  predicate IsOwnRevocation(actionRef: string, citizen: string) {
    && actionRef == "identity:revoke:" + citizen && citizen != ""
    && '\n' !in citizen && '\r' !in citizen && '\U{2028}' !in citizen && '\U{2029}' !in citizen
  }

  lemma TargetIsOwn(actionRef: string, citizen: string)
    ensures TargetOf(actionRef) == Some(citizen) <==> IsOwnRevocation(actionRef, citizen)
  {
    TargetInvertsActionRef(citizen);
  }

  /** An approval of the action, whichever way it was decided, was given in a role of the citizen. */
  ghost predicate ApprovedBefore(s: State, citizen: string, actionRef: string) {
    exists i :: 0 <= i < |s.approvals| && s.approvals[i].actionRef == actionRef
      && s.approvals[i].roleID in s.roles && s.roles[s.approvals[i].roleID].citizenID == citizen
  }

  /**
   An approval is taken exactly from an active citizen, not about themselves, with a role in the right layer in
   term, who has not approved the action before; it is then one row more, and nothing else.
   */
  lemma SubmissionAddsOneRow(s: State, citizen: string, actionRef: string, kind: ApprovalType, approved: bool,
                             found: Option<string>, at: int)
    requires MayFind(s, citizen, RequiredLayer(kind), at, found)
    ensures var (t, e) := SubmitApproval(s, citizen, actionRef, kind, approved, found, at);
            && (e.None? <==>
                  && citizen in s.citizens && s.citizens[citizen] == Active && !IsOwnRevocation(actionRef, citizen)
                  && (exists id :: MayApproveIn(s, id, citizen, kind, at)) && !ApprovedBefore(s, citizen, actionRef))
            && (e.Some? ==>
                  e.value == if (citizen in s.citizens && s.citizens[citizen] == Active) && !IsOwnRevocation(actionRef, citizen)
                                && found.Some? then Conflict else Forbidden)
            && (if e.None? then
                  && found.Some? && MayApproveIn(s, found.value, citizen, kind, at)
                  && t.approvals == s.approvals + [Approval(actionRef, found.value, kind, approved, at)]
                  && t.citizens == s.citizens && t.roles == s.roles && t.revocations == s.revocations
                else t == s)
  {
    TargetIsOwn(actionRef, citizen);
    FoundIsMayApprove(s, citizen, kind, at, found);
  }

  lemma FoundIsMayApprove(s: State, citizen: string, kind: ApprovalType, at: int, found: Option<string>)
    requires MayFind(s, citizen, RequiredLayer(kind), at, found)
    ensures found.Some? ==> MayApproveIn(s, found.value, citizen, kind, at)
    ensures found.None? <==> forall id :: !MayApproveIn(s, id, citizen, kind, at)
  {
    forall id
      ensures MayApproveIn(s, id, citizen, kind, at) <==>
              && id in s.roles && s.roles[id].citizenID == citizen && s.roles[id].layer == RequiredLayer(kind)
              && InTerm(s.roles[id], at)
    {
    }
  }

  // ----- the gate -----

  /** The row is the first of its kind. */
  predicate FirstOf(rows: seq<Approval>, i: int, kind: ApprovalType) {
    0 <= i < |rows| && rows[i].kind == kind && forall k :: 0 <= k < i ==> rows[k].kind != kind
  }

  lemma {:induction false} FindIsFirst(rows: seq<Approval>, kind: ApprovalType)
    ensures Find(rows, kind).Some? ==> exists i :: FirstOf(rows, i, kind)
    ensures forall i :: FirstOf(rows, i, kind) ==> Find(rows, kind) == Some(rows[i])
  {
    if rows != [] && rows[0].kind != kind {
      FindIsFirst(rows[1..], kind);
      if i :| FirstOf(rows[1..], i, kind) {
        assert FirstOf(rows, i + 1, kind);
      }
      forall i | FirstOf(rows, i, kind)
        ensures Find(rows, kind) == Some(rows[i])
      {
        assert FirstOf(rows[1..], i - 1, kind) by {
          assert forall k :: 0 <= k < i - 1 ==> rows[1..][k] == rows[k + 1];
        }
      }
    } else if rows != [] {
      assert FirstOf(rows, 0, kind);
    }
  }

  /** The first audit confirmation and the first body endorsement come from two citizens in two role types. */
  ghost predicate GateOpen(s: State, rows: seq<Approval>)
    requires RolesKnown(s, rows)
  {
    exists i, k :: FirstOf(rows, i, AuditConfirmation) && FirstOf(rows, k, BodyEndorsement)
      && s.roles[rows[i].roleID].citizenID != s.roles[rows[k].roleID].citizenID
      && s.roles[rows[i].roleID].roleType != s.roles[rows[k].roleID].roleType
  }

  lemma GateIsOpenExactly(s: State, rows: seq<Approval>)
    requires RolesKnown(s, rows)
    ensures IsFullyApproved(s, rows) <==> GateOpen(s, rows)
  {
    FindIsFirst(rows, AuditConfirmation);
    FindIsFirst(rows, BodyEndorsement);
    if IsFullyApproved(s, rows) {
      var i, k :| FirstOf(rows, i, AuditConfirmation) && FirstOf(rows, k, BodyEndorsement);
    }
  }

  // ----- revocations -----

  /** A request succeeds exactly for an operator and a known, unrevoked citizen with no revocation yet; it waits for execution. */
  lemma RequestOpensOne(s: State, citizenID: string, actorIsOperator: bool)
    ensures var (t, e) := Request(s, citizenID, actorIsOperator);
            && (e.None? <==>
                  && actorIsOperator && citizenID in s.citizens && s.citizens[citizenID] != Revoked
                  && "identity:revoke:" + citizenID !in s.revocations)
            && (e.Some? ==>
                  e.value == if !actorIsOperator then Forbidden else if citizenID !in s.citizens then NotFound
                             else if s.citizens[citizenID] == Revoked then InvalidState else Conflict)
            && t.citizens == s.citizens && t.roles == s.roles && t.approvals == s.approvals
            && t.revocations ==
               if e.None? then s.revocations["identity:revoke:" + citizenID := Revocation(citizenID, false)] else s.revocations
  {
  }

  /** A revocation that is known and has not been executed is executed exactly if the gate is open; the citizen is then revoked. */
  lemma ExecutionRevokes(s: State, actionRef: string, rows: seq<Approval>)
    requires RolesKnown(s, rows)
    ensures var (t, e) := Execute(s, actionRef, rows);
            && (e.None? <==>
                  && actionRef in s.revocations && !s.revocations[actionRef].executed && GateOpen(s, rows)
                  && s.revocations[actionRef].citizenID in s.citizens)
            && (e.Some? ==>
                  e.value == if actionRef in s.revocations && (s.revocations[actionRef].executed || !GateOpen(s, rows)) then InvalidState
                             else NotFound)
            && t.roles == s.roles && t.approvals == s.approvals
            && (if e.None? then
                  && t.citizens == s.citizens[s.revocations[actionRef].citizenID := Revoked]
                  && t.revocations == s.revocations[actionRef := Revocation(s.revocations[actionRef].citizenID, true)]
                else t == s)
  {
    GateIsOpenExactly(s, rows);
  }

  /** Of all calls, only the execution of a citizen's own revocation through the open gate revokes, and it always does. */
  lemma OnlyTheOpenGateRevokes(s: State, c: Call, id: string)
    requires RevocationsNamed(s) && Premise(s, c) && id in s.citizens && s.citizens[id] != Revoked
    ensures id in Advance(s, c).citizens
    ensures Advance(s, c).citizens[id] == Revoked <==>
            && c.DoExecute? && c.actionRef == "identity:revoke:" + id && c.actionRef in s.revocations
            && !s.revocations[c.actionRef].executed && RolesKnown(s, c.rows) && GateOpen(s, c.rows)
  {
    if c.DoExecute? && RolesKnown(s, c.rows) {
      ExecutionRevokes(s, c.actionRef, c.rows);
      if c.actionRef in s.revocations {
        SamePrefix(s.revocations[c.actionRef].citizenID, id);
      }
    }
  }

  lemma SamePrefix(a: string, b: string)
    ensures ActionRefFor(a) == ActionRefFor(b) ==> a == b
  {
    assert ActionRefFor(a)[|REVOKE|..] == a && ActionRefFor(b)[|REVOKE|..] == b;
  }

  predicate Executed(s: State, actionRef: string) {
    actionRef in s.revocations && s.revocations[actionRef].executed
  }

  lemma StaysExecuted(s: State, c: Call, actionRef: string)
    requires RevocationsNamed(s) && Premise(s, c) && Executed(s, actionRef)
    ensures Executed(Advance(s, c), actionRef)
    ensures c.DoExecute? && c.actionRef == actionRef && RolesKnown(s, c.rows) ==> Execute(s, actionRef, c.rows).1.Some?
  {
  }

  /** A revocation is executed at most once in any run. */
  lemma ExecutedOnce(s: State, calls: seq<Call>, n: nat, actionRef: string)
    requires Sound(s) && Admissible(Advance, Premise, s, calls) && n < |calls| && Executed(s, actionRef)
    ensures Executed(After(Advance, s, calls, n), actionRef)
    ensures calls[n].DoExecute? && calls[n].actionRef == actionRef && RolesKnown(After(Advance, s, calls, n), calls[n].rows) ==>
              Execute(After(Advance, s, calls, n), actionRef, calls[n].rows).1.Some?
  {
    var kept := (s: State) => Executed(s, actionRef);
    CallsPreserve();
    forall s, c | Sound(s) && kept(s) && Premise(s, c)
      ensures kept(Advance(s, c))
    {
      StaysExecuted(s, c, actionRef);
    }
    HoldsFromThere(Advance, Premise, Sound, kept, s, calls, 0, n);
    InvariantHolds(Advance, Premise, Sound, s, calls, n);
    assert Premise(After(Advance, s, calls, n), calls[n]);
    StaysExecuted(After(Advance, s, calls, n), calls[n], actionRef);
  }

  // ----- protocol approvals -----

  /** The row counts towards the kind: an active citizen's, in term, in the layer of the kind. */
  predicate Counts(s: State, a: Approval, kind: ApprovalType, layer: Layer, now: int) {
    && a.kind == kind && a.roleID in s.roles && s.roles[a.roleID].layer == layer
    && s.roles[a.roleID].citizenID in s.citizens && s.citizens[s.roles[a.roleID].citizenID] == Active
    && s.roles[a.roleID].termStart <= now && now <= s.roles[a.roleID].termEnd
  }

  lemma EligibleCounts(s: State, a: Approval, now: int)
    ensures Eligible(s, a, CitizenSupermajority, now) <==> Counts(s, a, CitizenSupermajority, CitizenLayer, now)
    ensures Eligible(s, a, AuditConfirmation, now) <==> Counts(s, a, AuditConfirmation, AuditLayer, now)
    ensures Eligible(s, a, BodyEndorsement, now) <==> Counts(s, a, BodyEndorsement, ProtocolLayer, now)
  {
  }

  predicate Apart(s: State, a: Approval, b: Approval) {
    && a.roleID in s.roles && b.roleID in s.roles
    && s.roles[a.roleID].citizenID != s.roles[b.roleID].citizenID && s.roles[a.roleID].roleType != s.roles[b.roleID].roleType
  }

  /** Citizens, auditors and the body, all from these rows, all counting today and independent of each other. */
  predicate Three(s: State, rows: seq<Approval>, a: Approval, b: Approval, c: Approval, now: int) {
    && a in rows && b in rows && c in rows
    && Counts(s, a, CitizenSupermajority, CitizenLayer, now)
    && Counts(s, b, AuditConfirmation, AuditLayer, now)
    && Counts(s, c, BodyEndorsement, ProtocolLayer, now)
    && Apart(s, a, b) && Apart(s, a, c) && Apart(s, b, c)
  }

  /** What is picked out of the first hundred rows and sent are three such approvals, under their names and approvers. */
  lemma PickedAreThree(s: State, found: seq<Approval>, approvals: seq<ProtocolApproval>, now: int)
    returns (a: Approval, b: Approval, c: Approval)
    requires Chosen(s, Read(found), 3, now).Some? && Sent(s, Chosen(s, Read(found), 3, now).value, approvals)
    ensures Three(s, if |found| > 100 then found[..100] else found, a, b, c, now)
    ensures approvals == [ProtocolApproval("citizen_supermajority", s.roles[a.roleID].citizenID, a.at),
                          ProtocolApproval("audit_confirmation", s.roles[b.roleID].citizenID, b.at),
                          ProtocolApproval("body_endorsement", s.roles[c.roleID].citizenID, c.at)]
  {
    ChosenAreIndependent(s, Read(found), 3, now);
    var picked := Chosen(s, Read(found), 3, now).value;
    a, b, c := picked[0], picked[1], picked[2];
    assert Eligible(s, a, KINDS[0], now) && Eligible(s, b, KINDS[1], now) && Eligible(s, c, KINDS[2], now);
    EligibleCounts(s, a, now);
    EligibleCounts(s, b, now);
    EligibleCounts(s, c, now);
    assert approvals[0] == Wire(s, a) && approvals[1] == Wire(s, b) && approvals[2] == Wire(s, c);
  }
}
