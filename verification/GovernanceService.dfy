/**
 The approval and revocation services over their tables, in the source's own shape: each call looks rows up
 in whatever order they come, and writes at most the rows `Governance` says.
 */
module GovernanceService {
  import opened Wrappers
  import opened Governance

  class Database {
    var citizens: map<string, CitizenStatus>
    var roles: map<string, Role>
    var approvals: seq<Approval>
    var revocations: map<string, Revocation>

    ghost function View(): State
      reads this
    {
      State(citizens, roles, approvals, revocations)
    }

    constructor ()
      ensures View() == Empty
    {
      citizens, roles, approvals, revocations := map[], map[], [], map[];
    }

    /** Some role of the citizen in the layer and in term, whichever row the query meets first. */
    method FindActiveRole(citizen: string, layer: Layer, today: int) returns (found: Option<string>)
      ensures MayFind(View(), citizen, layer, today, found)
    {
      var rest := roles.Keys;
      while rest != {}
        invariant rest <= roles.Keys
        invariant forall id :: id in roles && id !in rest ==>
                    !(roles[id].citizenID == citizen && roles[id].layer == layer && InTerm(roles[id], today))
      {
        var id :| id in rest;
        rest := rest - {id};
        if roles[id].citizenID == citizen && roles[id].layer == layer && InTerm(roles[id], today) {
          return Some(id);
        }
      }
      return None;
    }

    /** Compares every recorded approval of the action with every role the citizen has ever held. */
    method AlreadyApproved(citizen: string, actionRef: string) returns (already: bool)
      ensures already == HasApproved(View(), citizen, actionRef)
    {
      var mine := set id | id in roles && roles[id].citizenID == citizen;
      for i := 0 to |approvals|
        invariant forall k :: 0 <= k < i ==> !(approvals[k].actionRef == actionRef && ByCitizen(View(), approvals[k], citizen))
      {
        if approvals[i].actionRef == actionRef && approvals[i].roleID in mine {
          return true;
        }
      }
      return false;
    }

    method SubmitApproval(citizen: string, actionRef: string, kind: ApprovalType, approved: bool, today: int)
      returns (e: Option<Error>, ghost found: Option<string>)
      modifies this`approvals
      ensures MayFind(old(View()), citizen, RequiredLayer(kind), today, found)
      ensures (View(), e) == Governance.SubmitApproval(old(View()), citizen, actionRef, kind, approved, found, today)
    {
      found := SomethingIsFound(View(), citizen, RequiredLayer(kind), today);
      if citizen !in citizens || citizens[citizen] != Active {
        return Some(Forbidden), found;
      }
      if TargetOf(actionRef) == Some(citizen) {
        return Some(Forbidden), found;
      }
      var ownRole := FindActiveRole(citizen, RequiredLayer(kind), today);
      found := ownRole;
      if ownRole.None? {
        return Some(Forbidden), found;
      }
      var already := AlreadyApproved(citizen, actionRef);
      if already {
        return Some(Conflict), found;
      }
      approvals := approvals + [Approval(actionRef, ownRole.value, kind, approved, today)];
      e := None;
    }

    /** The gate looks at the first row of either kind and at nothing else. */
    method CheckFullyApproved(rows: seq<Approval>) returns (ok: bool)
      requires RolesKnown(View(), rows)
      ensures ok == IsFullyApproved(View(), rows)
    {
      FoundIsARow(rows, AuditConfirmation);
      FoundIsARow(rows, BodyEndorsement);
      var audit := Find(rows, AuditConfirmation);
      var body := Find(rows, BodyEndorsement);
      if audit.None? || body.None? {
        return false;
      }
      if roles[audit.value.roleID].citizenID == roles[body.value.roleID].citizenID {
        return false;
      }
      if roles[audit.value.roleID].roleType == roles[body.value.roleID].roleType {
        return false;
      }
      return true;
    }

    method RequestRevocation(citizenID: string, actorIsOperator: bool) returns (e: Option<Error>)
      modifies this`revocations
      ensures (View(), e) == Request(old(View()), citizenID, actorIsOperator)
    {
      if !actorIsOperator {
        return Some(Forbidden);
      }
      if citizenID !in citizens {
        return Some(NotFound);
      }
      if citizens[citizenID] == Revoked {
        return Some(InvalidState);
      }
      var ref := ActionRefFor(citizenID);
      if ref in revocations {
        return Some(Conflict);
      }
      revocations := revocations[ref := Revocation(citizenID, false)];
      e := None;
    }

    /** Both rows are written in one transaction, or neither. */
    method ExecuteRevocation(actionRef: string, rows: seq<Approval>) returns (e: Option<Error>)
      requires RolesKnown(View(), rows)
      modifies this`revocations, this`citizens
      ensures (View(), e) == Execute(old(View()), actionRef, rows)
    {
      if actionRef !in revocations {
        return Some(NotFound);
      }
      var revocation := revocations[actionRef];
      if revocation.executed {
        return Some(InvalidState);
      }
      var approved := CheckFullyApproved(rows);
      if !approved {
        return Some(InvalidState);
      }
      if revocation.citizenID !in citizens {
        return Some(NotFound);
      }
      revocations := revocations[actionRef := revocation.(executed := true)];
      citizens := citizens[revocation.citizenID := Revoked];
      e := None;
    }
  }

  /** Every lookup has an answer. */
  lemma SomethingIsFound(s: State, citizen: string, layer: Layer, today: int) returns (found: Option<string>)
    ensures MayFind(s, citizen, layer, today, found)
  {
    if id :| id in s.roles && s.roles[id].citizenID == citizen && s.roles[id].layer == layer && InTerm(s.roles[id], today) {
      found := Some(id);
    } else {
      found := None;
    }
  }
}
