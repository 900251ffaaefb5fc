/**
 Approvals by governance role holders and the revocation of citizens that rests on them
 (apps/api-ts/src/governance-role/governance-role.service.ts and
 apps/api-ts/src/identity/identity-revocation.service.ts), as tables and what each call turns them into.

 The database returns rows in no particular order; wherever the source takes the first match, the choice
 is an argument of the call.
 */
module Governance {
  import opened Wrappers

  datatype RoleType = Auditor | Reviewer | Oversight | Operator | PlatformOperator | ReviewBody

  datatype Layer = ProtocolLayer | ImplementationLayer | AuditLayer | CitizenLayer

  datatype ApprovalType = CitizenSupermajority | AuditConfirmation | BodyEndorsement

  datatype Role = Role(citizenID: string, roleType: RoleType, layer: Layer, termStart: int, termEnd: int)

  datatype Approval = Approval(actionRef: string, roleID: string, kind: ApprovalType, approved: bool, at: int)

  datatype CitizenStatus = Pending | Active | Inactive | Revoked

  datatype Revocation = Revocation(citizenID: string, executed: bool)

  datatype Error = NotFound | Forbidden | Conflict | InvalidState

  datatype State = State(citizens: map<string, CitizenStatus>, roles: map<string, Role>, approvals: seq<Approval>,
                         revocations: map<string, Revocation>)

  const Empty: State := State(map[], map[], [], map[])

  function RequiredLayer(kind: ApprovalType): Layer {
    match kind
    case CitizenSupermajority => CitizenLayer
    case AuditConfirmation => AuditLayer
    case BodyEndorsement => ProtocolLayer
  }

  predicate InTerm(r: Role, today: int) {
    r.termStart <= today <= r.termEnd
  }

  // ----- action references -----

  const REVOKE: string := "identity:revoke:"

  function ActionRefFor(citizenID: string): string {
    REVOKE + citizenID
  }

  /** The characters a dot does not match in the source's pattern. */
  predicate LineBreak(c: char) {
    c == '\n' || c == '\r' || c == '\U{2028}' || c == '\U{2029}'
  }

  predicate OneLine(s: string) {
    forall i :: 0 <= i < |s| ==> !LineBreak(s[i])
  }

  /** The citizen a reference targets, as the approval side reads it back out of the string. */
  function TargetOf(actionRef: string): Option<string> {
    if |actionRef| > |REVOKE| && actionRef[..|REVOKE|] == REVOKE && OneLine(actionRef[|REVOKE|..])
      then Some(actionRef[|REVOKE|..])
    else None
  }

  /** Reading back inverts writing exactly for non-empty single-line ids, which UUIDs are. */
  lemma TargetInvertsActionRef(id: string)
    ensures TargetOf(ActionRefFor(id)) == Some(id) <==> id != "" && OneLine(id)
    ensures forall actionRef :: TargetOf(actionRef) == Some(id) ==> actionRef == ActionRefFor(id)
  {
    assert ActionRefFor(id)[..|REVOKE|] == REVOKE && ActionRefFor(id)[|REVOKE|..] == id;
    forall actionRef | TargetOf(actionRef) == Some(id)
      ensures actionRef == ActionRefFor(id)
    {
      assert actionRef == actionRef[..|REVOKE|] + actionRef[|REVOKE|..];
    }
  }

  // ----- submitting an approval -----

  /** The role the lookup may return: one of the citizen's in the layer and in term, if there is any. */
  predicate MayFind(s: State, citizen: string, layer: Layer, today: int, found: Option<string>) {
    match found
    case Some(id) => id in s.roles && s.roles[id].citizenID == citizen && s.roles[id].layer == layer && InTerm(s.roles[id], today)
    case None => forall id :: id in s.roles ==>
                   !(s.roles[id].citizenID == citizen && s.roles[id].layer == layer && InTerm(s.roles[id], today))
  }

  /** Whether a recorded approval came from a role this citizen has ever held. */
  predicate ByCitizen(s: State, a: Approval, citizen: string) {
    a.roleID in s.roles && s.roles[a.roleID].citizenID == citizen
  }

  predicate HasApproved(s: State, citizen: string, actionRef: string) {
    exists i :: 0 <= i < |s.approvals| && s.approvals[i].actionRef == actionRef && ByCitizen(s, s.approvals[i], citizen)
  }

  function SubmitApproval(s: State, citizen: string, actionRef: string, kind: ApprovalType, approved: bool,
                          found: Option<string>, at: int): (State, Option<Error>)
  {
    if !(citizen in s.citizens && s.citizens[citizen] == Active) then (s, Some(Forbidden))
    else if TargetOf(actionRef) == Some(citizen) then (s, Some(Forbidden))
    else if found.None? then (s, Some(Forbidden))
    else if HasApproved(s, citizen, actionRef) then (s, Some(Conflict))
    else (s.(approvals := s.approvals + [Approval(actionRef, found.value, kind, approved, at)]), None)
  }

  // ----- the two-person gate -----

  /** The approved approvals of an action, in table order. */
  function Matching(approvals: seq<Approval>, actionRef: string): seq<Approval> {
    if approvals == [] then []
    else
      var front, last := approvals[..|approvals| - 1], approvals[|approvals| - 1];
      Matching(front, actionRef) + if last.actionRef == actionRef && last.approved then [last] else []
  }

  lemma {:induction false} AllMatch(rows: seq<Approval>, actionRef: string)
    requires forall i :: 0 <= i < |rows| ==> rows[i].actionRef == actionRef && rows[i].approved
    ensures Matching(rows, actionRef) == rows
  {
    if rows != [] {
      AllMatch(rows[..|rows| - 1], actionRef);
    }
  }

  /** The first row of a kind. */
  function Find(rows: seq<Approval>, kind: ApprovalType): Option<Approval> {
    if rows == [] then None
    else if rows[0].kind == kind then Some(rows[0])
    else Find(rows[1..], kind)
  }

  predicate RolesKnown(s: State, rows: seq<Approval>) {
    forall a :: a in rows ==> a.roleID in s.roles
  }

  /** One audit confirmation and one body endorsement, from different citizens in different role types. */
  predicate Pair(s: State, a: Approval, b: Approval)
    requires a.roleID in s.roles && b.roleID in s.roles
  {
    && a.kind == AuditConfirmation && b.kind == BodyEndorsement
    && s.roles[a.roleID].citizenID != s.roles[b.roleID].citizenID
    && s.roles[a.roleID].roleType != s.roles[b.roleID].roleType
  }

  lemma {:induction false} FoundIsARow(rows: seq<Approval>, kind: ApprovalType)
    ensures Find(rows, kind).Some? ==> Find(rows, kind).value in rows && Find(rows, kind).value.kind == kind
    ensures Find(rows, kind).None? <==> forall a :: a in rows ==> a.kind != kind
  {
    if rows != [] {
      FoundIsARow(rows[1..], kind);
      assert rows == [rows[0]] + rows[1..];
    }
  }

  /** The source's check: it looks only at the first row of either kind. */
  predicate IsFullyApproved(s: State, rows: seq<Approval>)
    requires RolesKnown(s, rows)
  {
    FoundIsARow(rows, AuditConfirmation);
    FoundIsARow(rows, BodyEndorsement);
    var audit, body := Find(rows, AuditConfirmation), Find(rows, BodyEndorsement);
    audit.Some? && body.Some? && Pair(s, audit.value, body.value)
  }

  /** Some pair of rows would do. */
  ghost predicate SomePair(s: State, rows: seq<Approval>)
    requires RolesKnown(s, rows)
  {
    exists a, b :: a in rows && b in rows && Pair(s, a, b)
  }

  /** There is a row of either kind, and every two of them would do. */
  ghost predicate EveryPair(s: State, rows: seq<Approval>)
    requires RolesKnown(s, rows)
  {
    && (exists a :: a in rows && a.kind == AuditConfirmation)
    && (exists b :: b in rows && b.kind == BodyEndorsement)
    && (forall a, b :: a in rows && b in rows && a.kind == AuditConfirmation && b.kind == BodyEndorsement ==> Pair(s, a, b))
  }

  function ToFront(rows: seq<Approval>, i: nat): (r: seq<Approval>)
    requires i < |rows|
    ensures multiset(r) == multiset(rows) && r[0] == rows[i]
    ensures i > 0 ==> |r| > 1 && r[1] == rows[0]
    ensures forall a :: a in r <==> a in rows
  {
    assert rows == rows[..i] + [rows[i]] + rows[i + 1..];
    var r := [rows[i]] + rows[..i] + rows[i + 1..];
    assert multiset(r) == multiset(rows);
    assert forall a :: a in r <==> a in multiset(r);
    assert forall a :: a in rows <==> a in multiset(rows);
    r
  }

  /** An order of the rows in which a and b are the ones the check looks at. */
  lemma OrderFor(s: State, rows: seq<Approval>, a: Approval, b: Approval) returns (order: seq<Approval>)
    requires RolesKnown(s, rows) && a in rows && b in rows
    requires a.kind == AuditConfirmation && b.kind == BodyEndorsement
    ensures multiset(order) == multiset(rows) && RolesKnown(s, order)
    ensures IsFullyApproved(s, order) <==> Pair(s, a, b)
  {
    var i :| 0 <= i < |rows| && rows[i] == b;
    var once := ToFront(rows, i);
    var k :| 0 <= k < |once| && once[k] == a;
    order := ToFront(once, k);
    FindInFront(order);
  }

  lemma FindInFront(rows: seq<Approval>)
    requires |rows| > 1 && rows[0].kind == AuditConfirmation && rows[1].kind == BodyEndorsement
    ensures Find(rows, AuditConfirmation) == Some(rows[0])
    ensures Find(rows, BodyEndorsement) == Some(rows[1])
  {
    assert Find(rows[1..], BodyEndorsement) == Some(rows[1]);
  }

  lemma SameRows(rows: seq<Approval>, order: seq<Approval>)
    requires multiset(order) == multiset(rows)
    ensures forall a :: a in order <==> a in rows
  {
    assert forall a :: a in order <==> a in multiset(order);
    assert forall a :: a in rows <==> a in multiset(rows);
  }

  /** The gate opens in some order of the rows exactly when some two of them qualify. */
  lemma OpensInSomeOrderIff(s: State, rows: seq<Approval>)
    requires RolesKnown(s, rows)
    ensures (exists order :: multiset(order) == multiset(rows) && RolesKnown(s, order) && IsFullyApproved(s, order))
            <==> SomePair(s, rows)
  {
    if order :| multiset(order) == multiset(rows) && RolesKnown(s, order) && IsFullyApproved(s, order) {
      SameRows(rows, order);
      FoundIsARow(order, AuditConfirmation);
      FoundIsARow(order, BodyEndorsement);
    }
    if SomePair(s, rows) {
      var a, b :| a in rows && b in rows && Pair(s, a, b);
      var order := OrderFor(s, rows, a, b);
    }
  }

  /**
   ... and in every order exactly when there is a row of either kind and any two of them qualify. In
   between, the answer depends on the order in which the database happens to return the rows.
   */
  lemma OpensInEveryOrderIff(s: State, rows: seq<Approval>)
    requires RolesKnown(s, rows)
    ensures (forall order :: multiset(order) == multiset(rows) && RolesKnown(s, order) ==> IsFullyApproved(s, order))
            <==> EveryPair(s, rows)
  {
    if EveryPair(s, rows) {
      forall order | multiset(order) == multiset(rows) && RolesKnown(s, order)
        ensures IsFullyApproved(s, order)
      {
        SameRows(rows, order);
        FoundIsARow(order, AuditConfirmation);
        FoundIsARow(order, BodyEndorsement);
      }
    }
    if forall order :: multiset(order) == multiset(rows) && RolesKnown(s, order) ==> IsFullyApproved(s, order) {
      FoundIsARow(rows, AuditConfirmation);
      FoundIsARow(rows, BodyEndorsement);
      forall a, b | a in rows && b in rows && a.kind == AuditConfirmation && b.kind == BodyEndorsement
        ensures Pair(s, a, b)
      {
        var order := OrderFor(s, rows, a, b);
      }
    }
  }

  // ----- revoking a citizen -----

  function Request(s: State, citizenID: string, actorIsOperator: bool): (State, Option<Error>) {
    if !actorIsOperator then (s, Some(Forbidden))
    else if citizenID !in s.citizens then (s, Some(NotFound))
    else if s.citizens[citizenID] == Revoked then (s, Some(InvalidState))
    else if ActionRefFor(citizenID) in s.revocations then (s, Some(Conflict))
    else (s.(revocations := s.revocations[ActionRefFor(citizenID) := Revocation(citizenID, false)]), None)
  }

  /** `rows` is the order in which the approved approvals of the action come back. */
  function Execute(s: State, actionRef: string, rows: seq<Approval>): (State, Option<Error>)
    requires RolesKnown(s, rows)
  {
    if actionRef !in s.revocations then (s, Some(NotFound))
    else
      var r := s.revocations[actionRef];
      if r.executed then (s, Some(InvalidState))
      else if !IsFullyApproved(s, rows) then (s, Some(InvalidState))
      else if r.citizenID !in s.citizens then (s, Some(NotFound))
      else (s.(revocations := s.revocations[actionRef := r.(executed := true)],
               citizens := s.citizens[r.citizenID := Revoked]), None)
  }
}
