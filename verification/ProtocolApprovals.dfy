/**
 Protocol approvals across the two services: `protocolApprovals` in
 apps/api-ts/src/governance-role/governance-role.service.ts picks three of them, and the loop of
 apps/api-go/internal/audit/approvals_http.go checks what it receives.
 */
module ProtocolApprovals {
  import opened Wrappers
  import opened Governance

  /** What goes over the wire. */
  datatype ProtocolApproval = ProtocolApproval(ref: string, approverRef: string, at: int)

  const REQUIRED: seq<string> := ["citizen_supermajority", "audit_confirmation", "body_endorsement"]

  function RefOf(kind: ApprovalType): string {
    match kind
    case CitizenSupermajority => REQUIRED[0]
    case AuditConfirmation => REQUIRED[1]
    case BodyEndorsement => REQUIRED[2]
  }

  const KINDS: seq<ApprovalType> := [CitizenSupermajority, AuditConfirmation, BodyEndorsement]

  const MAX_ROWS: nat := 100

  /** The row is of the kind, from an active citizen in term in the kind's layer. */
  predicate Eligible(s: State, a: Approval, kind: ApprovalType, now: int) {
    && a.kind == kind && a.roleID in s.roles
    && var role := s.roles[a.roleID];
       && role.layer == RequiredLayer(kind)
       && role.citizenID in s.citizens && s.citizens[role.citizenID] == Active
       && InTerm(role, now)
  }

  /** The approvals picked are one eligible row per kind, in order, with pairwise different citizens and role types. */
  ghost predicate Independent(s: State, rows: seq<Approval>, picked: seq<Approval>, now: int) {
    && |picked| <= 3
    && (forall i :: 0 <= i < |picked| ==> picked[i] in rows && Eligible(s, picked[i], KINDS[i], now))
    && (forall i, k :: 0 <= i < k < |picked| ==>
          && s.roles[picked[i].roleID].citizenID != s.roles[picked[k].roleID].citizenID
          && s.roles[picked[i].roleID].roleType != s.roles[picked[k].roleID].roleType)
  }

  function Wire(s: State, a: Approval): ProtocolApproval
    requires a.roleID in s.roles
  {
    ProtocolApproval(RefOf(a.kind), s.roles[a.roleID].citizenID, a.at)
  }

  /** The list sent for the picked rows. */
  ghost predicate Sent(s: State, picked: seq<Approval>, approvals: seq<ProtocolApproval>) {
    |approvals| == |picked| && forall i :: 0 <= i < |picked| ==> picked[i].roleID in s.roles && approvals[i] == Wire(s, picked[i])
  }

  predicate Fits(s: State, a: Approval, kind: ApprovalType, now: int, actors: set<string>, roleTypes: set<RoleType>) {
    Eligible(s, a, kind, now) && s.roles[a.roleID].citizenID !in actors && s.roles[a.roleID].roleType !in roleTypes
  }

  function FirstFit(s: State, rows: seq<Approval>, kind: ApprovalType, now: int, actors: set<string>, roleTypes: set<RoleType>)
    : (a: Option<Approval>)
    ensures a.Some? ==> a.value in rows && Fits(s, a.value, kind, now, actors, roleTypes)
    ensures a.None? ==> forall x :: x in rows ==> !Fits(s, x, kind, now, actors, roleTypes)
  {
    if rows == [] then None
    else if Fits(s, rows[0], kind, now, actors, roleTypes) then Some(rows[0])
    else FirstFit(s, rows[1..], kind, now, actors, roleTypes)
  }

  function Actors(s: State, picked: seq<Approval>): set<string> {
    set a | a in picked && a.roleID in s.roles :: s.roles[a.roleID].citizenID
  }

  function RoleTypes(s: State, picked: seq<Approval>): set<RoleType> {
    set a | a in picked && a.roleID in s.roles :: s.roles[a.roleID].roleType
  }

  /** The first n kinds, each served by the first row that fits what was taken before; None once nothing fits. */
  function Chosen(s: State, rows: seq<Approval>, n: nat, now: int): Option<seq<Approval>>
    requires n <= 3
  {
    if n == 0 then Some([])
    else
      match Chosen(s, rows, n - 1, now)
      case None => None
      case Some(before) =>
        match FirstFit(s, rows, KINDS[n - 1], now, Actors(s, before), RoleTypes(s, before))
        case None => None
        case Some(a) => Some(before + [a])
  }

  /** What is chosen is eligible and independent. */
  lemma {:induction false} ChosenAreIndependent(s: State, rows: seq<Approval>, n: nat, now: int)
    requires n <= 3 && Chosen(s, rows, n, now).Some?
    ensures |Chosen(s, rows, n, now).value| == n && Independent(s, rows, Chosen(s, rows, n, now).value, now)
  {
    if n > 0 {
      ChosenAreIndependent(s, rows, n - 1, now);
      var before := Chosen(s, rows, n - 1, now).value;
      forall i | 0 <= i < |before|
        ensures s.roles[before[i].roleID].citizenID in Actors(s, before)
        ensures s.roles[before[i].roleID].roleType in RoleTypes(s, before)
      {
        assert before[i] in before;
      }
    }
  }

  function Read(found: seq<Approval>): seq<Approval> {
    if |found| > MAX_ROWS then found[..MAX_ROWS] else found
  }

  /**
   Takes, kind by kind, the first row that is eligible and independent of those taken before. `found` are
   the approved approvals of the action in the order they come back, of which at most 100 are read.
   */
  method PickApprovals(s: State, found: seq<Approval>, now: int) returns (r: Result<seq<ProtocolApproval>, Error>)
    ensures r.Ok? ==> Chosen(s, Read(found), 3, now).Some? && Sent(s, Chosen(s, Read(found), 3, now).value, r.value)
    ensures r.Err? ==> Chosen(s, Read(found), 3, now).None? && r.error == Forbidden
  {
    var rows := if |found| > MAX_ROWS then found[..MAX_ROWS] else found;
    var actors: set<string> := {};
    var roleTypes: set<RoleType> := {};
    var approvals: seq<ProtocolApproval> := [];
    ghost var picked: seq<Approval> := [];
    for n := 0 to |KINDS|
      invariant Chosen(s, rows, n, now) == Some(picked) && Sent(s, picked, approvals)
      invariant actors == Actors(s, picked) && roleTypes == RoleTypes(s, picked)
    {
      var row := FirstFit(s, rows, KINDS[n], now, actors, roleTypes);
      if row.None? {
        NoneStaysNone(s, rows, n + 1, now);
        return Err(Forbidden);
      }
      var role := s.roles[row.value.roleID];
      PickedOneMore(s, picked, row.value);
      actors := actors + {role.citizenID};
      roleTypes := roleTypes + {role.roleType};
      approvals := approvals + [Wire(s, row.value)];
      picked := picked + [row.value];
    }
    return Ok(approvals);
  }

  lemma PickedOneMore(s: State, picked: seq<Approval>, a: Approval)
    requires a.roleID in s.roles
    ensures Actors(s, picked + [a]) == Actors(s, picked) + {s.roles[a.roleID].citizenID}
    ensures RoleTypes(s, picked + [a]) == RoleTypes(s, picked) + {s.roles[a.roleID].roleType}
  {
    assert forall x :: x in picked + [a] <==> x in picked || x == a;
  }

  lemma {:induction false} NoneStaysNone(s: State, rows: seq<Approval>, n: nat, now: int)
    requires n <= 3 && Chosen(s, rows, n, now).None?
    ensures Chosen(s, rows, 3, now).None?
    decreases 3 - n
  {
    if n < 3 {
      NoneStaysNone(s, rows, n + 1, now);
    }
  }

  /** Exactly one approval per required reference, from three different named approvers. */
  predicate Valid(approvals: seq<ProtocolApproval>) {
    && |approvals| == 3
    && (forall i :: 0 <= i < 3 ==> approvals[i].approverRef != "" && approvals[i].ref in REQUIRED)
    && (forall i, k :: 0 <= i < k < 3 ==>
          approvals[i].approverRef != approvals[k].approverRef && approvals[i].ref != approvals[k].ref)
  }

  /** The receiving service's loop, which leaves at the first conflict. */
  method CheckApprovals(approvals: seq<ProtocolApproval>) returns (ok: bool)
    ensures ok <==> Valid(approvals)
  {
    if |approvals| != 3 {
      return false;
    }
    var actors: set<string> := {};
    var types: set<string> := {};
    for i := 0 to |approvals|
      invariant forall x :: x in actors <==> exists k :: 0 <= k < i && approvals[k].approverRef == x
      invariant forall x :: x in types <==> exists k :: 0 <= k < i && approvals[k].ref == x
      invariant forall k :: 0 <= k < i ==> approvals[k].approverRef != "" && approvals[k].ref in REQUIRED
      invariant forall j, k :: 0 <= j < k < i ==>
                  approvals[j].approverRef != approvals[k].approverRef && approvals[j].ref != approvals[k].ref
    {
      var a := approvals[i];
      if a.approverRef == "" || a.approverRef in actors || a.ref in types || a.ref !in REQUIRED {
        return false;
      }
      actors := actors + {a.approverRef};
      types := types + {a.ref};
    }
    return true;
  }

  lemma RefsDiffer()
    ensures REQUIRED[0] != REQUIRED[1] && REQUIRED[0] != REQUIRED[2] && REQUIRED[1] != REQUIRED[2]
  {
    assert |REQUIRED[0]| == 21 && |REQUIRED[1]| == 18 && |REQUIRED[2]| == 16;
  }

  /** Three references from the required ones, all different, are all of them. */
  lemma ValidCoversRequired(approvals: seq<ProtocolApproval>)
    requires Valid(approvals)
    ensures forall ref :: ref in REQUIRED ==> exists i :: 0 <= i < 3 && approvals[i].ref == ref
  {
    RefsDiffer();
    var x, y, z := approvals[0].ref, approvals[1].ref, approvals[2].ref;
    assert {x, y, z} <= {REQUIRED[0], REQUIRED[1], REQUIRED[2]};
    forall ref | ref in REQUIRED
      ensures ref == x || ref == y || ref == z
    {
    }
  }

  /** Whatever the one service sends, the other accepts. */
  lemma SentIsValid(s: State, rows: seq<Approval>, approvals: seq<ProtocolApproval>, now: int)
    requires Chosen(s, rows, 3, now).Some? && Sent(s, Chosen(s, rows, 3, now).value, approvals)
    requires forall id :: id in s.citizens ==> id != ""
    ensures Valid(approvals)
  {
    RefsDiffer();
    ChosenAreIndependent(s, rows, 3, now);
    var picked := Chosen(s, rows, 3, now).value;
    forall i | 0 <= i < 3
      ensures approvals[i].ref == REQUIRED[i] && approvals[i].approverRef != ""
    {
      assert Eligible(s, picked[i], KINDS[i], now);
    }
  }

  const OFFICERS: map<string, Role> := map["r0" := Role("c0", Auditor, CitizenLayer, 0, 0),
                                           "r1" := Role("c1", Reviewer, CitizenLayer, 0, 0),
                                           "r2" := Role("c2", Auditor, AuditLayer, 0, 0),
                                           "r3" := Role("c3", ReviewBody, ProtocolLayer, 0, 0)]

  const CAST: seq<Approval> := [Approval("x", "r0", CitizenSupermajority, true, 0),
                                Approval("x", "r1", CitizenSupermajority, true, 0),
                                Approval("x", "r2", AuditConfirmation, true, 0),
                                Approval("x", "r3", BodyEndorsement, true, 0)]

  const TABLE: State := State(map["c0" := Active, "c1" := Active, "c2" := Active, "c3" := Active], OFFICERS, CAST, map[])

  /**
   Taking the first fit can miss a valid choice: here the first citizen row blocks the only audit row,
   although another citizen row would do.
   */
  lemma FirstFitCanMiss() returns (s: State, rows: seq<Approval>, good: seq<Approval>)
    ensures rows == Matching(s.approvals, "x") && |good| == 3 && Independent(s, rows, good, 0)
    ensures Chosen(s, Read(rows), 3, 0).None?
  {
    s, rows := TABLE, CAST;
    AllMatch(rows, "x");
    good := [rows[1], rows[2], rows[3]];
    GoodIsIndependent();
    StuckAfterTheFirst(s, rows, 0);
  }

  lemma GoodIsIndependent()
    ensures Independent(TABLE, CAST, [CAST[1], CAST[2], CAST[3]], 0)
  {
    var good := [CAST[1], CAST[2], CAST[3]];
    assert Eligible(TABLE, good[0], KINDS[0], 0) && Eligible(TABLE, good[1], KINDS[1], 0) && Eligible(TABLE, good[2], KINDS[2], 0);
    assert good[0] in CAST && good[1] in CAST && good[2] in CAST;
  }

  /** Once the first eligible citizen row shares its role type with every audit row, nothing is chosen. */
  lemma StuckAfterTheFirst(s: State, rows: seq<Approval>, now: int)
    requires rows != [] && Fits(s, rows[0], CitizenSupermajority, now, {}, {})
    requires forall x :: x in rows && Eligible(s, x, AuditConfirmation, now) ==>
               s.roles[x.roleID].roleType == s.roles[rows[0].roleID].roleType
    ensures Chosen(s, rows, 3, now).None?
  {
    var c := rows[0];
    assert Actors(s, []) == {} && RoleTypes(s, []) == {};
    assert KINDS[0] == CitizenSupermajority && KINDS[1] == AuditConfirmation;
    assert Chosen(s, rows, 0, now) == Some([]);
    assert Chosen(s, rows, 1, now) == Some([] + [c]);
    assert c in [] + [c];
    assert Chosen(s, rows, 2, now).None?;
    NoneStaysNone(s, rows, 2, now);
  }
}
