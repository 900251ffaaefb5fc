/**
 Who can revoke a citizen, over whole runs: approvals, role assignments, registrations and revocation
 requests in any interleaving, with the database returning rows in any order.
 */
module RevocationRuns {
  import opened Wrappers
  import opened Runs
  import opened Governance

  datatype Call =
    | DoRegister(id: string)
    | DoActivate(id: string)
    | DoAddRole(roleID: string, role: Role)
    | DoSetTerm(roleID: string, termStart: int, termEnd: int)
    | DoSubmit(citizen: string, actionRef: string, kind: ApprovalType, approved: bool, found: Option<string>, at: int)
    | DoRequest(citizenID: string, actorIsOperator: bool)
    | DoExecute(actionRef: string, rows: seq<Approval>)

  function Advance(s: State, c: Call): State {
    match c
    case DoRegister(id) => if id in s.citizens then s else s.(citizens := s.citizens[id := Pending])
    case DoActivate(id) =>
      if id in s.citizens && s.citizens[id] == Pending then s.(citizens := s.citizens[id := Active]) else s
    case DoAddRole(id, role) => s.(roles := s.roles[id := role])
    case DoSetTerm(id, from, to) =>
      if id in s.roles then s.(roles := s.roles[id := s.roles[id].(termStart := from, termEnd := to)]) else s
    case DoSubmit(citizen, actionRef, kind, approved, found, at) =>
      SubmitApproval(s, citizen, actionRef, kind, approved, found, at).0
    case DoRequest(id, operator) => Request(s, id, operator).0
    case DoExecute(actionRef, rows) => if RolesKnown(s, rows) then Execute(s, actionRef, rows).0 else s
  }

  /** Ids are new and single-line, lookups return some matching row, and all matching rows come back. */
  predicate Premise(s: State, c: Call) {
    match c
    case DoRegister(id) => id != "" && OneLine(id)
    case DoAddRole(id, _) => id !in s.roles
    case DoSubmit(citizen, _, kind, _, found, at) => MayFind(s, citizen, RequiredLayer(kind), at, found)
    case DoExecute(actionRef, rows) => multiset(rows) == multiset(Matching(s.approvals, actionRef))
    case _ => true
  }

  // ----- the invariant -----

  /** Every approval was given in a known role, never by the citizen it is about. */
  ghost predicate NobodyApprovesOwnCase(s: State) {
    forall a :: a in s.approvals ==> a.roleID in s.roles && TargetOf(a.actionRef) != Some(s.roles[a.roleID].citizenID)
  }

  /** No citizen has given two approvals for one action, in whatever roles. */
  ghost predicate OneApprovalEach(s: State) {
    forall i, k :: 0 <= i < k < |s.approvals| && s.approvals[i].actionRef == s.approvals[k].actionRef ==>
      && s.approvals[i].roleID in s.roles && s.approvals[k].roleID in s.roles
      && s.roles[s.approvals[i].roleID].citizenID != s.roles[s.approvals[k].roleID].citizenID
  }

  ghost predicate RevocationsNamed(s: State) {
    && (forall r :: r in s.revocations ==> r == ActionRefFor(s.revocations[r].citizenID) && s.revocations[r].citizenID in s.citizens)
    && (forall id :: id in s.citizens ==> id != "" && OneLine(id))
  }

  /** Two approved approvals of the citizen's own action, of the two types, by two others in different role types. */
  ghost predicate Justifies(s: State, id: string, a: Approval, b: Approval) {
    && a in s.approvals && b in s.approvals && a.approved && b.approved
    && a.actionRef == ActionRefFor(id) && b.actionRef == ActionRefFor(id)
    && a.roleID in s.roles && b.roleID in s.roles && Pair(s, a, b)
    && s.roles[a.roleID].citizenID != id && s.roles[b.roleID].citizenID != id
  }

  ghost predicate Justified(s: State, id: string) {
    exists a, b :: Justifies(s, id, a, b)
  }

  ghost predicate RevokedAreJustified(s: State) {
    forall id :: id in s.citizens && s.citizens[id] == Revoked ==> Justified(s, id)
  }

  ghost predicate Sound(s: State) {
    NobodyApprovesOwnCase(s) && OneApprovalEach(s) && RevocationsNamed(s) && RevokedAreJustified(s)
  }

  lemma {:induction false} MatchingExact(approvals: seq<Approval>, actionRef: string, a: Approval)
    ensures a in Matching(approvals, actionRef) <==> a in approvals && a.actionRef == actionRef && a.approved
  {
    if approvals != [] {
      var front := approvals[..|approvals| - 1];
      MatchingExact(front, actionRef, a);
      assert approvals == front + [approvals[|approvals| - 1]];
    }
  }

  /** What was justified stays so while approvals are only added and roles only gain terms. */
  lemma JustifiedStays(s: State, t: State, id: string)
    requires Justified(s, id)
    requires forall a :: a in s.approvals ==> a in t.approvals
    requires forall r :: r in s.roles ==> r in t.roles
                                          && t.roles[r].citizenID == s.roles[r].citizenID
                                          && t.roles[r].roleType == s.roles[r].roleType
    ensures Justified(t, id)
  {
    var a, b :| Justifies(s, id, a, b);
    assert Justifies(t, id, a, b);
  }

  lemma ApprovedIsJustified(s: State, id: string, rows: seq<Approval>)
    requires NobodyApprovesOwnCase(s) && id != "" && OneLine(id)
    requires multiset(rows) == multiset(Matching(s.approvals, ActionRefFor(id)))
    requires RolesKnown(s, rows) && IsFullyApproved(s, rows)
    ensures Justified(s, id)
  {
    SameRows(Matching(s.approvals, ActionRefFor(id)), rows);
    FoundIsARow(rows, AuditConfirmation);
    FoundIsARow(rows, BodyEndorsement);
    var a, b := Find(rows, AuditConfirmation).value, Find(rows, BodyEndorsement).value;
    MatchingExact(s.approvals, ActionRefFor(id), a);
    MatchingExact(s.approvals, ActionRefFor(id), b);
    TargetInvertsActionRef(id);
    assert Justifies(s, id, a, b);
  }

  lemma SubmitKeeps(s: State, c: Call)
    requires Sound(s) && c.DoSubmit? && Premise(s, c)
    ensures Sound(Advance(s, c))
  {
    var t := Advance(s, c);
    if t != s {
      var a := t.approvals[|s.approvals|];
      assert t.approvals == s.approvals + [a];
      forall i | 0 <= i < |s.approvals| && s.approvals[i].actionRef == a.actionRef
        ensures s.approvals[i].roleID in s.roles && s.roles[s.approvals[i].roleID].citizenID != c.citizen
      {
        assert s.approvals[i] in s.approvals && !ByCitizen(s, s.approvals[i], c.citizen);
      }
      forall id | id in t.citizens && t.citizens[id] == Revoked
        ensures Justified(t, id)
      {
        JustifiedStays(s, t, id);
      }
    }
  }

  lemma ExecuteKeeps(s: State, actionRef: string, rows: seq<Approval>)
    requires Sound(s) && multiset(rows) == multiset(Matching(s.approvals, actionRef)) && RolesKnown(s, rows)
    ensures Sound(Execute(s, actionRef, rows).0)
  {
    var t := Execute(s, actionRef, rows).0;
    if t != s {
      var id := s.revocations[actionRef].citizenID;
      ApprovedIsJustified(s, id, rows);
      forall x | x in t.citizens && t.citizens[x] == Revoked
        ensures Justified(t, x)
      {
        assert x == id || s.citizens[x] == Revoked;
        JustifiedStays(s, t, x);
      }
    }
  }

  lemma RoleChangeKeeps(s: State, id: string, role: Role)
    requires Sound(s)
    requires id in s.roles ==> role.citizenID == s.roles[id].citizenID && role.roleType == s.roles[id].roleType
    ensures Sound(s.(roles := s.roles[id := role]))
  {
    var t := s.(roles := s.roles[id := role]);
    forall x | x in t.citizens && t.citizens[x] == Revoked
      ensures Justified(t, x)
    {
      JustifiedStays(s, t, x);
    }
  }

  lemma SameApprovalsKeep(s: State, t: State)
    requires Sound(s) && t.approvals == s.approvals && t.roles == s.roles && RevocationsNamed(t)
    requires forall id :: id in t.citizens && t.citizens[id] == Revoked ==> id in s.citizens && s.citizens[id] == Revoked
    ensures Sound(t)
  {
    forall x | x in t.citizens && t.citizens[x] == Revoked
      ensures Justified(t, x)
    {
      JustifiedStays(s, t, x);
    }
  }

  lemma CallsPreserve()
    ensures Preserves(Advance, Premise, Sound)
  {
    forall s, c | Sound(s) && Premise(s, c)
      ensures Sound(Advance(s, c))
    {
      CallKeeps(s, c);
    }
  }

  lemma CallKeeps(s: State, c: Call)
    requires Sound(s) && Premise(s, c)
    ensures Sound(Advance(s, c))
  {
    match c
    case DoRegister(id) => SameApprovalsKeep(s, Advance(s, c));
    case DoActivate(id) => SameApprovalsKeep(s, Advance(s, c));
    case DoAddRole(id, role) => RoleChangeKeeps(s, id, role);
    case DoSetTerm(id, from, to) =>
      if id in s.roles {
        RoleChangeKeeps(s, id, s.roles[id].(termStart := from, termEnd := to));
      }
    case DoSubmit(_, _, _, _, _, _) => SubmitKeeps(s, c);
    case DoRequest(id, operator) => SameApprovalsKeep(s, Advance(s, c));
    case DoExecute(actionRef, rows) =>
      if RolesKnown(s, rows) {
        ExecuteKeeps(s, actionRef, rows);
      }
  }

  lemma StartIsSound()
    ensures Sound(Empty)
  {
  }

  /**
   In every state any run reaches, a revoked citizen was revoked on two approved approvals of that
   citizen's own action: an audit confirmation and a body endorsement, given by two different citizens
   in different role types, neither of them the citizen in question.
   */
  lemma NobodyIsRevokedWithoutTwoOthers(calls: seq<Call>, n: nat, id: string)
    requires Admissible(Advance, Premise, Empty, calls) && n <= |calls|
    requires id in After(Advance, Empty, calls, n).citizens && After(Advance, Empty, calls, n).citizens[id] == Revoked
    ensures Justified(After(Advance, Empty, calls, n), id)
  {
    CallsPreserve();
    InvariantHolds(Advance, Premise, Sound, Empty, calls, n);
    assert RevokedAreJustified(After(Advance, Empty, calls, n));
  }

  /** Nobody ever approves an action twice or approves their own revocation. */
  lemma ApprovalsStayIndependent(calls: seq<Call>, n: nat)
    requires Admissible(Advance, Premise, Empty, calls) && n <= |calls|
    ensures OneApprovalEach(After(Advance, Empty, calls, n))
    ensures NobodyApprovesOwnCase(After(Advance, Empty, calls, n))
  {
    CallsPreserve();
    InvariantHolds(Advance, Premise, Sound, Empty, calls, n);
  }

  /** Revocation is final: whatever is called later, the citizen stays revoked. */
  lemma RevokedForGood(s: State, calls: seq<Call>, i: nat, n: nat, id: string)
    requires Sound(s) && Admissible(Advance, Premise, s, calls) && i <= n <= |calls|
    requires IsRevoked(After(Advance, s, calls, i), id)
    ensures IsRevoked(After(Advance, s, calls, n), id)
  {
    var kept := (s: State) => IsRevoked(s, id);
    CallsPreserve();
    forall s, c | Sound(s) && kept(s) && Premise(s, c)
      ensures kept(Advance(s, c))
    {
      StaysRevoked(s, c, id);
    }
    HoldsFromThere(Advance, Premise, Sound, kept, s, calls, i, n);
  }

  predicate IsRevoked(s: State, id: string) {
    id in s.citizens && s.citizens[id] == Revoked
  }

  lemma StaysRevoked(s: State, c: Call, id: string)
    requires IsRevoked(s, id)
    ensures IsRevoked(Advance(s, c), id)
  {
  }

  // ----- the gate over a table that a run reaches -----

  const CASE: string := ActionRefFor("w")

  /** A citizen who joins and is activated. */
  lemma Arrive(calls: seq<Call>, s: State, id: string) returns (more: seq<Call>)
    requires Leads(Advance, Premise, Empty, calls, s) && id != "" && OneLine(id) && id !in s.citizens
    ensures Leads(Advance, Premise, Empty, more, s.(citizens := s.citizens[id := Active]))
  {
    var pending := s.(citizens := s.citizens[id := Pending]);
    LeadsOn(Advance, Premise, Empty, calls, s, DoRegister(id));
    assert Advance(s, DoRegister(id)) == pending;
    more := calls + [DoRegister(id)];
    LeadsOn(Advance, Premise, Empty, more, pending, DoActivate(id));
    more := more + [DoActivate(id)];
    assert pending.citizens[id := Active] == s.citizens[id := Active];
  }

  /** ... and gets a role. */
  lemma Join(calls: seq<Call>, s: State, id: string, roleID: string, role: Role) returns (more: seq<Call>)
    requires Leads(Advance, Premise, Empty, calls, s)
    requires id != "" && OneLine(id) && id !in s.citizens && roleID !in s.roles
    ensures Leads(Advance, Premise, Empty, more, s.(citizens := s.citizens[id := Active], roles := s.roles[roleID := role]))
  {
    more := Arrive(calls, s, id);
    LeadsOn(Advance, Premise, Empty, more, s.(citizens := s.citizens[id := Active]), DoAddRole(roleID, role));
    more := more + [DoAddRole(roleID, role)];
  }

  /** A citizen who approves the case. */
  lemma Approve(calls: seq<Call>, s: State, id: string, roleID: string, kind: ApprovalType) returns (more: seq<Call>)
    requires Leads(Advance, Premise, Empty, calls, s)
    requires id in s.citizens && s.citizens[id] == Active && id != "w" && !HasApproved(s, id, CASE)
    requires roleID in s.roles && s.roles[roleID].citizenID == id && s.roles[roleID].layer == RequiredLayer(kind)
    requires InTerm(s.roles[roleID], 0)
    ensures Leads(Advance, Premise, Empty, more, s.(approvals := s.approvals + [Approval(CASE, roleID, kind, true, 0)]))
  {
    TargetInvertsActionRef("w");
    var c := DoSubmit(id, CASE, kind, true, Some(roleID), 0);
    LeadsOn(Advance, Premise, Empty, calls, s, c);
    more := calls + [c];
  }

  const AUDITOR: Role := Role("x", Operator, AuditLayer, 0, 0)
  const SAMETYPE: Role := Role("y", Operator, ProtocolLayer, 0, 0)
  const OTHERTYPE: Role := Role("z", ReviewBody, ProtocolLayer, 0, 0)

  lemma ThreeOfficers() returns (calls: seq<Call>, s: State)
    ensures Leads(Advance, Premise, Empty, calls, s) && s.approvals == []
    ensures s.citizens == map["x" := Active, "y" := Active, "z" := Active]
    ensures s.roles == map["rx" := AUDITOR, "ry" := SAMETYPE, "rz" := OTHERTYPE]
  {
    calls := Join([], Empty, "x", "rx", AUDITOR);
    s := State(map["x" := Active], map["rx" := AUDITOR], [], map[]);
    assert Empty.(citizens := Empty.citizens["x" := Active], roles := Empty.roles["rx" := AUDITOR]) == s;
    calls := Join(calls, s, "y", "ry", SAMETYPE);
    s := s.(citizens := s.citizens["y" := Active], roles := s.roles["ry" := SAMETYPE]);
    calls := Join(calls, s, "z", "rz", OTHERTYPE);
    s := s.(citizens := s.citizens["z" := Active], roles := s.roles["rz" := OTHERTYPE]);
  }

  function Given(roleID: string, kind: ApprovalType): Approval {
    Approval(CASE, roleID, kind, true, 0)
  }

  const APPROVALS: seq<Approval> := [Given("rx", AuditConfirmation), Given("ry", BodyEndorsement), Given("rz", BodyEndorsement)]

  lemma ThreeApprovals() returns (calls: seq<Call>, s: State)
    ensures Leads(Advance, Premise, Empty, calls, s)
    ensures s.approvals == APPROVALS && s.roles == map["rx" := AUDITOR, "ry" := SAMETYPE, "rz" := OTHERTYPE]
  {
    calls, s := ThreeOfficers();
    calls := Approve(calls, s, "x", "rx", AuditConfirmation);
    s := s.(approvals := s.approvals + [Given("rx", AuditConfirmation)]);
    calls := Approve(calls, s, "y", "ry", BodyEndorsement);
    s := s.(approvals := s.approvals + [Given("ry", BodyEndorsement)]);
    calls := Approve(calls, s, "z", "rz", BodyEndorsement);
    s := s.(approvals := s.approvals + [Given("rz", BodyEndorsement)]);
  }

  /**
   A run after which the gate for one action is open or shut depending on the order in which its three approved
   approvals come back: the second body endorsement would do, the first is from a holder of the auditor's role type.
   */
  lemma SameTableBothAnswers() returns (calls: seq<Call>, s: State, rows: seq<Approval>, rows': seq<Approval>)
    ensures Leads(Advance, Premise, Empty, calls, s) && rows == Matching(s.approvals, CASE)
    ensures multiset(rows') == multiset(rows) && RolesKnown(s, rows) && RolesKnown(s, rows')
    ensures !IsFullyApproved(s, rows) && IsFullyApproved(s, rows')
  {
    calls, s := ThreeApprovals();
    rows, rows' := APPROVALS, SWAPPED;
    AllAreOfTheCase();
    SwapKeepsRows(Given("rx", AuditConfirmation), Given("ry", BodyEndorsement), Given("rz", BodyEndorsement));
    BothAnswers(s);
  }

  lemma AllAreOfTheCase()
    ensures Matching(APPROVALS, CASE) == APPROVALS
  {
    AllMatch(APPROVALS, CASE);
  }

  lemma SwapKeepsRows<T>(a: T, b: T, c: T)
    ensures multiset([a, c, b]) == multiset([a, b, c])
  {
  }

  const SWAPPED: seq<Approval> := [Given("rx", AuditConfirmation), Given("rz", BodyEndorsement), Given("ry", BodyEndorsement)]

  lemma BothAnswers(s: State)
    requires s.roles == map["rx" := AUDITOR, "ry" := SAMETYPE, "rz" := OTHERTYPE]
    ensures RolesKnown(s, APPROVALS) && !IsFullyApproved(s, APPROVALS)
    ensures RolesKnown(s, SWAPPED) && IsFullyApproved(s, SWAPPED)
  {
    GateOf(s, Given("rx", AuditConfirmation), Given("ry", BodyEndorsement), Given("rz", BodyEndorsement));
    GateOf(s, Given("rx", AuditConfirmation), Given("rz", BodyEndorsement), Given("ry", BodyEndorsement));
  }

  lemma GateOf(s: State, a: Approval, b: Approval, c: Approval)
    requires a.kind == AuditConfirmation && b.kind == c.kind == BodyEndorsement
    requires a.roleID in s.roles && b.roleID in s.roles && c.roleID in s.roles
    ensures RolesKnown(s, [a, b, c]) && (IsFullyApproved(s, [a, b, c]) <==> Pair(s, a, b))
  {
    FindInFront([a, b, c]);
  }
}
