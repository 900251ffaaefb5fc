/**
 Dual control over whole runs of proposals, endorsements, revocations and role changes: what an allowed
 request rests on, what is final, and which calls can widen access.
 */
module IamRuns {
  import opened Wrappers
  import opened Runs
  import opened Governance
  import opened Iam

  datatype Call =
    | DoProposePolicy(id: string, citizen: string, terms: Terms)
    | DoProposeAttachment(id: string, citizen: string, policyId: string, principalRef: string)
    | DoEndorse(citizen: string, t: Target, approved: bool)
    | DoRevoke(citizen: string, t: Target)
    | DoChangeRoles(holders: set<(string, RoleType)>)

  function Perform(s: Access, c: Call): (Access, Option<IamError>) {
    match c
    case DoProposePolicy(id, citizen, terms) => ProposePolicy(s, id, citizen, terms)
    case DoProposeAttachment(id, citizen, policyId, principalRef) => ProposeAttachment(s, id, citizen, policyId, principalRef)
    case DoEndorse(citizen, t, approved) => Endorse(s, citizen, t, approved)
    case DoRevoke(citizen, t) => Iam.Revoke(s, citizen, t)
    case DoChangeRoles(holders) => (s.(holders := holders), None)
  }

  function Step(s: Access, c: Call): Access {
    Perform(s, c).0
  }

  /** New rows get new ids. */
  predicate Premise(s: Access, c: Call) {
    match c
    case DoProposePolicy(id, _, _) => id !in s.policies
    case DoProposeAttachment(id, _, _, _) => id !in s.attachments
    case _ => true
  }

  // ----- the invariant -----

  /** Only a decided target has an endorsement, and only one. */
  ghost predicate DecidedOnce(s: Access) {
    && (forall e :: e in s.endorsements ==> Known(s, e.0) && StatusOf(s, e.0) != PendingApproval)
    && (forall e, f :: e in s.endorsements && f in s.endorsements && e.0 == f.0 ==> e == f)
  }

  ghost predicate WellLinked(s: Access) {
    forall a :: a in s.attachments ==> s.attachments[a].policyId in s.policies && s.attachments[a].status != Rejected
  }

  ghost predicate Sound(s: Access) {
    DecidedOnce(s) && WellLinked(s)
  }

  lemma StartIsSound()
    ensures Sound(Nothing)
  {
  }

  /** Setting the status of a known target changes no other target and no terms. */
  lemma OnlyTheStatusMoves(s: Access, t: Target, status: ReviewStatus, u: Target)
    requires Known(s, t)
    ensures Known(WithStatus(s, t, status), u) <==> Known(s, u)
    ensures Known(s, u) ==> ProposerOf(WithStatus(s, t, status), u) == ProposerOf(s, u)
    ensures Known(s, u) ==> StatusOf(WithStatus(s, t, status), u) == if u == t then status else StatusOf(s, u)
  {
  }

  lemma StatusKeepsLinks(s: Access, t: Target, status: ReviewStatus)
    requires WellLinked(s) && Known(s, t) && (t.AttachmentTarget? ==> status != Rejected)
    ensures WellLinked(WithStatus(s, t, status))
  {
  }

  lemma EndorseKeeps(s: Access, citizen: string, t: Target, approved: bool)
    requires Sound(s)
    ensures Sound(Endorse(s, citizen, t, approved).0)
  {
    if Endorse(s, citizen, t, approved).1.None? {
      var status := Decided(t, approved);
      var moved := WithStatus(s, t, status);
      StatusKeepsLinks(s, t, status);
      forall u {:trigger Known(s, u)} | Known(s, u)
        ensures Known(moved, u) && StatusOf(moved, u) == if u == t then status else StatusOf(s, u)
      {
        OnlyTheStatusMoves(s, t, status, u);
      }
      EndorsementsStayDecided(s, moved, t, citizen, approved);
    }
  }

  lemma EndorsementsStayDecided(s: Access, moved: Access, t: Target, citizen: string, approved: bool)
    requires DecidedOnce(s) && WellLinked(moved) && Known(s, t) && StatusOf(s, t) == PendingApproval
    requires moved.endorsements == s.endorsements
    requires forall u {:trigger Known(s, u)} :: Known(s, u) ==>
               Known(moved, u) && (StatusOf(moved, u) == if u == t then Decided(t, approved) else StatusOf(s, u))
    ensures Sound(moved.(endorsements := s.endorsements[(t, citizen) := approved]))
  {
    var after := moved.(endorsements := s.endorsements[(t, citizen) := approved]);
    forall e | e in after.endorsements
      ensures Known(after, e.0) && StatusOf(after, e.0) != PendingApproval
    {
      if e != (t, citizen) {
        assert e in s.endorsements;
      }
      assert Known(s, e.0) && Known(moved, e.0);
      assert StatusOf(after, e.0) == StatusOf(moved, e.0);
    }
    forall e, f | e in after.endorsements && f in after.endorsements && e.0 == f.0
      ensures e == f
    {
      assert e != (t, citizen) ==> e in s.endorsements && e.0 != t;
      assert f != (t, citizen) ==> f in s.endorsements && f.0 != t;
    }
  }

  lemma RevokeKeeps(s: Access, citizen: string, t: Target)
    requires Sound(s)
    ensures Sound(Iam.Revoke(s, citizen, t).0)
  {
    if Iam.Revoke(s, citizen, t).1.None? {
      var after := WithStatus(s, t, Withdrawn);
      StatusKeepsLinks(s, t, Withdrawn);
      forall e | e in after.endorsements
        ensures Known(after, e.0) && StatusOf(after, e.0) != PendingApproval
      {
        assert Known(s, e.0) && StatusOf(s, e.0) != PendingApproval;
        OnlyTheStatusMoves(s, t, Withdrawn, e.0);
      }
    }
  }

  lemma ProposalKeeps(s: Access, c: Call)
    requires Sound(s) && Premise(s, c) && (c.DoProposePolicy? || c.DoProposeAttachment? || c.DoChangeRoles?)
    ensures Sound(Step(s, c))
  {
    var after := Step(s, c);
    forall e | e in after.endorsements
      ensures Known(after, e.0) && StatusOf(after, e.0) != PendingApproval
    {
      assert e in s.endorsements && Known(s, e.0) && StatusOf(s, e.0) != PendingApproval;
    }
  }

  lemma CallsPreserve()
    ensures Preserves(Step, Premise, Sound)
  {
    forall s, c | Sound(s) && Premise(s, c)
      ensures Sound(Step(s, c))
    {
      if c.DoEndorse? {
        EndorseKeeps(s, c.citizen, c.t, c.approved);
      } else if c.DoRevoke? {
        RevokeKeeps(s, c.citizen, c.t);
      } else {
        ProposalKeeps(s, c);
      }
    }
  }

  /** In every reachable state the uniqueness of endorsements is never what stops one: a decided target is not pending. */
  lemma NoEndorsementIsEverADuplicate(calls: seq<Call>, n: nat, citizen: string, t: Target, approved: bool)
    requires Admissible(Step, Premise, Nothing, calls) && n <= |calls|
    ensures Endorse(After(Step, Nothing, calls, n), citizen, t, approved).1 != Some(Duplicate)
    ensures DecidedOnce(After(Step, Nothing, calls, n))
  {
    StartIsSound();
    CallsPreserve();
    InvariantHolds(Step, Premise, Sound, Nothing, calls, n);
    var s := After(Step, Nothing, calls, n);
    assert DecidedOnce(s);
    assert (t, citizen) in s.endorsements ==> Known(s, (t, citizen).0) && StatusOf(s, (t, citizen).0) != PendingApproval;
  }

  // ----- what puts a target in force -----

  predicate Active(s: Access, t: Target) {
    Known(s, t) && StatusOf(s, t) == InForce
  }

  /** An approval by someone other than the proposer who shares an operator role with them at this moment. */
  predicate ApprovedByAnother(s: Access, c: Call, t: Target) {
    && c.DoEndorse? && c.approved && c.t == t
    && Known(s, t) && StatusOf(s, t) == PendingApproval
    && c.citizen != ProposerOf(s, t) && ShareRole(s, ProposerOf(s, t), c.citizen)
  }

  lemma EndorseActivates(s: Access, c: Call, t: Target)
    requires Sound(s) && c.DoEndorse? && !Active(s, t)
    ensures Active(Step(s, c), t) <==> ApprovedByAnother(s, c, t)
  {
    if Known(s, c.t) {
      OnlyTheStatusMoves(s, c.t, Decided(c.t, c.approved), t);
      assert (c.t, c.citizen) in s.endorsements ==> StatusOf(s, (c.t, c.citizen).0) != PendingApproval;
    }
  }

  lemma OnlyApprovalActivates(s: Access, c: Call, t: Target)
    requires Sound(s) && Premise(s, c) && !Active(s, t)
    ensures Active(Step(s, c), t) <==> ApprovedByAnother(s, c, t)
  {
    if c.DoEndorse? {
      EndorseActivates(s, c, t);
    } else if c.DoRevoke? {
      if Known(s, c.t) {
        OnlyTheStatusMoves(s, c.t, Withdrawn, t);
      }
    }
  }

  // ----- what stays -----

  /** What was proposed, and by whom. */
  predicate SameProposal(s: Access, after: Access, t: Target)
    requires Known(s, t)
  {
    && Known(after, t)
    && match t
       case PolicyTarget(id) =>
         after.policies[id].terms == s.policies[id].terms && after.policies[id].proposedBy == s.policies[id].proposedBy
       case AttachmentTarget(id) =>
         after.attachments[id].(status := s.attachments[id].status) == s.attachments[id]
  }

  lemma ProposalStays(s: Access, c: Call, t: Target)
    requires Known(s, t) && Premise(s, c)
    ensures SameProposal(s, Step(s, c), t)
  {
  }

  /** What is in force is what was proposed: no call ever changes a proposal. */
  lemma NothingIsRewritten(calls: seq<Call>, i: nat, n: nat, t: Target)
    requires Admissible(Step, Premise, Nothing, calls) && i <= n <= |calls|
    requires Known(After(Step, Nothing, calls, i), t)
    ensures SameProposal(After(Step, Nothing, calls, i), After(Step, Nothing, calls, n), t)
  {
    var from := After(Step, Nothing, calls, i);
    var kept := (s: Access) => Known(from, t) && SameProposal(from, s, t);
    StartIsSound();
    CallsPreserve();
    forall s, c | Sound(s) && kept(s) && Premise(s, c)
      ensures kept(Step(s, c))
    {
      ProposalStays(s, c, t);
    }
    HoldsFromThere(Step, Premise, Sound, kept, Nothing, calls, i, n);
  }

  predicate WithdrawnFor(s: Access, t: Target) {
    Known(s, t) && StatusOf(s, t) == Withdrawn
  }

  lemma WithdrawnStays(s: Access, c: Call, t: Target)
    requires WithdrawnFor(s, t) && Premise(s, c)
    ensures WithdrawnFor(Step(s, c), t)
  {
    if c.DoEndorse? && Known(s, c.t) {
      OnlyTheStatusMoves(s, c.t, Decided(c.t, c.approved), t);
    } else if c.DoRevoke? && Known(s, c.t) {
      OnlyTheStatusMoves(s, c.t, Withdrawn, t);
    }
  }

  /** Revocation, and the rejection of an attachment, are final. */
  lemma WithdrawnForGood(calls: seq<Call>, i: nat, n: nat, t: Target)
    requires Admissible(Step, Premise, Nothing, calls) && i <= n <= |calls|
    requires WithdrawnFor(After(Step, Nothing, calls, i), t)
    ensures WithdrawnFor(After(Step, Nothing, calls, n), t)
  {
    var kept := (s: Access) => WithdrawnFor(s, t);
    StartIsSound();
    CallsPreserve();
    forall s, c | Sound(s) && kept(s) && Premise(s, c)
      ensures kept(Step(s, c))
    {
      WithdrawnStays(s, c, t);
    }
    HoldsFromThere(Step, Premise, Sound, kept, Nothing, calls, i, n);
  }

  predicate RuledOut(s: Access, t: Target) {
    Known(s, t) && (StatusOf(s, t) == Rejected || StatusOf(s, t) == Withdrawn)
  }

  lemma RuledOutStays(s: Access, c: Call, t: Target)
    requires RuledOut(s, t) && Premise(s, c)
    ensures RuledOut(Step(s, c), t)
  {
    if c.DoEndorse? && Known(s, c.t) {
      OnlyTheStatusMoves(s, c.t, Decided(c.t, c.approved), t);
    } else if c.DoRevoke? && Known(s, c.t) {
      OnlyTheStatusMoves(s, c.t, Withdrawn, t);
    }
  }

  /** What was turned down or revoked never comes into force. */
  lemma RejectedForGood(calls: seq<Call>, i: nat, n: nat, t: Target)
    requires Admissible(Step, Premise, Nothing, calls) && i <= n <= |calls|
    requires RuledOut(After(Step, Nothing, calls, i), t)
    ensures !Active(After(Step, Nothing, calls, n), t)
  {
    var kept := (s: Access) => RuledOut(s, t);
    StartIsSound();
    CallsPreserve();
    forall s, c | Sound(s) && kept(s) && Premise(s, c)
      ensures kept(Step(s, c))
    {
      RuledOutStays(s, c, t);
    }
    HoldsFromThere(Step, Premise, Sound, kept, Nothing, calls, i, n);
    assert RuledOut(After(Step, Nothing, calls, n), t);
  }

  // ----- what an allowed request rests on -----

  lemma ActiveWasApproved(calls: seq<Call>, n: nat, t: Target) returns (m: nat)
    requires Admissible(Step, Premise, Nothing, calls) && n <= |calls|
    requires Active(After(Step, Nothing, calls, n), t)
    ensures m < n && ApprovedByAnother(After(Step, Nothing, calls, m), calls[m], t)
    ensures SameProposal(After(Step, Nothing, calls, m), After(Step, Nothing, calls, n), t)
  {
    var made := (s: Access) => Active(s, t);
    m := MadeToHold(Step, made, Nothing, calls, n);
    StartIsSound();
    CallsPreserve();
    InvariantHolds(Step, Premise, Sound, Nothing, calls, m);
    OnlyApprovalActivates(After(Step, Nothing, calls, m), calls[m], t);
    NothingIsRewritten(calls, m, n, t);
  }

  /**
   Whenever a request is allowed, in whatever run, there is an attachment in force to a policy in force that
   allows it, and for each of the two there was a moment at which a citizen other than its proposer, sharing
   an operator role with the proposer at that moment, approved exactly what is in force now.
   */
  lemma AllowRestsOnTwoApprovals(calls: seq<Call>, n: nat, r: Request) returns (a: string, forPolicy: nat, forAttachment: nat)
    requires Admissible(Step, Premise, Nothing, calls) && n <= |calls|
    requires Allowed(After(Step, Nothing, calls, n), r)
    ensures var s := After(Step, Nothing, calls, n);
            && BearsOn(s, a, r) && EffectOf(s, a, r) == Allow
            && WasApprovedAt(calls, n, PolicyTarget(s.attachments[a].policyId), forPolicy)
            && WasApprovedAt(calls, n, AttachmentTarget(a), forAttachment)
  {
    var s := After(Step, Nothing, calls, n);
    a :| BearsOn(s, a, r) && EffectOf(s, a, r) == Allow;
    forPolicy := ActiveWasApproved(calls, n, PolicyTarget(s.attachments[a].policyId));
    forAttachment := ActiveWasApproved(calls, n, AttachmentTarget(a));
  }

  /** Call m of the run is the approval by a second person of what the state after n calls still holds. */
  predicate WasApprovedAt(calls: seq<Call>, n: nat, t: Target, m: nat)
    requires n <= |calls|
  {
    && m < n && ApprovedByAnother(After(Step, Nothing, calls, m), calls[m], t)
    && SameProposal(After(Step, Nothing, calls, m), After(Step, Nothing, calls, n), t)
  }

  // ----- what can widen access -----

  /** The calls that can make a refused request an allowed one. */
  predicate CanWiden(s: Access, c: Call) {
    || c.DoChangeRoles?
    || (c.DoEndorse? && ApprovedByAnother(s, c, c.t))
    || (c.DoRevoke? && Active(s, c.t) && CarriesDeny(s, c.t))
  }

  predicate CarriesDeny(s: Access, t: Target)
    requires Known(s, t)
  {
    match t
    case PolicyTarget(id) => s.policies[id].terms.effect == Deny
    case AttachmentTarget(id) =>
      s.attachments[id].policyId in s.policies && s.policies[s.attachments[id].policyId].terms.effect == Deny
  }

  /** A call that puts nothing in force and changes no roles brings no new policy to bear. */
  lemma NothingNewBears(s: Access, c: Call, a: string, r: Request)
    requires Sound(s) && Premise(s, c) && !c.DoChangeRoles?
    requires forall t :: Active(Step(s, c), t) ==> Active(s, t)
    requires BearsOn(Step(s, c), a, r)
    ensures BearsOn(s, a, r) && EffectOf(s, a, r) == EffectOf(Step(s, c), a, r)
  {
    var after := Step(s, c);
    assert Active(after, AttachmentTarget(a)) && Active(after, PolicyTarget(after.attachments[a].policyId));
    assert Active(s, AttachmentTarget(a)) && Active(s, PolicyTarget(after.attachments[a].policyId));
    ProposalStays(s, c, AttachmentTarget(a));
    ProposalStays(s, c, PolicyTarget(after.attachments[a].policyId));
    assert after.holders == s.holders;
  }

  /** A denial goes away only by revoking the policy or the attachment that carries it, or with a role. */
  lemma DenialStays(s: Access, c: Call, a: string, r: Request)
    requires Sound(s) && Premise(s, c) && !c.DoChangeRoles?
    requires BearsOn(s, a, r) && EffectOf(s, a, r) == Deny
    requires !(c.DoRevoke? && (c.t == AttachmentTarget(a) || c.t == PolicyTarget(s.attachments[a].policyId)))
    ensures BearsOn(Step(s, c), a, r) && EffectOf(Step(s, c), a, r) == Deny
  {
    var p := s.attachments[a].policyId;
    ProposalStays(s, c, AttachmentTarget(a));
    ProposalStays(s, c, PolicyTarget(p));
    StaysActive(s, c, AttachmentTarget(a));
    StaysActive(s, c, PolicyTarget(p));
    assert Step(s, c).holders == s.holders;
  }

  lemma StaysActive(s: Access, c: Call, t: Target)
    requires Premise(s, c) && Active(s, t) && !(c.DoRevoke? && c.t == t)
    ensures Active(Step(s, c), t)
  {
    if c.DoEndorse? && Known(s, c.t) {
      OnlyTheStatusMoves(s, c.t, Decided(c.t, c.approved), t);
    } else if c.DoRevoke? && Known(s, c.t) {
      OnlyTheStatusMoves(s, c.t, Withdrawn, t);
    }
  }

  /**
   A refused request becomes an allowed one only by a change of roles, an approval under dual control, or the
   revocation of a denial: proposing, turning down and revoking what allows never widen access.
   */
  lemma WhatWidensAccess(s: Access, c: Call, r: Request)
    requires Sound(s) && Premise(s, c)
    requires !Allowed(s, r) && Allowed(Step(s, c), r)
    ensures CanWiden(s, c)
  {
    if !CanWiden(s, c) {
      forall t | Active(Step(s, c), t)
        ensures Active(s, t)
      {
        if !Active(s, t) {
          OnlyApprovalActivates(s, c, t);
        }
      }
      var a :| BearsOn(Step(s, c), a, r) && EffectOf(Step(s, c), a, r) == Allow;
      NothingNewBears(s, c, a, r);
      var d :| BearsOn(s, d, r) && EffectOf(s, d, r) == Deny;
      assert Active(s, AttachmentTarget(d)) && Active(s, PolicyTarget(s.attachments[d].policyId));
      DenialStays(s, c, d, r);
      assert false;
    }
  }
}
