/**
 The IAM service over its tables, in the source's own shape. Evaluation walks the attachments in force in
 whatever order they come, and answers the same in every order.
 */
module IamService {
  import opened Wrappers
  import opened Governance
  import opened Iam
  import opened IamEffects

  class Database {
    var policies: map<string, Policy>
    var attachments: map<string, Attachment>
    var endorsements: map<(Target, string), bool>
    var holders: set<(string, RoleType)>

    ghost function View(): Access
      reads this
    {
      Access(policies, attachments, endorsements, holders)
    }

    constructor ()
      ensures View() == Nothing
    {
      policies, attachments, endorsements, holders := map[], map[], map[], {};
    }

    method ProposePolicy(id: string, citizen: string, terms: Terms) returns (e: Option<IamError>)
      modifies this`policies
      ensures (View(), e) == Iam.ProposePolicy(old(View()), id, citizen, terms)
    {
      if (citizen, Operator) !in holders && (citizen, PlatformOperator) !in holders {
        return Some(Refused);
      }
      policies := policies[id := Policy(terms, citizen, PendingApproval)];
      e := None;
    }

    method ProposeAttachment(id: string, citizen: string, policyId: string, principalRef: string) returns (e: Option<IamError>)
      modifies this`attachments
      ensures (View(), e) == Iam.ProposeAttachment(old(View()), id, citizen, policyId, principalRef)
    {
      if (citizen, Operator) !in holders && (citizen, PlatformOperator) !in holders {
        return Some(Refused);
      }
      if policyId !in policies {
        return Some(Missing);
      }
      attachments := attachments[id := Attachment(policyId, principalRef, citizen, PendingApproval)];
      e := None;
    }

    method FindTarget(t: Target) returns (found: bool)
      ensures found == Known(View(), t)
    {
      found := match t case PolicyTarget(id) => id in policies case AttachmentTarget(id) => id in attachments;
    }

    /** Tries the two grantable role types in turn. */
    method FindSharedRole(a: string, b: string) returns (shared: Option<RoleType>)
      ensures shared.Some? <==> ShareRole(View(), a, b)
      ensures shared.Some? ==> (a, shared.value) in holders && (b, shared.value) in holders
    {
      var grantable := [Operator, PlatformOperator];
      for i := 0 to |grantable|
        invariant forall k :: 0 <= k < i ==> !((a, grantable[k]) in holders && (b, grantable[k]) in holders)
      {
        if (a, grantable[i]) in holders && (b, grantable[i]) in holders {
          assert grantable[i] == Operator || grantable[i] == PlatformOperator;
          return Some(grantable[i]);
        }
      }
      assert grantable[0] == Operator && grantable[1] == PlatformOperator;
      return None;
    }

    method CurrentStatus(t: Target) returns (status: ReviewStatus)
      requires Known(View(), t)
      ensures status == StatusOf(View(), t)
    {
      status := match t case PolicyTarget(id) => policies[id].status case AttachmentTarget(id) => attachments[id].status;
    }

    method UpdateStatus(t: Target, status: ReviewStatus)
      requires Known(View(), t)
      modifies this`policies, this`attachments
      ensures View() == WithStatus(old(View()), t, status)
    {
      match t
      case PolicyTarget(id) => policies := policies[id := policies[id].(status := status)];
      case AttachmentTarget(id) => attachments := attachments[id := attachments[id].(status := status)];
    }

    method SubmitEndorsement(citizen: string, t: Target, approved: bool) returns (e: Option<IamError>)
      modifies this
      ensures (View(), e) == Endorse(old(View()), citizen, t, approved)
    {
      var found := FindTarget(t);
      if !found {
        return Some(Missing);
      }
      var status := CurrentStatus(t);
      var proposer := match t case PolicyTarget(id) => policies[id].proposedBy case AttachmentTarget(id) => attachments[id].proposedBy;
      if status != PendingApproval {
        return Some(WrongState);
      }
      if proposer == citizen {
        return Some(Refused);
      }
      var shared := FindSharedRole(proposer, citizen);
      if shared.None? {
        return Some(Refused);
      }
      if (t, citizen) in endorsements {
        return Some(Duplicate);
      }
      endorsements := endorsements[(t, citizen) := approved];
      UpdateStatus(t, if approved then InForce else if t.PolicyTarget? then Rejected else Withdrawn);
      e := None;
    }

    method Revoke(citizen: string, t: Target) returns (e: Option<IamError>)
      modifies this`policies, this`attachments
      ensures (View(), e) == Iam.Revoke(old(View()), citizen, t)
    {
      if (citizen, Operator) !in holders && (citizen, PlatformOperator) !in holders && (citizen, Auditor) !in holders {
        return Some(Refused);
      }
      var found := FindTarget(t);
      if !found {
        return Some(Missing);
      }
      var status := CurrentStatus(t);
      if status == Withdrawn {
        return Some(WrongState);
      }
      UpdateStatus(t, Withdrawn);
      e := None;
    }

    /** The attachments in force that apply to the principal, in the order in which they come. */
    method CollectApplicable(order: seq<string>, principalRef: string) returns (applicable: seq<string>)
      requires forall a :: a in order ==> a in attachments && attachments[a].status == InForce
      ensures forall a :: a in applicable <==> a in order && Applies(View(), attachments[a], principalRef)
    {
      applicable := [];
      for i := 0 to |order|
        invariant forall a :: a in applicable <==> a in order[..i] && Applies(View(), attachments[a], principalRef)
      {
        var attachment := attachments[order[i]];
        assert order[..i + 1] == order[..i] + [order[i]];
        assert order[i] in order;
        if attachment.principalRef == principalRef {
          applicable := applicable + [order[i]];
          continue;
        }
        var roleType := ParseRoleAttachment(attachment.principalRef);
        var principalCitizen := ParseCitizenPrincipal(principalRef);
        if roleType.Some? && principalCitizen.Some? && (principalCitizen.value, roleType.value) in holders {
          applicable := applicable + [order[i]];
        }
      }
      assert order[..|order|] == order;
    }

    /** The policies, by id, that the applicable attachments bring to bear on the request. */
    method CollectMatched(applicable: seq<string>, r: Request) returns (matched: seq<string>)
      requires forall a :: a in applicable ==>
                 a in attachments && attachments[a].status == InForce && Applies(View(), attachments[a], r.principalRef)
      ensures forall p :: p in matched ==> p in policies
      ensures forall p :: p in matched <==> exists a :: a in applicable && BearsOn(View(), a, r) && attachments[a].policyId == p
    {
      matched := [];
      for i := 0 to |applicable|
        invariant forall p :: p in matched ==> p in policies
        invariant forall p :: p in matched <==> exists k :: 0 <= k < i && BearsOn(View(), applicable[k], r) && attachments[applicable[k]].policyId == p
      {
        ghost var before := matched;
        var p := attachments[applicable[i]].policyId;
        assert applicable[i] in applicable;
        if p in policies && PolicyMatches(policies[p], r) {
          matched := matched + [p];
          assert BearsOn(View(), applicable[i], r);
        } else {
          assert !BearsOn(View(), applicable[i], r);
        }
      }
    }

    /** The first policy of an effect. */
    method FindEffect(matched: seq<string>, effect: Effect) returns (found: Option<string>)
      requires forall p :: p in matched ==> p in policies
      ensures found.None? <==> forall p :: p in matched ==> policies[p].terms.effect != effect
      ensures found.Some? ==> found.value in matched && policies[found.value].terms.effect == effect
    {
      for i := 0 to |matched|
        invariant forall k :: 0 <= k < i ==> policies[matched[k]].terms.effect != effect
      {
        if policies[matched[i]].terms.effect == effect {
          return Some(matched[i]);
        }
      }
      return None;
    }

    /**
     Default deny, and any matching denial overrides whatever allows. The effect is a function of the tables
     alone; the order of the rows decides only which of several matching policies is named.
     */
    method Evaluate(r: Request, order: seq<string>) returns (effect: Effect, matchedPolicy: Option<string>)
      requires forall a :: a in order <==> a in attachments && attachments[a].status == InForce
      ensures Answers(View(), r, effect, matchedPolicy)
      ensures effect == Allow <==> Allowed(View(), r)
      ensures matchedPolicy.Some? ==> Through(View(), matchedPolicy.value, effect, r)
      ensures matchedPolicy.None? <==> !Bears(View(), Allow, r) && !Bears(View(), Deny, r)
    {
      var applicable := CollectApplicable(order, r.principalRef);
      var matched := CollectMatched(applicable, r);
      MatchedIsWhatBears(View(), order, applicable, matched, r);
      effect, matchedPolicy := Deny, None;
      var deny := FindEffect(matched, Deny);
      if deny.Some? {
        matchedPolicy := deny;
      } else {
        var allow := FindEffect(matched, Allow);
        if allow.Some? {
          effect, matchedPolicy := Allow, allow;
        }
      }
      AnsweredExactly(View(), r, effect, matchedPolicy);
    }
  }

  /** The policies collected are those that bear on the request, whatever the order of the rows was. */
  lemma MatchedIsWhatBears(s: Access, order: seq<string>, applicable: seq<string>, matched: seq<string>, r: Request)
    requires forall a :: a in order <==> a in s.attachments && s.attachments[a].status == InForce
    requires forall a :: a in applicable <==> a in order && Applies(s, s.attachments[a], r.principalRef)
    requires forall p :: p in matched ==> p in s.policies
    requires forall p :: p in matched <==> exists a :: a in applicable && BearsOn(s, a, r) && s.attachments[a].policyId == p
    ensures forall p, effect :: (p in matched && s.policies[p].terms.effect == effect) <==> Through(s, p, effect, r)
    ensures forall effect :: Bears(s, effect, r) <==> exists p :: p in matched && s.policies[p].terms.effect == effect
  {
    forall p, effect
      ensures (p in matched && s.policies[p].terms.effect == effect) <==> Through(s, p, effect, r)
    {
      if p in matched && s.policies[p].terms.effect == effect {
        var a :| a in applicable && BearsOn(s, a, r) && s.attachments[a].policyId == p;
        assert EffectOf(s, a, r) == effect;
      }
      if a :| BearsOn(s, a, r) && EffectOf(s, a, r) == effect && s.attachments[a].policyId == p {
        assert a in applicable;
      }
    }
    forall effect
      ensures Bears(s, effect, r) <==> exists p :: p in matched && s.policies[p].terms.effect == effect
    {
      if a :| BearsOn(s, a, r) && EffectOf(s, a, r) == effect {
        assert Through(s, s.attachments[a].policyId, effect, r);
      }
      if p :| p in matched && s.policies[p].terms.effect == effect {
        assert Through(s, p, effect, r);
      }
    }
  }
}
