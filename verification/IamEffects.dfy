/**
 What an evaluation asks of policies and attachments, and when proposals, endorsements and revocations succeed,
 described by the fields of the rows and of the request (apps/api-ts/src/iam/iam.service.ts).
 */
module IamEffects {
  import opened Wrappers
  import opened Governance
  import opened Iam

  // ----- evaluation -----

  /** One of the entries equals the value, or ends in a star and the value begins with what comes before it. */
  ghost predicate EntryFor(entries: seq<string>, value: string) {
    exists i :: 0 <= i < |entries| && (entries[i] == value || exists prefix :: entries[i] == prefix + "*" && prefix <= value)
  }

  /** The request's context has the required value under every key, and the values are all scalars. */
  ghost predicate ConditionsMet(conditions: Option<Context>, context: Option<Context>) {
    conditions.Some? ==>
      forall key :: key in conditions.value ==>
        && context.Some? && key in context.value && context.value[key] == conditions.value[key]
        && (conditions.value[key].JNull? || conditions.value[key].JBool? || conditions.value[key].JNumber? || conditions.value[key].JString?)
  }

  /** The attachment names the principal, or an operator role that the citizen it names holds. */
  ghost predicate ForPrincipal(s: Access, ref: string, principal: string) {
    || ref == principal
    || exists citizen :: citizen != "" && OneLine(citizen) && principal == "citizen:" + citizen
         && ((ref == "role:operator" && (citizen, Operator) in s.holders)
             || (ref == "role:platform_operator" && (citizen, PlatformOperator) in s.holders))
  }

  /** An attachment in force for the principal, to a policy in force of this effect that matches the whole request. */
  ghost predicate Says(s: Access, a: string, effect: Effect, r: Request) {
    && a in s.attachments && s.attachments[a].status == InForce && ForPrincipal(s, s.attachments[a].principalRef, r.principalRef)
    && s.attachments[a].policyId in s.policies
    && var p := s.policies[s.attachments[a].policyId];
       && p.status == InForce && p.terms.effect == effect
       && EntryFor(p.terms.actions, r.action) && EntryFor(p.terms.resources, r.resource)
       && ConditionsMet(p.terms.conditions, r.context)
  }

  lemma CoversIsEntry(entry: string, value: string)
    ensures Covers(entry, value) <==> entry == value || exists prefix :: entry == prefix + "*" && prefix <= value
  {
    if Covers(entry, value) && entry != value {
      assert entry == entry[..|entry| - 1] + "*";
    }
    if prefix :| entry == prefix + "*" && prefix <= value {
      CoversExactly(prefix, value);
    }
  }

  lemma WildcardIsEntry(entries: seq<string>, value: string)
    ensures MatchesWildcard(entries, value) <==> EntryFor(entries, value)
  {
    forall i | 0 <= i < |entries|
      ensures Covers(entries[i], value) <==> entries[i] == value || exists prefix :: entries[i] == prefix + "*" && prefix <= value
    {
      CoversIsEntry(entries[i], value);
    }
  }

  lemma ConditionsAreMet(conditions: Option<Context>, context: Option<Context>)
    ensures MatchesConditions(conditions, context) <==> ConditionsMet(conditions, context)
  {
    if conditions.Some? {
      forall key | key in conditions.value
        ensures StrictlyEqual(Lookup(context, key), conditions.value[key]) <==>
                && context.Some? && key in context.value && context.value[key] == conditions.value[key]
                && (conditions.value[key].JNull? || conditions.value[key].JBool? || conditions.value[key].JNumber? || conditions.value[key].JString?)
      {
      }
    }
  }

  lemma AppliesIsForPrincipal(s: Access, a: Attachment, principal: string)
    ensures Applies(s, a, principal) <==> ForPrincipal(s, a.principalRef, principal)
  {
    if Applies(s, a, principal) && a.principalRef != principal {
      var citizen := ParseCitizenPrincipal(principal).value;
      assert principal == principal[..|CITIZEN|] + citizen;
    }
    if citizen :| citizen != "" && OneLine(citizen) && principal == "citizen:" + citizen
                  && ((a.principalRef == "role:operator" && (citizen, Operator) in s.holders)
                      || (a.principalRef == "role:platform_operator" && (citizen, PlatformOperator) in s.holders)) {
      PrincipalInverts(citizen);
    }
  }

  lemma BearsIsSays(s: Access, a: string, effect: Effect, r: Request)
    ensures BearsOn(s, a, r) && EffectOf(s, a, r) == effect <==> Says(s, a, effect, r)
  {
    if a in s.attachments {
      AppliesIsForPrincipal(s, s.attachments[a], r.principalRef);
      if s.attachments[a].policyId in s.policies {
        var p := s.policies[s.attachments[a].policyId];
        WildcardIsEntry(p.terms.actions, r.action);
        WildcardIsEntry(p.terms.resources, r.resource);
        ConditionsAreMet(p.terms.conditions, r.context);
      }
    }
  }

  lemma BearsExactly(s: Access, effect: Effect, r: Request)
    ensures Bears(s, effect, r) <==> exists a :: Says(s, a, effect, r)
  {
    if a :| BearsOn(s, a, r) && EffectOf(s, a, r) == effect {
      BearsIsSays(s, a, effect, r);
    }
    if a :| Says(s, a, effect, r) {
      BearsIsSays(s, a, effect, r);
    }
  }

  lemma ThroughExactly(s: Access, policy: string, effect: Effect, r: Request)
    requires Through(s, policy, effect, r)
    ensures exists a :: Says(s, a, effect, r) && s.attachments[a].policyId == policy
  {
    var a :| BearsOn(s, a, r) && EffectOf(s, a, r) == effect && s.attachments[a].policyId == policy;
    BearsIsSays(s, a, effect, r);
  }

  /** A request is allowed exactly if an attachment says so and none says otherwise. */
  lemma AllowedExactly(s: Access, r: Request)
    ensures Allowed(s, r) <==> (exists a :: Says(s, a, Allow, r)) && !exists a :: Says(s, a, Deny, r)
  {
    BearsExactly(s, Allow, r);
    BearsExactly(s, Deny, r);
  }

  /** What an evaluation answers, in terms of the tables and the request alone. */
  ghost predicate Answers(s: Access, r: Request, effect: Effect, matched: Option<string>) {
    && (effect == Allow <==> (exists a :: Says(s, a, Allow, r)) && !exists a :: Says(s, a, Deny, r))
    && (matched.Some? ==> exists a :: Says(s, a, effect, r) && s.attachments[a].policyId == matched.value)
    && (matched.None? <==> forall a :: !Says(s, a, Allow, r) && !Says(s, a, Deny, r))
  }

  lemma AnsweredExactly(s: Access, r: Request, effect: Effect, matched: Option<string>)
    requires effect == Allow <==> Allowed(s, r)
    requires matched.Some? ==> Through(s, matched.value, effect, r)
    requires matched.None? <==> !Bears(s, Allow, r) && !Bears(s, Deny, r)
    ensures Answers(s, r, effect, matched)
  {
    BearsExactly(s, Allow, r);
    BearsExactly(s, Deny, r);
    if matched.Some? {
      ThroughExactly(s, matched.value, effect, r);
    }
  }

  /** Where no policy in force has an entry for the resource, the answer is a denial that names none. */
  lemma NothingForTheResource(s: Access, r: Request, effect: Effect, matched: Option<string>)
    requires Answers(s, r, effect, matched)
    requires forall p :: p in s.policies && s.policies[p].status == InForce ==> !EntryFor(s.policies[p].terms.resources, r.resource)
    ensures effect == Deny && matched == None
  {
  }

  /** ... and likewise for the action. */
  lemma NothingForTheAction(s: Access, r: Request, effect: Effect, matched: Option<string>)
    requires Answers(s, r, effect, matched)
    requires forall p :: p in s.policies && s.policies[p].status == InForce ==> !EntryFor(s.policies[p].terms.actions, r.action)
    ensures effect == Deny && matched == None
  {
  }

  // ----- the other calls -----

  /** Proposing takes an operator role; what is proposed waits for approval, in the proposer's name. */
  lemma ProposalsWait(s: Access, id: string, citizen: string, terms: Terms, policyId: string, principalRef: string)
    ensures var (t, e) := ProposePolicy(s, id, citizen, terms);
            && (e.None? <==> (citizen, Operator) in s.holders || (citizen, PlatformOperator) in s.holders)
            && (e.Some? ==> e.value == Refused)
            && t == if e.None? then s.(policies := s.policies[id := Policy(terms, citizen, PendingApproval)]) else s
    ensures var (t, e) := ProposeAttachment(s, id, citizen, policyId, principalRef);
            && (e.None? <==>
                  ((citizen, Operator) in s.holders || (citizen, PlatformOperator) in s.holders) && policyId in s.policies)
            && (e.Some? ==> e.value == if (citizen, Operator) in s.holders || (citizen, PlatformOperator) in s.holders then Missing else Refused)
            && t == if e.None? then s.(attachments := s.attachments[id := Attachment(policyId, principalRef, citizen, PendingApproval)]) else s
  {
  }

  /** The row a target names, as far as deciding about it goes. */
  function Row(s: Access, t: Target): Option<(ReviewStatus, string)> {
    match t
    case PolicyTarget(id) => if id in s.policies then Some((s.policies[id].status, s.policies[id].proposedBy)) else None
    case AttachmentTarget(id) => if id in s.attachments then Some((s.attachments[id].status, s.attachments[id].proposedBy)) else None
  }

  /** The table with this status in place of the target's. */
  predicate OnlyStatus(s: Access, after: Access, t: Target, status: ReviewStatus) {
    match t
    case PolicyTarget(id) =>
      id in s.policies && after == s.(endorsements := after.endorsements, policies := s.policies[id := s.policies[id].(status := status)])
    case AttachmentTarget(id) =>
      && id in s.attachments
      && after == s.(endorsements := after.endorsements, attachments := s.attachments[id := s.attachments[id].(status := status)])
  }

  /**
   An endorsement succeeds exactly for a pending target of somebody else with whom the endorser shares an operator
   role, once; an approval puts the target in force, a rejection of a policy rejects it, of an attachment withdraws it.
   */
  lemma EndorsementDecides(s: Access, citizen: string, t: Target, approved: bool)
    ensures var (after, e) := Endorse(s, citizen, t, approved);
            && (e.None? <==>
                  && Row(s, t).Some? && Row(s, t).value.0 == PendingApproval && Row(s, t).value.1 != citizen
                  && (exists role :: (role == Operator || role == PlatformOperator)
                                     && (citizen, role) in s.holders && (Row(s, t).value.1, role) in s.holders)
                  && (t, citizen) !in s.endorsements)
            && (e == Some(Missing) <==> Row(s, t).None?)
            && (e == Some(WrongState) <==> Row(s, t).Some? && Row(s, t).value.0 != PendingApproval)
            && (e == Some(Duplicate) ==> (t, citizen) in s.endorsements)
            && (e == Some(Refused) <==>
                  && Row(s, t).Some? && Row(s, t).value.0 == PendingApproval
                  && (Row(s, t).value.1 == citizen
                      || !exists role :: (role == Operator || role == PlatformOperator)
                                         && (citizen, role) in s.holders && (Row(s, t).value.1, role) in s.holders))
            && (if e.None? then
                  && OnlyStatus(s, after, t, if approved then InForce else if t.PolicyTarget? then Rejected else Withdrawn)
                  && after.endorsements == s.endorsements[(t, citizen) := approved]
                else after == s)
  {
    if Row(s, t).Some? {
      var proposer := Row(s, t).value.1;
      assert ShareRole(s, proposer, citizen) <==>
             exists role :: (role == Operator || role == PlatformOperator) && (citizen, role) in s.holders && (proposer, role) in s.holders;
    }
  }

  /** A revocation succeeds exactly for an operator or auditor and a known target not withdrawn yet, which it withdraws. */
  lemma RevocationWithdraws(s: Access, citizen: string, t: Target)
    ensures var (after, e) := Iam.Revoke(s, citizen, t);
            && (e.None? <==>
                  && ((citizen, Operator) in s.holders || (citizen, PlatformOperator) in s.holders || (citizen, Auditor) in s.holders)
                  && Row(s, t).Some? && Row(s, t).value.0 != Withdrawn)
            && (e == Some(Missing) <==>
                  && ((citizen, Operator) in s.holders || (citizen, PlatformOperator) in s.holders || (citizen, Auditor) in s.holders)
                  && Row(s, t).None?)
            && (e.Some? ==> e.value == Missing || e.value == if Row(s, t).Some? && Row(s, t).value.0 == Withdrawn
                            && ((citizen, Operator) in s.holders || (citizen, PlatformOperator) in s.holders
                                || (citizen, Auditor) in s.holders) then WrongState else Refused)
            && (if e.None? then OnlyStatus(s, after, t, Withdrawn) && after.endorsements == s.endorsements else after == s)
  {
  }
}
