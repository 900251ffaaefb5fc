/**
 Access policies under dual control (apps/api-ts/src/iam/iam.service.ts): proposals, endorsements and
 revocations of policies and of their attachments to principals, and the evaluation of a request.

 Who holds which governance role is a table of its own here, changed by whatever the governance service does.
 */
module Iam {
  import opened Wrappers
  import opened Governance

  datatype Effect = Allow | Deny

  /** A policy that is turned down becomes rejected, an attachment revoked. */
  datatype ReviewStatus = PendingApproval | InForce | Rejected | Withdrawn

  /** JSON as a condition compares it: composites are told apart by identity, so never equal. */
  datatype Json = JNull | JBool(b: bool) | JNumber(n: real) | JString(s: string) | JArray(items: seq<Json>) | JObject(fields: map<string, Json>)

  type Context = map<string, Json>

  datatype Terms = Terms(name: string, effect: Effect, actions: seq<string>, resources: seq<string>, conditions: Option<Context>)

  datatype Policy = Policy(terms: Terms, proposedBy: string, status: ReviewStatus)

  datatype Attachment = Attachment(policyId: string, principalRef: string, proposedBy: string, status: ReviewStatus)

  datatype Target = PolicyTarget(id: string) | AttachmentTarget(id: string)

  datatype Access = Access(policies: map<string, Policy>, attachments: map<string, Attachment>,
                           endorsements: map<(Target, string), bool>, holders: set<(string, RoleType)>)

  const Nothing: Access := Access(map[], map[], map[], {})

  datatype IamError = Missing | Refused | WrongState | Duplicate

  // ----- proposing -----

  predicate HoldsGrantable(s: Access, citizen: string) {
    (citizen, Operator) in s.holders || (citizen, PlatformOperator) in s.holders
  }

  function ProposePolicy(s: Access, id: string, citizen: string, terms: Terms): (Access, Option<IamError>) {
    if !HoldsGrantable(s, citizen) then (s, Some(Refused))
    else (s.(policies := s.policies[id := Policy(terms, citizen, PendingApproval)]), None)
  }

  function ProposeAttachment(s: Access, id: string, citizen: string, policyId: string, principalRef: string): (Access, Option<IamError>) {
    if !HoldsGrantable(s, citizen) then (s, Some(Refused))
    else if policyId !in s.policies then (s, Some(Missing))
    else (s.(attachments := s.attachments[id := Attachment(policyId, principalRef, citizen, PendingApproval)]), None)
  }

  // ----- endorsing and revoking -----

  predicate Known(s: Access, t: Target) {
    match t
    case PolicyTarget(id) => id in s.policies
    case AttachmentTarget(id) => id in s.attachments
  }

  function StatusOf(s: Access, t: Target): ReviewStatus
    requires Known(s, t)
  {
    match t
    case PolicyTarget(id) => s.policies[id].status
    case AttachmentTarget(id) => s.attachments[id].status
  }

  function ProposerOf(s: Access, t: Target): string
    requires Known(s, t)
  {
    match t
    case PolicyTarget(id) => s.policies[id].proposedBy
    case AttachmentTarget(id) => s.attachments[id].proposedBy
  }

  function WithStatus(s: Access, t: Target, status: ReviewStatus): Access
    requires Known(s, t)
  {
    match t
    case PolicyTarget(id) => s.(policies := s.policies[id := s.policies[id].(status := status)])
    case AttachmentTarget(id) => s.(attachments := s.attachments[id := s.attachments[id].(status := status)])
  }

  predicate ShareRole(s: Access, a: string, b: string) {
    || ((a, Operator) in s.holders && (b, Operator) in s.holders)
    || ((a, PlatformOperator) in s.holders && (b, PlatformOperator) in s.holders)
  }

  function Decided(t: Target, approved: bool): ReviewStatus {
    if approved then InForce else if t.PolicyTarget? then Rejected else Withdrawn
  }

  function Endorse(s: Access, citizen: string, t: Target, approved: bool): (Access, Option<IamError>) {
    if !Known(s, t) then (s, Some(Missing))
    else if StatusOf(s, t) != PendingApproval then (s, Some(WrongState))
    else if ProposerOf(s, t) == citizen then (s, Some(Refused))
    else if !ShareRole(s, ProposerOf(s, t), citizen) then (s, Some(Refused))
    else if (t, citizen) in s.endorsements then (s, Some(Duplicate))
    else (WithStatus(s, t, Decided(t, approved)).(endorsements := s.endorsements[(t, citizen) := approved]), None)
  }

  function Revoke(s: Access, citizen: string, t: Target): (Access, Option<IamError>) {
    if !HoldsGrantable(s, citizen) && (citizen, Auditor) !in s.holders then (s, Some(Refused))
    else if !Known(s, t) then (s, Some(Missing))
    else if StatusOf(s, t) == Withdrawn then (s, Some(WrongState))
    else (WithStatus(s, t, Withdrawn), None)
  }

  // ----- matching -----

  /** An entry covers a value it equals or, with a star at its end, one that begins with the rest. */
  predicate Covers(entry: string, value: string) {
    entry == value || (|entry| > 0 && entry[|entry| - 1] == '*' && entry[..|entry| - 1] <= value)
  }

  predicate MatchesWildcard(entries: seq<string>, value: string) {
    exists i :: 0 <= i < |entries| && Covers(entries[i], value)
  }

  /** Strict equality of a looked-up value with a condition's. */
  predicate StrictlyEqual(x: Option<Json>, y: Json) {
    x == Some(y) && !y.JArray? && !y.JObject?
  }

  function Lookup(context: Option<Context>, key: string): Option<Json> {
    if context.Some? && key in context.value then Some(context.value[key]) else None
  }

  predicate MatchesConditions(conditions: Option<Context>, context: Option<Context>) {
    conditions.Some? ==> forall key :: key in conditions.value ==> StrictlyEqual(Lookup(context, key), conditions.value[key])
  }

  const CITIZEN: string := "citizen:"

  function ParseCitizenPrincipal(principalRef: string): Option<string> {
    if |principalRef| > |CITIZEN| && principalRef[..|CITIZEN|] == CITIZEN && OneLine(principalRef[|CITIZEN|..])
      then Some(principalRef[|CITIZEN|..])
    else None
  }

  function ParseRoleAttachment(principalRef: string): Option<RoleType> {
    if principalRef == "role:operator" then Some(Operator)
    else if principalRef == "role:platform_operator" then Some(PlatformOperator)
    else None
  }

  datatype Request = Request(principalRef: string, action: string, resource: string, context: Option<Context>)

  /** An attachment applies to the principal it names, and one to a role to the citizens who hold the role now. */
  predicate Applies(s: Access, a: Attachment, principalRef: string) {
    || a.principalRef == principalRef
    || (&& ParseRoleAttachment(a.principalRef).Some? && ParseCitizenPrincipal(principalRef).Some?
        && (ParseCitizenPrincipal(principalRef).value, ParseRoleAttachment(a.principalRef).value) in s.holders)
  }

  predicate PolicyMatches(p: Policy, r: Request) {
    && p.status == InForce
    && MatchesWildcard(p.terms.actions, r.action) && MatchesWildcard(p.terms.resources, r.resource)
    && MatchesConditions(p.terms.conditions, r.context)
  }

  // ----- what a request is entitled to -----

  /** An attachment in force brings a policy in force to bear on the request. */
  predicate BearsOn(s: Access, attachmentId: string, r: Request) {
    && attachmentId in s.attachments
    && s.attachments[attachmentId].status == InForce && Applies(s, s.attachments[attachmentId], r.principalRef)
    && s.attachments[attachmentId].policyId in s.policies
    && PolicyMatches(s.policies[s.attachments[attachmentId].policyId], r)
  }

  function EffectOf(s: Access, attachmentId: string, r: Request): Effect
    requires BearsOn(s, attachmentId, r)
  {
    s.policies[s.attachments[attachmentId].policyId].terms.effect
  }

  ghost predicate Bears(s: Access, effect: Effect, r: Request) {
    exists a :: BearsOn(s, a, r) && EffectOf(s, a, r) == effect
  }

  /** A policy with this effect bears on the request. */
  ghost predicate Through(s: Access, policyId: string, effect: Effect, r: Request) {
    exists a :: BearsOn(s, a, r) && EffectOf(s, a, r) == effect && s.attachments[a].policyId == policyId
  }

  /** Allowed means that something allows it and nothing denies it. */
  ghost predicate Allowed(s: Access, r: Request) {
    Bears(s, Allow, r) && !Bears(s, Deny, r)
  }

  // ----- facts about matching -----

  /** A starred entry covers exactly the values with its prefix; without a final star only itself. */
  lemma CoversExactly(entry: string, value: string)
    ensures Covers(entry + "*", value) <==> entry <= value
    ensures (entry == "" || entry[|entry| - 1] != '*') ==> (Covers(entry, value) <==> entry == value)
  {
    var starred := entry + "*";
    assert starred[..|starred| - 1] == entry;
  }

  /** A condition on a composite value can never be met, whatever the request says. */
  lemma CompositeConditionsNeverHold(conditions: Context, key: string, context: Option<Context>)
    requires key in conditions && (conditions[key].JArray? || conditions[key].JObject?)
    ensures !MatchesConditions(Some(conditions), context)
  {
    assert !StrictlyEqual(Lookup(context, key), conditions[key]);
  }

  /** More conditions, or fewer facts about the request, never match more. */
  lemma MatchingIsMonotone(weaker: Context, stronger: Context, less: Context, more: Context)
    requires forall key :: key in weaker ==> key in stronger && stronger[key] == weaker[key]
    requires forall key :: key in less ==> key in more && more[key] == less[key]
    requires MatchesConditions(Some(stronger), Some(less))
    ensures MatchesConditions(Some(weaker), Some(more))
  {
    forall key | key in weaker
      ensures StrictlyEqual(Lookup(Some(more), key), weaker[key])
    {
      assert StrictlyEqual(Lookup(Some(less), key), stronger[key]);
    }
  }

  /** A citizen principal reads back as the citizen, exactly for non-empty single-line ids. */
  lemma PrincipalInverts(id: string)
    ensures ParseCitizenPrincipal(CITIZEN + id) == Some(id) <==> id != "" && OneLine(id)
  {
    assert (CITIZEN + id)[..|CITIZEN|] == CITIZEN && (CITIZEN + id)[|CITIZEN|..] == id;
  }
}
