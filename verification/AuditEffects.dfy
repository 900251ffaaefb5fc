/**
 Which deliveries the audit log takes and what each becomes, and what makes a log verify, with every rule written
 out (apps/api-go/internal/audit/domain.go, service.go, handlers.go, store.go and consumer.go).
 */
module AuditEffects {
  import opened Wrappers
  import opened AuditLog
  import opened AuditConsumer

  /** The actions the log knows, the verbs it knows them by, and no others. */
  predicate Becomes(verb: string, action: string) {
    || (action == verb && (verb == "proposal_created" || verb == "proposal_status_changed" || verb == "vote_certified"
                           || verb == "system_update" || verb == "rule_change" || verb == "admin_action" || verb == "identity_event"))
    || (action == "system_update" && (verb == "vote_session_scheduled" || verb == "vote_session_opened"
                                      || verb == "vote_session_closed" || verb == "vote_quorum_failed" || verb == "ballot_cast"))
    || (action == "admin_action" && (verb == "delegation_created" || verb == "delegation_revoked" || verb == "delegation_expired"))
  }

  lemma NormalizedExactly(verb: string, action: string)
    ensures Normalize(verb) == Some(action) <==> Becomes(verb, action)
  {
  }

  /** The text has the part somewhere. */
  ghost predicate Mentions(text: string, part: string) {
    exists before, after :: text == before + part + after
  }

  lemma ContainsIsMentions(text: string, part: string)
    ensures Contains(text, part) <==> Mentions(text, part)
  {
    if i: nat :| i <= |text| && PartAt(text, part, i) {
      assert text == text[..i] + part + text[i + |part|..];
    }
    if before, after :| text == before + part + after {
      assert text[|before|..|before| + |part|] == part;
      assert PartAt(text, part, |before|);
    }
  }

  /** A known verb, but not a ballot; sizes in bounds; and no ballot content in the payload, in whatever case. */
  ghost predicate Admissible(lower: string -> string, verb: string, actor: string, payload: string, key: string) {
    && (exists action :: Becomes(verb, action)) && verb != "ballot_cast"
    && 0 < |actor| <= 256 && |payload| <= 8192 && |key| <= 256
    && !Mentions(lower(payload), "ballot_selection:")
    && !Mentions(lower(payload), "encrypted_choice")
    && !Mentions(lower(payload), "token_blind")
  }

  lemma AcceptableExactly(lower: string -> string, verb: string, actor: string, payload: string, key: string)
    ensures Acceptable(lower, verb, actor, payload, key) <==> Admissible(lower, verb, actor, payload, key)
  {
    KnownExactly(verb);
    ContainsIsMentions(lower(payload), "ballot_selection:");
    ContainsIsMentions(lower(payload), "encrypted_choice");
    ContainsIsMentions(lower(payload), "token_blind");
  }

  lemma KnownExactly(verb: string)
    ensures Normalize(verb).Some? <==> exists action :: Becomes(verb, action)
  {
    forall action
      ensures Normalize(verb) == Some(action) <==> Becomes(verb, action)
    {
      NormalizedExactly(verb, action);
    }
    if Normalize(verb).Some? {
      assert Becomes(verb, Normalize(verb).value);
    }
  }

  /**
   Taken from the stream is exactly what the api-go service signed, with an id; over HTTP anyone may post, but only
   api-go in the name of one of the four services or to certify a vote. Of either, only what is admissible.
   */
  ghost predicate Taken(lower: string -> string, d: Delivery) {
    match d
    case Malformed => false
    case Direct(_, _, _) => false
    case Event(id, actionType, actorRef, payload, producer, signatureRight) =>
      && signatureRight && id != "" && producer == "api-go"
      && Admissible(lower, actionType, producer + ":" + actorRef, payload, producer + ":" + id)
    case Posted(service, actionType, actorRef, payload, key) =>
      && actorRef != ""
      && (service != "api-go" ==>
            && actorRef != "voting-service" && actorRef != "audit-service" && actorRef != "auth-service"
            && actorRef != "delegation-service" && actionType != "vote_certified")
      && Admissible(lower, actionType, service + ":" + actorRef, payload, key)
  }

  lemma GoodExactly(lower: string -> string, d: Delivery)
    ensures Good(lower, d) <==> Taken(lower, d)
  {
    if d.Event? || d.Posted? {
      AcceptableExactly(lower, d.actionType, ActorOf(d), d.payload, KeyOf(d));
    }
  }

  /** The newest entry is about this, and was hashed and signed over it and the payload before. */
  predicate NewestIs(c: Crypto, before: Log, after: Log, id: string, verb: string, actor: string, payload: string, key: string) {
    && |after.entries| == |before.entries| + 1
    && var e := after.entries[|before.entries|];
       && after.entries[..|before.entries|] == before.entries
       && e.id == id && Becomes(verb, e.actionType) && e.actorRef == actor && e.payloadHash == c.sha(payload) && e.key == key
       && e.prevHash == (if before.entries == [] then "GENESIS" else before.entries[|before.entries| - 1].payloadHash)
       && e.hash == c.sha(e.prevHash + "\n" + e.payloadHash + "\n" + e.actionType + "\n" + e.actorRef)
       && e.signature == c.sign(id, e.hash)
       && after.byKey == if key == "" then before.byKey else before.byKey[key := e]
  }

  /** An event that is taken and whose key is new becomes the newest entry; any other delivery leaves the log alone. */
  lemma EventIsLoggedExactly(c: Crypto, lower: string -> string, log: Log, d: Delivery, id: string)
    requires d.Event?
    ensures var after := Deliver(c, lower, log, d, id);
            if Taken(lower, d) && d.producer + ":" + d.id !in log.byKey then
              NewestIs(c, log, after, id, d.actionType, "api-go:" + d.actorRef, d.payload, "api-go:" + d.id)
            else after == log
  {
    GoodExactly(lower, d);
    if Good(lower, d) {
      NormalizedExactly(d.actionType, Normalize(d.actionType).value);
    }
  }

  /** ... and so does a post, which without a key always counts as new. */
  lemma PostIsLoggedExactly(c: Crypto, lower: string -> string, log: Log, d: Delivery, id: string)
    requires d.Posted?
    ensures var after := Deliver(c, lower, log, d, id);
            if Taken(lower, d) && (d.key == "" || d.key !in log.byKey) then
              NewestIs(c, log, after, id, d.actionType, d.service + ":" + d.actorRef, d.payload, d.key)
            else after == log
  {
    GoodExactly(lower, d);
    if Good(lower, d) {
      NormalizedExactly(d.actionType, Normalize(d.actionType).value);
    }
  }

  /** The service's own append of one of the actions always becomes the newest entry; what is malformed leaves the log alone. */
  lemma OwnIsLoggedExactly(c: Crypto, lower: string -> string, log: Log, d: Delivery, id: string)
    requires d.Direct? || d.Malformed?
    ensures var after := Deliver(c, lower, log, d, id);
            if d.Direct? && Becomes(d.actionType, d.actionType) then
              NewestIs(c, log, after, id, d.actionType, d.actorRef, d.payload, "")
            else after == log
  {
    if d.Direct? {
      NormalizedExactly(d.actionType, d.actionType);
    }
  }

  /** The entry carries the payload hash of the one before, the digest of its fields, and a valid signature. */
  predicate Sealed(c: Crypto, entries: seq<Entry>, i: nat)
    requires i < |entries|
  {
    && entries[i].prevHash == (if i == 0 then "GENESIS" else entries[i - 1].payloadHash)
    && entries[i].hash == c.sha(entries[i].prevHash + "\n" + entries[i].payloadHash + "\n" + entries[i].actionType
                                + "\n" + entries[i].actorRef)
    && c.valid(entries[i].id, entries[i].hash, entries[i].signature)
  }

  /** A log passes verification exactly if every entry does. */
  lemma VerifiesExactly(c: Crypto, entries: seq<Entry>)
    ensures Intact(c, entries) <==> forall i :: 0 <= i < |entries| ==> Sealed(c, entries, i)
  {
    forall i | 0 <= i < |entries|
      ensures EntryOk(c, entries, i) <==> Sealed(c, entries, i)
    {
    }
  }
}
