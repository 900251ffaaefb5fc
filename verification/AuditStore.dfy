/**
 The in-memory audit store, the service's append and the stream handler, in the source's own shape, proved
 to do what `AuditLog` and `AuditConsumer` say.
 */
module AuditStore {
  import opened Wrappers
  import opened AuditLog
  import opened AuditConsumer

  datatype Error = Invalid

  class MemoryStore {
    const crypto: Crypto
    var entries: seq<Entry>
    var byIdempotencyKey: map<string, Entry>

    ghost function View(): Log
      reads this
    {
      Log(entries, byIdempotencyKey)
    }

    constructor (crypto: Crypto)
      ensures View() == Empty && this.crypto == crypto
    {
      this.crypto := crypto;
      entries, byIdempotencyKey := [], map[];
    }

    method Append(id: string, actionType: string, actorRef: string, payload: string, key: string) returns (e: Entry)
      modifies this
      ensures (View(), e) == AuditLog.Append(crypto, old(View()), id, actionType, actorRef, payload, key)
    {
      if key != "" {
        if key in byIdempotencyKey {
          return byIdempotencyKey[key];
        }
      }
      var prev := GENESIS;
      if |entries| > 0 {
        prev := entries[|entries| - 1].payloadHash;
      }
      var payloadHash := crypto.sha(payload);
      var hash := ChainHash(crypto, prev, payloadHash, actionType, actorRef);
      e := Entry(id, actionType, actorRef, payloadHash, prev, hash, crypto.sign(id, hash), key);
      entries := entries + [e];
      if key != "" {
        byIdempotencyKey := byIdempotencyKey[key := e];
      }
    }

    /** Oldest first; a limit of zero or less means all. */
    method ListEntries(limit: int) returns (out: seq<Entry>)
      ensures out <= entries
      ensures |out| == if 0 < limit < |entries| then limit else |entries|
    {
      var n := |entries|;
      if limit > 0 && limit < n {
        n := limit;
      }
      out := entries[..n];
    }
  }

  class Service {
    const store: MemoryStore

    constructor (store: MemoryStore)
      ensures this.store == store
    {
      this.store := store;
    }

    method Append(lower: string -> string, id: string, actionType: string, actorRef: string, payload: string, key: string)
      returns (r: Result<Entry, Error>)
      modifies store
      ensures r.Err? <==> !Acceptable(lower, actionType, actorRef, payload, key)
      ensures r.Err? ==> store.View() == old(store.View())
      ensures r.Ok? ==> (store.View(), r.value) ==
                        AuditLog.Append(store.crypto, old(store.View()), id, Normalize(actionType).value, actorRef, payload, key)
    {
      var normalized := Normalize(actionType);
      if normalized.None? {
        return Err(Invalid);
      }
      if actorRef == "" || |actorRef| > MAX_REF || |payload| > MAX_PAYLOAD || |key| > MAX_REF || actionType == "ballot_cast"
         || Contains(lower(payload), "ballot_selection:")
         || Contains(lower(payload), "encrypted_choice")
         || Contains(lower(payload), "token_blind") {
        return Err(Invalid);
      }
      var e := store.Append(id, normalized.value, actorRef, payload, key);
      r := Ok(e);
    }

    /** The HTTP handler of appends: who may post is checked first. */
    method Post(lower: string -> string, d: Delivery, id: string) returns (accepted: bool)
      requires d.Posted?
      modifies store
      ensures accepted <==> Good(lower, d)
      ensures store.View() == Deliver(store.crypto, lower, old(store.View()), d, id)
    {
      if d.service != PRODUCER
         && (d.actorRef == "voting-service" || d.actorRef == "audit-service" || d.actorRef == "auth-service"
             || d.actorRef == "delegation-service" || d.actionType == "vote_certified")
      {
        return false;
      }
      if d.actorRef == "" {
        return false;
      }
      var r := Append(lower, id, d.actionType, d.service + ":" + d.actorRef, d.payload, d.key);
      accepted := r.Ok?;
    }

    /** The stream handler: every delivery is acknowledged, bad ones without effect. */
    method Handle(lower: string -> string, d: Delivery, id: string)
      requires !d.Direct? && !d.Posted?
      modifies store
      ensures store.View() == Deliver(store.crypto, lower, old(store.View()), d, id)
    {
      if d.Malformed? {
        return;
      }
      if !(d.signatureRight && d.id != "" && d.producer == PRODUCER) {
        return;
      }
      var r := Append(lower, id, d.actionType, d.producer + ":" + d.actorRef, d.payload, d.producer + ":" + d.id);
    }
  }
}
