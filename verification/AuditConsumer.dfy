/**
 The audit stream consumer (apps/api-go/internal/audit/consumer.go): the stream delivers every event at
 least once, in order but possibly again, and may carry malformed, forged or unknown events; the log must
 come out as if every good event had arrived exactly once.

 The service's own unkeyed appends, of enumerated actions, may come in between, and so may appends posted over
 HTTP (apps/api-go/internal/audit/handlers.go) with an idempotency key of the caller's choice, or none. All share
 one log and one index of keys.
 */
module AuditConsumer {
  import opened Wrappers
  import opened Lines
  import opened AuditLog

  const PRODUCER: string := "api-go"

  datatype Delivery =
    | Malformed
    | Event(id: string, actionType: string, actorRef: string, payload: string, producer: string, signatureRight: bool)
    | Direct(actionType: string, actorRef: string, payload: string)
    | Posted(service: string, actionType: string, actorRef: string, payload: string, key: string)

  /** The idempotency key a delivery is appended under; none is the empty one. */
  function KeyOf(d: Delivery): string {
    match d
    case Event(id, _, _, _, producer, _) => producer + ":" + id
    case Posted(_, _, _, _, key) => key
    case _ => ""
  }

  function ActorOf(d: Delivery): string
    requires d.Event? || d.Posted?
  {
    if d.Event? then d.producer + ":" + d.actorRef else d.service + ":" + d.actorRef
  }

  predicate Authentic(d: Delivery) {
    d.Event? && d.signatureRight && d.id != "" && d.producer == PRODUCER
  }

  /** Who may post what: only one service speaks for the internal ones or certifies votes. */
  predicate MayPost(d: Delivery) {
    && d.Posted? && d.actorRef != ""
    && (d.service == PRODUCER
        || (d.actorRef !in {"voting-service", "audit-service", "auth-service", "delegation-service"}
            && d.actionType != "vote_certified"))
  }

  predicate Good(lower: string -> string, d: Delivery) {
    (Authentic(d) || MayPost(d)) && Acceptable(lower, d.actionType, ActorOf(d), d.payload, KeyOf(d))
  }

  /** An append of the service's own, which names one of the enumerated actions. */
  predicate Own(d: Delivery) {
    d.Direct? && Normalize(d.actionType) == Some(d.actionType)
  }

  /** One delivery; what is not good is acknowledged and dropped. `id` is the id of a new entry, if any. */
  function Deliver(c: Crypto, lower: string -> string, log: Log, d: Delivery, id: string): Log {
    if Own(d) then Append(c, log, id, d.actionType, d.actorRef, d.payload, "").0
    else if Good(lower, d) then Append(c, log, id, Normalize(d.actionType).value, ActorOf(d), d.payload, KeyOf(d)).0
    else log
  }

  function Process(c: Crypto, lower: string -> string, ds: seq<(Delivery, string)>): Log {
    if ds == [] then Empty
    else Deliver(c, lower, Process(c, lower, ds[..|ds| - 1]), ds[|ds| - 1].0, ds[|ds| - 1].1)
  }

  // ----- the log that should come out -----

  /** One of the deliveries came under this key. */
  predicate Holds(ds: seq<(Delivery, string)>, key: string) {
    key != "" && exists i :: 0 <= i < |ds| && KeyOf(ds[i].0) == key
  }

  /** The delivery adds an entry to a log that holds the given ones. */
  predicate Adds(lower: string -> string, ds: seq<(Delivery, string)>, d: Delivery) {
    Own(d) || (Good(lower, d) && !Holds(ds, KeyOf(d)))
  }

  /** The appends without a key, and of every key the first good delivery, in order. */
  function FirstGood(lower: string -> string, ds: seq<(Delivery, string)>): seq<(Delivery, string)> {
    if ds == [] then []
    else
      var before, d := FirstGood(lower, ds[..|ds| - 1]), ds[|ds| - 1];
      if Adds(lower, before, d.0) then before + [d] else before
  }

  /** The entry records what the delivery said. */
  predicate Records(c: Crypto, e: Entry, d: Delivery) {
    if d.Direct? then
      e.actionType == d.actionType && e.actorRef == d.actorRef && e.payloadHash == c.sha(d.payload) && e.key == ""
    else
      && (d.Event? || d.Posted?) && Some(e.actionType) == Normalize(d.actionType) && e.actorRef == ActorOf(d)
      && e.payloadHash == c.sha(d.payload) && e.key == KeyOf(d)
  }

  /** The log holds exactly the given deliveries, one entry each, and its index exactly their keys. */
  ghost predicate LogOf(c: Crypto, log: Log, ds: seq<(Delivery, string)>) {
    && |log.entries| == |ds|
    && (forall i :: 0 <= i < |ds| ==> Records(c, log.entries[i], ds[i].0) && log.entries[i].id == ds[i].1)
    && (forall key :: key in log.byKey <==> Holds(ds, key))
  }

  lemma HoldsOneMore(ds: seq<(Delivery, string)>, d: (Delivery, string), key: string)
    ensures Holds(ds + [d], key) <==> Holds(ds, key) || (key != "" && KeyOf(d.0) == key)
  {
    var more := ds + [d];
    if Holds(ds, key) {
      var i :| 0 <= i < |ds| && KeyOf(ds[i].0) == key;
      assert more[i] == ds[i];
    }
    if KeyOf(d.0) == key {
      assert more[|ds|] == d;
    }
  }

  lemma DeliverNew(c: Crypto, lower: string -> string, log: Log, ds: seq<(Delivery, string)>, d: (Delivery, string))
    requires LogOf(c, log, ds) && Adds(lower, ds, d.0)
    ensures LogOf(c, Deliver(c, lower, log, d.0, d.1), ds + [d])
  {
    forall key
      ensures key in Deliver(c, lower, log, d.0, d.1).byKey <==> Holds(ds + [d], key)
    {
      HoldsOneMore(ds, d, key);
    }
  }

  lemma DeliverAgain(c: Crypto, lower: string -> string, log: Log, ds: seq<(Delivery, string)>, d: (Delivery, string))
    requires LogOf(c, log, ds) && !Adds(lower, ds, d.0)
    ensures Deliver(c, lower, log, d.0, d.1) == log
  {
    if Good(lower, d.0) {
      assert KeyOf(d.0) in log.byKey;
    }
  }

  /**
   At-least-once delivery has exactly-once effect: whatever is redelivered, forged, malformed or refused in
   between, the log consists of one entry per append without a key and per first good delivery of a key, in order.
   */
  lemma {:induction false} ExactlyOnce(c: Crypto, lower: string -> string, ds: seq<(Delivery, string)>)
    ensures LogOf(c, Process(c, lower, ds), FirstGood(lower, ds))
  {
    if ds == [] {
      assert forall key :: !Holds([], key);
    } else {
      var front, d := ds[..|ds| - 1], ds[|ds| - 1];
      ExactlyOnce(c, lower, front);
      if Adds(lower, FirstGood(lower, front), d.0) {
        DeliverNew(c, lower, Process(c, lower, front), FirstGood(lower, front), d);
      } else {
        DeliverAgain(c, lower, Process(c, lower, front), FirstGood(lower, front), d);
      }
    }
  }

  /** The very same log, entry for entry, comes out of delivering only the first good occurrences. */
  lemma {:induction false} SameLogWithoutTheRest(c: Crypto, lower: string -> string, ds: seq<(Delivery, string)>)
    ensures Process(c, lower, ds) == Process(c, lower, FirstGood(lower, ds))
  {
    if ds != [] {
      var front, d := ds[..|ds| - 1], ds[|ds| - 1];
      SameLogWithoutTheRest(c, lower, front);
      ExactlyOnce(c, lower, front);
      var kept := FirstGood(lower, front);
      if Adds(lower, kept, d.0) {
        assert (kept + [d])[..|kept|] == kept;
      } else {
        DeliverAgain(c, lower, Process(c, lower, front), kept, d);
      }
    }
  }

  /** No delivery repeats the key of an earlier one. */
  ghost predicate NoRepeats(ds: seq<(Delivery, string)>) {
    forall k :: 0 <= k < |ds| ==> !Holds(ds[..k], KeyOf(ds[k].0))
  }

  /** No key is ever logged twice. */
  lemma {:induction false} FirstGoodHasNoRepeats(lower: string -> string, ds: seq<(Delivery, string)>)
    ensures NoRepeats(FirstGood(lower, ds))
  {
    if ds != [] {
      FirstGoodHasNoRepeats(lower, ds[..|ds| - 1]);
      var before, kept := FirstGood(lower, ds[..|ds| - 1]), FirstGood(lower, ds);
      forall k | 0 <= k < |kept|
        ensures !Holds(kept[..k], KeyOf(kept[k].0))
      {
        if k < |before| {
          assert kept[..k] == before[..k] && kept[k] == before[k];
        } else {
          assert kept[..k] == before;
        }
      }
    }
  }

  /** Something good was delivered under this key. */
  predicate KeyTaken(lower: string -> string, ds: seq<(Delivery, string)>, key: string) {
    key != "" && exists i :: 0 <= i < |ds| && Good(lower, ds[i].0) && KeyOf(ds[i].0) == key
  }

  lemma KeysMoveTogether(lower: string -> string, before: seq<(Delivery, string)>, ds: seq<(Delivery, string)>,
                         d: (Delivery, string), key: string)
    requires forall k :: Holds(before, k) <==> KeyTaken(lower, ds, k)
    ensures Holds(if Adds(lower, before, d.0) then before + [d] else before, key) <==> KeyTaken(lower, ds + [d], key)
  {
    HoldsOneMore(before, d, key);
    TakenOneMore(lower, ds, d, key);
  }

  /** ... and the keys that are logged are exactly those something good was delivered under. */
  lemma {:induction false} NoGoodKeyIsMissing(lower: string -> string, ds: seq<(Delivery, string)>)
    ensures forall key :: Holds(FirstGood(lower, ds), key) <==> KeyTaken(lower, ds, key)
  {
    if ds != [] {
      var front, d := ds[..|ds| - 1], ds[|ds| - 1];
      NoGoodKeyIsMissing(lower, front);
      assert ds == front + [d];
      forall key
        ensures Holds(FirstGood(lower, ds), key) <==> KeyTaken(lower, ds, key)
      {
        KeysMoveTogether(lower, FirstGood(lower, front), front, d, key);
      }
    }
  }

  lemma TakenOneMore(lower: string -> string, ds: seq<(Delivery, string)>, d: (Delivery, string), key: string)
    ensures KeyTaken(lower, ds + [d], key) <==> KeyTaken(lower, ds, key) || (key != "" && Good(lower, d.0) && KeyOf(d.0) == key)
  {
    var more := ds + [d];
    if KeyTaken(lower, ds, key) {
      var i :| 0 <= i < |ds| && Good(lower, ds[i].0) && KeyOf(ds[i].0) == key;
      assert more[i] == ds[i];
    }
    assert more[|ds|] == d;
  }

  /**
   A good delivery, event or posted, is logged if and only if it has no key or nothing good came under its key
   before; otherwise it leaves no trace, whatever it says. An event is thus lost exactly if a post has used its key.
   */
  lemma LoggedIffKeyIsFree(c: Crypto, lower: string -> string, ds: seq<(Delivery, string)>, d: (Delivery, string))
    requires Good(lower, d.0)
    ensures var before, after := Process(c, lower, ds), Process(c, lower, ds + [d]);
            if KeyTaken(lower, ds, KeyOf(d.0)) then after == before
            else
              && |after.entries| == |before.entries| + 1 && before.entries == after.entries[..|before.entries|]
              && Records(c, after.entries[|before.entries|], d.0) && after.entries[|before.entries|].id == d.1
  {
    var all := ds + [d];
    assert all[..|all| - 1] == ds;
    ExactlyOnce(c, lower, ds);
    NoGoodKeyIsMissing(lower, ds);
    if KeyTaken(lower, ds, KeyOf(d.0)) {
      DeliverAgain(c, lower, Process(c, lower, ds), FirstGood(lower, ds), d);
    } else {
      DeliverNew(c, lower, Process(c, lower, ds), FirstGood(lower, ds), d);
    }
  }

  /** The producer being fixed, the key tells events apart by their ids. */
  lemma KeyTellsEventsApart(d: Delivery, e: Delivery)
    requires Authentic(d) && Authentic(e) && KeyOf(d) == KeyOf(e)
    ensures d.id == e.id
  {
    assert KeyOf(d)[|PRODUCER| + 1..] == d.id && KeyOf(e)[|PRODUCER| + 1..] == e.id;
  }

  /** The log always passes verification. */
  lemma {:induction false} LogAlwaysVerifies(c: Crypto, lower: string -> string, ds: seq<(Delivery, string)>)
    requires SignsRight(c)
    ensures Intact(c, Process(c, lower, ds).entries)
  {
    if ds != [] {
      var d := ds[|ds| - 1];
      LogAlwaysVerifies(c, lower, ds[..|ds| - 1]);
      var log := Process(c, lower, ds[..|ds| - 1]);
      if Own(d.0) {
        AppendKeepsIntact(c, log, d.1, d.0.actionType, d.0.actorRef, d.0.payload, "");
      } else if Good(lower, d.0) {
        AppendKeepsIntact(c, log, d.1, Normalize(d.0.actionType).value, ActorOf(d.0), d.0.payload, KeyOf(d.0));
      }
    }
  }

  /** Every entry is well formed, so that its hash binds it, whatever was delivered. */
  lemma {:induction false} LogIsWellFormed(c: Crypto, lower: string -> string, ds: seq<(Delivery, string)>)
    requires OneLineHashes(c)
    ensures AllWellFormed(Process(c, lower, ds).entries)
  {
    if ds != [] {
      var d := ds[|ds| - 1];
      LogIsWellFormed(c, lower, ds[..|ds| - 1]);
      var log := Process(c, lower, ds[..|ds| - 1]);
      if Own(d.0) {
        NormalizedIsOneWord(d.0.actionType);
        AppendKeepsWellFormed(c, log, d.1, d.0.actionType, d.0.actorRef, d.0.payload, "");
      } else if Good(lower, d.0) {
        NormalizedIsOneWord(d.0.actionType);
        AppendKeepsWellFormed(c, log, d.1, Normalize(d.0.actionType).value, ActorOf(d.0), d.0.payload, KeyOf(d.0));
      }
    }
  }

  /**
   In the logs of any two histories of deliveries, entries at the same place carry the same hash exactly when
   they record the same action, actor and payload after the same payload.
   */
  lemma HashesBindWhateverWasDelivered(c: Crypto, lower: string -> string, ds: seq<(Delivery, string)>,
                                       es: seq<(Delivery, string)>, i: nat)
    requires SignsRight(c) && CollisionFree(c) && OneLineHashes(c)
    requires i < |Process(c, lower, ds).entries| && i < |Process(c, lower, es).entries|
    ensures Process(c, lower, ds).entries[i].hash == Process(c, lower, es).entries[i].hash <==>
            SameRecord(Process(c, lower, ds).entries, Process(c, lower, es).entries, i)
  {
    LogAlwaysVerifies(c, lower, ds);
    LogAlwaysVerifies(c, lower, es);
    LogIsWellFormed(c, lower, ds);
    LogIsWellFormed(c, lower, es);
    HashBindsTheEntry(c, Process(c, lower, ds).entries, Process(c, lower, es).entries, i);
  }
}
