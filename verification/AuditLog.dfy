/**
 The append-only audit log (apps/api-go/internal/audit/store.go, service.go and domain.go) as values: the
 hash preimage, appending with idempotency keys, and what verifying the chain checks.

 The digest and the signature are arguments; entry ids are fresh values handed in by the caller.
 */
module AuditLog {
  import opened Wrappers
  import opened Lines

  const GENESIS: string := "GENESIS"
  const MAX_REF: nat := 256
  const MAX_PAYLOAD: nat := 8192

  datatype Crypto = Crypto(sha: string -> string, sign: (string, string) -> string, valid: (string, string, string) -> bool)

  datatype Entry = Entry(id: string, actionType: string, actorRef: string, payloadHash: string, prevHash: string,
                         hash: string, signature: string, key: string)

  datatype Log = Log(entries: seq<Entry>, byKey: map<string, Entry>)

  const Empty: Log := Log([], map[])

  // ----- the preimage -----

  function Preimage(prevHash: string, payloadHash: string, actionType: string, actorRef: string): string {
    prevHash + "\n" + payloadHash + "\n" + actionType + "\n" + actorRef
  }

  /** Hashes and action types being single lines, the preimage determines all four fields, line breaks in the actor included. */
  lemma PreimageDeterminesFields(p: string, h: string, a: string, r: string, p': string, h': string, a': string, r': string)
    requires OneLine(p) && OneLine(h) && OneLine(a) && OneLine(p') && OneLine(h') && OneLine(a')
    requires Preimage(p, h, a, r) == Preimage(p', h', a', r')
    ensures p == p' && h == h' && a == a' && r == r'
  {
    assert Preimage(p, h, a, r) == p + "\n" + (h + "\n" + a + "\n" + r);
    assert Preimage(p', h', a', r') == p' + "\n" + (h' + "\n" + a' + "\n" + r');
    FirstLineSplits(p, h + "\n" + a + "\n" + r, p', h' + "\n" + a' + "\n" + r');
    assert h + "\n" + a + "\n" + r == h + "\n" + (a + "\n" + r);
    assert h' + "\n" + a' + "\n" + r' == h' + "\n" + (a' + "\n" + r');
    FirstLineSplits(h, a + "\n" + r, h', a' + "\n" + r');
    FirstLineSplits(a, r, a', r');
  }

  /** A line break in an action type could be moved to the actor without changing the preimage. */
  lemma ActionTypesMustBeOneLine(p: string, h: string, x: string, y: string, r: string)
    ensures Preimage(p, h, x + "\n" + y, r) == Preimage(p, h, x, y + "\n" + r)
    ensures x + "\n" + y != x
  {
    assert |x + "\n" + y| > |x|;
    var front := p + "\n" + h + "\n";
    assert Preimage(p, h, x + "\n" + y, r) == front + x + "\n" + y + "\n" + r;
    assert Preimage(p, h, x, y + "\n" + r) == front + x + "\n" + y + "\n" + r;
  }

  function ChainHash(c: Crypto, prevHash: string, payloadHash: string, actionType: string, actorRef: string): string {
    c.sha(Preimage(prevHash, payloadHash, actionType, actorRef))
  }

  // ----- appending -----

  function LastHash(entries: seq<Entry>): string {
    if entries == [] then GENESIS else entries[|entries| - 1].payloadHash
  }

  function NewEntry(c: Crypto, log: Log, id: string, actionType: string, actorRef: string, payload: string, key: string): Entry {
    var prev, payloadHash := LastHash(log.entries), c.sha(payload);
    var hash := ChainHash(c, prev, payloadHash, actionType, actorRef);
    Entry(id, actionType, actorRef, payloadHash, prev, hash, c.sign(id, hash), key)
  }

  /** A known key returns the entry it was first appended with and writes nothing. */
  function Append(c: Crypto, log: Log, id: string, actionType: string, actorRef: string, payload: string, key: string): (Log, Entry) {
    if key != "" && key in log.byKey then (log, log.byKey[key])
    else
      var e := NewEntry(c, log, id, actionType, actorRef, payload, key);
      (Log(log.entries + [e], if key != "" then log.byKey[key := e] else log.byKey), e)
  }

  // ----- verifying -----

  /** The entry at i is linked to the one before it, hashed and signed. */
  predicate EntryOk(c: Crypto, entries: seq<Entry>, i: nat)
    requires i < |entries|
  {
    var e := entries[i];
    && e.prevHash == LastHash(entries[..i])
    && e.hash == ChainHash(c, e.prevHash, e.payloadHash, e.actionType, e.actorRef)
    && c.valid(e.id, e.hash, e.signature)
  }

  predicate Intact(c: Crypto, entries: seq<Entry>) {
    forall i :: 0 <= i < |entries| ==> EntryOk(c, entries, i)
  }

  /** Walks the log with the hash expected next; reports the first entry that breaks, or -1. */
  method VerifyChain(c: Crypto, entries: seq<Entry>) returns (ok: bool, badIndex: int)
    ensures ok <==> Intact(c, entries)
    ensures ok ==> badIndex == -1
    ensures !ok ==> 0 <= badIndex < |entries| && !EntryOk(c, entries, badIndex) && Intact(c, entries[..badIndex])
  {
    var prev := GENESIS;
    for i := 0 to |entries|
      invariant prev == LastHash(entries[..i])
      invariant forall k :: 0 <= k < i ==> EntryOk(c, entries, k)
    {
      var e := entries[i];
      assert EntryOk(c, entries, i) <==>
             && e.prevHash == prev
             && e.hash == ChainHash(c, e.prevHash, e.payloadHash, e.actionType, e.actorRef) && c.valid(e.id, e.hash, e.signature);
      if e.prevHash != prev {
        PrefixIntact(c, entries, i);
        return false, i;
      }
      if e.hash != ChainHash(c, e.prevHash, e.payloadHash, e.actionType, e.actorRef) || !c.valid(e.id, e.hash, e.signature) {
        PrefixIntact(c, entries, i);
        return false, i;
      }
      prev := e.payloadHash;
    }
    return true, -1;
  }

  /** The entries before the first broken one, and every prefix of an intact log, verify by themselves. */
  lemma PrefixIntact(c: Crypto, entries: seq<Entry>, n: nat)
    requires n <= |entries| && forall k :: 0 <= k < n ==> EntryOk(c, entries, k)
    ensures Intact(c, entries[..n])
  {
    forall k | 0 <= k < n
      ensures EntryOk(c, entries[..n], k)
    {
      assert EntryOk(c, entries, k);
      assert entries[..n][..k] == entries[..k] && entries[..n][k] == entries[k];
    }
  }

  ghost predicate SignsRight(c: Crypto) {
    forall id, h :: c.valid(id, h, c.sign(id, h))
  }

  /** Appending never breaks the chain. */
  lemma AppendKeepsIntact(c: Crypto, log: Log, id: string, actionType: string, actorRef: string, payload: string, key: string)
    requires SignsRight(c) && Intact(c, log.entries)
    ensures Intact(c, Append(c, log, id, actionType, actorRef, payload, key).0.entries)
  {
    var (log', e) := Append(c, log, id, actionType, actorRef, payload, key);
    if log' != log {
      forall i | 0 <= i < |log'.entries|
        ensures EntryOk(c, log'.entries, i)
      {
        assert log'.entries[..i] == log.entries[..i];
        if i < |log.entries| {
          assert EntryOk(c, log.entries, i);
        } else {
          assert log.entries[..i] == log.entries;
        }
      }
    }
  }

  // ----- what the chain binds -----

  ghost predicate CollisionFree(c: Crypto) {
    forall x, y :: c.sha(x) == c.sha(y) ==> x == y
  }

  ghost predicate OneLineHashes(c: Crypto) {
    forall x :: OneLine(c.sha(x))
  }

  /** There are digests and signatures that meet these conditions all at once. */
  lemma SomeCryptoFits() returns (c: Crypto)
    ensures SignsRight(c) && CollisionFree(c) && OneLineHashes(c)
  {
    c := Crypto(Escaped, (id, h) => h, (id, h, s) => s == h);
    forall x, y
      ensures OneLine(c.sha(x)) && (c.sha(x) == c.sha(y) ==> x == y)
    {
      EscapedHasNoSeparator(x);
      if Escaped(x) == Escaped(y) {
        EscapedIsInjective(x, y);
      }
    }
  }

  /** The stored hashes are digests or the genesis marker, and action types are single words. */
  predicate WellFormed(e: Entry) {
    OneLine(e.prevHash) && OneLine(e.payloadHash) && OneLine(e.actionType)
  }

  predicate AllWellFormed(entries: seq<Entry>) {
    forall i :: 0 <= i < |entries| ==> WellFormed(entries[i])
  }

  lemma AppendKeepsWellFormed(c: Crypto, log: Log, id: string, actionType: string, actorRef: string, payload: string, key: string)
    requires OneLineHashes(c) && AllWellFormed(log.entries) && OneLine(actionType)
    ensures AllWellFormed(Append(c, log, id, actionType, actorRef, payload, key).0.entries)
  {
    var last := LastHash(log.entries);
    assert OneLine(GENESIS);
    assert log.entries != [] ==> WellFormed(log.entries[|log.entries| - 1]);
  }

  /** The entries at i record the same action, actor and payload after the same payload. */
  predicate SameRecord(log: seq<Entry>, other: seq<Entry>, i: nat)
    requires i < |log| && i < |other|
  {
    && log[i].actionType == other[i].actionType && log[i].actorRef == other[i].actorRef
    && log[i].payloadHash == other[i].payloadHash && LastHash(log[..i]) == LastHash(other[..i])
  }

  /**
   In intact logs, entries carry the same hash exactly when they agree on action, actor and payload and on
   the payload of the entry before.
   */
  lemma HashBindsTheEntry(c: Crypto, log: seq<Entry>, other: seq<Entry>, i: nat)
    requires CollisionFree(c) && Intact(c, log) && Intact(c, other)
    requires i < |log| && i < |other| && WellFormed(log[i]) && WellFormed(other[i])
    ensures log[i].hash == other[i].hash <==> SameRecord(log, other, i)
  {
    var e, f := log[i], other[i];
    assert EntryOk(c, log, i) && EntryOk(c, other, i);
    if e.hash == f.hash {
      PreimageDeterminesFields(e.prevHash, e.payloadHash, e.actionType, e.actorRef,
                               f.prevHash, f.payloadHash, f.actionType, f.actorRef);
    }
  }

  /** The entry with another action and actor, hashed and signed anew. */
  function Rewritten(c: Crypto, e: Entry, actionType: string, actorRef: string): Entry {
    var hash := ChainHash(c, e.prevHash, e.payloadHash, actionType, actorRef);
    e.(actionType := actionType, actorRef := actorRef, hash := hash, signature := c.sign(e.id, hash))
  }

  /**
   It binds no more than that. The link is the payload hash, not the entry hash, so the action and the actor of
   any entry of any intact log can be replaced, the entry being signed anew, with every other entry as it was:
   the log stays intact, although the hash of the entry is another one unless nothing was changed.
   */
  lemma LinkDoesNotBindTheActorBefore(c: Crypto, log: seq<Entry>, i: nat, actionType: string, actorRef: string)
    requires SignsRight(c) && Intact(c, log) && i < |log|
    ensures var other := log[i := Rewritten(c, log[i], actionType, actorRef)];
            && Intact(c, other)
            && (forall k :: 0 <= k < |log| && k != i ==> other[k] == log[k])
            && (CollisionFree(c) && WellFormed(log[i]) && OneLine(actionType) ==>
                  (other[i].hash == log[i].hash <==> actionType == log[i].actionType && actorRef == log[i].actorRef))
  {
    var other := log[i := Rewritten(c, log[i], actionType, actorRef)];
    assert EntryOk(c, log, i);
    forall k | 0 <= k < |other|
      ensures EntryOk(c, other, k) && LastHash(other[..k]) == LastHash(log[..k])
    {
      assert EntryOk(c, log, k);
      if k > 0 {
        assert other[..k][k - 1] == other[k - 1] && log[..k][k - 1] == log[k - 1];
      }
    }
    if CollisionFree(c) && WellFormed(log[i]) && OneLine(actionType) {
      HashBindsTheEntry(c, log, other, i);
    }
  }

  // ----- the service's checks -----

  function Normalize(verb: string): Option<string> {
    if verb in {"proposal_created", "proposal_status_changed", "vote_certified", "system_update", "rule_change",
                "admin_action", "identity_event"} then Some(verb)
    else if verb in {"vote_session_scheduled", "vote_session_opened", "vote_session_closed", "vote_quorum_failed",
                     "ballot_cast"} then Some("system_update")
    else if verb in {"delegation_created", "delegation_revoked", "delegation_expired"} then Some("admin_action")
    else None
  }

  predicate PartAt(s: string, part: string, i: nat) {
    i + |part| <= |s| && s[i..i + |part|] == part
  }

  predicate Contains(s: string, part: string) {
    exists i: nat :: i <= |s| && PartAt(s, part, i)
  }

  /** Ballot content is kept out, whatever the letter case. */
  predicate Acceptable(lower: string -> string, actionType: string, actorRef: string, payload: string, key: string) {
    && Normalize(actionType).Some?
    && actorRef != "" && |actorRef| <= MAX_REF && |payload| <= MAX_PAYLOAD && |key| <= MAX_REF
    && actionType != "ballot_cast"
    && !Contains(lower(payload), "ballot_selection:")
    && !Contains(lower(payload), "encrypted_choice")
    && !Contains(lower(payload), "token_blind")
  }

  /** Normalised action types are the enumerated single words. */
  lemma NormalizedIsOneWord(verb: string)
    ensures Normalize(verb).Some? ==> OneLine(Normalize(verb).value) && Normalize(Normalize(verb).value) == Normalize(verb)
  {
  }
}
