/**
 The release gate for protocol changes (apps/api-go/internal/audit/service.go, handlers.go and store.go):
 registering a change, recording approvals, and releasing it once, after the delay, on approvals fetched
 anew from the governance service.
 */
module ProtocolGate {
  import opened Wrappers
  import Governance
  import opened Runs
  import opened ProtocolApprovals

  const SECOND: int := 1_000_000_000
  const DAY: int := 24 * 60 * 60 * SECOND
  const MAX_REF: nat := 256

  datatype Change = Change(changeRef: string, required: seq<string>, approvals: seq<ProtocolApproval>,
                           delayUntil: int, visibleSince: int, released: bool, createdAt: int, releasedAt: Option<int>)

  datatype Error = NotFound | Invalid | Conflict | InvalidState | Unavailable

  type Table = map<string, Change>

  predicate NoDuplicates(refs: seq<string>) {
    forall i, k :: 0 <= i < k < |refs| ==> refs[i] != refs[k]
  }

  datatype RegisterInput = RegisterInput(changeRef: string, required: seq<string>, delayUntil: Option<int>, visibleSince: Option<int>)

  predicate Registrable(input: RegisterInput) {
    && 0 < |input.changeRef| <= MAX_REF && |input.required| > 0
    && input.delayUntil.Some? && input.visibleSince.Some?
    && "" !in input.required && NoDuplicates(input.required)
  }

  function RegisterChange(t: Table, id: string, input: RegisterInput, createdAt: int): (Table, Option<Error>) {
    if !Registrable(input) then (t, Some(Invalid))
    else (t[id := Change(input.changeRef, input.required, [], input.delayUntil.value, input.visibleSince.value, false, createdAt, None)], None)
  }

  /** What the handler registers, whoever asks: the three approvals, visible now, a day's delay. */
  function HandlerInput(changeRef: string, now: int): RegisterInput {
    RegisterInput(changeRef, REQUIRED, Some(now + DAY), Some(now))
  }

  function Update(t: Table, id: string, c: Change): (Table, Option<Error>) {
    if id !in t then (t, Some(NotFound))
    else if t[id].released then (t, Some(Conflict))
    else (t[id := c], None)
  }

  predicate HasRef(approvals: seq<ProtocolApproval>, ref: string) {
    exists i :: 0 <= i < |approvals| && approvals[i].ref == ref
  }

  function RecordApproval(t: Table, id: string, ref: string, approver: string, now: int): (Table, Option<Error>) {
    if ref == "" || approver == "" then (t, Some(Invalid))
    else if id !in t then (t, Some(NotFound))
    else if t[id].released then (t, Some(InvalidState))
    else if HasRef(t[id].approvals, ref) then (t, Some(Conflict))
    else Update(t, id, t[id].(approvals := t[id].approvals + [ProtocolApproval(ref, approver, now)]))
  }

  predicate Releasable(c: Change, now: int) {
    && !c.released
    && (forall ref :: ref in c.required ==> HasRef(c.approvals, ref))
    && now >= c.delayUntil && now >= c.visibleSince
  }

  function ReleaseChange(t: Table, id: string, now: int): (Table, Option<Error>) {
    if id !in t then (t, Some(NotFound))
    else if !Releasable(t[id], now) then (t, Some(InvalidState))
    else Update(t, id, t[id].(released := true, releasedAt := Some(now)))
  }

  /** The shape every change opened by the handler has; anything else is not released. */
  predicate TrustedPolicy(c: Change) {
    && |c.required| == 3
    && c.delayUntil - c.visibleSince >= DAY
    && 0 <= c.createdAt - c.visibleSince <= SECOND
  }

  /** `received` is what the governance service answered, if it did. */
  function HandleRelease(t: Table, id: string, received: Option<seq<ProtocolApproval>>, now: int): (Table, Option<Error>) {
    if id !in t then (t, Some(NotFound))
    else if !TrustedPolicy(t[id]) then (t, Some(InvalidState))
    else if received.None? || !Valid(received.value) then (t, Some(Unavailable))
    else
      var (stored, e) := Update(t, id, t[id].(approvals := received.value));
      if e.Some? then (stored, e) else ReleaseChange(stored, id, now)
  }

  // ----- runs -----

  datatype Call =
    | DoRegister(id: string, input: RegisterInput, createdAt: int)
    | DoRecord(id: string, ref: string, approver: string, now: int)
    | DoRelease(id: string, received: Option<seq<ProtocolApproval>>, now: int)

  function Advance(t: Table, c: Call): Table {
    match c
    case DoRegister(id, input, createdAt) => RegisterChange(t, id, input, createdAt).0
    case DoRecord(id, ref, approver, now) => RecordApproval(t, id, ref, approver, now).0
    case DoRelease(id, received, now) => HandleRelease(t, id, received, now).0
  }

  predicate Fresh(t: Table, c: Call) {
    c.DoRegister? ==> c.id !in t
  }

  /** Released no earlier than a day after becoming visible, on the three approvals of three different people. */
  ghost predicate ReleasedRight(c: Change) {
    && c.releasedAt.Some?
    && c.releasedAt.value >= c.delayUntil && c.releasedAt.value >= c.visibleSince + DAY
    && Valid(c.approvals) && |c.required| == 3
    && forall ref :: ref in c.required ==> HasRef(c.approvals, ref)
  }

  ghost predicate Sound(t: Table) {
    forall id :: id in t ==> if t[id].released then ReleasedRight(t[id]) else t[id].releasedAt.None?
  }

  lemma CallsPreserve()
    ensures Preserves(Advance, Fresh, Sound)
  {
  }

  /** Over any run: a change is only ever released on three independent approvals and after its full day. */
  lemma EveryReleaseIsRight(calls: seq<Call>, n: nat, id: string)
    requires Admissible(Advance, Fresh, map[], calls) && n <= |calls|
    requires id in After(Advance, map[], calls, n) && After(Advance, map[], calls, n)[id].released
    ensures ReleasedRight(After(Advance, map[], calls, n)[id])
  {
    CallsPreserve();
    InvariantHolds(Advance, Fresh, Sound, map[], calls, n);
    assert Sound(After(Advance, map[], calls, n));
  }

  lemma ReleasedStays(t: Table, c: Call, id: string, change: Change)
    requires Fresh(t, c) && id in t && t[id] == change && change.released
    ensures id in Advance(t, c) && Advance(t, c)[id] == change
    ensures c.DoRelease? && c.id == id ==> HandleRelease(t, id, c.received, c.now).1.Some?
  {
  }

  /**
   Once released, a change never changes again, its release time included, and every later attempt to
   release it fails.
   */
  lemma ReleasedOnce(t: Table, calls: seq<Call>, n: nat, id: string)
    requires Sound(t) && Admissible(Advance, Fresh, t, calls) && n <= |calls|
    requires id in t && t[id].released
    ensures id in After(Advance, t, calls, n) && After(Advance, t, calls, n)[id] == t[id]
    ensures n < |calls| && calls[n].DoRelease? && calls[n].id == id ==>
              HandleRelease(After(Advance, t, calls, n), id, calls[n].received, calls[n].now).1.Some?
  {
    var change := t[id];
    var kept := (t: Table) => id in t && t[id] == change;
    CallsPreserve();
    forall t, c | Sound(t) && kept(t) && Fresh(t, c)
      ensures kept(Advance(t, c))
    {
      ReleasedStays(t, c, id, change);
    }
    HoldsFromThere(Advance, Fresh, Sound, kept, t, calls, 0, n);
    if n < |calls| {
      assert Fresh(After(Advance, t, calls, n), calls[n]);
      ReleasedStays(After(Advance, t, calls, n), calls[n], id, change);
    }
  }

  /** The policy of a change the handler opened. */
  predicate OpenedAt(t: Table, id: string, openedAt: int, createdAt: int) {
    && id in t && t[id].required == REQUIRED
    && t[id].delayUntil == openedAt + DAY && t[id].visibleSince == openedAt && t[id].createdAt == createdAt
  }

  lemma OpenedStays(t: Table, c: Call, id: string, openedAt: int, createdAt: int)
    requires Fresh(t, c) && OpenedAt(t, id, openedAt, createdAt)
    ensures OpenedAt(Advance(t, c), id, openedAt, createdAt)
  {
  }

  lemma OpenedIsReleased(t: Table, id: string, openedAt: int, createdAt: int, approvals: seq<ProtocolApproval>, now: int)
    requires OpenedAt(t, id, openedAt, createdAt) && !t[id].released
    requires openedAt <= createdAt <= openedAt + SECOND && now >= openedAt + DAY && Valid(approvals)
    ensures var (done, e) := HandleRelease(t, id, Some(approvals), now);
            e.None? && id in done && done[id].released && done[id].releasedAt == Some(now) && done[id].approvals == approvals
  {
    ValidCoversRequired(approvals);
  }

  /**
   The two services fit together: a change opened by the handler, whatever is called in the meantime, is released
   by the handler once its day is over if nobody has released it yet, on whatever list the governance service
   picks for it then.
   */
  lemma PickedApprovalsRelease(t: Table, id: string, changeRef: string, openedAt: int, createdAt: int, calls: seq<Call>, n: nat,
                               s: Governance.State, rows: seq<Governance.Approval>, approvals: seq<ProtocolApproval>, now: int)
    requires Sound(t) && id !in t && 0 < |changeRef| <= MAX_REF && openedAt <= createdAt <= openedAt + SECOND
    requires Chosen(s, rows, 3, now).Some? && Sent(s, Chosen(s, rows, 3, now).value, approvals)
    requires forall c :: c in s.citizens ==> c != ""
    requires now >= openedAt + DAY
    requires var registered := RegisterChange(t, id, HandlerInput(changeRef, openedAt), createdAt).0;
             Admissible(Advance, Fresh, registered, calls) && n <= |calls|
    ensures var (registered, e) := RegisterChange(t, id, HandlerInput(changeRef, openedAt), createdAt);
            var before := After(Advance, registered, calls, n);
            && e.None? && id in before
            && (!before[id].released ==>
                  var (done, f) := HandleRelease(before, id, Some(approvals), now);
                  f.None? && id in done && done[id].released && done[id].releasedAt == Some(now) && done[id].approvals == approvals)
  {
    RefsDiffer();
    var registered := RegisterChange(t, id, HandlerInput(changeRef, openedAt), createdAt).0;
    assert OpenedAt(registered, id, openedAt, createdAt);
    OpenedHoldsOn(registered, calls, n, id, openedAt, createdAt);
    SentIsValid(s, rows, approvals, now);
    var before := After(Advance, registered, calls, n);
    if !before[id].released {
      OpenedIsReleased(before, id, openedAt, createdAt, approvals, now);
    }
  }

  lemma OpenedHoldsOn(t: Table, calls: seq<Call>, n: nat, id: string, openedAt: int, createdAt: int)
    requires Sound(t) && Admissible(Advance, Fresh, t, calls) && n <= |calls| && OpenedAt(t, id, openedAt, createdAt)
    ensures OpenedAt(After(Advance, t, calls, n), id, openedAt, createdAt)
  {
    var kept := (t: Table) => OpenedAt(t, id, openedAt, createdAt);
    CallsPreserve();
    forall t, c | Sound(t) && kept(t) && Fresh(t, c)
      ensures kept(Advance(t, c))
    {
      OpenedStays(t, c, id, openedAt, createdAt);
    }
    HoldsFromThere(Advance, Fresh, Sound, kept, t, calls, 0, n);
  }
}
