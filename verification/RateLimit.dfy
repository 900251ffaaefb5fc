/**
 The per-peer request limiter (`Limit` in apps/api-go/internal/security/http.go).

 A peer's window opens with its first request, counts what is admitted, and is forgotten at the first
 request of anyone after it has ended.
 */
module RateLimit {
  import opened Wrappers
  import opened Sizes
  import opened Runs

  const MINUTE: int := 60_000_000_000
  const PER_WINDOW: nat := 120
  const PEERS: nat := 10000

  datatype Window = Window(count: nat, end: int)

  type Windows = map<string, Window>

  function Current(ws: Windows, now: int): Windows {
    map h | h in ws && ws[h].end >= now :: ws[h]
  }

  /** The window a request is counted in: the peer's own, or a new one. */
  function SlotOf(ws: Windows, host: string, now: int): Window {
    if host in ws then ws[host] else Window(0, now + MINUTE)
  }

  function Request(ws: Windows, host: string, now: int): (Windows, bool) {
    var left := Current(ws, now);
    var v := SlotOf(left, host, now);
    if v.count >= PER_WINDOW || (|left| >= PEERS && v.count == 0) then (left, false)
    else (left[host := Window(v.count + 1, v.end)], true)
  }

  /** Tracked windows have admitted someone, and the table is bounded. */
  predicate Valid(ws: Windows) {
    |ws| <= PEERS && forall h :: h in ws ==> 0 < ws[h].count <= PER_WINDOW
  }

  lemma CurrentShrinks(ws: Windows, now: int)
    ensures |Current(ws, now)| <= |ws|
  {
    SubsetSize(Current(ws, now).Keys, ws.Keys);
  }

  /** No run ever tracks more than ten thousand peers or admits more than 120 requests in one window. */
  lemma RequestKeepsBounds(ws: Windows, host: string, now: int)
    requires Valid(ws)
    ensures Valid(Request(ws, host, now).0)
  {
    CurrentShrinks(ws, now);
    var left := Current(ws, now);
    if host in left {
      assert left[host := Window(left[host].count + 1, left[host].end)].Keys == left.Keys;
    }
  }

  class Limiter {
    var windows: Windows

    constructor ()
      ensures windows == map[]
    {
      windows := map[];
    }

    method Admit(host: string, now: int) returns (admitted: bool)
      requires Valid(windows)
      modifies this
      ensures Valid(windows) && (windows, admitted) == Request(old(windows), host, now)
    {
      RequestKeepsBounds(windows, host, now);
      ghost var before := windows;
      var rest := windows.Keys;
      while rest != {}
        invariant rest <= windows.Keys && PurgedOutside(before, windows, rest, now)
      {
        var h :| h in rest;
        rest := rest - {h};
        PurgeStep(before, windows, rest, h, now);
        if windows[h].end < now {
          windows := windows - {h};
        }
      }
      PurgeDone(before, windows, now);
      var value := if host in windows then windows[host] else Window(0, now + MINUTE);
      var blocked := value.count >= PER_WINDOW || (|windows| >= PEERS && value.count == 0);
      if !blocked {
        windows := windows[host := Window(value.count + 1, value.end)];
      }
      admitted := !blocked;
    }
  }

  /** The ended windows outside `rest` are gone, and nothing else. */
  ghost predicate PurgedOutside(before: Windows, ws: Windows, rest: set<string>, now: int) {
    && (forall h :: h in ws <==> h in before && (h in rest || before[h].end >= now))
    && (forall h :: h in ws ==> ws[h] == before[h])
  }

  lemma PurgeStep(before: Windows, ws: Windows, rest: set<string>, h: string, now: int)
    requires PurgedOutside(before, ws, rest + {h}, now) && h in ws && h !in rest
    ensures PurgedOutside(before, if ws[h].end < now then ws - {h} else ws, rest, now)
  {
  }

  lemma PurgeDone(before: Windows, ws: Windows, now: int)
    requires PurgedOutside(before, ws, {}, now)
    ensures ws == Current(before, now)
  {
  }

  // ----- one peer over a run -----

  type Calls = seq<(string, int)>

  predicate ClockNeverGoesBack(calls: Calls) {
    forall i, k :: 0 <= i < k < |calls| ==> calls[i].1 <= calls[k].1
  }

  function Advance(ws: Windows, call: (string, int)): Windows {
    Request(ws, call.0, call.1).0
  }

  /** When the peer's requests were admitted, in order. */
  function Admitted(ws: Windows, calls: Calls, n: nat, host: string): seq<int>
    requires n <= |calls|
  {
    if n == 0 then []
    else
      var (h, now) := calls[n - 1];
      Admitted(ws, calls, n - 1, host)
      + if h == host && Request(After(Advance, ws, calls, n - 1), h, now).1 then [now] else []
  }

  function CountIn(times: seq<int>, from: int, to: int): nat {
    if times == [] then 0
    else CountIn(times[..|times| - 1], from, to) + if from <= times[|times| - 1] <= to then 1 else 0
  }

  lemma {:induction false} CountInSum(a: seq<int>, b: seq<int>, from: int, to: int)
    ensures CountIn(a + b, from, to) == CountIn(a, from, to) + CountIn(b, from, to)
  {
    if b == [] {
      assert a + b == a;
    } else {
      assert (a + b)[..|a + b| - 1] == a + b[..|b| - 1];
      CountInSum(a, b[..|b| - 1], from, to);
    }
  }

  lemma {:induction false} CountInBound(a: seq<int>, from: int, to: int)
    ensures CountIn(a, from, to) <= |a|
    ensures (forall i :: 0 <= i < |a| ==> a[i] < from) ==> CountIn(a, from, to) == 0
  {
    if a != [] {
      CountInBound(a[..|a| - 1], from, to);
    }
  }

  lemma FirstNotCounted(a: seq<int>, from: int, to: int)
    requires a != [] && a[0] < from
    ensures CountIn(a, from, to) <= |a| - 1
  {
    assert a == [a[0]] + a[1..];
    CountInSum([a[0]], a[1..], from, to);
    CountInBound([a[0]], from, to);
    CountInBound(a[1..], from, to);
  }

  lemma {:induction false} CountInNarrow(a: seq<int>, from: int, to: int, from': int, to': int)
    requires from' <= from && forall i :: 0 <= i < |a| && a[i] <= to ==> a[i] <= to'
    ensures CountIn(a, from, to) <= CountIn(a, from', to')
  {
    if a != [] {
      CountInNarrow(a[..|a| - 1], from, to, from', to');
    }
  }

  /** The admitted times of a peer, cut into its current window, the one before, and all earlier ones. */
  datatype Past = Past(earlier: seq<int>, previous: seq<int>, previousStart: int, current: seq<int>, start: int)

  function Times(p: Past): seq<int> {
    p.earlier + p.previous + p.current
  }

  ghost predicate PastOk(p: Past, ws: Windows, host: string, latest: int) {
    && |p.previous| <= PER_WINDOW && |p.current| <= PER_WINDOW
    && (forall i :: 0 <= i < |p.current| ==> p.start <= p.current[i] <= p.start + MINUTE && p.current[i] <= latest)
    && (forall i :: 0 <= i < |p.previous| ==> p.previousStart <= p.previous[i] <= p.previousStart + MINUTE)
    && (p.previous != [] ==> p.previous[0] == p.previousStart) && (p.current != [] ==> p.current[0] == p.start)
    && (forall i :: 0 <= i < |p.earlier| ==> p.earlier[i] < p.previousStart)
    && p.previousStart + MINUTE < p.start <= latest
    && (if host in ws then ws[host] == Window(|p.current|, p.start + MINUTE) && |p.current| > 0
        else p.start + MINUTE < latest)
  }

  /** What was admitted in the last minute came from at most two windows, and not from the opening of the first. */
  lemma LastMinuteFits(p: Past, ws: Windows, host: string, latest: int)
    requires PastOk(p, ws, host, latest) && latest <= p.start + MINUTE
    ensures CountIn(Times(p), latest - MINUTE, latest) <= 2 * PER_WINDOW - 1
  {
    CountInSum(p.earlier + p.previous, p.current, latest - MINUTE, latest);
    CountInSum(p.earlier, p.previous, latest - MINUTE, latest);
    CountInBound(p.earlier, latest - MINUTE, latest);
    if p.previous != [] {
      FirstNotCounted(p.previous, latest - MINUTE, latest);
    }
    CountInBound(p.current, latest - MINUTE, latest);
  }

  /** One request of any peer: how the cut moves on. */
  lemma PastMovesOn(p: Past, ws: Windows, host: string, latest: int, h: string, now: int) returns (p': Past)
    requires PastOk(p, ws, host, latest) && latest <= now
    ensures var (ws', admitted) := Request(ws, h, now);
            && PastOk(p', ws', host, now)
            && Times(p') == Times(p) + (if h == host && admitted then [now] else [])
            && (h == host && admitted ==> now <= p'.start + MINUTE)
  {
    var (ws', admitted) := Request(ws, h, now);
    if h == host && admitted {
      if host in ws && ws[host].end >= now {
        p' := p.(current := p.current + [now]);
        assert Times(p') == Times(p) + [now];
      } else {
        p' := Past(p.earlier + p.previous, p.current, p.start, [now], now);
        assert Times(p') == Times(p) + [now];
      }
    } else {
      p' := p;
      assert Times(p') == Times(p) + [];
    }
  }

  /** A cut of what the peer was admitted in the first n calls, `latest` being the last clock reading by then. */
  ghost predicate CutOf(p: Past, calls: Calls, n: nat, host: string, latest: int)
    requires n <= |calls|
  {
    PastOk(p, After(Advance, map[], calls, n), host, latest) && Times(p) == Admitted(map[], calls, n, host)
  }

  lemma CutMovesOn(before: Past, calls: Calls, n: nat, host: string, latest: int) returns (p: Past)
    requires 0 < n <= |calls| && CutOf(before, calls, n - 1, host, latest) && latest <= calls[n - 1].1
    ensures CutOf(p, calls, n, host, calls[n - 1].1)
    ensures LastAdmits(calls, n, host) ==> calls[n - 1].1 <= p.start + MINUTE
  {
    p := PastMovesOn(before, After(Advance, map[], calls, n - 1), host, latest, calls[n - 1].0, calls[n - 1].1);
  }

  /** The cut after n calls of a run that starts with nobody tracked. */
  lemma {:induction false} PastOfRun(calls: Calls, n: nat, host: string, origin: int) returns (p: Past)
    requires ClockNeverGoesBack(calls) && n <= |calls|
    requires forall i :: 0 <= i < |calls| ==> origin <= calls[i].1
    ensures CutOf(p, calls, n, host, if n == 0 then origin else calls[n - 1].1)
    ensures n > 0 && LastAdmits(calls, n, host) ==> calls[n - 1].1 <= p.start + MINUTE
  {
    if n == 0 {
      p := Past([], [], origin - 2 * MINUTE - 2, [], origin - MINUTE - 1);
    } else {
      var before := PastOfRun(calls, n - 1, host, origin);
      p := CutMovesOn(before, calls, n, host, if n == 1 then origin else calls[n - 2].1);
    }
  }

  lemma {:induction false} AdmittedTimesAreCallTimes(calls: Calls, n: nat, host: string, i: nat)
    requires ClockNeverGoesBack(calls) && n <= |calls| && i < |Admitted(map[], calls, n, host)|
    ensures n > 0 && Admitted(map[], calls, n, host)[i] <= calls[n - 1].1
  {
    var before := Admitted(map[], calls, n - 1, host);
    if i < |before| {
      AdmittedTimesAreCallTimes(calls, n - 1, host, i);
    }
  }

  predicate LastAdmits(calls: Calls, n: nat, host: string)
    requires 0 < n <= |calls|
  {
    calls[n - 1].0 == host && Request(After(Advance, map[], calls, n - 1), host, calls[n - 1].1).1
  }

  lemma LastMinuteOfRun(calls: Calls, n: nat, host: string)
    requires ClockNeverGoesBack(calls) && 0 < n <= |calls| && LastAdmits(calls, n, host)
    ensures CountIn(Admitted(map[], calls, n, host), calls[n - 1].1 - MINUTE, calls[n - 1].1) <= 2 * PER_WINDOW - 1
  {
    var p := PastOfRun(calls, n, host, calls[0].1);
    LastMinuteFits(p, After(Advance, map[], calls, n), host, calls[n - 1].1);
  }

  lemma NoTimeIsLater(calls: Calls, n: nat, host: string)
    requires ClockNeverGoesBack(calls) && 0 < n <= |calls|
    ensures forall i :: 0 <= i < |Admitted(map[], calls, n, host)| ==> Admitted(map[], calls, n, host)[i] <= calls[n - 1].1
  {
    forall i | 0 <= i < |Admitted(map[], calls, n, host)|
      ensures Admitted(map[], calls, n, host)[i] <= calls[n - 1].1
    {
      AdmittedTimesAreCallTimes(calls, n, host, i);
    }
  }

  /** An interval that reaches the latest admission covers no more of the past than the last minute does. */
  lemma IntervalUpToNowFits(calls: Calls, n: nat, host: string, from: int)
    requires ClockNeverGoesBack(calls) && 0 < n <= |calls| && LastAdmits(calls, n, host)
    requires from <= calls[n - 1].1 <= from + MINUTE
    ensures CountIn(Admitted(map[], calls, n, host), from, from + MINUTE) <= 2 * PER_WINDOW - 1
  {
    LastMinuteOfRun(calls, n, host);
    NoTimeIsLater(calls, n, host);
    CountInNarrow(Admitted(map[], calls, n, host), from, from + MINUTE, calls[n - 1].1 - MINUTE, calls[n - 1].1);
  }

  lemma NothingNewToCount(calls: Calls, n: nat, host: string, from: int, to: int)
    requires 0 < n <= |calls| && !(LastAdmits(calls, n, host) && from <= calls[n - 1].1 <= to)
    ensures CountIn(Admitted(map[], calls, n, host), from, to) == CountIn(Admitted(map[], calls, n - 1, host), from, to)
  {
    var before := Admitted(map[], calls, n - 1, host);
    if LastAdmits(calls, n, host) {
      assert (before + [calls[n - 1].1])[..|before|] == before;
    } else {
      assert before + [] == before;
    }
  }

  /** The bound on one 60-second interval, ends included, of what a peer was admitted so far. */
  predicate Bounded(calls: Calls, n: nat, host: string, from: int)
    requires n <= |calls|
  {
    CountIn(Admitted(map[], calls, n, host), from, from + MINUTE) <= 2 * PER_WINDOW - 1
  }

  lemma StillBounded(calls: Calls, n: nat, host: string, from: int)
    requires ClockNeverGoesBack(calls) && 0 < n <= |calls| && Bounded(calls, n - 1, host, from)
    ensures Bounded(calls, n, host, from)
  {
    if LastAdmits(calls, n, host) && from <= calls[n - 1].1 <= from + MINUTE {
      IntervalUpToNowFits(calls, n, host, from);
    } else {
      NothingNewToCount(calls, n, host, from, from + MINUTE);
    }
  }

  /**
   In every run, no peer is admitted more than 239 times in any 60-second interval, ends included, wherever it
   lies relative to the peer's windows: one less than two full windows, because they cannot both lie inside.
   */
  lemma {:induction false} LessThanTwiceTheLimitPerMinute(calls: Calls, n: nat, host: string, from: int)
    requires ClockNeverGoesBack(calls) && n <= |calls|
    ensures Bounded(calls, n, host, from)
    ensures CountIn(Admitted(map[], calls, n, host), from, from + 60_000_000_000) <= 239
  {
    if n > 0 {
      LessThanTwiceTheLimitPerMinute(calls, n - 1, host, from);
      StillBounded(calls, n, host, from);
    }
  }

  /** A full window blocks its peer to its very end, and a new one opens at the next tick. */
  lemma NextWindowOpensRightAfter(host: string)
    ensures var ws := map[host := Window(PER_WINDOW - 1, MINUTE)];
            var (ws', admitted) := Request(ws, host, MINUTE);
            admitted && !Request(ws', host, MINUTE).1 && Request(ws', host, MINUTE + 1).1
  {
    var ws := map[host := Window(PER_WINDOW - 1, MINUTE)];
    assert Current(ws, MINUTE) == ws;
    var ws' := Request(ws, host, MINUTE).0;
    assert Current(ws', MINUTE) == ws' && Current(ws', MINUTE + 1) == map[];
  }

  // ----- as many as that -----

  /** One request that opens a window, 119 as it ends, and 120 right after. */
  function BurstTime(i: nat): int {
    if i == 0 then 0 else if i < PER_WINDOW then MINUTE else MINUTE + 1
  }

  function Burst(host: string): Calls {
    seq(2 * PER_WINDOW, (i: nat) => (host, BurstTime(i)))
  }

  function BurstTimes(n: nat): seq<int> {
    seq(n, (i: nat) => BurstTime(i))
  }

  /** What is tracked after n of them. */
  function BurstWindows(host: string, n: nat): Windows {
    if n == 0 then map[]
    else if n <= PER_WINDOW then map[host := Window(n, MINUTE)]
    else map[host := Window(n - PER_WINDOW, 2 * MINUTE + 1)]
  }

  lemma BurstStep(host: string, n: nat)
    requires n < 2 * PER_WINDOW
    ensures Request(BurstWindows(host, n), host, BurstTime(n)) == (BurstWindows(host, n + 1), true)
  {
    var ws, now := BurstWindows(host, n), BurstTime(n);
    if n == PER_WINDOW {
      assert Current(ws, now) == map[];
    } else {
      assert Current(ws, now) == ws;
      var v := SlotOf(ws, host, now);
      assert ws[host := Window(v.count + 1, v.end)] == BurstWindows(host, n + 1);
    }
  }

  /** What a call admits in the windows it finds. */
  lemma OneMoreCall(calls: Calls, n: nat, host: string, ws: Windows, times: seq<int>, ws': Windows)
    requires n < |calls| && calls[n].0 == host && Request(ws, host, calls[n].1) == (ws', true)
    requires After(Advance, map[], calls, n) == ws && Admitted(map[], calls, n, host) == times
    ensures After(Advance, map[], calls, n + 1) == ws' && Admitted(map[], calls, n + 1, host) == times + [calls[n].1]
  {
  }

  ghost predicate BurstDone(host: string, calls: Calls, n: nat) {
    && n <= |calls| && After(Advance, map[], calls, n) == BurstWindows(host, n)
    && Admitted(map[], calls, n, host) == BurstTimes(n)
  }

  lemma BurstGoesOn(host: string, calls: Calls, n: nat)
    requires calls == Burst(host) && n < 2 * PER_WINDOW && BurstDone(host, calls, n)
    ensures BurstDone(host, calls, n + 1)
  {
    BurstStep(host, n);
    OneMoreCall(calls, n, host, BurstWindows(host, n), BurstTimes(n), BurstWindows(host, n + 1));
    assert BurstTimes(n + 1) == BurstTimes(n) + [BurstTime(n)];
  }

  lemma {:induction false} BurstIsAdmitted(host: string, calls: Calls, n: nat)
    requires calls == Burst(host) && n <= 2 * PER_WINDOW
    ensures BurstDone(host, calls, n)
  {
    if n > 0 {
      BurstIsAdmitted(host, calls, n - 1);
      BurstGoesOn(host, calls, n - 1);
    } else {
      assert BurstTimes(0) == [];
    }
  }

  lemma {:induction false} BurstCount(n: nat, from: int, to: int)
    requires n > 0 && 0 < from <= MINUTE && MINUTE + 1 <= to
    ensures CountIn(BurstTimes(n), from, to) == n - 1
  {
    assert BurstTimes(n)[..n - 1] == BurstTimes(n - 1);
    if n > 1 {
      BurstCount(n - 1, from, to);
    } else {
      assert BurstTimes(0) == [];
    }
  }

  /** The bound is reached: a run in which a peer is admitted 239 times within 60 seconds. */
  lemma TwoWindowsButOneAreReached(host: string) returns (calls: Calls, from: int)
    ensures ClockNeverGoesBack(calls)
    ensures CountIn(Admitted(map[], calls, |calls|, host), from, from + 60_000_000_000) == 239
  {
    calls, from := Burst(host), 1;
    BurstIsInOrder(host);
    BurstIsCounted(host);
  }

  lemma BurstIsInOrder(host: string)
    ensures ClockNeverGoesBack(Burst(host)) && |Burst(host)| == 2 * PER_WINDOW
  {
    forall i, k | 0 <= i < k < 2 * PER_WINDOW
      ensures Burst(host)[i].1 <= Burst(host)[k].1
    {
      assert Burst(host)[i].1 == BurstTime(i) && Burst(host)[k].1 == BurstTime(k);
    }
  }

  lemma BurstIsCounted(host: string)
    ensures CountIn(Admitted(map[], Burst(host), |Burst(host)|, host), 1, 1 + MINUTE) == 2 * PER_WINDOW - 1
  {
    BurstIsAdmitted(host, Burst(host), 2 * PER_WINDOW);
    BurstCount(2 * PER_WINDOW, 1, 1 + MINUTE);
  }

  /** Every table a run reaches from the empty one is within bounds. */
  lemma EveryRunIsBounded(calls: Calls, n: nat)
    requires n <= |calls|
    ensures Valid(After(Advance, map[], calls, n))
  {
    forall ws, c | Valid(ws)
      ensures Valid(Advance(ws, c))
    {
      RequestKeepsBounds(ws, c.0, c.1);
    }
    InvariantHolds(Advance, (ws: Windows, c: (string, int)) => true, Valid, map[], calls, n);
  }
}
