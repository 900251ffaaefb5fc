/**
 The sliding window of second-factor failures (`RecordMFAFailure` in apps/api-go/internal/auth/store.go),
 which is compacted in place inside its own backing array.
 */
module MfaWindow {

  // seconds
  const WINDOW: int := 10 * 60
  const MAX_FAILURES: nat := 5

  /** The times after the cutoff, in order. */
  function Recent(times: seq<int>, cutoff: int): seq<int> {
    if times == [] then []
    else Recent(times[..|times| - 1], cutoff) + if times[|times| - 1] > cutoff then [times[|times| - 1]] else []
  }

  lemma {:induction false} RecentIsNoLonger(times: seq<int>, cutoff: int)
    ensures |Recent(times, cutoff)| <= |times|
  {
    if times != [] {
      RecentIsNoLonger(times[..|times| - 1], cutoff);
    }
  }

  /** Forgetting more later makes up for having forgotten less before. */
  lemma {:induction false} RecentTwice(times: seq<int>, cutoff: int, later: int)
    requires cutoff <= later
    ensures Recent(Recent(times, cutoff), later) == Recent(times, later)
  {
    if times != [] {
      var front, last := times[..|times| - 1], times[|times| - 1];
      RecentTwice(front, cutoff, later);
      if last > cutoff {
        assert (Recent(front, cutoff) + [last])[..|Recent(front, cutoff)|] == Recent(front, cutoff);
      } else {
        assert Recent(times, cutoff) == Recent(front, cutoff);
      }
    }
  }

  /** What the window of one session holds after one more failure. */
  function Recorded(window: seq<int>, now: int): seq<int> {
    Recent(window, now - WINDOW) + [now]
  }

  /** What it holds after a whole history of failures. */
  function Replayed(history: seq<int>): seq<int> {
    if history == [] then [] else Recorded(Replayed(history[..|history| - 1]), history[|history| - 1])
  }

  predicate NonDecreasing(history: seq<int>) {
    forall i, k :: 0 <= i < k < |history| ==> history[i] <= history[k]
  }

  /**
   With a clock that never goes back, the window always holds exactly the failures of the last ten
   minutes of the whole history, so the fifth of them trips it.
   */
  lemma {:induction false} WindowIsTheLastTenMinutes(history: seq<int>)
    requires history != [] && NonDecreasing(history)
    ensures Replayed(history) == Recent(history, history[|history| - 1] - WINDOW)
  {
    var front, now := history[..|history| - 1], history[|history| - 1];
    if front != [] {
      WindowIsTheLastTenMinutes(front);
      RecentTwice(front, front[|front| - 1] - WINDOW, now - WINDOW);
    }
  }

  /** Of times in order, the recent ones are a suffix. */
  lemma {:induction false} RecentIsASuffix(times: seq<int>, cutoff: int, k: nat)
    requires k <= |times|
    requires forall i :: 0 <= i < k ==> times[i] <= cutoff
    requires forall i :: k <= i < |times| ==> times[i] > cutoff
    ensures Recent(times, cutoff) == times[k..]
  {
    if times != [] {
      if k < |times| {
        RecentIsASuffix(times[..|times| - 1], cutoff, k);
        assert times[k..|times| - 1] + [times[|times| - 1]] == times[k..];
      } else {
        RecentIsASuffix(times[..|times| - 1], cutoff, k - 1);
      }
    }
  }

  /** So the session is cut off exactly at a failure that is the fifth within six hundred seconds. */
  lemma TripsAtTheFifth(history: seq<int>, k: nat)
    requires NonDecreasing(history) && k < |history|
    requires forall i :: 0 <= i < k ==> history[i] <= history[|history| - 1] - 600
    requires forall i :: k <= i < |history| ==> history[i] > history[|history| - 1] - 600
    ensures Replayed(history) == history[k..]
    ensures |Replayed(history)| >= MAX_FAILURES <==> |history| >= 5 && history[|history| - 5] > history[|history| - 1] - 600
  {
    WindowIsTheLastTenMinutes(history);
    RecentIsASuffix(history, history[|history| - 1] - 600, k);
  }

  class Failures {
    var backing: array<int>
    var used: nat

    ghost predicate Valid()
      reads this
    {
      used <= backing.Length
    }

    ghost function Times(): seq<int>
      requires Valid()
      reads this, backing
    {
      backing[..used]
    }

    constructor ()
      ensures Valid() && Times() == [] && fresh(backing)
    {
      backing := new int[0];
      used := 0;
    }

    /** Writes the kept times over the front of the array they are read from. */
    method Compact(cutoff: int)
      requires Valid()
      modifies this`used, backing
      ensures Valid() && Times() == Recent(old(Times()), cutoff)
    {
      ghost var times := Times();
      var kept := 0;
      for i := 0 to used
        invariant kept <= i && used == old(used)
        invariant backing[..kept] == Recent(times[..i], cutoff)
        invariant forall k :: i <= k < used ==> backing[k] == times[k]
      {
        var t := backing[i];
        assert times[..i + 1][..i] == times[..i];
        if t > cutoff {
          backing[kept] := t;
          assert backing[..kept + 1] == Recent(times[..i], cutoff) + [t];
          kept := kept + 1;
        }
      }
      assert times[..used] == times;
      used := kept;
    }

    /** Appending reuses the array while it has room and moves to a larger one otherwise. */
    method Append(now: int)
      requires Valid()
      modifies this, backing
      ensures Valid() && Times() == old(Times()) + [now]
      ensures backing == old(backing) || fresh(backing)
    {
      if used == backing.Length {
        var grown := new int[2 * used + 1];
        for i := 0 to used
          invariant used == old(used) && backing == old(backing) && backing[..] == old(backing[..])
          invariant grown[..i] == backing[..i]
        {
          grown[i] := backing[i];
        }
        backing := grown;
      }
      backing[used] := now;
      used := used + 1;
    }

    method RecordMFAFailure(now: int) returns (tripped: bool)
      requires Valid()
      modifies this, backing
      ensures Valid() && Times() == Recorded(old(Times()), now)
      ensures tripped == (|Times()| >= MAX_FAILURES)
      ensures backing == old(backing) || fresh(backing)
    {
      Compact(now - WINDOW);
      Append(now);
      tripped := used >= MAX_FAILURES;
    }
  }
}
