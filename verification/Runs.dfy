/** Runs of a deterministic service: what one call keeps, every run keeps. */
module Runs {

  /** The state after the first n calls. */
  function After<S, C>(step: (S, C) -> S, s: S, calls: seq<C>, n: nat): S
    requires n <= |calls|
  {
    if n == 0 then s else step(After(step, s, calls, n - 1), calls[n - 1])
  }

  /** Every call meets its premise in the state it finds. */
  ghost predicate Admissible<S, C>(step: (S, C) -> S, premise: (S, C) -> bool, s: S, calls: seq<C>) {
    forall n :: 0 <= n < |calls| ==> premise(After(step, s, calls, n), calls[n])
  }

  /** Each admissible call leads from a state with `inv` to one with `inv`. */
  ghost predicate Preserves<S(!new), C(!new)>(step: (S, C) -> S, premise: (S, C) -> bool, inv: S -> bool) {
    forall s, c :: inv(s) && premise(s, c) ==> inv(step(s, c))
  }

  /** Each admissible call from a state with `inv` keeps `kept`. */
  ghost predicate Maintains<S(!new), C(!new)>(step: (S, C) -> S, premise: (S, C) -> bool, inv: S -> bool, kept: S -> bool) {
    forall s, c :: inv(s) && kept(s) && premise(s, c) ==> kept(step(s, c))
  }

  /** What holds at some point of a run, and what every admissible call keeps, holds from there on. */
  lemma {:induction false} InvariantHoldsFrom<S(!new), C(!new)>(step: (S, C) -> S, premise: (S, C) -> bool, inv: S -> bool,
                                                                s: S, calls: seq<C>, i: nat, n: nat)
    requires Preserves(step, premise, inv) && Admissible(step, premise, s, calls) && i <= n <= |calls|
    requires inv(After(step, s, calls, i))
    ensures inv(After(step, s, calls, n))
    decreases n
  {
    if i < n {
      InvariantHoldsFrom(step, premise, inv, s, calls, i, n - 1);
      assert premise(After(step, s, calls, n - 1), calls[n - 1]);
    }
  }

  lemma InvariantHolds<S(!new), C(!new)>(step: (S, C) -> S, premise: (S, C) -> bool, inv: S -> bool, s: S, calls: seq<C>, n: nat)
    requires inv(s) && Preserves(step, premise, inv)
    requires Admissible(step, premise, s, calls) && n <= |calls|
    ensures inv(After(step, s, calls, n))
  {
    InvariantHoldsFrom(step, premise, inv, s, calls, 0, n);
  }

  /** A property that holds at some point of a run, and that calls keep, holds from there on. */
  lemma HoldsFromThere<S(!new), C(!new)>(step: (S, C) -> S, premise: (S, C) -> bool, inv: S -> bool,
                                         kept: S -> bool, s: S, calls: seq<C>, i: nat, n: nat)
    requires inv(s) && Preserves(step, premise, inv) && Maintains(step, premise, inv, kept)
    requires Admissible(step, premise, s, calls) && i <= n <= |calls|
    requires kept(After(step, s, calls, i))
    ensures kept(After(step, s, calls, n))
  {
    var both := s => inv(s) && kept(s);
    InvariantHolds(step, premise, inv, s, calls, i);
    BothPreserved(step, premise, inv, kept, both);
    InvariantHoldsFrom(step, premise, both, s, calls, i, n);
  }

  lemma BothPreserved<S(!new), C(!new)>(step: (S, C) -> S, premise: (S, C) -> bool, inv: S -> bool, kept: S -> bool, both: S -> bool)
    requires Preserves(step, premise, inv) && Maintains(step, premise, inv, kept)
    requires forall s :: both(s) <==> inv(s) && kept(s)
    ensures Preserves(step, premise, both)
  {
  }

  /** What does not hold at first and holds later was made to hold by some call, and held from there on. */
  lemma {:induction false} MadeToHold<S, C>(step: (S, C) -> S, made: S -> bool, s: S, calls: seq<C>, n: nat) returns (m: nat)
    requires n <= |calls| && !made(s) && made(After(step, s, calls, n))
    ensures m < n && !made(After(step, s, calls, m)) && made(step(After(step, s, calls, m), calls[m]))
    ensures forall k :: m < k <= n ==> made(After(step, s, calls, k))
  {
    if made(After(step, s, calls, n - 1)) {
      m := MadeToHold(step, made, s, calls, n - 1);
    } else {
      m := n - 1;
    }
  }

  /** The calls are admissible from s and lead to t. */
  ghost predicate Leads<S, C>(step: (S, C) -> S, premise: (S, C) -> bool, s: S, calls: seq<C>, t: S) {
    Admissible(step, premise, s, calls) && After(step, s, calls, |calls|) == t
  }

  lemma {:induction false} AfterMore<S, C>(step: (S, C) -> S, s: S, calls: seq<C>, more: seq<C>, n: nat)
    requires n <= |calls|
    ensures After(step, s, calls + more, n) == After(step, s, calls, n)
  {
    if n > 0 {
      AfterMore(step, s, calls, more, n - 1);
    }
  }

  /** One call more. */
  lemma LeadsOn<S, C>(step: (S, C) -> S, premise: (S, C) -> bool, s: S, calls: seq<C>, t: S, c: C)
    requires Leads(step, premise, s, calls, t) && premise(t, c)
    ensures Leads(step, premise, s, calls + [c], step(t, c))
  {
    var more := calls + [c];
    AfterMore(step, s, calls, [c], |calls|);
    forall n | 0 <= n < |more|
      ensures premise(After(step, s, more, n), more[n])
    {
      AfterMore(step, s, calls, [c], n);
    }
  }
}
