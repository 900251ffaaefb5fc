/**
 Deciding a vote from its grouped choices: `evaluateOutcome` in apps/api-go/internal/voting/service.go.

 The source ranges over a Go map, whose order is unspecified. `EvaluateOutcome` therefore picks the
 next choice arbitrarily, and the result is proved to be the same for every order.
 */
module Outcome {

  datatype Method = RankedChoice | Approval | PreferenceScore | Comparative

  datatype Rule = SimpleMajority | MajorityPlusQuorum | Supermajority

  type Counts = map<string, nat>

  // ----- adding up a map of counts -----

  ghost function SumOver(keys: set<string>, counts: Counts): nat
    requires keys <= counts.Keys
  {
    if keys == {} then 0
    else var k :| k in keys; counts[k] + SumOver(keys - {k}, counts)
  }

  ghost function Sum(counts: Counts): nat {
    SumOver(counts.Keys, counts)
  }

  /** Any key may be taken out first. */
  lemma {:induction false} SumTakeOut(keys: set<string>, counts: Counts, c: string)
    requires c in keys && keys <= counts.Keys
    ensures SumOver(keys, counts) == counts[c] + SumOver(keys - {c}, counts)
  {
    var k :| k in keys && SumOver(keys, counts) == counts[k] + SumOver(keys - {k}, counts);
    if k != c {
      SumTakeOut(keys - {k}, counts, c);
      SumTakeOut(keys - {c}, counts, k);
      assert keys - {k} - {c} == keys - {c} - {k};
    }
  }

  lemma {:induction false} SumSameCounts(keys: set<string>, counts: Counts, other: Counts)
    requires keys <= counts.Keys && keys <= other.Keys
    requires forall k :: k in keys ==> counts[k] == other[k]
    ensures SumOver(keys, counts) == SumOver(keys, other)
  {
    if keys != {} {
      var k :| k in keys;
      SumTakeOut(keys, counts, k);
      SumTakeOut(keys, other, k);
      SumSameCounts(keys - {k}, counts, other);
    }
  }

  function CountOf(counts: Counts, c: string): nat {
    if c in counts then counts[c] else 0
  }

  /** Counting one more ballot raises the sum by one. */
  lemma SumIncrement(counts: Counts, c: string)
    ensures Sum(counts[c := CountOf(counts, c) + 1]) == Sum(counts) + 1
  {
    var more := counts[c := CountOf(counts, c) + 1];
    SumTakeOut(more.Keys, more, c);
    SumSameCounts(more.Keys - {c}, more, counts);
    if c in counts {
      SumTakeOut(counts.Keys, counts, c);
      assert more.Keys == counts.Keys;
    } else {
      assert more.Keys - {c} == counts.Keys;
    }
  }

  lemma TwoCountsFit(counts: Counts, c: string, d: string)
    requires c in counts && d in counts && c != d
    ensures counts[c] + counts[d] <= Sum(counts)
  {
    SumTakeOut(counts.Keys, counts, c);
    SumTakeOut(counts.Keys - {c}, counts, d);
  }

  // ----- the rules -----

  predicate ByPlurality(voteMethod: Method) {
    voteMethod.RankedChoice? || voteMethod.PreferenceScore? || voteMethod.Comparative?
  }

  /** What it takes to win: two thirds of all ballots, more than any rival, or more than half. */
  predicate Wins(voteMethod: Method, rule: Rule, counts: Counts, total: nat, c: string) {
    && c in counts
    && total > 0
    && if rule.Supermajority? then 3 * counts[c] >= 2 * total
       else if ByPlurality(voteMethod) then
         counts[c] > 0 && forall d :: d in counts && d != c ==> counts[d] < counts[c]
       else 2 * counts[c] > total
  }

  /** A decided outcome names a winning choice; an undecided one names nobody, because nobody wins. */
  ghost predicate IsOutcome(voteMethod: Method, rule: Rule, counts: Counts, total: nat, winner: string, decided: bool) {
    if decided then Wins(voteMethod, rule, counts, total, winner)
    else winner == "" && forall c :: c in counts ==> !Wins(voteMethod, rule, counts, total, c)
  }

  method EvaluateOutcome(voteMethod: Method, rule: Rule, counts: Counts, total: nat)
    returns (winner: string, decided: bool)
    ensures IsOutcome(voteMethod, rule, counts, total, winner, decided)
  {
    if total == 0 {
      return "", false;
    }
    var top, topVotes, second := "", 0, 0;
    var rest := counts.Keys;
    while rest != {}
      invariant rest <= counts.Keys
      invariant second <= topVotes
      invariant topVotes > 0 ==> top in counts.Keys - rest && counts[top] == topVotes
      invariant forall c :: c in counts && c !in rest ==> counts[c] <= topVotes
      invariant forall c :: c in counts && c !in rest && c != top ==> counts[c] <= second
      invariant second > 0 ==> exists c :: c in counts && c !in rest && c != top && counts[c] == second
    {
      var choice :| choice in rest;
      rest := rest - {choice};
      var n := counts[choice];
      if n > topVotes {
        top, second, topVotes := choice, topVotes, n;
      } else if n > second {
        second := n;
      }
    }
    if rule.Supermajority? {
      decided := topVotes * 3 >= total * 2;
    } else if ByPlurality(voteMethod) {
      decided := topVotes > second;
    } else {
      decided := topVotes * 2 > total;
    }
    winner := if decided then top else "";
  }

  /**
   The rules one by one: two thirds of all ballots under a supermajority; otherwise a strict plurality by ranked
   choice, score or comparison, and more than half by approval. Somebody is named exactly if somebody reaches it.
   */
  lemma OutcomeExactly(voteMethod: Method, rule: Rule, counts: Counts, total: nat, winner: string, decided: bool)
    requires IsOutcome(voteMethod, rule, counts, total, winner, decided)
    ensures decided ==> winner in counts && total > 0
    ensures decided && rule == Supermajority ==> 3 * counts[winner] >= 2 * total
    ensures decided && rule != Supermajority && voteMethod == Approval ==> 2 * counts[winner] > total
    ensures decided && rule != Supermajority && voteMethod != Approval ==>
              counts[winner] > 0 && forall d :: d in counts && d != winner ==> counts[d] < counts[winner]
    ensures !decided && total > 0 ==>
              forall c :: c in counts ==>
                if rule == Supermajority then 3 * counts[c] < 2 * total
                else if voteMethod == Approval then 2 * counts[c] <= total
                else counts[c] == 0 || exists d :: d in counts && d != c && counts[d] >= counts[c]
    ensures !decided ==> winner == ""
  {
  }

  // ----- what the counts being complete buys -----

  /** A decided winner has strictly more ballots than every rival, under every rule. */
  lemma WinnerIsTheUniqueMaximum(voteMethod: Method, rule: Rule, counts: Counts, total: nat, c: string, d: string)
    requires Sum(counts) == total
    requires Wins(voteMethod, rule, counts, total, c)
    requires d in counts && d != c
    ensures counts[d] < counts[c]
    ensures !Wins(voteMethod, rule, counts, total, d)
  {
    TwoCountsFit(counts, c, d);
  }

  /** The counts alone determine the outcome, so the iteration order of the map cannot matter. */
  lemma OutcomeIsOrderIndependent(voteMethod: Method, rule: Rule, counts: Counts, total: nat,
                                  w1: string, d1: bool, w2: string, d2: bool)
    requires Sum(counts) == total
    requires IsOutcome(voteMethod, rule, counts, total, w1, d1)
    requires IsOutcome(voteMethod, rule, counts, total, w2, d2)
    ensures w1 == w2 && d1 == d2
  {
    if d1 && d2 && w1 != w2 {
      WinnerIsTheUniqueMaximum(voteMethod, rule, counts, total, w1, w2);
    }
  }

  /** One more ballot for the winner keeps it the winner; no rival can be the outcome instead. */
  lemma ExtraBallotForTheWinner(voteMethod: Method, rule: Rule, counts: Counts, total: nat, winner: string,
                                winner': string, decided': bool)
    requires Sum(counts) == total
    requires IsOutcome(voteMethod, rule, counts, total, winner, true)
    requires IsOutcome(voteMethod, rule, counts[winner := counts[winner] + 1], total + 1, winner', decided')
    ensures decided' && winner' == winner
  {
    var more := counts[winner := counts[winner] + 1];
    SumIncrement(counts, winner);
    assert Wins(voteMethod, rule, more, total + 1, winner) by {
      forall d | d in counts && d != winner
        ensures counts[d] < counts[winner]
      {
        WinnerIsTheUniqueMaximum(voteMethod, rule, counts, total, winner, d);
      }
    }
    OutcomeIsOrderIndependent(voteMethod, rule, more, total + 1, winner, true, winner', decided');
  }
}
