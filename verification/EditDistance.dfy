/**
 The handle comparison behind the duplicate-identity scan
 (apps/api-ts/src/identity/duplicate-detection.service.ts).

 `Best` is the textbook recurrence: every cell takes the least of deleting, inserting and matching
 or substituting. The source's table skips that minimum when the two characters agree; `Levenshtein`
 is the source's loop, proved to fill the table with `Best` all the same. `Best` in turn is proved to
 be the length of the shortest sequence of single-character edits, applied anywhere in the string.

 A `char` stands for one UTF-16 code unit, which is what the source's string indexing sees.
 */
module EditDistance {
  import opened Wrappers

  function Min(x: nat, y: nat): nat {
    if x <= y then x else y
  }

  /** Least cost of turning the first i characters of a into the first j characters of b. */
  function Best(a: string, b: string, i: nat, j: nat): nat
    requires i <= |a| && j <= |b|
  {
    if i == 0 then j
    else if j == 0 then i
    else
      var diagonal := Best(a, b, i - 1, j - 1) + if a[i - 1] == b[j - 1] then 0 else 1;
      Min(diagonal, Min(1 + Best(a, b, i - 1, j), 1 + Best(a, b, i, j - 1)))
  }

  function Distance(a: string, b: string): nat {
    Best(a, b, |a|, |b|)
  }

  // ----- the shortcut -----

  /** Cells that are neighbours in a column or a row differ by at most one. */
  lemma {:induction false} NeighboursDifferByAtMostOne(a: string, b: string, i: nat, j: nat)
    requires i <= |a| && j <= |b|
    ensures i > 0 ==> Best(a, b, i - 1, j) <= Best(a, b, i, j) + 1 && Best(a, b, i, j) <= Best(a, b, i - 1, j) + 1
    ensures j > 0 ==> Best(a, b, i, j - 1) <= Best(a, b, i, j) + 1 && Best(a, b, i, j) <= Best(a, b, i, j - 1) + 1
    decreases i + j
  {
    if i > 0 && j > 0 {
      NeighboursDifferByAtMostOne(a, b, i - 1, j);
      NeighboursDifferByAtMostOne(a, b, i, j - 1);
    }
  }

  /** On equal characters the minimum is always the diagonal, so the source may skip the other two. */
  lemma EqualCharactersTakeTheDiagonal(a: string, b: string, i: nat, j: nat)
    requires 0 < i <= |a| && 0 < j <= |b|
    requires a[i - 1] == b[j - 1]
    ensures Best(a, b, i, j) == Best(a, b, i - 1, j - 1)
  {
    NeighboursDifferByAtMostOne(a, b, i - 1, j);
    NeighboursDifferByAtMostOne(a, b, i, j - 1);
  }

  /** What one step of the table computes, and why it is the optimum. */
  lemma CellIsBest(a: string, b: string, i: nat, j: nat)
    requires 0 < i <= |a| && 0 < j <= |b|
    ensures Best(a, b, i, j) ==
            if a[i - 1] == b[j - 1] then Best(a, b, i - 1, j - 1)
            else 1 + Min(Best(a, b, i - 1, j - 1), Min(Best(a, b, i - 1, j), Best(a, b, i, j - 1)))
  {
    if a[i - 1] == b[j - 1] {
      EqualCharactersTakeTheDiagonal(a, b, i, j);
    }
  }

  /** The first `rows` rows of the table hold the optimum for their prefixes. */
  ghost predicate RowsDone(dp: array2<nat>, a: string, b: string, rows: nat)
    requires dp.Length0 == |a| + 1 && dp.Length1 == |b| + 1 && rows <= |a| + 1
    reads dp
  {
    forall r: nat, c: nat :: r < rows && c <= |b| ==> dp[r, c] == Best(a, b, r, c)
  }

  /** The first `columns` cells of row i hold the optimum for their prefixes. */
  ghost predicate RowUpTo(dp: array2<nat>, a: string, b: string, i: nat, columns: nat)
    requires dp.Length0 == |a| + 1 && dp.Length1 == |b| + 1 && i <= |a| && columns <= |b| + 1
    reads dp
  {
    forall c: nat :: c < columns ==> dp[i, c] == Best(a, b, i, c)
  }

  /** From row `rows` on, the first column holds the row numbers it was filled with. */
  ghost predicate FirstColumn(dp: array2<nat>, a: string, b: string, rows: nat)
    requires dp.Length0 == |a| + 1 && dp.Length1 == |b| + 1
    reads dp
  {
    forall r: nat :: rows <= r <= |a| ==> dp[r, 0] == r
  }

  /** The table-filling loop. Every cell it writes, shortcut or not, is the optimum for its prefixes. */
  method Levenshtein(a: string, b: string) returns (distance: nat)
    ensures distance == Distance(a, b)
  {
    var m, n := |a|, |b|;
    var dp := new nat[m + 1, n + 1]((i: nat, j: nat) => if j == 0 then i else 0);
    for j := 0 to n + 1
      invariant FirstColumn(dp, a, b, 1)
      invariant RowUpTo(dp, a, b, 0, j)
    {
      dp[0, j] := j;
    }
    for i := 1 to m + 1
      invariant RowsDone(dp, a, b, i)
      invariant FirstColumn(dp, a, b, i)
    {
      for j := 1 to n + 1
        invariant RowsDone(dp, a, b, i)
        invariant FirstColumn(dp, a, b, i)
        invariant RowUpTo(dp, a, b, i, j)
      {
        CellIsBest(a, b, i, j);
        dp[i, j] := if a[i - 1] == b[j - 1] then dp[i - 1, j - 1]
                    else 1 + Min(dp[i - 1, j - 1], Min(dp[i - 1, j], dp[i, j - 1]));
      }
    }
    distance := dp[m, n];
  }

  // ----- the metric laws -----

  lemma {:induction false} BestSymmetric(a: string, b: string, i: nat, j: nat)
    requires i <= |a| && j <= |b|
    ensures Best(a, b, i, j) == Best(b, a, j, i)
    decreases i + j
  {
    if i > 0 && j > 0 {
      BestSymmetric(a, b, i - 1, j - 1);
      BestSymmetric(a, b, i - 1, j);
      BestSymmetric(a, b, i, j - 1);
    }
  }

  lemma {:induction false} BestZero(a: string, b: string, i: nat, j: nat)
    requires i <= |a| && j <= |b|
    ensures Best(a, b, i, j) == 0 <==> i == j && a[..i] == b[..j]
    decreases i + j
  {
    if i > 0 && j > 0 {
      BestZero(a, b, i - 1, j - 1);
      assert a[..i] == a[..i - 1] + [a[i - 1]];
      assert b[..j] == b[..j - 1] + [b[j - 1]];
    }
  }

  lemma {:induction false} BestAtMostSum(a: string, b: string, i: nat, j: nat)
    requires i <= |a| && j <= |b|
    ensures Best(a, b, i, j) <= i + j
    decreases i
  {
    if i > 0 && j > 0 {
      BestAtMostSum(a, b, i - 1, j);
    }
  }

  /** Going from one prefix to the next costs at most one, and nothing when the last characters agree. */
  lemma StepBounds(a: string, b: string, i: nat, j: nat)
    requires i <= |a| && j <= |b|
    ensures i > 0 ==> Best(a, b, i, j) <= 1 + Best(a, b, i - 1, j)
    ensures j > 0 ==> Best(a, b, i, j) <= 1 + Best(a, b, i, j - 1)
    ensures i > 0 && j > 0 ==>
              Best(a, b, i, j) <= Best(a, b, i - 1, j - 1) + if a[i - 1] == b[j - 1] then 0 else 1
  {
    NeighboursDifferByAtMostOne(a, b, i, j);
  }

  /** Which edit of the last characters an optimum uses. */
  datatype Last = Deleted | Inserted | Paired | Nothing

  function LastStep(a: string, b: string, i: nat, j: nat): (step: Last)
    requires i <= |a| && j <= |b|
    ensures step == Deleted ==> i > 0 && Best(a, b, i, j) == 1 + Best(a, b, i - 1, j)
    ensures step == Inserted ==> j > 0 && Best(a, b, i, j) == 1 + Best(a, b, i, j - 1)
    ensures step == Paired ==>
              && i > 0 && j > 0
              && Best(a, b, i, j) == Best(a, b, i - 1, j - 1) + if a[i - 1] == b[j - 1] then 0 else 1
    ensures step == Nothing <==> i == 0 && j == 0
  {
    if i == 0 && j == 0 then Nothing
    else if i == 0 then Inserted
    else if j == 0 then Deleted
    else if Best(a, b, i, j) == 1 + Best(a, b, i - 1, j) then Deleted
    else if Best(a, b, i, j) == 1 + Best(a, b, i, j - 1) then Inserted
    else Paired
  }

  predicate TriangleAt(a: string, b: string, c: string, i: nat, j: nat, k: nat)
    requires i <= |a| && j <= |b| && k <= |c|
  {
    Best(a, c, i, k) <= Best(a, b, i, j) + Best(b, c, j, k)
  }

  /** An edit of the outer strings alone carries the inequality over. */
  lemma TriangleOutside(a: string, b: string, c: string, i: nat, j: nat, k: nat)
    requires i <= |a| && j <= |b| && k <= |c|
    requires (LastStep(a, b, i, j) == Deleted && TriangleAt(a, b, c, i - 1, j, k))
             || (LastStep(b, c, j, k) == Inserted && TriangleAt(a, b, c, i, j, k - 1))
    ensures TriangleAt(a, b, c, i, j, k)
  {
    StepBounds(a, c, i, k);
  }

  lemma TrianglePaired(a: string, b: string, c: string, i: nat, j: nat, k: nat)
    requires i <= |a| && j <= |b| && k <= |c|
    requires LastStep(a, b, i, j) == LastStep(b, c, j, k) == Paired && TriangleAt(a, b, c, i - 1, j - 1, k - 1)
    ensures TriangleAt(a, b, c, i, j, k)
  {
    StepBounds(a, c, i, k);
  }

  /** A character of the middle string that one side inserts and the other deletes or pairs. */
  lemma TriangleAcross(a: string, b: string, c: string, i: nat, j: nat, k: nat)
    requires i <= |a| && j <= |b| && k <= |c|
    requires (LastStep(a, b, i, j) == Inserted && LastStep(b, c, j, k) == Deleted && TriangleAt(a, b, c, i, j - 1, k))
             || (LastStep(a, b, i, j) == Inserted && LastStep(b, c, j, k) == Paired && TriangleAt(a, b, c, i, j - 1, k - 1))
             || (LastStep(a, b, i, j) == Paired && LastStep(b, c, j, k) == Deleted && TriangleAt(a, b, c, i - 1, j - 1, k))
    ensures TriangleAt(a, b, c, i, j, k)
  {
    StepBounds(a, c, i, k);
  }

  lemma {:induction false} BestTriangle(a: string, b: string, c: string, i: nat, j: nat, k: nat)
    requires i <= |a| && j <= |b| && k <= |c|
    ensures TriangleAt(a, b, c, i, j, k)
    decreases i + j + k
  {
    match (LastStep(a, b, i, j), LastStep(b, c, j, k)) {
      case (Deleted, _) =>
        BestTriangle(a, b, c, i - 1, j, k);
        TriangleOutside(a, b, c, i, j, k);
      case (_, Inserted) =>
        BestTriangle(a, b, c, i, j, k - 1);
        TriangleOutside(a, b, c, i, j, k);
      case (Inserted, Deleted) =>
        BestTriangle(a, b, c, i, j - 1, k);
        TriangleAcross(a, b, c, i, j, k);
      case (Inserted, Paired) =>
        BestTriangle(a, b, c, i, j - 1, k - 1);
        TriangleAcross(a, b, c, i, j, k);
      case (Paired, Deleted) =>
        BestTriangle(a, b, c, i - 1, j - 1, k);
        TriangleAcross(a, b, c, i, j, k);
      case (Paired, Paired) =>
        BestTriangle(a, b, c, i - 1, j - 1, k - 1);
        TrianglePaired(a, b, c, i, j, k);
      case (Nothing, _) =>
      case (_, Nothing) =>
    }
  }

  /** The distance is a metric on handles. */
  lemma DistanceIsAMetric(a: string, b: string, c: string)
    ensures Distance(a, b) == 0 <==> a == b
    ensures Distance(a, b) == Distance(b, a)
    ensures Distance(a, c) <= Distance(a, b) + Distance(b, c)
  {
    BestZero(a, b, |a|, |b|);
    assert a[..|a|] == a && b[..|b|] == b;
    BestSymmetric(a, b, |a|, |b|);
    BestTriangle(a, b, c, |a|, |b|, |c|);
  }

  // ----- edit scripts -----

  /** One edit at any position of the current string. */
  datatype Edit = Insert(at: nat, c: char) | Delete(at: nat) | Substitute(at: nat, c: char)

  function Apply(e: Edit, s: string): Option<string> {
    match e
    case Insert(at, c) => if at <= |s| then Some(s[..at] + [c] + s[at..]) else None
    case Delete(at) => if at < |s| then Some(s[..at] + s[at + 1..]) else None
    case Substitute(at, c) => if at < |s| then Some(s[at := c]) else None
  }

  /** The string a script leaves behind, each edit applied to the outcome of the one before it. */
  function ApplyAll(script: seq<Edit>, s: string): Option<string> {
    if script == [] then Some(s)
    else
      match Apply(script[0], s)
      case None => None
      case Some(next) => ApplyAll(script[1..], next)
  }

  /** A common tail never costs anything. */
  lemma {:induction false} CommonTailIsFree(a: string, b: string, i: nat, j: nat)
    requires i <= |a| && j <= |b| && a[i..] == b[j..]
    ensures Distance(a, b) <= Best(a, b, i, j)
    decreases |a| - i
  {
    if i < |a| {
      assert a[i] == a[i..][0] == b[j..][0] == b[j];
      assert a[i + 1..] == a[i..][1..] == b[j..][1..] == b[j + 1..];
      CommonTailIsFree(a, b, i + 1, j + 1);
    }
  }

  lemma OneEditCostsAtMostOne(e: Edit, s: string)
    requires Apply(e, s).Some?
    ensures Distance(s, Apply(e, s).value) <= 1
  {
    var t := Apply(e, s).value;
    var p := e.at;
    assert s[..p] == t[..p];
    BestZero(s, t, p, p);
    match e {
      case Insert(_, _) =>
        NeighboursDifferByAtMostOne(s, t, p, p + 1);
        CommonTailIsFree(s, t, p, p + 1);
      case Delete(_) =>
        NeighboursDifferByAtMostOne(s, t, p + 1, p);
        CommonTailIsFree(s, t, p + 1, p);
      case Substitute(_, _) =>
        assert s[p + 1..] == t[p + 1..];
        CommonTailIsFree(s, t, p + 1, p + 1);
    }
  }

  lemma {:induction false} NoScriptIsShorter(script: seq<Edit>, a: string, b: string)
    requires ApplyAll(script, a) == Some(b)
    ensures Distance(a, b) <= |script|
  {
    if script == [] {
      DistanceIsAMetric(a, b, b);
    } else {
      var next := Apply(script[0], a).value;
      OneEditCostsAtMostOne(script[0], a);
      NoScriptIsShorter(script[1..], next, b);
      DistanceIsAMetric(a, next, b);
    }
  }

  /** The first i characters of a, followed by a tail already in its final form. */
  function Front(a: string, i: nat, rest: string): string
    requires i <= |a|
  {
    a[..i] + rest
  }

  /** What each edit does to such a string at its seam. */
  lemma SeamEdits(a: string, i: nat, c: char, rest: string)
    requires i <= |a|
    ensures Apply(Insert(i, c), Front(a, i, rest)) == Some(Front(a, i, [c] + rest))
    ensures i > 0 ==> Apply(Delete(i - 1), Front(a, i, rest)) == Some(Front(a, i - 1, rest))
    ensures i > 0 ==> Apply(Substitute(i - 1, c), Front(a, i, rest)) == Some(Front(a, i - 1, [c] + rest))
    ensures i > 0 && a[i - 1] == c ==> Front(a, i, rest) == Front(a, i - 1, [c] + rest)
  {
    var s := Front(a, i, rest);
    assert s[..i] + [c] + s[i..] == Front(a, i, [c] + rest);
    if i > 0 {
      assert s[..i - 1] + s[i..] == Front(a, i - 1, rest);
      assert s[i - 1 := c] == Front(a, i - 1, [c] + rest);
    }
  }

  /** A cheapest script for the first i and j characters, working right to left in front of `rest`. */
  lemma {:induction false} CheapestScript(a: string, b: string, i: nat, j: nat, rest: string)
    returns (script: seq<Edit>)
    requires i <= |a| && j <= |b|
    ensures ApplyAll(script, Front(a, i, rest)) == Some(Front(b, j, rest))
    ensures |script| == Best(a, b, i, j)
    decreases i + j
  {
    match LastStep(a, b, i, j) {
      case Nothing =>
        script := [];
      case Deleted =>
        SeamEdits(a, i, a[i - 1], rest);
        script := CheapestScript(a, b, i - 1, j, rest);
        script := [Delete(i - 1)] + script;
      case Inserted =>
        var c := b[j - 1];
        SeamEdits(a, i, c, rest);
        SeamEdits(b, j, c, rest);
        script := CheapestScript(a, b, i, j - 1, [c] + rest);
        script := [Insert(i, c)] + script;
      case Paired =>
        var c := b[j - 1];
        SeamEdits(a, i, c, rest);
        SeamEdits(b, j, c, rest);
        script := CheapestScript(a, b, i - 1, j - 1, [c] + rest);
        if a[i - 1] != c {
          script := [Substitute(i - 1, c)] + script;
        }
    }
  }

  /** The distance is exactly the least number of single-character edits from a to b. */
  lemma DistanceIsTheLeastScript(a: string, b: string)
    ensures forall script :: ApplyAll(script, a) == Some(b) ==> Distance(a, b) <= |script|
    ensures exists script :: ApplyAll(script, a) == Some(b) && |script| == Distance(a, b)
  {
    forall script | ApplyAll(script, a) == Some(b)
      ensures Distance(a, b) <= |script|
    {
      NoScriptIsShorter(script, a, b);
    }
    var script := CheapestScript(a, b, |a|, |b|, "");
    assert a[..|a|] + "" == a && b[..|b|] + "" == b;
  }
}
