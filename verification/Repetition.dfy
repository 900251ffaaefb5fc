/** A block of nine, again and again, and where a place falls in it. */
module Repetition {

  /** The block k times over. */
  function Repeated<T>(block: seq<T>, k: nat): (r: seq<T>)
    requires |block| == 9
    ensures |r| == 9 * k
  {
    if k == 0 then [] else Repeated(block, k - 1) + block
  }

  lemma PlaceInBlock(j: nat, k: nat)
    requires 9 * k <= j < 9 * k + 9
    ensures j % 9 == j - 9 * k
  {
  }

  lemma NextPlace(n: nat)
    ensures (n + 1) % 9 == if n % 9 == 8 then 0 else n % 9 + 1
  {
  }

  lemma {:induction false} RepeatedAt<T>(block: seq<T>, k: nat, j: nat)
    requires |block| == 9 && j < 9 * k
    ensures Repeated(block, k)[j] == block[j % 9]
  {
    if j < 9 * (k - 1) {
      RepeatedAt(block, k - 1, j);
    } else {
      PlaceInBlock(j, k - 1);
    }
  }

  /** Whole blocks and the first m of one more. */
  lemma BlocksAndABeginning<T>(block: seq<T>, h: seq<T>, k: nat, m: nat)
    requires |block| == 9 && m < 9 && |h| == 9 * k + m
    requires forall j :: 0 <= j < |h| ==> h[j] == block[j % 9]
    ensures h == Repeated(block, k) + block[..m]
  {
    var r := Repeated(block, k) + block[..m];
    forall j | 0 <= j < |h|
      ensures h[j] == r[j]
    {
      if j < 9 * k {
        RepeatedAt(block, k, j);
      } else {
        PlaceInBlock(j, k);
      }
    }
  }

  /** Pointwise repetition is whole blocks and the beginning of one more. */
  lemma RepetitionIsWholeBlocks<T>(block: seq<T>, h: seq<T>)
    requires |block| == 9 && forall j :: 0 <= j < |h| ==> h[j] == block[j % 9]
    ensures h == Repeated(block, |h| / 9) + block[..|h| % 9]
  {
    BlocksAndABeginning(block, h, |h| / 9, |h| % 9);
  }
}
