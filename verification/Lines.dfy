/** Joining fields with separators, and taking them apart again. */
module Lines {

  predicate OneLine(s: string) {
    '\n' !in s
  }

  /** What comes before the first line break, and what after it, are determined by the whole. */
  lemma FirstLineSplits(a: string, rest: string, a': string, rest': string)
    requires OneLine(a) && OneLine(a') && a + "\n" + rest == a' + "\n" + rest'
    ensures a == a' && rest == rest'
  {
    var s := a + "\n" + rest;
    assert s[|a|] == '\n' && s[|a'|] == '\n';
    assert forall i :: 0 <= i < |a| ==> s[i] == a[i];
    assert forall i :: 0 <= i < |a'| ==> s[i] == a'[i];
    assert s[..|a|] == a && s[..|a'|] == a';
    assert s[|a| + 1..] == rest && s[|a'| + 1..] == rest';
  }

  /** What comes after the last colon, and what before it, are determined by the whole. */
  lemma LastColonSplits(a: string, last: string, a': string, last': string)
    requires ':' !in last && ':' !in last' && a + ":" + last == a' + ":" + last'
    ensures a == a' && last == last'
  {
    var s := a + ":" + last;
    assert s[|a|] == ':' && s[|a'|] == ':';
    assert forall i :: |a| < i < |s| ==> s[i] == last[i - |a| - 1];
    assert forall i :: |a'| < i < |s| ==> s[i] == last'[i - |a'| - 1];
    assert s[..|a|] == a && s[..|a'|] == a';
    assert s[|a| + 1..] == last && s[|a'| + 1..] == last';
  }

  // ----- an injective function into strings without separators -----

  function EscapedChar(c: char): (e: string)
    ensures |e| >= 1 && '\n' !in e && ':' !in e
  {
    if c == '%' then "%0" else if c == '\n' then "%1" else if c == ':' then "%2" else [c]
  }

  function Escaped(s: string): string {
    if s == "" then "" else EscapedChar(s[0]) + Escaped(s[1..])
  }

  lemma {:induction false} EscapedHasNoSeparator(s: string)
    ensures '\n' !in Escaped(s) && ':' !in Escaped(s)
  {
    if s != "" {
      EscapedHasNoSeparator(s[1..]);
    }
  }

  lemma EscapedFirst(s: string)
    requires s != ""
    ensures EscapedChar(s[0]) <= Escaped(s) && Escaped(s)[|EscapedChar(s[0])|..] == Escaped(s[1..])
  {
  }

  lemma {:induction false} EscapedIsInjective(x: string, y: string)
    requires Escaped(x) == Escaped(y)
    ensures x == y
  {
    if x != "" && y != "" {
      EscapedFirst(x);
      EscapedFirst(y);
      assert x[0] == y[0];
      EscapedIsInjective(x[1..], y[1..]);
      assert x == [x[0]] + x[1..] && y == [y[0]] + y[1..];
    }
  }
}
