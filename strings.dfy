// The few functions of Go's `strings` package that the queue lister uses,
// over strings modelled as sequences of characters.

module Strings {

  /** `strings.HasPrefix(s, p)`: `s` begins with `p`. */
  predicate HasPrefix(s: string, p: string) {
    |p| <= |s| && s[..|p|] == p
  }

  /** `strings.HasSuffix(s, p)`: `s` ends with `p`. */
  predicate HasSuffix(s: string, p: string) {
    |p| <= |s| && s[|s| - |p|..] == p
  }

  /** `p` occurs in `s` starting at index `i`. */
  predicate OccursAt(s: string, p: string, i: nat) {
    i + |p| <= |s| && s[i..i + |p|] == p
  }

  /** `strings.Contains(s, p)`: `p` is a substring of `s`. */
  predicate Contains(s: string, p: string) {
    exists i: nat :: i <= |s| && OccursAt(s, p, i)
  }

  /** Both ends of a string are substrings of it. */
  lemma AffixIsSubstring(s: string, p: string)
    ensures HasPrefix(s, p) ==> Contains(s, p)
    ensures HasSuffix(s, p) ==> Contains(s, p)
  {
    if HasPrefix(s, p) {
      assert OccursAt(s, p, 0);
    }
    if HasSuffix(s, p) {
      assert OccursAt(s, p, |s| - |p|);
    }
  }

  /** Sum of the lengths of `parts`. */
  function TotalLength(parts: seq<string>): nat {
    if |parts| == 0 then 0 else |parts[0]| + TotalLength(parts[1..])
  }

  /**
   * `strings.Join(parts, sep)`: the parts in order with `sep` between
   * neighbours; no separator for fewer than two parts.
   */
  function Join(parts: seq<string>, sep: string): (r: string)
    ensures |parts| > 0 ==> |r| == TotalLength(parts) + (|parts| - 1) * |sep|
    ensures |parts| > 0 ==> HasPrefix(r, parts[0])
  {
    if |parts| == 0 then ""
    else if |parts| == 1 then parts[0]
    else parts[0] + sep + Join(parts[1..], sep)
  }

  /** The joins of no names and of a single name. */
  lemma JoinOfFewNames(name: string)
    ensures Join([], ",") == ""
    ensures Join([name], ",") == name
  {
  }

  /** No part holds the character `c`. */
  predicate FreeOf(parts: seq<string>, c: char) {
    forall k :: 0 <= k < |parts| ==> c !in parts[k]
  }

  /** Two comma-free, non-empty lists whose joins agree start with the same part. */
  lemma {:induction false} JoinSameHead(xs: seq<string>, ys: seq<string>)
    requires |xs| > 0 && |ys| > 0 && FreeOf(xs, ',') && FreeOf(ys, ',')
    requires |xs[0]| <= |ys[0]|
    requires Join(xs, ",") == Join(ys, ",")
    ensures xs[0] == ys[0]
  {
    var a, b, j := xs[0], ys[0], Join(xs, ",");
    assert j[..|b|] == b;
    assert forall i :: 0 <= i < |b| ==> j[i] == b[i] && b[i] in b;
    if |xs| > 1 {
      assert j == a + "," + Join(xs[1..], ",");
      assert j[|a|] == ',';
    }
    assert |a| == |b|;
    assert j[..|a|] == a;
  }

  /** The comma join is injective on non-empty lists of comma-free names. */
  lemma {:induction false} JoinInjectiveNonEmpty(xs: seq<string>, ys: seq<string>)
    requires |xs| > 0 && |ys| > 0 && FreeOf(xs, ',') && FreeOf(ys, ',')
    requires Join(xs, ",") == Join(ys, ",")
    ensures xs == ys
  {
    if |xs[0]| <= |ys[0]| {
      JoinSameHead(xs, ys);
    } else {
      JoinSameHead(ys, xs);
    }
    var a, j := xs[0], Join(xs, ",");
    if |xs| > 1 && |ys| > 1 {
      assert j == a + "," + Join(xs[1..], ",");
      assert j == a + "," + Join(ys[1..], ",");
      assert Join(xs[1..], ",") == j[|a| + 1..] == Join(ys[1..], ",");
      JoinInjectiveNonEmpty(xs[1..], ys[1..]);
      assert xs == [a] + xs[1..] && ys == [a] + ys[1..];
    } else {
      assert |xs| > 1 ==> |j| > |a|;
      assert |ys| > 1 ==> |j| > |a|;
    }
  }

  /** Every part is non-empty and free of commas. */
  predicate PlainNames(parts: seq<string>) {
    FreeOf(parts, ',') && forall k :: 0 <= k < |parts| ==> parts[k] != ""
  }

  /** The join of non-empty names is empty only when there are no names. */
  lemma JoinEmptyOnlyForNoNames(parts: seq<string>)
    requires PlainNames(parts)
    ensures Join(parts, ",") == "" <==> parts == []
  {
    if parts != [] {
      assert |Join(parts, ",")| >= |parts[0]| > 0;
    }
  }

  /**
   * The comma join is injective on lists of non-empty, comma-free names,
   * the empty list included: a different membership or order gives a
   * different join.
   */
  lemma JoinInjective(xs: seq<string>, ys: seq<string>)
    requires PlainNames(xs) && PlainNames(ys)
    requires Join(xs, ",") == Join(ys, ",")
    ensures xs == ys
  {
    JoinEmptyOnlyForNoNames(xs);
    JoinEmptyOnlyForNoNames(ys);
    if |xs| > 0 && |ys| > 0 {
      JoinInjectiveNonEmpty(xs, ys);
    }
  }

  /**
   * Without escaping, a name holding a comma joins like two names, and the
   * empty list joins like a list holding one empty name.
   */
  lemma JoinCollisions()
    ensures Join(["a,b"], ",") == Join(["a", "b"], ",")
    ensures Join([], ",") == Join([""], ",")
  {
  }
}
