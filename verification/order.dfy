/**
  Python's ordering of `str` values (lexicographic by code point) and
  `sorted(set(xs))` for sequences of strings.
 */
module StrOrder {

  /** `a < b` on Python strings. */
  predicate Less(a: string, b: string)
    decreases |a|
  {
    |b| > 0 && (|a| == 0 || a[0] < b[0] || (a[0] == b[0] && Less(a[1..], b[1..])))
  }

  lemma {:induction false} LessIrreflexive(a: string)
    ensures !Less(a, a)
    decreases |a|
  {
    if |a| > 0 {
      LessIrreflexive(a[1..]);
    }
  }

  lemma {:induction false} LessAsymmetric(a: string, b: string)
    requires Less(a, b)
    ensures !Less(b, a)
    decreases |a|
  {
    if |a| > 0 && a[0] == b[0] {
      LessAsymmetric(a[1..], b[1..]);
    }
  }

  lemma {:induction false} LessTransitive(a: string, b: string, c: string)
    requires Less(a, b) && Less(b, c)
    ensures Less(a, c)
    decreases |a|
  {
    if |a| > 0 && a[0] == b[0] && b[0] == c[0] {
      LessTransitive(a[1..], b[1..], c[1..]);
    }
  }

  lemma {:induction false} LessTotal(a: string, b: string)
    ensures a == b || Less(a, b) || Less(b, a)
    decreases |a|
  {
    if |a| > 0 && |b| > 0 && a[0] == b[0] {
      LessTotal(a[1..], b[1..]);
      if a[1..] == b[1..] {
        assert a == [a[0]] + a[1..] && b == [b[0]] + b[1..];
      }
    }
  }

  ghost predicate StrictlySorted(xs: seq<string>) {
    forall i, j :: 0 <= i < j < |xs| ==> Less(xs[i], xs[j])
  }

  /** Insert `x` into a strictly sorted sequence, unless it is already there. */
  function InsertSorted(x: string, xs: seq<string>): (r: seq<string>)
    requires StrictlySorted(xs)
    ensures StrictlySorted(r)
    ensures forall y :: y in r <==> y == x || y in xs
    decreases |xs|
  {
    if |xs| == 0 then [x]
    else if x == xs[0] then xs
    else if Less(x, xs[0]) then
      forall j | 0 < j < |xs| ensures Less(x, xs[j]) {
        LessTransitive(x, xs[0], xs[j]);
      }
      [x] + xs
    else
      LessTotal(x, xs[0]);
      var rest := InsertSorted(x, xs[1..]);
      assert forall y :: y in rest ==> Less(xs[0], y);
      assert forall j :: 0 < j <= |rest| ==> ([xs[0]] + rest)[j] == rest[j - 1];
      [xs[0]] + rest
  }

  /** `sorted(set(xs))`: the distinct elements of `xs` in increasing order. */
  function SortedSet(xs: seq<string>): (r: seq<string>)
    ensures StrictlySorted(r)
    ensures forall y :: y in r <==> y in xs
  {
    if |xs| == 0 then []
    else
      var init := xs[..|xs| - 1];
      assert forall y :: y in xs <==> y in init || y == xs[|xs| - 1];
      InsertSorted(xs[|xs| - 1], SortedSet(init))
  }

  /** A strictly sorted sequence is determined by its elements: whatever
      algorithm sorts a set, the result is this one. */
  lemma {:induction false} StrictlySortedUnique(a: seq<string>, b: seq<string>)
    requires StrictlySorted(a) && StrictlySorted(b)
    requires forall y :: y in a <==> y in b
    ensures a == b
    decreases |a|
  {
    if |b| > 0 {
      assert b[0] in b;
    }
    if |a| > 0 {
      assert a[0] in a;
      assert |b| > 0;
      assert b[0] in b;
      if a[0] != b[0] {
        var i :| 0 <= i < |a| && a[i] == b[0];
        var j :| 0 <= j < |b| && b[j] == a[0];
        assert i > 0 && j > 0;
        assert Less(a[0], b[0]) && Less(b[0], a[0]);
        LessAsymmetric(a[0], b[0]);
      }
      forall y ensures y in a[1..] <==> y in b[1..] {
        if y in a[1..] {
          var i :| 0 <= i < |a[1..]| && a[1..][i] == y;
          assert a[i + 1] == y && Less(a[0], y);
          LessIrreflexive(y);
          assert y in b && y != b[0];
          var j :| 0 <= j < |b| && b[j] == y;
          assert j > 0 && b[1..][j - 1] == y;
        }
        if y in b[1..] {
          var j :| 0 <= j < |b[1..]| && b[1..][j] == y;
          assert b[j + 1] == y && Less(b[0], y);
          LessIrreflexive(y);
          assert y in a && y != a[0];
          var i :| 0 <= i < |a| && a[i] == y;
          assert i > 0 && a[1..][i - 1] == y;
        }
      }
      StrictlySortedUnique(a[1..], b[1..]);
      assert a == [a[0]] + a[1..] && b == [b[0]] + b[1..];
    }
  }
}
