/**
 * `uniqSorted(values, numeric)` from the publication filter: drop the missing
 * and empty values, keep the first occurrence of each remaining value, then
 * sort stably, years by descending numeric value and venues in ascending order.
 */
module FilterOptions {
  import opened Wrappers
  import opened Strings

  /** No value occurs twice. */
  predicate Distinct(s: seq<string>)
  {
    forall i, j :: 0 <= i < j < |s| ==> s[i] != s[j]
  }

  /**
   * The sort comparator is negative for `a` before `b`: in numeric mode
   * `Number(b) - Number(a) < 0`, which never holds when either side is `NaN`;
   * otherwise `a.localeCompare(b) < 0`.
   */
  predicate Precedes(a: string, b: string, numeric: bool)
  {
    if numeric then
      NumberOf(a).Some? && NumberOf(b).Some? && NumberOf(b).value < NumberOf(a).value
    else
      LexLess(a, b)
  }

  lemma PrecedesTransitive(a: string, b: string, c: string, numeric: bool)
    requires Precedes(a, b, numeric) && Precedes(b, c, numeric)
    ensures Precedes(a, c, numeric)
  {
    if !numeric {
      LexLessTransitive(a, b, c);
    }
  }

  lemma PrecedesIrreflexive(a: string, numeric: bool)
    ensures !Precedes(a, a, numeric)
  {
    if !numeric {
      LexLessIrreflexive(a);
    }
  }

  /** No later element may precede an earlier one: the order a stable sort leaves. */
  predicate Ordered(s: seq<string>, numeric: bool)
  {
    forall i, j :: 0 <= i < j < |s| ==> !Precedes(s[j], s[i], numeric)
  }

  /** `values.filter(Boolean)`: the present, non-empty values, in their order. */
  function Truthy(values: seq<Option<string>>): (r: seq<string>)
    ensures forall x :: x in r <==> Some(x) in values && x != ""
  {
    if values == [] then []
    else
      var rest := Truthy(values[1..]);
      assert forall x :: Some(x) in values <==> values[0] == Some(x) || Some(x) in values[1..];
      if values[0].Some? && values[0].value != "" then [values[0].value] + rest else rest
  }

  /** `Array.from(new Set(xs))`: each value once, at its first occurrence. */
  function Dedupe(xs: seq<string>): (r: seq<string>)
    ensures Distinct(r)
    ensures forall x :: x in r <==> x in xs
  {
    if xs == [] then []
    else
      var d := Dedupe(xs[..|xs| - 1]);
      var x := xs[|xs| - 1];
      assert xs == xs[..|xs| - 1] + [x];
      if x in d then d else d + [x]
  }

  /** Insert `x` after every element it does not precede, as a stable sort places a later element. */
  function Insert(x: string, s: seq<string>, numeric: bool): (r: seq<string>)
    ensures |r| == |s| + 1
    ensures forall y :: y in r <==> y == x || y in s
    ensures multiset(r) == multiset(s) + multiset{x}
  {
    if s == [] then [x]
    else if Precedes(x, s[0], numeric) then [x] + s
    else
      assert s == [s[0]] + s[1..];
      assert forall y :: y in s <==> y == s[0] || y in s[1..];
      [s[0]] + Insert(x, s[1..], numeric)
  }

  /** A stable insertion sort under `Precedes`: the result is a permutation of `s`. */
  function Sort(s: seq<string>, numeric: bool): (r: seq<string>)
    ensures |r| == |s|
    ensures forall y :: y in r <==> y in s
    ensures multiset(r) == multiset(s)
  {
    if s == [] then []
    else
      assert s == s[..|s| - 1] + [s[|s| - 1]];
      Insert(s[|s| - 1], Sort(s[..|s| - 1], numeric), numeric)
  }

  lemma {:induction false} InsertOrdered(x: string, s: seq<string>, numeric: bool)
    requires Ordered(s, numeric)
    ensures Ordered(Insert(x, s, numeric), numeric)
  {
    var r := Insert(x, s, numeric);
    if s == [] {
    } else if Precedes(x, s[0], numeric) {
      forall j | 0 < j < |r|
        ensures !Precedes(r[j], r[0], numeric)
      {
        if Precedes(r[j], x, numeric) {
          PrecedesTransitive(r[j], x, s[0], numeric);
          assert r[j] == s[j - 1];
          if j == 1 {
            PrecedesIrreflexive(s[0], numeric);
          }
        }
      }
    } else {
      var t := Insert(x, s[1..], numeric);
      InsertOrdered(x, s[1..], numeric);
      forall j | 0 <= j < |t|
        ensures !Precedes(t[j], s[0], numeric)
      {
        assert t[j] in t;
        if t[j] != x {
          var k :| 0 <= k < |s[1..]| && s[1..][k] == t[j];
          assert s[k + 1] == t[j];
        }
      }
    }
  }

  lemma {:induction false} InsertDistinct(x: string, s: seq<string>, numeric: bool)
    requires Distinct(s) && x !in s
    ensures Distinct(Insert(x, s, numeric))
  {
    if s != [] && !Precedes(x, s[0], numeric) {
      InsertDistinct(x, s[1..], numeric);
      assert s[0] !in s[1..];
    }
  }

  lemma {:induction false} SortOrdered(s: seq<string>, numeric: bool)
    ensures Ordered(Sort(s, numeric), numeric)
  {
    if s != [] {
      SortOrdered(s[..|s| - 1], numeric);
      InsertOrdered(s[|s| - 1], Sort(s[..|s| - 1], numeric), numeric);
    }
  }

  lemma {:induction false} SortDistinct(s: seq<string>, numeric: bool)
    requires Distinct(s)
    ensures Distinct(Sort(s, numeric))
  {
    if s != [] {
      var p := s[..|s| - 1];
      SortDistinct(p, numeric);
      assert s[|s| - 1] !in p;
      InsertDistinct(s[|s| - 1], Sort(p, numeric), numeric);
    }
  }

  /**
   * `uniqSorted(values, numeric)`: every present, non-empty value exactly once;
   * venues in strictly ascending order; when every year is a digit string
   * that `Number` converts exactly, years by non-increasing numeric value.
   */
  function UniqSorted(values: seq<Option<string>>, numeric: bool): (r: seq<string>)
    ensures Distinct(r)
    ensures forall x :: x in r <==> Some(x) in values && x != ""
    ensures !numeric ==> forall i, j :: 0 <= i < j < |r| ==> LexLess(r[i], r[j])
    ensures numeric && (forall x :: Some(x) in values && x != "" ==> IsExactDigits(x)) ==>
              && (forall i :: 0 <= i < |r| ==> IsExactDigits(r[i]))
              && (forall i, j :: 0 <= i < j < |r| ==> DecimalValue(r[j]) <= DecimalValue(r[i]))
  {
    var d := Dedupe(Truthy(values));
    SortOrdered(d, numeric);
    SortDistinct(d, numeric);
    var r := Sort(d, numeric);
    assert !numeric ==> forall i, j :: 0 <= i < j < |r| ==> LexLess(r[i], r[j]) by {
      if !numeric {
        forall i, j | 0 <= i < j < |r|
          ensures LexLess(r[i], r[j])
        {
          LexLessTotal(r[i], r[j]);
        }
      }
    }
    assert forall i :: 0 <= i < |r| ==> r[i] in r;
    r
  }

  /** With every year written without leading zeros, the years come out strictly descending. */
  lemma YearsStrictlyDescending(values: seq<Option<string>>)
    requires forall x :: Some(x) in values && x != "" ==> IsCanonical(x)
    ensures var r := UniqSorted(values, true);
      && (forall i :: 0 <= i < |r| ==> IsCanonical(r[i]))
      && (forall i, j :: 0 <= i < j < |r| ==> DecimalValue(r[j]) < DecimalValue(r[i]))
  {
    var r := UniqSorted(values, true);
    assert forall i :: 0 <= i < |r| ==> r[i] in r;
    forall i, j | 0 <= i < j < |r|
      ensures DecimalValue(r[j]) < DecimalValue(r[i])
    {
      assert r[i] in r && r[j] in r;
      if DecimalValue(r[j]) == DecimalValue(r[i]) {
        CanonicalInjective(r[i], r[j]);
      }
    }
  }
}
