/** The median pandas' `Series.median()` computes over the non-missing
    values of a column: the middle value of the sorted values, or the mean
    of the two middle values when there is an even number of them. */
module Stats {

  predicate Sorted(s: seq<real>) {
    forall i, j :: 0 <= i < j < |s| ==> s[i] <= s[j]
  }

  /** Puts `x` into a sorted sequence at its place. */
  function Insert(x: real, s: seq<real>): (r: seq<real>)
    requires Sorted(s)
    ensures Sorted(r)
    ensures multiset(r) == multiset(s) + multiset{x}
    ensures |r| == |s| + 1
  {
    if s == [] || x <= s[0] then [x] + s
    else
      var rest := Insert(x, s[1..]);
      assert s == [s[0]] + s[1..];
      LowerBound(s[0], x, s[1..], rest);
      SortedCons(s[0], rest);
      [s[0]] + rest
  }

  lemma SortedCons(y: real, t: seq<real>)
    requires Sorted(t) && forall k :: 0 <= k < |t| ==> y <= t[k]
    ensures Sorted([y] + t)
  {
    var u := [y] + t;
    forall i, j | 0 <= i < j < |u|
      ensures u[i] <= u[j]
    {
      assert u[j] == t[j - 1];
      if i > 0 {
        assert u[i] == t[i - 1];
      }
    }
  }

  /** A bound below `x` and below every element of `t` is below every
      element of a sequence holding `t` and `x`. */
  lemma LowerBound(m: real, x: real, t: seq<real>, u: seq<real>)
    requires m <= x && forall k :: 0 <= k < |t| ==> m <= t[k]
    requires multiset(u) == multiset(t) + multiset{x}
    ensures forall k :: 0 <= k < |u| ==> m <= u[k]
  {
    forall k | 0 <= k < |u|
      ensures m <= u[k]
    {
      assert u[k] in multiset(u);
      if u[k] != x {
        assert u[k] in multiset(t);
        assert u[k] in t;
      }
    }
  }

  /** Insertion sort: a sorted permutation of `s`. */
  function Sort(s: seq<real>): (r: seq<real>)
    ensures Sorted(r)
    ensures multiset(r) == multiset(s)
    ensures |r| == |s|
  {
    if s == [] then []
    else
      assert s == [s[0]] + s[1..];
      Insert(s[0], Sort(s[1..]))
  }

  function Median(s: seq<real>): real
    requires |s| > 0
  {
    Middle(Sort(s))
  }

  /** The middle value of a sorted sequence, or the mean of its two middle
      values. */
  function Middle(r: seq<real>): (m: real)
    requires |r| > 0
    ensures Sorted(r) ==> r[0] <= m <= r[|r| - 1]
  {
    assert Sorted(r) ==> r[0] <= r[|r| / 2] <= r[|r| - 1];
    assert Sorted(r) && |r| % 2 == 0 ==> r[0] <= r[|r| / 2 - 1] <= r[|r| - 1];
    var n := |r|;
    if n % 2 == 1 then r[n / 2] else (r[n / 2 - 1] + r[n / 2]) / 2.0
  }

  /** Taking one element out of a sequence takes it out of its multiset. */
  lemma RemoveAt(s: seq<real>, k: nat)
    requires k < |s|
    ensures multiset(s[..k] + s[k + 1..]) == multiset(s) - multiset{s[k]}
  {
    assert s == s[..k] + [s[k]] + s[k + 1..];
  }

  lemma RemoveHead(s: seq<real>)
    requires s != []
    ensures multiset(s[1..]) == multiset(s) - multiset{s[0]}
  {
    RemoveAt(s, 0);
    assert s[..0] + s[1..] == s[1..];
  }

  /** Two sorted sequences with the same elements start with the same
      (smallest) element. */
  lemma SortedHeads(a: seq<real>, b: seq<real>)
    requires Sorted(a) && Sorted(b) && a != [] && b != []
    requires multiset(a) == multiset(b)
    ensures a[0] == b[0]
  {
    assert a[0] in multiset(b);
    assert b[0] in multiset(a);
    assert a[0] in b;
    assert b[0] in a;
  }

  /** Sorting is unique: two sorted sequences with the same elements are
      the same sequence. */
  lemma {:induction false} SortedUnique(a: seq<real>, b: seq<real>)
    requires Sorted(a) && Sorted(b)
    requires multiset(a) == multiset(b)
    ensures a == b
  {
    if a == [] {
      assert |multiset(b)| == 0;
    } else if b != [] {
      SortedHeads(a, b);
      RemoveHead(a);
      RemoveHead(b);
      SortedUnique(a[1..], b[1..]);
      assert a == [a[0]] + a[1..];
      assert b == [b[0]] + b[1..];
    }
  }

  /** The median depends on the values only, not on their order. */
  lemma MedianOfPermutation(a: seq<real>, b: seq<real>)
    requires |a| > 0
    requires multiset(a) == multiset(b)
    ensures |b| > 0 && Median(a) == Median(b)
  {
    assert |multiset(a)| == |a| && |multiset(b)| == |b|;
    SortedUnique(Sort(a), Sort(b));
    assert Median(a) == Middle(Sort(a)) == Middle(Sort(b)) == Median(b);
  }

  // ---------------------------------------------------------------------
  // The median splits the values in halves
  // ---------------------------------------------------------------------

  function CountAtMost(s: seq<real>, m: real): (n: nat)
    ensures n <= |s|
  {
    if s == [] then 0 else (if s[0] <= m then 1 else 0) + CountAtMost(s[1..], m)
  }

  function CountAtLeast(s: seq<real>, m: real): (n: nat)
    ensures n <= |s|
  {
    if s == [] then 0 else (if s[0] >= m then 1 else 0) + CountAtLeast(s[1..], m)
  }

  lemma {:induction false} CountConcat(a: seq<real>, b: seq<real>, m: real)
    ensures CountAtMost(a + b, m) == CountAtMost(a, m) + CountAtMost(b, m)
    ensures CountAtLeast(a + b, m) == CountAtLeast(a, m) + CountAtLeast(b, m)
  {
    if a == [] {
      assert a + b == b;
    } else {
      assert (a + b)[1..] == a[1..] + b;
      CountConcat(a[1..], b, m);
    }
  }

  /** Counting does not depend on the order of the values. */
  lemma {:induction false} CountPermutation(a: seq<real>, b: seq<real>, m: real)
    requires multiset(a) == multiset(b)
    ensures CountAtMost(a, m) == CountAtMost(b, m)
    ensures CountAtLeast(a, m) == CountAtLeast(b, m)
    decreases |a|
  {
    if a == [] {
      assert |multiset(b)| == 0;
    } else {
      assert a[0] in multiset(b);
      var k :| 0 <= k < |b| && b[k] == a[0];
      var rest := b[..k] + b[k + 1..];
      assert b == b[..k] + ([b[k]] + b[k + 1..]);
      RemoveAt(b, k);
      RemoveHead(a);
      CountPermutation(a[1..], rest, m);
      CountConcat(b[..k], [b[k]] + b[k + 1..], m);
      CountConcat([b[k]], b[k + 1..], m);
      CountConcat(b[..k], b[k + 1..], m);
      assert [b[k]][1..] == [];
      assert CountAtMost(b, m) == CountAtMost(b[..k], m) + (if a[0] <= m then 1 else 0) + CountAtMost(b[k + 1..], m);
      assert CountAtLeast(b, m) == CountAtLeast(b[..k], m) + (if a[0] >= m then 1 else 0) + CountAtLeast(b[k + 1..], m);
    }
  }

  /** In a sorted sequence, every value up to position `k` is at most
      `s[k]` and every value from position `k` on is at least `s[k]`. */
  lemma {:induction false} CountSorted(s: seq<real>, k: nat, m: real)
    requires Sorted(s) && k < |s|
    ensures s[k] <= m ==> CountAtMost(s, m) >= k + 1
    ensures m <= s[k] ==> CountAtLeast(s, m) >= |s| - k
  {
    assert s == s[..k + 1] + s[k + 1..];
    CountConcat(s[..k + 1], s[k + 1..], m);
    assert s == s[..k] + s[k..];
    CountConcat(s[..k], s[k..], m);
    if s[k] <= m {
      AllAtMost(s[..k + 1], m);
    }
    if m <= s[k] {
      AllAtLeast(s[k..], m);
    }
  }

  lemma {:induction false} AllAtMost(s: seq<real>, m: real)
    requires forall i :: 0 <= i < |s| ==> s[i] <= m
    ensures CountAtMost(s, m) == |s|
  {
    if s != [] {
      AllAtMost(s[1..], m);
    }
  }

  lemma {:induction false} AllAtLeast(s: seq<real>, m: real)
    requires forall i :: 0 <= i < |s| ==> m <= s[i]
    ensures CountAtLeast(s, m) == |s|
  {
    if s != [] {
      AllAtLeast(s[1..], m);
    }
  }

  /** At least half of the values are at most the median and at least half
      are at least the median. */
  lemma MedianSplitsInHalves(s: seq<real>)
    requires |s| > 0
    ensures 2 * CountAtMost(s, Median(s)) >= |s|
    ensures 2 * CountAtLeast(s, Median(s)) >= |s|
  {
    var r := Sort(s);
    var m := Median(s);
    CountPermutation(s, r, m);
    MiddleSplitsInHalves(r);
  }

  lemma MiddleSplitsInHalves(r: seq<real>)
    requires |r| > 0 && Sorted(r)
    ensures 2 * CountAtMost(r, Middle(r)) >= |r|
    ensures 2 * CountAtLeast(r, Middle(r)) >= |r|
  {
    var n := |r|;
    var h := n / 2;
    var m := Middle(r);
    if n % 2 == 1 {
      assert n == 2 * h + 1;
      assert m == r[h];
      CountSorted(r, h, m);
    } else {
      assert n == 2 * h && h >= 1;
      assert m == (r[h - 1] + r[h]) / 2.0;
      assert r[h - 1] <= r[h];
      CountSorted(r, h - 1, m);
      CountSorted(r, h, m);
    }
  }

  /** The median lies between the smallest and the largest value. */
  lemma MedianInRange(s: seq<real>)
    requires |s| > 0
    ensures exists i :: 0 <= i < |s| && s[i] <= Median(s)
    ensures exists j :: 0 <= j < |s| && Median(s) <= s[j]
  {
    var r := Sort(s);
    var n := |r|;
    assert r[0] in multiset(s) && r[n - 1] in multiset(s);
    assert r[0] <= r[n / 2] && r[n / 2] <= r[n - 1];
    if n % 2 == 0 {
      assert r[0] <= r[n / 2 - 1] && r[n / 2 - 1] <= r[n - 1];
    }
  }
}
