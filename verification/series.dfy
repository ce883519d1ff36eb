/** Arithmetic over finite sequences of durations and boolean masks: the
    vectorised reductions (`np.sum`, `np.abs`) the conditioning code relies
    on, stated over exact reals. */
module Series {

  /** Absolute value of a real (`np.abs`). */
  function Abs(x: real): (r: real)
    ensures r >= 0.0
    ensures r == x || r == -x
  {
    if x < 0.0 then -x else x
  }

  predicate AllPositive(s: seq<real>)
  {
    forall i :: 0 <= i < |s| ==> s[i] > 0.0
  }

  predicate AllNonNegative(s: seq<real>)
  {
    forall i :: 0 <= i < |s| ==> s[i] >= 0.0
  }

  /** Total of a sequence, accumulated front to back like a running sum. */
  function Sum(s: seq<real>): real
  {
    if |s| == 0 then 0.0 else Sum(s[..|s| - 1]) + s[|s| - 1]
  }

  /** Extending a prefix by one element adds that element to its sum. */
  lemma SumOfLongerPrefix(s: seq<real>, k: nat)
    requires k < |s|
    ensures Sum(s[..k + 1]) == Sum(s[..k]) + s[k]
  {
    assert s[..k + 1][..k] == s[..k];
  }

  /** Over non-negative values no prefix sums to more than the whole. */
  lemma {:induction false} PrefixSumAtMostSum(s: seq<real>, k: nat)
    requires AllNonNegative(s)
    requires k <= |s|
    ensures Sum(s[..k]) <= Sum(s)
  {
    if k < |s| {
      var init := s[..|s| - 1];
      assert init[..k] == s[..k];
      PrefixSumAtMostSum(init, k);
      assert s[..|s|] == s;
    } else {
      assert s[..k] == s;
    }
  }

  /** Every value at least `lo` and at most `hi` puts the sum between
      |s|·lo and |s|·hi. */
  lemma {:induction false} SumBetweenBounds(s: seq<real>, lo: real, hi: real)
    requires forall i :: 0 <= i < |s| ==> lo <= s[i] <= hi
    ensures (|s| as real) * lo <= Sum(s) <= (|s| as real) * hi
  {
    if |s| > 0 {
      var init := s[..|s| - 1];
      var n := |init| as real;
      SumBetweenBounds(init, lo, hi);
      assert (|s| as real) * lo == n * lo + lo;
      assert (|s| as real) * hi == n * hi + hi;
    }
  }

  /** Dividing by a positive real compares like multiplying the bound. */
  lemma QuotientExceedsIff(x: real, d: real, t: real)
    requires d > 0.0
    ensures x / d > t <==> x > t * d
  {
    var q := x / d;
    assert q * d == x;
    assert (q - t) * d == x - t * d;
    if q > t {
      assert (q - t) * d > 0.0;
    } else {
      assert (t - q) * d >= 0.0;
    }
  }

  /** Dividing by a positive real keeps the order of numerators. */
  lemma QuotientMonotone(a: real, b: real, d: real)
    requires d > 0.0
    requires a <= b
    ensures a / d <= b / d
    ensures a < b ==> a / d < b / d
  {
    assert (b / d - a / d) * d == b - a;
  }

  /** Division by a positive real distributes over a difference. */
  lemma QuotientOfDifference(a: real, b: real, d: real)
    requires d > 0.0
    ensures (a - b) / d == a / d - b / d
  {
    var q, qa, qb := (a - b) / d, a / d, b / d;
    assert q * d == a - b;
    assert qa * d == a && qb * d == b;
    assert (q - (qa - qb)) * d == 0.0;
  }

  /** Dividing a product by one of its positive factors gives the other. */
  lemma QuotientOfProduct(a: real, d: real)
    requires d > 0.0
    ensures (d * a) / d == a
  {
    var q := (d * a) / d;
    assert q * d == d * a;
    assert (q - a) * d == 0.0;
  }

  /** A quotient total / n between lo and hi when n·lo <= total <= n·hi. */
  lemma QuotientWithinBounds(total: real, n: nat, lo: real, hi: real)
    requires n > 0
    requires (n as real) * lo <= total <= (n as real) * hi
    ensures lo <= total / n as real <= hi
  {
    var d := n as real;
    QuotientMonotone(d * lo, total, d);
    QuotientMonotone(total, d * hi, d);
    QuotientOfProduct(lo, d);
    QuotientOfProduct(hi, d);
  }

  /** Scaling a positive real by a factor of at least 1 does not shrink it. */
  lemma ScalingByAtLeastOne(t: real, p: real)
    requires t >= 1.0 && p > 0.0
    ensures t * p >= p
  {
    assert t * p - p == (t - 1.0) * p;
  }

  /** Number of set positions of a mask (`np.sum` over booleans). */
  function CountTrue(m: seq<bool>): (r: nat)
    ensures r <= |m|
  {
    if |m| == 0 then 0
    else CountTrue(m[..|m| - 1]) + (if m[|m| - 1] then 1 else 0)
  }

  /** The positions a mask sets. */
  function TrueIndices(m: seq<bool>): set<int>
  {
    set i | 0 <= i < |m| && m[i]
  }

  /** Counting a mask is counting the positions it sets. */
  lemma {:induction false} CountTrueIsCardinality(m: seq<bool>)
    ensures CountTrue(m) == |TrueIndices(m)|
  {
    if |m| > 0 {
      var init := m[..|m| - 1];
      CountTrueIsCardinality(init);
      var last: set<int> := if m[|m| - 1] then {|m| - 1} else {};
      assert TrueIndices(m) == TrueIndices(init) + last;
      assert TrueIndices(init) !! last;
    }
  }

  /** A mask that sets at least the positions another sets counts at least as many. */
  lemma {:induction false} CountTrueMonotone(a: seq<bool>, b: seq<bool>)
    requires |a| == |b|
    requires forall i :: 0 <= i < |a| && a[i] ==> b[i]
    ensures CountTrue(a) <= CountTrue(b)
  {
    if |a| > 0 {
      CountTrueMonotone(a[..|a| - 1], b[..|b| - 1]);
    }
  }

  /** Clearing one set position lowers the count by exactly one. */
  lemma ClearingOnePositionCountsOneLess(m: seq<bool>, i: nat)
    requires i < |m| && m[i]
    ensures CountTrue(m[i := false]) == CountTrue(m) - 1
  {
    CountTrueIsCardinality(m);
    CountTrueIsCardinality(m[i := false]);
    assert TrueIndices(m[i := false]) == TrueIndices(m) - {i};
  }
}
