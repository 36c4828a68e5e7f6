/**
 * Exact-arithmetic meaning of a frequency table's probability annotation:
 * the counts in list order, the probabilities `p` and the cumulative
 * probabilities `cp`, and the cumulative-distribution lookup over `cp`.
 */
module Distribution {
  import opened Wrappers
  import opened JavaInt

  /** The exact sum of the counts, accumulated in list order. */
  function Total(counts: seq<int>): (t: int)
    ensures (forall i :: 0 <= i < |counts| ==> 0 <= counts[i]) ==> 0 <= t
  {
    if counts == [] then 0 else Total(counts[..|counts| - 1]) + counts[|counts| - 1]
  }

  /** The sum of a sequence of reals, accumulated in list order. */
  function Sum(xs: seq<real>): (s: real)
    ensures (forall i :: 0 <= i < |xs| ==> 0.0 <= xs[i]) ==> 0.0 <= s
  {
    if xs == [] then 0.0 else Sum(xs[..|xs| - 1]) + xs[|xs| - 1]
  }

  lemma {:induction false} TotalStep(counts: seq<int>, i: nat)
    requires i < |counts|
    ensures Total(counts[..i + 1]) == Total(counts[..i]) + counts[i]
  {
    assert counts[..i + 1][..i] == counts[..i];
  }

  lemma {:induction false} SumStep(xs: seq<real>, i: nat)
    requires i < |xs|
    ensures Sum(xs[..i + 1]) == Sum(xs[..i]) + xs[i]
  {
    assert xs[..i + 1][..i] == xs[..i];
  }

  /** Each count as a share of the total `t`. */
  ghost function Shares(counts: seq<int>, t: int): (ps: seq<real>)
    requires counts != [] ==> t != 0
    ensures |ps| == |counts|
    ensures forall i :: 0 <= i < |counts| ==> ps[i] == counts[i] as real / t as real
  {
    seq(|counts|, i requires 0 <= i < |counts| => counts[i] as real / t as real)
  }

  /**
   * The running sums of `ps` in list order: each entry is the previous
   * running sum (0 before the first entry) plus its own term.
   */
  function Cumulative(ps: seq<real>): (cps: seq<real>)
    ensures |cps| == |ps|
    ensures ps != [] ==> cps[0] == ps[0]
    ensures forall i :: 0 < i < |ps| ==> cps[i] == cps[i - 1] + ps[i]
  {
    if ps == [] then []
    else
      var n := |ps|;
      var c := Cumulative(ps[..n - 1]);
      var last := if n == 1 then ps[0] else c[n - 2] + ps[n - 1];
      assert forall i :: 0 < i < n - 1 ==> c[i] == c[i - 1] + ps[i];
      c + [last]
  }

  /** The i-th running sum is the sum of the first i + 1 terms. */
  lemma {:induction false} CumulativeIsPrefixSum(ps: seq<real>, i: nat)
    requires i < |ps|
    ensures Cumulative(ps)[i] == Sum(ps[..i + 1])
  {
    SumStep(ps, i);
    if i == 0 {
      assert ps[..0] == [];
      assert Sum(ps[..0]) == 0.0;
    } else {
      CumulativeIsPrefixSum(ps, i - 1);
    }
  }

  /**
   * The state a table is in after the probabilities have been computed from
   * `counts`: `ps` holds each count over the total (as Java's `int`
   * accumulator holds it), and `cps` holds the running sums of `ps`.
   */
  ghost predicate Finalized(counts: seq<int>, ps: seq<real>, cps: seq<real>) {
    && (counts != [] ==> Wrap(Total(counts)) != 0)
    && ps == Shares(counts, Wrap(Total(counts)))
    && cps == Cumulative(ps)
  }

  ghost predicate NonDecreasing(xs: seq<real>) {
    forall i, j :: 0 <= i <= j < |xs| ==> xs[i] <= xs[j]
  }

  /** Shares of a common divisor add up to the share of the sum. */
  lemma {:induction false} SumOfShares(counts: seq<int>, ps: seq<real>, t: int, n: nat)
    requires t != 0 && n <= |counts| == |ps|
    requires forall i :: 0 <= i < |counts| ==> ps[i] == counts[i] as real / t as real
    ensures Sum(ps[..n]) == Total(counts[..n]) as real / t as real
  {
    if n > 0 {
      SumOfShares(counts, ps, t, n - 1);
      SumStep(ps, n - 1);
      TotalStep(counts, n - 1);
      AddShares(Total(counts[..n - 1]) as real, counts[n - 1] as real, t as real);
    }
  }

  lemma {:induction false} AddShares(a: real, b: real, d: real)
    requires d != 0.0
    ensures a / d + b / d == (a + b) / d
  {
  }

  lemma {:induction false} DivSelf(d: real)
    requires d != 0.0
    ensures d / d == 1.0
  {
  }

  /**
   * The probabilities of a finalized table add up to the exact total over
   * the stored (possibly wrapped) total, and the last `cp` is that sum.
   */
  lemma {:induction false} FinalizedSum(counts: seq<int>, ps: seq<real>, cps: seq<real>)
    requires Finalized(counts, ps, cps) && counts != []
    ensures Sum(ps) == Total(counts) as real / Wrap(Total(counts)) as real
    ensures cps[|cps| - 1] == Sum(ps)
  {
    SumOfShares(counts, ps, Wrap(Total(counts)), |counts|);
    CumulativeIsPrefixSum(ps, |ps| - 1);
    assert counts[..|counts|] == counts;
    assert ps[..|ps|] == ps;
  }

  /**
   * When the total count fits in a Java `int`, the probabilities of a
   * finalized non-empty table sum to exactly 1 and the last `cp` is 1.
   */
  lemma {:induction false} FinalizedSumIsOne(counts: seq<int>, ps: seq<real>, cps: seq<real>)
    requires Finalized(counts, ps, cps) && counts != [] && InRange(Total(counts))
    ensures Sum(ps) == 1.0
    ensures cps[|cps| - 1] == 1.0
  {
    FinalizedSum(counts, ps, cps);
    var t := Total(counts);
    assert Wrap(t) == t != 0;
    DivSelf(t as real);
  }

  lemma {:induction false} SharesNonNegative(counts: seq<int>, t: int)
    requires 0 < t
    requires forall k :: 0 <= k < |counts| ==> 0 <= counts[k]
    ensures forall k :: 0 <= k < |counts| ==> 0.0 <= Shares(counts, t)[k]
  {
  }

  /** Running sums of non-negative terms never decrease. */
  lemma {:induction false} CumulativeGrows(ps: seq<real>, i: nat, j: nat)
    requires forall k :: 0 <= k < |ps| ==> 0.0 <= ps[k]
    requires i <= j < |ps|
    ensures Cumulative(ps)[i] <= Cumulative(ps)[j]
  {
    if i < j {
      CumulativeGrows(ps, i, j - 1);
    }
  }

  /**
   * With non-negative counts whose total fits in a Java `int`, the `cp`
   * values of a finalized table never decrease along the list and lie in
   * [0, 1].
   */
  lemma {:induction false} FinalizedNonDecreasing(counts: seq<int>, ps: seq<real>, cps: seq<real>)
    requires Finalized(counts, ps, cps)
    requires forall i :: 0 <= i < |counts| ==> 0 <= counts[i]
    requires Total(counts) <= MaxInt
    ensures NonDecreasing(cps)
    ensures forall i :: 0 <= i < |cps| ==> 0.0 <= cps[i] <= 1.0
  {
    if counts != [] {
      var t := Total(counts);
      assert 0 < t == Wrap(t);
      SharesNonNegative(counts, t);
      forall i, j | 0 <= i <= j < |cps| ensures cps[i] <= cps[j] {
        CumulativeGrows(ps, i, j);
      }
      FinalizedSumIsOne(counts, ps, cps);
      forall i | 0 <= i < |cps| ensures 0.0 <= cps[i] <= 1.0 {
        CumulativeGrows(ps, 0, i);
        CumulativeGrows(ps, i, |cps| - 1);
      }
    }
  }

  /**
   * The index of the first entry, in list order, whose cumulative
   * probability exceeds the draw `r`; None when there is none.
   */
  function FirstAbove(cps: seq<real>, r: real): (k: Option<nat>)
    ensures k.Some? ==> k.value < |cps| && r < cps[k.value]
    ensures k.Some? ==> forall j :: 0 <= j < k.value ==> cps[j] <= r
    ensures k.None? ==> forall j :: 0 <= j < |cps| ==> cps[j] <= r
  {
    if cps == [] then None
    else if r < cps[0] then Some(0)
    else match FirstAbove(cps[1..], r)
      case None => None
      case Some(k) => Some(k + 1)
  }

  /** Lower end of the draws that select entry `i`: the previous `cp`, or 0. */
  function Lower(cps: seq<real>, i: nat): real
    requires i < |cps|
  {
    if i == 0 then 0.0 else cps[i - 1]
  }

  /**
   * On non-decreasing `cp` values, a draw `r >= 0` selects entry `i`
   * exactly when it lies in [cp[i-1], cp[i]).
   */
  lemma {:induction false} SelectionInterval(cps: seq<real>, r: real, i: nat)
    requires NonDecreasing(cps) && 0.0 <= r && i < |cps|
    ensures FirstAbove(cps, r) == Some(i) <==> Lower(cps, i) <= r < cps[i]
  {
  }

  /**
   * In a finalized table with non-negative counts whose total fits in a
   * Java `int`, a draw `r >= 0` selects entry `i` exactly when it lies in
   * [cp[i-1], cp[i]), an interval whose width is the entry's probability.
   */
  lemma {:induction false} FinalizedSelection(counts: seq<int>, ps: seq<real>, cps: seq<real>, r: real, i: nat)
    requires Finalized(counts, ps, cps) && i < |counts|
    requires forall k :: 0 <= k < |counts| ==> 0 <= counts[k]
    requires Total(counts) <= MaxInt
    requires 0.0 <= r
    ensures FirstAbove(cps, r) == Some(i) <==> Lower(cps, i) <= r < cps[i]
    ensures cps[i] - Lower(cps, i) == ps[i]
  {
    FinalizedNonDecreasing(counts, ps, cps);
    SelectionInterval(cps, r, i);
  }

  /**
   * On a finalized non-empty table whose total fits in a Java `int`, every
   * draw below 1 selects some entry.
   */
  lemma {:induction false} FinalizedDrawSelects(counts: seq<int>, ps: seq<real>, cps: seq<real>, r: real)
    requires Finalized(counts, ps, cps) && counts != [] && InRange(Total(counts))
    requires r < 1.0
    ensures FirstAbove(cps, r).Some?
  {
    FinalizedSumIsOne(counts, ps, cps);
  }
}
