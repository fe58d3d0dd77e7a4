/** The data behind the correlation heat map: the plausibility and
    percentile filter that selects the rows, and the upper-triangle mask
    that hides the duplicated half of the matrix. */
module HeatMap {
  import opened Records

  /** Inclusive height and weight bands. */
  datatype Bounds = Bounds(heightLo: real, heightHi: real, weightLo: real, weightHi: real)

  /** The row condition of lines 45-49: diastolic at most systolic pressure,
      height and weight inside their bands. */
  predicate Plausible(r: Record, b: Bounds)
  {
    r.apLo <= r.apHi &&
    b.heightLo <= r.height as real && r.height as real <= b.heightHi &&
    b.weightLo <= r.weight && r.weight <= b.weightHi
  }

  /** The rows of `t` that satisfy the condition, in their original order.
      A new table: `t` itself is left as it is. */
  function Filter(t: seq<Record>, b: Bounds): (s: seq<Record>)
    ensures |s| <= |t|
    ensures forall x :: x in s ==> Plausible(x, b)
  {
    if t == [] then []
    else Filter(t[..|t| - 1], b) + (if Plausible(t[|t| - 1], b) then [t[|t| - 1]] else [])
  }

  /** The positions of `t` that the condition keeps: strictly increasing,
      and a position is in it exactly when its row satisfies the condition
      (so every position left out violates at least one of the four bounds
      or the pressure test). */
  function KeptIndices(t: seq<Record>, b: Bounds): (idx: seq<nat>)
    ensures forall j :: 0 <= j < |idx| ==> idx[j] < |t|
    ensures forall j, j' :: 0 <= j < j' < |idx| ==> idx[j] < idx[j']
    ensures forall i :: 0 <= i < |t| ==> (i in idx <==> Plausible(t[i], b))
  {
    if t == [] then []
    else
      var prefix := KeptIndices(t[..|t| - 1], b);
      assert forall i :: 0 <= i < |t| - 1 ==> t[..|t| - 1][i] == t[i];
      prefix + (if Plausible(t[|t| - 1], b) then [|t| - 1] else [])
  }

  /** The filtered table is the subsequence of `t` at exactly the kept
      positions: its j-th row is row KeptIndices(t, b)[j] of `t`. */
  lemma {:induction false} FilterSelectsKept(t: seq<Record>, b: Bounds)
    ensures |Filter(t, b)| == |KeptIndices(t, b)|
    ensures forall j :: 0 <= j < |Filter(t, b)| ==> Filter(t, b)[j] == t[KeptIndices(t, b)[j]]
  {
    if t != [] {
      var prefix := t[..|t| - 1];
      FilterSelectsKept(prefix, b);
      forall j | 0 <= j < |KeptIndices(prefix, b)|
        ensures t[KeptIndices(prefix, b)[j]] == prefix[KeptIndices(prefix, b)[j]]
      {
      }
    }
  }

  /** Appending one row extends the filtered table by that row or not at all. */
  lemma FilterSnoc(s: seq<Record>, x: Record, b: Bounds)
    ensures Filter(s + [x], b) == Filter(s, b) + (if Plausible(x, b) then [x] else [])
  {
    assert (s + [x])[..|s + [x]| - 1] == s;
  }

  /** `b1` is at least as strict as `b2`: no lower bound lower, no upper bound higher. */
  predicate Tighter(b1: Bounds, b2: Bounds)
  {
    b1.heightLo >= b2.heightLo && b1.heightHi <= b2.heightHi &&
    b1.weightLo >= b2.weightLo && b1.weightHi <= b2.weightHi
  }

  /** Filtering with tighter bounds is filtering the looser result again,
      so it never yields more rows. */
  lemma {:induction false} FilterTighter(t: seq<Record>, b1: Bounds, b2: Bounds)
    requires Tighter(b1, b2)
    ensures Filter(t, b1) == Filter(Filter(t, b2), b1)
    ensures |Filter(t, b1)| <= |Filter(t, b2)|
  {
    if t != [] {
      var prefix, x := t[..|t| - 1], t[|t| - 1];
      FilterTighter(prefix, b1, b2);
      if Plausible(x, b2) {
        FilterSnoc(Filter(prefix, b2), x, b1);
      } else {
        assert Filter(t, b2) == Filter(prefix, b2) + [];
        assert Filter(prefix, b2) + [] == Filter(prefix, b2);
      }
    }
  }

  /** Filtering the filtered table again changes nothing. */
  lemma FilterIdempotent(t: seq<Record>, b: Bounds)
    ensures Filter(Filter(t, b), b) == Filter(t, b)
  {
    FilterTighter(t, b, b);
  }

  /** The height column as numbers. */
  function Heights(t: seq<Record>): (h: seq<real>)
    ensures |h| == |t|
  {
    seq(|t|, i requires 0 <= i < |t| => t[i].height as real)
  }

  /** The weight column. */
  function Weights(t: seq<Record>): (w: seq<real>)
    ensures |w| == |t|
  {
    seq(|t|, i requires 0 <= i < |t| => t[i].weight)
  }

  /** The 2.5th and 97.5th percentile bands of height and weight, computed
      once over the whole table. `quantile(column, p)` stands for the
      table library's quantile of `column` at fraction `p`. */
  function PercentileBounds(t: seq<Record>, quantile: (seq<real>, real) -> real): Bounds
  {
    Bounds(quantile(Heights(t), 0.025), quantile(Heights(t), 0.975),
           quantile(Weights(t), 0.025), quantile(Weights(t), 0.975))
  }

  /** Lines 45-49: every kept row has ap_lo <= ap_hi and height and weight
      between the percentiles of the full, unfiltered table. */
  function HeatSubset(t: seq<Record>, quantile: (seq<real>, real) -> real): (s: seq<Record>)
    ensures |s| <= |t|
    ensures forall x :: x in s ==>
              x.apLo <= x.apHi &&
              quantile(Heights(t), 0.025) <= x.height as real <= quantile(Heights(t), 0.975) &&
              quantile(Weights(t), 0.025) <= x.weight <= quantile(Weights(t), 0.975)
  {
    Filter(t, PercentileBounds(t, quantile))
  }

  /** One row of the mask: true from the diagonal rightwards. */
  function MaskRow(n: nat, i: nat): seq<bool>
  {
    seq(n, j => i <= j)
  }

  /** Line 57: the n-by-n upper-triangle mask, diagonal included. */
  function TriuMask(n: nat): (m: seq<seq<bool>>)
    ensures |m| == n
    ensures forall i :: 0 <= i < n ==> |m[i]| == n
  {
    seq(n, i requires 0 <= i < n => MaskRow(n, i))
  }

  /** The mask hides exactly the cells on and above the diagonal, and of
      every pair of mirrored off-diagonal cells it hides exactly one. */
  lemma TriuMaskCells(n: nat)
    ensures forall i, j :: 0 <= i < n && 0 <= j < n ==> (TriuMask(n)[i][j] <==> i <= j)
    ensures forall i :: 0 <= i < n ==> TriuMask(n)[i][i]
    ensures forall i, j :: 0 <= i < n && 0 <= j < n && i != j ==>
              TriuMask(n)[i][j] != TriuMask(n)[j][i]
  {
  }

  /** Number of true cells in a row. */
  function RowTrue(row: seq<bool>): nat
  {
    if row == [] then 0 else RowTrue(row[..|row| - 1]) + (if row[|row| - 1] then 1 else 0)
  }

  /** Number of true cells in a grid. */
  function TrueCells(m: seq<seq<bool>>): nat
  {
    if m == [] then 0 else TrueCells(m[..|m| - 1]) + RowTrue(m[|m| - 1])
  }

  lemma {:induction false} MaskRowCount(n: nat, i: nat)
    requires i <= n
    ensures RowTrue(MaskRow(n, i)) == n - i
  {
    if n > 0 {
      if i < n {
        assert MaskRow(n, i)[..n - 1] == MaskRow(n - 1, i);
        MaskRowCount(n - 1, i);
      } else {
        MaskRowNone(n, i);
      }
    }
  }

  lemma {:induction false} MaskRowNone(n: nat, i: nat)
    requires n <= i
    ensures RowTrue(MaskRow(n, i)) == 0
  {
    if n > 0 {
      assert MaskRow(n, i)[..n - 1] == MaskRow(n - 1, i);
      MaskRowNone(n - 1, i);
    }
  }

  lemma {:induction false} TriuPrefixCount(n: nat, k: nat)
    requires k <= n
    ensures 2 * TrueCells(TriuMask(n)[..k]) == 2 * k * n - k * (k - 1)
  {
    if k > 0 {
      assert TriuMask(n)[..k][..k - 1] == TriuMask(n)[..k - 1];
      TriuPrefixCount(n, k - 1);
      MaskRowCount(n, k - 1);
      assert 2 * k * n - k * (k - 1) == 2 * (k - 1) * n - (k - 1) * (k - 2) + 2 * (n - (k - 1));
    }
  }

  /** Exactly n(n+1)/2 cells of the mask are true. */
  lemma TriuMaskCount(n: nat)
    ensures TrueCells(TriuMask(n)) == n * (n + 1) / 2
  {
    TriuPrefixCount(n, n);
    assert TriuMask(n)[..n] == TriuMask(n);
  }

  /** The heat map's mask: square over the fourteen columns of the table,
      105 of its 196 cells hidden. */
  lemma HeatMaskShape()
    ensures |TriuMask(|TableColumns|)| == 14
    ensures TrueCells(TriuMask(|TableColumns|)) == 105
  {
    TriuMaskCount(|TableColumns|);
  }
}
