/**
 * Outlier reporting and correction of a numeric series (p2.py).
 *
 * Positions 0 .. n-1 stand for the series' date labels. Arithmetic is exact
 * over `real`: a standard score |z| >= t is decided by comparing squared
 * deviations, so no square root is taken. A score whose standard deviation is
 * zero or undefined is NaN in the source and is never flagged here.
 */
module Outliers {

  import opened Sequences

  datatype Option<T> = None | Some(value: T)

  /** The state of the copy after the fill loop, or the position whose right neighbour was missing. */
  datatype Filled = Filled(series: seq<real>) | FillFailed(pos: nat)

  /**
   * What correct returns: the corrected copy with the flagged positions, or
   * the IndexError raised when a flagged position has no right neighbour.
   */
  datatype Correction = Corrected(series: seq<real>, outliers: seq<nat>) | IndexOutOfRange(pos: nat)

  function Sum(s: seq<real>): real
  {
    if s == [] then 0.0 else s[0] + Sum(s[1..])
  }

  function Mean(s: seq<real>): real
    requires |s| > 0
  {
    Sum(s) / (|s| as real)
  }

  /** Sum of squared deviations of s from m. */
  function SquaredDeviations(s: seq<real>, m: real): (r: real)
    ensures r >= 0.0
  {
    if s == [] then 0.0
    else
      var d := s[0] - m;
      SquareNonNegative(d);
      d * d + SquaredDeviations(s[1..], m)
  }

  lemma SquareNonNegative(d: real)
    ensures d * d >= 0.0
  {
    if d < 0.0 {
      assert d * d == (-d) * (-d);
    }
  }

  /** Sum of squared deviations from the mean: (|s| - ddof) * variance. */
  function Scatter(s: seq<real>): real
    requires |s| > 0
  {
    SquaredDeviations(s, Mean(s))
  }

  /**
   * |z-score of s[k]| >= t, where the score uses the mean of s and the
   * standard deviation with `ddof` delta degrees of freedom. The score is
   * undefined (NaN) when fewer than ddof + 1 values are given or when the
   * deviation is zero, and is then not flagged. For t > 0 the test
   * |dev| / sqrt(scatter / (|s| - ddof)) >= t is rewritten as
   * dev^2 * (|s| - ddof) >= t^2 * scatter.
   */
  predicate ScoreAtLeast(s: seq<real>, k: nat, ddof: nat, t: real)
  {
    && k < |s|
    && |s| > ddof
    && Scatter(s) > 0.0
    && (t <= 0.0 ||
        (s[k] - Mean(s)) * (s[k] - Mean(s)) * ((|s| - ddof) as real) >= t * t * Scatter(s))
  }

  /**
   * The sample standard deviation (ddof 1) of s is not zero. With fewer than
   * two values it is NaN, and NaN compares unequal to zero.
   */
  predicate SampleStdNonZero(s: seq<real>)
  {
    |s| < 2 || Scatter(s) != 0.0
  }

  /** The positions lo <= k < hi that satisfy p, in increasing order (a boolean mask). */
  function Select(lo: nat, hi: nat, p: nat -> bool): (r: seq<nat>)
    ensures Increasing(r)
    ensures forall k: nat :: k in r <==> lo <= k < hi && p(k)
    decreases hi - lo
  {
    if lo >= hi then []
    else
      var rest := Select(lo + 1, hi, p);
      if p(lo) then IncreasingCons(lo, rest); [lo] + rest else rest
  }

  /** floor(window / 2), the number of positions a centered window cannot score at each end. */
  function Half(window: nat): nat
  {
    window / 2
  }

  /** End of the head slice original[0:h] of a series of length n. */
  function HeadEnd(n: nat, window: nat): (e: nat)
    ensures e <= n && e <= Half(window)
    ensures e == Half(window) || e == n
  {
    if Half(window) < n then Half(window) else n
  }

  /**
   * Start of the tail slice original[-h:] of a series of length n. Python
   * reads -0 as 0, so for h == 0 (a window below 2) the tail is the whole
   * series, not an empty slice.
   */
  function TailStart(n: nat, window: nat): (b: nat)
    ensures b <= n
    ensures Half(window) == 0 ==> b == 0
    ensures Half(window) > 0 ==> n - b == HeadEnd(n, window)
  {
    if Half(window) == 0 then 0
    else if Half(window) < n then n - Half(window) else 0
  }

  /**
   * Position i has a full centered window of `window` samples. As in pandas,
   * the window of i is [i - floor(w/2), i + ceil(w/2) - 1].
   */
  predicate FullWindow(n: nat, window: nat, i: nat)
  {
    i >= Half(window) && i - Half(window) + window <= n
  }

  /**
   * The centered window of position i: `window` consecutive values with
   * x[i] at index floor(window/2), i.e. in the middle.
   */
  function Window(x: seq<real>, window: nat, i: nat): (w: seq<real>)
    requires FullWindow(|x|, window, i)
    ensures |w| == window
    ensures window > 0 ==> w[Half(window)] == x[i]
  {
    x[i - Half(window)..i - Half(window) + window]
  }

  /** The head pass: z-scores (ddof 0) over the first floor(window/2) values, guarded by their sample std. */
  function HeadFlags(x: seq<real>, window: nat, t: real): (r: seq<nat>)
    ensures Increasing(r)
    ensures forall k: nat :: k in r <==>
      var head := x[..HeadEnd(|x|, window)];
      k < |head| && SampleStdNonZero(head) && ScoreAtLeast(head, k, 0, t)
  {
    var head := x[..HeadEnd(|x|, window)];
    if SampleStdNonZero(head) then Select(0, |head|, (k: nat) => ScoreAtLeast(head, k, 0, t)) else []
  }

  /** The rolling pass: centered rolling z-scores (ddof 1) where a full window exists. */
  function RollingFlags(x: seq<real>, window: nat, t: real): (r: seq<nat>)
    ensures Increasing(r)
    ensures forall i: nat :: i in r <==>
      i < |x| && FullWindow(|x|, window, i) && ScoreAtLeast(Window(x, window, i), Half(window), 1, t)
  {
    Select(0, |x|, (i: nat) => FullWindow(|x|, window, i) && ScoreAtLeast(Window(x, window, i), Half(window), 1, t))
  }

  /** The tail pass: the head pass applied to the tail slice, reported as positions of x. */
  function TailFlags(x: seq<real>, window: nat, t: real): (r: seq<nat>)
    ensures Increasing(r)
    ensures forall k: nat :: k in r <==>
      var b := TailStart(|x|, window);
      b <= k < |x| && SampleStdNonZero(x[b..]) && ScoreAtLeast(x[b..], k - b, 0, t)
  {
    var b := TailStart(|x|, window);
    var tail := x[b..];
    if SampleStdNonZero(tail) then Select(b, |x|, (k: nat) => k >= b && ScoreAtLeast(tail, k - b, 0, t)) else []
  }

  /**
   * The flagged positions, head pass then rolling pass then tail pass,
   * duplicates kept. Every flagged position is a position of the series.
   */
  function Detect(x: seq<real>, window: nat, t: real): (r: seq<nat>)
    ensures forall k :: k in r ==> k < |x|
  {
    HeadFlags(x, window, t) + RollingFlags(x, window, t) + TailFlags(x, window, t)
  }

  /**
   * The head pass only flags positions below floor(window/2), the rolling
   * pass only positions with a full window, and the tail pass only the last
   * floor(window/2) positions (all positions when the window is below 2).
   */
  lemma {:induction false} PassRanges(x: seq<real>, window: nat, t: real)
    ensures forall k :: k in HeadFlags(x, window, t) ==> k < Half(window) && k < |x|
    ensures forall k :: k in RollingFlags(x, window, t) ==>
      Half(window) <= k && k + window - Half(window) <= |x|
    ensures forall k :: k in TailFlags(x, window, t) ==>
      k < |x| && (Half(window) > 0 ==> k + Half(window) >= |x|)
  {
  }

  /** No position is flagged by both the head pass and the rolling pass. */
  lemma {:induction false} HeadRollingDisjoint(x: seq<real>, window: nat, t: real, k: nat)
    ensures !(k in HeadFlags(x, window, t) && k in RollingFlags(x, window, t))
  {
  }

  /** A series shorter than the window gets no rolling-pass flags. */
  lemma {:induction false} ShortSeriesNoRollingFlags(x: seq<real>, window: nat, t: real)
    requires |x| < window
    ensures RollingFlags(x, window, t) == []
  {
    assert forall i: nat :: !FullWindow(|x|, window, i);
    NoMemberEmpty(RollingFlags(x, window, t));
  }

  /**
   * For an even window the rolling pass and the tail pass both score
   * position n - window/2, so it can be flagged twice.
   */
  lemma EvenWindowSharedPosition(n: nat, window: nat)
    requires window >= 2 && window % 2 == 0 && n >= window
    ensures FullWindow(n, window, n - Half(window))
    ensures TailStart(n, window) == n - Half(window)
  {
  }

  /** For an odd window every position the rolling pass scores lies before the tail slice. */
  lemma OddWindowNoSharedPosition(n: nat, window: nat, i: nat)
    requires window % 2 == 1 && window >= 3
    requires FullWindow(n, window, i)
    ensures i < TailStart(n, window)
  {
  }

  /**
   * A window below 2 makes floor(window/2) zero: the head slice is empty, and
   * original[-0:] makes the tail pass score the whole series.
   */
  lemma {:induction false} ShortWindowTailIsWholeSeries(x: seq<real>, window: nat, t: real)
    requires window < 2
    ensures HeadFlags(x, window, t) == []
    ensures forall k: nat :: k in TailFlags(x, window, t) <==>
      k < |x| && SampleStdNonZero(x) && ScoreAtLeast(x, k, 0, t)
  {
    assert x[TailStart(|x|, window)..] == x;
  }

  /**
   * The flag list keeps duplicates: a position occurs in it once for every
   * pass that flags it.
   */
  lemma {:induction false} DetectMultiplicity(x: seq<real>, window: nat, t: real, k: nat)
    ensures multiset(Detect(x, window, t))[k] ==
      (if k in HeadFlags(x, window, t) then 1 else 0) +
      (if k in RollingFlags(x, window, t) then 1 else 0) +
      (if k in TailFlags(x, window, t) then 1 else 0)
  {
    IncreasingOccursOnce(HeadFlags(x, window, t), k);
    IncreasingOccursOnce(RollingFlags(x, window, t), k);
    IncreasingOccursOnce(TailFlags(x, window, t), k);
  }

  /** Since the head and rolling passes never share a position, no position is flagged more than twice. */
  lemma {:induction false} FlaggedAtMostTwice(x: seq<real>, window: nat, t: real, k: nat)
    ensures multiset(Detect(x, window, t))[k] <= 2
  {
    DetectMultiplicity(x, window, t, k);
    HeadRollingDisjoint(x, window, t, k);
  }

  lemma {:induction false} SumOfConstant(s: seq<real>, c: real)
    requires forall i :: 0 <= i < |s| ==> s[i] == c
    ensures Sum(s) == (|s| as real) * c
  {
    if s != [] {
      SumOfConstant(s[1..], c);
    }
  }

  lemma {:induction false} DeviationsOfConstant(s: seq<real>, c: real)
    requires forall i :: 0 <= i < |s| ==> s[i] == c
    ensures SquaredDeviations(s, c) == 0.0
  {
    if s != [] {
      DeviationsOfConstant(s[1..], c);
    }
  }

  /** A constant slice has mean c and zero scatter, so none of its scores is defined. */
  lemma {:induction false} ConstantScatter(s: seq<real>, c: real)
    requires |s| > 0
    requires forall i :: 0 <= i < |s| ==> s[i] == c
    ensures Mean(s) == c && Scatter(s) == 0.0
  {
    SumOfConstant(s, c);
    DeviationsOfConstant(s, c);
  }

  lemma {:induction false} HeadOfConstantNotFlagged(x: seq<real>, c: real, window: nat, t: real)
    requires forall i :: 0 <= i < |x| ==> x[i] == c
    ensures HeadFlags(x, window, t) == []
  {
    var head := x[..HeadEnd(|x|, window)];
    if |head| > 0 {
      ConstantScatter(head, c);
    }
    NoMemberEmpty(HeadFlags(x, window, t));
  }

  lemma {:induction false} TailOfConstantNotFlagged(x: seq<real>, c: real, window: nat, t: real)
    requires forall i :: 0 <= i < |x| ==> x[i] == c
    ensures TailFlags(x, window, t) == []
  {
    var tail := x[TailStart(|x|, window)..];
    if |tail| > 0 {
      ConstantScatter(tail, c);
    }
    NoMemberEmpty(TailFlags(x, window, t));
  }

  lemma {:induction false} RollingOfConstantNotFlagged(x: seq<real>, c: real, window: nat, t: real)
    requires forall i :: 0 <= i < |x| ==> x[i] == c
    ensures RollingFlags(x, window, t) == []
  {
    forall i: nat | i < |x| && FullWindow(|x|, window, i) && window > 0
      ensures !ScoreAtLeast(Window(x, window, i), Half(window), 1, t)
    {
      ConstantScatter(Window(x, window, i), c);
    }
    NoMemberEmpty(RollingFlags(x, window, t));
  }

  /** No pass flags anything in a constant series, so correct returns it unchanged with no flags. */
  lemma {:induction false} ConstantSeriesUnchanged(x: seq<real>, c: real, window: nat, t: real, fill: string)
    requires forall i :: 0 <= i < |x| ==> x[i] == c
    ensures Detect(x, window, t) == []
    ensures CorrectSpec(x, window, t, fill) == Corrected(x, [])
  {
    HeadOfConstantNotFlagged(x, c, window, t);
    RollingOfConstantNotFlagged(x, c, window, t);
    TailOfConstantNotFlagged(x, c, window, t);
  }

  /**
   * The left neighbour as iloc[pos - 1] reads it: for position 0, Python's
   * negative index -1 reads the last element.
   */
  function LeftOf(n: nat, pos: nat): (l: nat)
    requires pos < n
    ensures l < n
    ensures l + 1 == pos || (l + 1 == n && pos == 0)
  {
    if pos == 0 then n - 1 else pos - 1
  }

  /** One correction step: s[pos] becomes the average of its current left and right neighbours. */
  function FillAt(s: seq<real>, pos: nat): (r: seq<real>)
    requires pos + 1 < |s|
    ensures |r| == |s|
    ensures r[pos] == (s[LeftOf(|s|, pos)] + s[pos + 1]) / 2.0
    ensures forall j :: 0 <= j < |s| && j != pos ==> r[j] == s[j]
  {
    s[pos := (s[LeftOf(|s|, pos)] + s[pos + 1]) / 2.0]
  }

  /**
   * The correction loop over the flag list, in list order, each step reading
   * the values already corrected by earlier steps. A flagged position without
   * a right neighbour raises IndexError (iloc[pos + 1] out of bounds).
   */
  function ApplyFills(s: seq<real>, outliers: seq<nat>): (r: Filled)
    ensures r.FillFailed? ==> r.pos in outliers && r.pos + 1 >= |s|
    decreases |outliers|
  {
    if outliers == [] then Filled(s)
    else if outliers[0] + 1 >= |s| then FillFailed(outliers[0])
    else ApplyFills(FillAt(s, outliers[0]), outliers[1..])
  }

  /** Correction keeps the length of the series. */
  lemma {:induction false} FillsKeepLength(s: seq<real>, outliers: seq<nat>)
    ensures ApplyFills(s, outliers).Filled? ==> |ApplyFills(s, outliers).series| == |s|
    decreases |outliers|
  {
    if outliers != [] && outliers[0] + 1 < |s| {
      FillsKeepLength(FillAt(s, outliers[0]), outliers[1..]);
    }
  }

  /** Positions never flagged keep their original value. */
  lemma {:induction false} FillsKeepUnflagged(s: seq<real>, outliers: seq<nat>, k: nat)
    requires k < |s| && k !in outliers
    ensures ApplyFills(s, outliers).Filled? ==>
      k < |ApplyFills(s, outliers).series| && ApplyFills(s, outliers).series[k] == s[k]
    decreases |outliers|
  {
    FillsKeepLength(s, outliers);
    if outliers != [] && outliers[0] + 1 < |s| {
      assert k !in outliers[1..];
      FillsKeepLength(FillAt(s, outliers[0]), outliers[1..]);
      FillsKeepUnflagged(FillAt(s, outliers[0]), outliers[1..], k);
    }
  }

  /**
   * With every flag a position of the series, correction fails exactly when
   * the last position is flagged, and it fails at that position.
   */
  lemma {:induction false} FillsFailIff(s: seq<real>, outliers: seq<nat>)
    requires forall p :: p in outliers ==> p < |s|
    ensures ApplyFills(s, outliers).FillFailed? <==> |s| > 0 && |s| - 1 in outliers
    ensures ApplyFills(s, outliers).FillFailed? ==> ApplyFills(s, outliers).pos == |s| - 1
    decreases |outliers|
  {
    if outliers != [] {
      var p := outliers[0];
      assert outliers == [p] + outliers[1..];
      if p + 1 < |s| {
        var s' := FillAt(s, p);
        assert |s'| == |s|;
        assert forall q :: q in outliers[1..] ==> q in outliers;
        FillsFailIff(s', outliers[1..]);
        assert |s| - 1 in outliers <==> |s| - 1 in outliers[1..];
      } else {
        assert p in outliers;
        assert p == |s| - 1;
      }
    }
  }

  /** A flagged first position takes the last element as its left neighbour. */
  lemma {:induction false} FirstPositionReadsLast(s: seq<real>)
    requires |s| >= 2
    ensures ApplyFills(s, [0]) == Filled(s[0 := (s[|s| - 1] + s[1]) / 2.0])
  {
    var r := FillAt(s, 0);
    assert LeftOf(|s|, 0) == |s| - 1;
    assert [0][1..] == [];
    calc {
      ApplyFills(s, [0]);
      ApplyFills(r, []);
      Filled(r);
    }
  }

  /**
   * Correction is order-dependent: the adjacent flags 1 and 2 give different
   * series in the two orders, because the second step reads the first step's result.
   */
  lemma CorrectionOrderMatters()
    ensures ApplyFills([0.0, 3.0, 9.0, 0.0], [1, 2]) == Filled([0.0, 4.5, 2.25, 0.0])
    ensures ApplyFills([0.0, 3.0, 9.0, 0.0], [2, 1]) == Filled([0.0, 0.75, 1.5, 0.0])
  {
    var s := [0.0, 3.0, 9.0, 0.0];
    assert FillAt(s, 1) == [0.0, 4.5, 9.0, 0.0];
    assert FillAt(FillAt(s, 1), 2) == [0.0, 4.5, 2.25, 0.0];
    assert [1, 2][1..] == [2] && [2][1..] == [];
    assert FillAt(s, 2) == [0.0, 3.0, 1.5, 0.0];
    assert FillAt(FillAt(s, 2), 1) == [0.0, 0.75, 1.5, 0.0];
    assert [2, 1][1..] == [1] && [1][1..] == [];
  }

  /**
   * The in-place correction loop over a buffer: each flag in order overwrites
   * its position with the average of the current neighbours. On a flag
   * without a right neighbour it stops and reports that position; the buffer
   * is then abandoned by the caller, as the source's exception abandons it.
   */
  method FillAverage(a: array<real>, outliers: seq<nat>) returns (failed: Option<nat>)
    modifies a
    ensures failed.None? ==> ApplyFills(old(a[..]), outliers) == Filled(a[..])
    ensures failed.Some? ==> ApplyFills(old(a[..]), outliers) == FillFailed(failed.value)
  {
    for i := 0 to |outliers|
      invariant ApplyFills(a[..], outliers[i..]) == ApplyFills(old(a[..]), outliers)
    {
      var pos := outliers[i];
      if pos + 1 >= a.Length {
        return Some(pos);
      }
      ghost var before := a[..];
      var left := LeftOf(a.Length, pos);
      a[pos] := (a[left] + a[pos + 1]) / 2.0;
      assert a[..] == FillAt(before, pos);
      assert outliers[i..][1..] == outliers[i + 1..];
    }
    assert outliers[|outliers|..] == [];
    return None;
  }

  /**
   * correct as a function of the series: the flag list is always the
   * detected one; with fill "average" the copy is corrected in flag order,
   * otherwise it is returned as it is.
   */
  function CorrectSpec(x: seq<real>, window: nat, t: real, fill: string): (r: Correction)
    ensures r.Corrected? ==> r.outliers == Detect(x, window, t)
    ensures r.IndexOutOfRange? ==> fill == "average" && r.pos in Detect(x, window, t) && r.pos + 1 >= |x|
  {
    var flags := Detect(x, window, t);
    if fill != "average" then Corrected(x, flags)
    else match ApplyFills(x, flags)
      case Filled(s) => Corrected(s, flags)
      case FillFailed(p) => IndexOutOfRange(p)
  }

  /**
   * What correct promises: it fails exactly when fill is "average" and the
   * last position is flagged; otherwise it reports the detected flags and a
   * series of the same length in which unflagged positions are unchanged,
   * and with any other fill the series itself is unchanged.
   */
  lemma {:induction false} CorrectGuarantees(x: seq<real>, window: nat, t: real, fill: string)
    ensures CorrectSpec(x, window, t, fill).IndexOutOfRange? <==>
      fill == "average" && |x| > 0 && |x| - 1 in Detect(x, window, t)
    ensures CorrectSpec(x, window, t, fill).IndexOutOfRange? ==>
      CorrectSpec(x, window, t, fill).pos == |x| - 1
    ensures fill != "average" ==> CorrectSpec(x, window, t, fill) == Corrected(x, Detect(x, window, t))
    ensures CorrectSpec(x, window, t, fill).Corrected? ==>
      var r := CorrectSpec(x, window, t, fill);
      && r.outliers == Detect(x, window, t)
      && |r.series| == |x|
      && forall k :: 0 <= k < |x| && k !in r.outliers ==> r.series[k] == x[k]
  {
    var flags := Detect(x, window, t);
    FillsFailIff(x, flags);
    FillsKeepLength(x, flags);
    forall k | 0 <= k < |x| && k !in flags
      ensures ApplyFills(x, flags).Filled? ==> ApplyFills(x, flags).series[k] == x[k]
    {
      FillsKeepUnflagged(x, flags, k);
    }
  }

  /**
   * correct: detect on the original, then, when fill is "average", correct a
   * fresh copy in flag order. The original array is not modified.
   */
  method Correct(original: array<real>, window: nat := 20, thresholdAbs: real := 2.5, fill: string := "average")
    returns (r: Correction)
    ensures r == CorrectSpec(original[..], window, thresholdAbs, fill)
  {
    ghost var x := original[..];
    var outliers := Detect(original[..], window, thresholdAbs);
    var corrected := new real[original.Length];
    forall i | 0 <= i < original.Length {
      corrected[i] := original[i];
    }
    assert corrected[..] == original[..];
    if fill == "average" {
      var failed := FillAverage(corrected, outliers);
      assert original[..] == x;
      if failed.Some? {
        assert ApplyFills(x, outliers) == FillFailed(failed.value);
        return IndexOutOfRange(failed.value);
      }
      assert ApplyFills(x, outliers) == Filled(corrected[..]);
    }
    r := Corrected(corrected[..], outliers);
    assert fill != "average" ==> corrected[..] == x;
    assert outliers == Detect(x, window, thresholdAbs);
  }

  /**
   * A short series shows the duplicate flag and the boundary failure: with
   * window 4 the rolling pass (whole series) and the tail pass (last two
   * values) both flag position 2, the tail pass also flags the last
   * position, and correcting it raises IndexError.
   */
  lemma DuplicateFlagExample()
    ensures Detect([0.0, 0.0, 1.0, 0.0], 4, 1.0) == [2, 2, 3]
    ensures CorrectSpec([0.0, 0.0, 1.0, 0.0], 4, 1.0, "average") == IndexOutOfRange(3)
  {
    var x := [0.0, 0.0, 1.0, 0.0];
    assert x[..2] == [0.0, 0.0];
    ConstantScatter(x[..2], 0.0);
    NoMemberEmpty(HeadFlags(x, 4, 1.0));
    DuplicateRolling();
    DuplicateTail();
  }

  lemma DuplicateRolling()
    ensures RollingFlags([0.0, 0.0, 1.0, 0.0], 4, 1.0) == [2]
  {
    var x := [0.0, 0.0, 1.0, 0.0];
    assert Window(x, 4, 2) == x;
    assert Sum(x) == 1.0;
    assert Mean(x) == 0.25;
    assert Scatter(x) == 0.75;
    assert ScoreAtLeast(x, 2, 1, 1.0);
    forall i: nat ensures i in RollingFlags(x, 4, 1.0) <==> i == 2 {
      assert FullWindow(4, 4, i) <==> i == 2;
    }
    IncreasingSameElements(RollingFlags(x, 4, 1.0), [2]);
  }

  lemma DuplicateTail()
    ensures TailFlags([0.0, 0.0, 1.0, 0.0], 4, 1.0) == [2, 3]
  {
    var x := [0.0, 0.0, 1.0, 0.0];
    var tail := [1.0, 0.0];
    assert x[2..] == tail;
    assert Sum(tail) == 1.0;
    assert Mean(tail) == 0.5;
    assert Scatter(tail) == 0.5;
    assert forall k: nat :: k in TailFlags(x, 4, 1.0) <==> k == 2 || k == 3;
    IncreasingSameElements(TailFlags(x, 4, 1.0), [2, 3]);
  }

  lemma SpikeWindows()
    ensures !ScoreAtLeast([1.0, 1.0, 1.0, 5.0], 2, 1, 1.0)
    ensures ScoreAtLeast([1.0, 1.0, 5.0, 1.0], 2, 1, 1.0)
    ensures !ScoreAtLeast([1.0, 5.0, 1.0, 1.0], 2, 1, 1.0)
    ensures !ScoreAtLeast([5.0, 1.0, 1.0, 1.0], 2, 1, 1.0)
  {
    assert Mean([1.0, 1.0, 1.0, 5.0]) == 2.0;
    assert Mean([1.0, 1.0, 5.0, 1.0]) == 2.0;
    assert Mean([1.0, 5.0, 1.0, 1.0]) == 2.0;
    assert Mean([5.0, 1.0, 1.0, 1.0]) == 2.0;
  }

  lemma SpikeWindowOf(i: nat)
    requires 3 <= i <= 6
    ensures Window([1.0, 1.0, 1.0, 1.0, 5.0, 1.0, 1.0, 1.0, 1.0], 4, i) ==
      if i == 3 then [1.0, 1.0, 1.0, 5.0]
      else if i == 4 then [1.0, 1.0, 5.0, 1.0]
      else if i == 5 then [1.0, 5.0, 1.0, 1.0]
      else [5.0, 1.0, 1.0, 1.0]
  {
  }

  lemma SpikeScore(i: nat)
    requires FullWindow(9, 4, i)
    ensures ScoreAtLeast(Window([1.0, 1.0, 1.0, 1.0, 5.0, 1.0, 1.0, 1.0, 1.0], 4, i), 2, 1, 1.0) <==> i == 4
  {
    var w := Window([1.0, 1.0, 1.0, 1.0, 5.0, 1.0, 1.0, 1.0, 1.0], 4, i);
    if i == 2 || i == 7 {
      assert w == [1.0, 1.0, 1.0, 1.0];
      ConstantScatter(w, 1.0);
    } else {
      SpikeWindowOf(i);
      SpikeWindows();
    }
  }

  lemma SpikeRollingMember(i: nat)
    ensures i in RollingFlags([1.0, 1.0, 1.0, 1.0, 5.0, 1.0, 1.0, 1.0, 1.0], 4, 1.0) <==> i == 4
  {
    if FullWindow(9, 4, i) {
      SpikeScore(i);
    }
  }

  lemma SpikeRolling()
    ensures RollingFlags([1.0, 1.0, 1.0, 1.0, 5.0, 1.0, 1.0, 1.0, 1.0], 4, 1.0) == [4]
  {
    var r := RollingFlags([1.0, 1.0, 1.0, 1.0, 5.0, 1.0, 1.0, 1.0, 1.0], 4, 1.0);
    forall i: nat ensures i in r <==> i in [4] {
      SpikeRollingMember(i);
    }
    IncreasingSameElements(r, [4]);
  }

  /**
   * A single spike in a flat series is flagged once, by the rolling pass,
   * and corrected back to the flat value (a small-window analogue of the
   * 366-day spike case).
   */
  lemma SpikeExample()
    ensures Detect([1.0, 1.0, 1.0, 1.0, 5.0, 1.0, 1.0, 1.0, 1.0], 4, 1.0) == [4]
    ensures CorrectSpec([1.0, 1.0, 1.0, 1.0, 5.0, 1.0, 1.0, 1.0, 1.0], 4, 1.0, "average")
      == Corrected([1.0, 1.0, 1.0, 1.0, 1.0, 1.0, 1.0, 1.0, 1.0], [4])
  {
    var x := [1.0, 1.0, 1.0, 1.0, 5.0, 1.0, 1.0, 1.0, 1.0];
    assert x[..2] == [1.0, 1.0];
    ConstantScatter(x[..2], 1.0);
    NoMemberEmpty(HeadFlags(x, 4, 1.0));
    assert x[7..] == [1.0, 1.0];
    ConstantScatter(x[7..], 1.0);
    NoMemberEmpty(TailFlags(x, 4, 1.0));
    SpikeRolling();
    assert FillAt(x, 4) == [1.0, 1.0, 1.0, 1.0, 1.0, 1.0, 1.0, 1.0, 1.0];
    assert [4][1..] == [];
  }
}
