/** Exhaustive split search (gbdt_numba.py, find_threshold and find_best_split):
    every midpoint between consecutive distinct values of every feature column is
    tried, and a running arg-max that starts at gain 0 and moves only on a strictly
    larger gain keeps the best. A result gain of 0 with no threshold is how "no
    useful split" is reported. */
module SplitSearch {
  import opened Seqs
  import opened SplitStats

  predicate Increasing(u: seq<real>)
  {
    forall i, j :: 0 <= i < j < |u| ==> u[i] < u[j]
  }

  /** Inserts a value into an increasing sequence of distinct values. */
  function Insert(x: real, u: seq<real>): (r: seq<real>)
    ensures 0 < |r| <= |u| + 1
  {
    if |u| == 0 then [x]
    else if x < u[0] then [x] + u
    else if x == u[0] then u
    else [u[0]] + Insert(x, u[1..])
  }

  /** Insertion keeps the sequence increasing, and starts it with the value or with
      the old first entry. */
  lemma {:induction false} InsertIncreasing(x: real, u: seq<real>)
    requires Increasing(u)
    ensures Increasing(Insert(x, u))
    ensures Insert(x, u)[0] == x || (|u| > 0 && Insert(x, u)[0] == u[0])
  {
    if |u| > 0 && x > u[0] {
      InsertIncreasing(x, u[1..]);
      var rest := Insert(x, u[1..]);
      assert forall k :: 0 <= k < |rest| ==> u[0] < rest[k] by {
        forall k | 0 < k < |rest|
          ensures rest[0] < rest[k]
        {
        }
      }
    }
  }

  /** Insertion adds the value and nothing else. */
  lemma {:induction false} InsertMembers(x: real, u: seq<real>)
    ensures forall y :: y in Insert(x, u) <==> y == x || y in u
  {
    if |u| > 0 && x > u[0] {
      InsertMembers(x, u[1..]);
      assert u == [u[0]] + u[1..];
    }
  }

  /** np.unique: the distinct values of a column, in increasing order. */
  function Unique(column: seq<real>): (u: seq<real>)
    ensures |u| <= |column|
    ensures |u| == 0 <==> |column| == 0
  {
    if |column| == 0 then []
    else
      var n := |column| - 1;
      Insert(column[n], Unique(column[..n]))
  }

  /** np.unique returns its values in strictly increasing order. */
  lemma {:induction false} UniqueIncreasing(column: seq<real>)
    ensures Increasing(Unique(column))
  {
    if |column| > 0 {
      var n := |column| - 1;
      UniqueIncreasing(column[..n]);
      InsertIncreasing(column[n], Unique(column[..n]));
    }
  }

  /** np.unique keeps every value of the column and adds none. */
  lemma {:induction false} UniqueMembers(column: seq<real>)
    ensures forall y :: y in Unique(column) <==> y in column
  {
    if |column| > 0 {
      var n := |column| - 1;
      UniqueMembers(column[..n]);
      InsertMembers(column[n], Unique(column[..n]));
      assert column == column[..n] + [column[n]];
    }
  }

  /** The candidate thresholds of find_threshold: the midpoint of each pair of
      consecutive distinct values. */
  function Midpoints(u: seq<real>): (c: seq<real>)
    ensures |c| == if |u| == 0 then 0 else |u| - 1
  {
    if |u| == 0 then []
    else seq(|u| - 1, j requires 0 <= j < |u| - 1 => (u[j] + u[j + 1]) / 2.0)
  }

  /** Between increasing values each midpoint lies strictly inside its pair. */
  lemma MidpointBetween(u: seq<real>, j: nat)
    requires Increasing(u) && j + 1 < |u|
    ensures u[j] < Midpoints(u)[j] < u[j + 1]
  {
    var a, b := u[j], u[j + 1];
    assert a < (a + b) / 2.0 < b;
  }

  /** The gain of every candidate threshold of a column, in the order they are tried. */
  function CandidateGains(g: seq<real>, h: seq<real>, column: seq<real>, lambda: real): (gains: seq<real>)
    requires |g| == |column| && |h| == |column| && Regularized(h, lambda)
    ensures |gains| == |Midpoints(Unique(column))|
  {
    SumNonNegative(h);
    var loss := LeafLoss(g, h, lambda);
    var c := Midpoints(Unique(column));
    seq(|c|, j requires 0 <= j < |c| => SplitGain(loss, column, g, h, c[j], lambda))
  }

  /** Candidate j is the midpoint of the j-th and (j+1)-th distinct values, and its
      gain is calculate_gain's at that threshold. */
  lemma CandidateAt(g: seq<real>, h: seq<real>, column: seq<real>, lambda: real, j: nat, t: real, gain: real)
    requires |g| == |column| && |h| == |column| && Regularized(h, lambda)
    requires j + 1 < |Unique(column)| && t == (Unique(column)[j] + Unique(column)[j + 1]) / 2.0
    requires (SumNonNegative(h); gain == SplitGain(LeafLoss(g, h, lambda), column, g, h, t, lambda))
    ensures Midpoints(Unique(column))[j] == t && CandidateGains(g, h, column, lambda)[j] == gain
  {
    MidpointAt(Unique(column), j);
  }

  lemma MidpointAt(u: seq<real>, j: nat)
    requires j + 1 < |u|
    ensures Midpoints(u)[j] == (u[j] + u[j + 1]) / 2.0
  {
  }

  /** Where a running arg-max stopped (no index when nothing beat 0), and the best gain. */
  datatype Best = Best(index: Option<nat>, gain: real)

  /** The running arg-max of both searches: start at gain 0 with no index, and take
      entry i whenever it is strictly greater than the best so far. */
  function FirstMax(s: seq<real>): (b: Best)
    ensures b.gain >= 0.0
    ensures b.index.Some? <==> b.gain > 0.0
    ensures b.index.Some? ==> b.index.value < |s| && s[b.index.value] == b.gain
  {
    if |s| == 0 then Best(None, 0.0)
    else
      var b := FirstMax(s[..|s| - 1]);
      if s[|s| - 1] > b.gain then Best(Some(|s| - 1), s[|s| - 1]) else b
  }

  /** No entry exceeds the best gain, and every entry before the chosen index is
      strictly below it. */
  lemma {:induction false} FirstMaxIsMaximum(s: seq<real>)
    ensures var b := FirstMax(s);
      && (forall j :: 0 <= j < |s| ==> s[j] <= b.gain)
      && (b.index.Some? ==> forall j :: 0 <= j < b.index.value ==> s[j] < b.gain)
  {
    if |s| > 0 {
      var n := |s| - 1;
      FirstMaxIsMaximum(s[..n]);
      assert forall j :: 0 <= j < n ==> s[..n][j] == s[j];
    }
  }

  /** What the running arg-max promises: the best gain is max(0, max s); there is an
      index exactly when it is positive, and then it is the first index reaching it. */
  predicate IsFirstMax(s: seq<real>, b: Best)
  {
    && b.gain >= 0.0
    && (b.index.Some? <==> b.gain > 0.0)
    && (b.index.Some? ==> b.index.value < |s| && s[b.index.value] == b.gain)
    && (b.index.Some? ==> forall j :: 0 <= j < b.index.value ==> s[j] < b.gain)
    && (forall j :: 0 <= j < |s| ==> s[j] <= b.gain)
  }

  /** The promise determines the result: the running arg-max is the only outcome
      that keeps it. */
  lemma FirstMaxCharacterized(s: seq<real>, b: Best)
    ensures IsFirstMax(s, b) <==> b == FirstMax(s)
  {
    var f := FirstMax(s);
    FirstMaxIsMaximum(s);
    if IsFirstMax(s, b) {
      assert b.gain <= f.gain by {
        if b.index.Some? {
          assert s[b.index.value] <= f.gain;
        }
      }
      assert f.gain <= b.gain by {
        if f.index.Some? {
          assert s[f.index.value] <= b.gain;
        }
      }
      if b.index.Some? {
        var i, k := b.index.value, f.index.value;
        assert i < k ==> b.gain < f.gain;
        assert k < i ==> f.gain < b.gain;
      }
    }
  }

  /** One more entry moves the running arg-max exactly when it beats the best so far. */
  lemma FirstMaxStep(s: seq<real>, i: nat)
    requires i < |s|
    ensures FirstMax(s[..i + 1]) == if s[i] > FirstMax(s[..i]).gain then Best(Some(i), s[i]) else FirstMax(s[..i])
  {
    assert s[..i + 1][..i] == s[..i];
  }

  /** find_threshold's result: a threshold, or none, and the gain it achieves. */
  datatype Cut = Cut(threshold: Option<real>, gain: real)

  /** find_threshold as a value: the candidate threshold where the running arg-max
      over the candidate gains stops, or no threshold and gain 0. */
  function BestThreshold(g: seq<real>, h: seq<real>, column: seq<real>, lambda: real): (c: Cut)
    requires |g| == |column| && |h| == |column| && Regularized(h, lambda)
    ensures c.gain >= 0.0
    ensures c.threshold.Some? <==> c.gain > 0.0
  {
    Chosen(Midpoints(Unique(column)), FirstMax(CandidateGains(g, h, column, lambda)))
  }

  /** The cut that an arg-max over the candidates' gains stands for. */
  function Chosen(cands: seq<real>, b: Best): Cut
    requires b.index.Some? ==> b.index.value < |cands|
  {
    if b.index.Some? then Cut(Some(cands[b.index.value]), b.gain) else Cut(None, b.gain)
  }

  /** One more candidate replaces the cut exactly when its gain beats the best so far. */
  lemma ChosenStep(cands: seq<real>, gains: seq<real>, i: nat)
    requires i < |gains| <= |cands|
    ensures var c := Chosen(cands, FirstMax(gains[..i]));
      Chosen(cands, FirstMax(gains[..i + 1])) == if gains[i] > c.gain then Cut(Some(cands[i]), gains[i]) else c
  {
    FirstMaxStep(gains, i);
  }

  /** The threshold find_threshold returns is the first candidate of greatest gain,
      and no candidate gains more than the returned gain. */
  lemma BestThresholdIsFirstBestCandidate(g: seq<real>, h: seq<real>, column: seq<real>, lambda: real)
    requires |g| == |column| && |h| == |column| && Regularized(h, lambda)
    ensures var c, cands, gains := BestThreshold(g, h, column, lambda), Midpoints(Unique(column)), CandidateGains(g, h, column, lambda);
      && (forall j :: 0 <= j < |gains| ==> gains[j] <= c.gain)
      && (c.threshold.Some? ==>
            exists j :: 0 <= j < |cands| && cands[j] == c.threshold.value && gains[j] == c.gain
                        && forall k :: 0 <= k < j ==> gains[k] < c.gain)
  {
    var b := FirstMax(CandidateGains(g, h, column, lambda));
    FirstMaxIsMaximum(CandidateGains(g, h, column, lambda));
    if b.index.Some? {
      var j := b.index.value;
      assert Midpoints(Unique(column))[j] == BestThreshold(g, h, column, lambda).threshold.value;
    }
  }

  /** Every candidate lies strictly between two values of the column. */
  lemma MidpointInside(column: seq<real>, j: nat)
    requires j + 1 < |Unique(column)|
    ensures var t := Midpoints(Unique(column))[j];
      exists i, k :: 0 <= i < |column| && 0 <= k < |column| && column[i] < t < column[k]
  {
    var u := Unique(column);
    UniqueMembers(column);
    UniqueIncreasing(column);
    MidpointBetween(u, j);
    assert u[j] in u && u[j + 1] in u;
    var i :| 0 <= i < |column| && column[i] == u[j];
    var k :| 0 <= k < |column| && column[k] == u[j + 1];
    assert column[i] < Midpoints(u)[j] < column[k];
  }

  /** A threshold strictly between two values of a column sends at least one sample
      to each side. */
  lemma StrictlyInsideSplits(column: seq<real>, t: real)
    requires exists i, k :: 0 <= i < |column| && 0 <= k < |column| && column[i] < t < column[k]
    ensures 0 < Count(Below(column, t)) < |column|
  {
    var i, k :| 0 <= i < |column| && 0 <= k < |column| && column[i] < t < column[k];
    CountBounds(Below(column, t), i, k);
  }

  /** A threshold found in a column lies strictly between two of its values. */
  lemma BestThresholdSplitsColumn(g: seq<real>, h: seq<real>, column: seq<real>, lambda: real)
    requires |g| == |column| && |h| == |column| && Regularized(h, lambda)
    requires BestThreshold(g, h, column, lambda).threshold.Some?
    ensures var t := BestThreshold(g, h, column, lambda).threshold.value;
      exists i, k :: 0 <= i < |column| && 0 <= k < |column| && column[i] < t < column[k]
  {
    BestThresholdIsFirstBestCandidate(g, h, column, lambda);
    var cands := Midpoints(Unique(column));
    var j :| 0 <= j < |cands| && cands[j] == BestThreshold(g, h, column, lambda).threshold.value;
    MidpointInside(column, j);
  }

  /** The first two entries of a sequence of at least two are among its members. */
  lemma FirstTwo(u: seq<real>)
    ensures |u| >= 2 ==> u[0] in u && u[1] in u
  {
  }

  /** A column holding one value (or none) has no candidate threshold: (None, 0). */
  lemma ConstantColumnHasNoThreshold(g: seq<real>, h: seq<real>, column: seq<real>, lambda: real)
    requires |g| == |column| && |h| == |column| && Regularized(h, lambda)
    requires forall i :: 0 <= i < |column| ==> column[i] == column[0]
    ensures BestThreshold(g, h, column, lambda) == Cut(None, 0.0)
  {
    var u := Unique(column);
    UniqueMembers(column);
    UniqueIncreasing(column);
    assert forall y :: y in u ==> y == column[0];
    FirstTwo(u);
    assert CandidateGains(g, h, column, lambda) == [];
  }

  /** With every gradient zero, no threshold has a positive gain: (None, 0). */
  lemma ZeroGradientHasNoThreshold(g: seq<real>, h: seq<real>, column: seq<real>, lambda: real)
    requires |g| == |column| && |h| == |column| && Regularized(h, lambda) && AllZero(g)
    ensures BestThreshold(g, h, column, lambda) == Cut(None, 0.0)
  {
    var cands := Midpoints(Unique(column));
    var gains := CandidateGains(g, h, column, lambda);
    forall j | 0 <= j < |gains|
      ensures gains[j] == 0.0
    {
      ZeroGradientGainsNothing(column, g, h, cands[j], lambda);
    }
  }

  /** find_threshold: the loop over consecutive distinct values, calling
      calculate_gain at each midpoint. */
  method FindThreshold(g: seq<real>, h: seq<real>, column: seq<real>, lambda: real)
    returns (threshold: Option<real>, bestGain: real)
    requires |g| == |column| && |h| == |column| && Regularized(h, lambda)
    ensures Cut(threshold, bestGain) == BestThreshold(g, h, column, lambda)
  {
    SumNonNegative(h);
    var loss := LeafLoss(g, h, lambda);
    threshold := None;
    bestGain := 0.0;
    var unq := Unique(column);
    ghost var cands := Midpoints(unq);
    ghost var gains := CandidateGains(g, h, column, lambda);
    var i := 1;
    while i < |unq|
      invariant 1 <= i <= (if |unq| == 0 then 1 else |unq|)
      invariant Cut(threshold, bestGain) == Chosen(cands, FirstMax(gains[..i - 1]))
    {
      var thisThreshold := (unq[i - 1] + unq[i]) / 2.0;
      var thisGain := CalculateGain(loss, column, g, h, thisThreshold, lambda);
      ghost var k := i - 1;
      CandidateAt(g, h, column, lambda, k, thisThreshold, thisGain);
      ChosenStep(cands, gains, k);
      if thisGain > bestGain {
        threshold := Some(thisThreshold);
        bestGain := thisGain;
      }
      i := i + 1;
      assert i - 1 == k + 1;
    }
    assert gains[..i - 1] == gains;
  }

  /** Column f of the sample matrix (`train.T[f]`). */
  function Column(rows: seq<seq<real>>, f: nat): seq<real>
    requires forall i :: 0 <= i < |rows| ==> f < |rows[i]|
  {
    seq(|rows|, i requires 0 <= i < |rows| => rows[i][f])
  }

  /** Every row of the sample matrix has `width` features. */
  predicate Rectangular(rows: seq<seq<real>>, width: nat)
  {
    forall i :: 0 <= i < |rows| ==> |rows[i]| == width
  }

  /** The best gain find_threshold reaches on each feature column. */
  function FeatureGains(rows: seq<seq<real>>, width: nat, g: seq<real>, h: seq<real>, lambda: real): (gains: seq<real>)
    requires Rectangular(rows, width) && |g| == |rows| && |h| == |rows| && Regularized(h, lambda)
    ensures |gains| == width
  {
    seq(width, f requires 0 <= f < width => BestThreshold(g, h, Column(rows, f), lambda).gain)
  }

  /** find_best_split's result: feature index, threshold or none, gain. */
  datatype Split = Split(feature: nat, threshold: Option<real>, gain: real)

  /** find_best_split as a value: the feature where the running arg-max over the
      features' best gains stops, with its threshold; otherwise exactly (0, None, 0). */
  function BestSplit(rows: seq<seq<real>>, width: nat, g: seq<real>, h: seq<real>, lambda: real): (s: Split)
    requires Rectangular(rows, width) && |g| == |rows| && |h| == |rows| && Regularized(h, lambda)
    ensures s.gain >= 0.0
    ensures s.threshold.Some? <==> s.gain > 0.0
    ensures s.threshold.None? ==> s == Split(0, None, 0.0)
    ensures s.threshold.Some? ==>
      s.feature < width && BestThreshold(g, h, Column(rows, s.feature), lambda) == Cut(s.threshold, s.gain)
  {
    var b := FirstMax(FeatureGains(rows, width, g, h, lambda));
    if b.index.Some? then
      var f := b.index.value;
      Split(f, BestThreshold(g, h, Column(rows, f), lambda).threshold, b.gain)
    else Split(0, None, b.gain)
  }

  /** No feature's best threshold gains more than the split chosen, and every
      feature before the chosen one gains strictly less. */
  lemma BestSplitIsFirstBestFeature(rows: seq<seq<real>>, width: nat, g: seq<real>, h: seq<real>, lambda: real)
    requires Rectangular(rows, width) && |g| == |rows| && |h| == |rows| && Regularized(h, lambda)
    ensures var s := BestSplit(rows, width, g, h, lambda);
      && (forall f :: 0 <= f < width ==> BestThreshold(g, h, Column(rows, f), lambda).gain <= s.gain)
      && (s.threshold.Some? ==>
            forall f :: 0 <= f < s.feature ==> BestThreshold(g, h, Column(rows, f), lambda).gain < s.gain)
  {
    var gains := FeatureGains(rows, width, g, h, lambda);
    var s := BestSplit(rows, width, g, h, lambda);
    FirstMaxIsMaximum(gains);
    forall f | 0 <= f < width
      ensures BestThreshold(g, h, Column(rows, f), lambda).gain <= s.gain
    {
      assert gains[f] == BestThreshold(g, h, Column(rows, f), lambda).gain;
    }
    if s.threshold.Some? {
      forall f | 0 <= f < s.feature
        ensures BestThreshold(g, h, Column(rows, f), lambda).gain < s.gain
      {
        assert gains[f] == BestThreshold(g, h, Column(rows, f), lambda).gain;
      }
    }
  }

  /** find_best_split: one find_threshold per feature column, keeping the first
      strictly greatest gain. */
  method FindBestSplit(rows: seq<seq<real>>, width: nat, g: seq<real>, h: seq<real>, lambda: real)
    returns (feature: nat, threshold: Option<real>, bestGain: real)
    requires Rectangular(rows, width) && |g| == |rows| && |h| == |rows| && Regularized(h, lambda)
    ensures Split(feature, threshold, bestGain) == BestSplit(rows, width, g, h, lambda)
  {
    feature, threshold, bestGain := 0, None, 0.0;
    ghost var gains := FeatureGains(rows, width, g, h, lambda);
    for i := 0 to width
      invariant var b := FirstMax(gains[..i]);
        && bestGain == b.gain
        && (b.index.Some? ==> feature == b.index.value
                              && threshold == BestThreshold(g, h, Column(rows, feature), lambda).threshold)
        && (b.index.None? ==> feature == 0 && threshold == None)
    {
      var thisThreshold, thisGain := FindThreshold(g, h, Column(rows, i), lambda);
      FirstMaxStep(gains, i);
      if thisGain > bestGain {
        feature, threshold, bestGain := i, thisThreshold, thisGain;
      }
    }
    assert gains[..width] == gains;
  }

  /** When find_best_split returns a threshold, the mask `train[:,feature] <
      threshold` keeps at least one row and leaves out at least one. */
  lemma BestSplitSeparatesRows(rows: seq<seq<real>>, width: nat, g: seq<real>, h: seq<real>, lambda: real)
    requires Rectangular(rows, width) && |g| == |rows| && |h| == |rows| && Regularized(h, lambda)
    requires BestSplit(rows, width, g, h, lambda).threshold.Some?
    ensures var s := BestSplit(rows, width, g, h, lambda);
      s.feature < width && 0 < Count(Below(Column(rows, s.feature), s.threshold.value)) < |rows|
  {
    var s := BestSplit(rows, width, g, h, lambda);
    var column := Column(rows, s.feature);
    BestThresholdSplitsColumn(g, h, column, lambda);
    StrictlyInsideSplits(column, s.threshold.value);
  }
}
