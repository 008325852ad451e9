/** Split statistics: the closed-form Newton step of a leaf from the sums G of its
    gradients and H of its hessians, the loss that step attains, and the gain of
    cutting a node in two at a threshold (gbdt_numba.py, leaf_score, leaf_loss and
    calculate_gain). */
module SplitStats {
  import opened Seqs

  /** The second-order approximation G·w + ½·(H+λ)·w² of the loss of a leaf that
      adds the weight w to every one of its samples. */
  function Objective(G: real, H: real, lambda: real, w: real): real
  {
    G * w + 0.5 * (H + lambda) * w * w
  }

  /** The regularisation keeps every denominator H+λ of a node, or of any part of
      it, positive. */
  predicate Regularized(h: seq<real>, lambda: real)
  {
    lambda > 0.0 && NonNegative(h)
  }

  /** leaf_score: the weight of a leaf, from its gradient and hessian vectors. With
      a positive denominator it moves against the summed gradient: positive exactly
      when G is negative, zero exactly when G is zero. */
  function LeafScore(g: seq<real>, h: seq<real>, lambda: real): (w: real)
    requires Sum(h) + lambda != 0.0
    ensures Sum(h) + lambda > 0.0 ==>
      && (w > 0.0 <==> Sum(g) < 0.0)
      && (w == 0.0 <==> Sum(g) == 0.0)
      && (w < 0.0 <==> Sum(g) > 0.0)
  {
    NodeScoreSign(Sum(g), Sum(h), lambda);
    NodeScore(Sum(g), Sum(h), lambda)
  }

  /** leaf_loss: the loss a leaf attains with its own score. With a positive
      denominator it is never positive, and it is zero exactly when G is. */
  function LeafLoss(g: seq<real>, h: seq<real>, lambda: real): (l: real)
    requires Sum(h) + lambda != 0.0
    ensures Sum(h) + lambda > 0.0 ==> l <= 0.0 && (l == 0.0 <==> Sum(g) == 0.0)
  {
    NodeLossSign(Sum(g), Sum(h), lambda);
    NodeLoss(Sum(g), Sum(h), lambda)
  }

  /** The Newton step -G/(H+λ) of a node whose gradients sum to G and hessians to H. */
  function NodeScore(G: real, H: real, lambda: real): real
    requires H + lambda != 0.0
  {
    -G / (H + lambda)
  }

  /** The minimised loss -½·G²/(H+λ) of such a node; calculate_gain writes the same
      formula out for each side of a split. */
  function NodeLoss(G: real, H: real, lambda: real): real
    requires H + lambda != 0.0
  {
    -0.5 * (G * G) / (H + lambda)
  }

  /** The step solves G + (H+λ)·w = 0, and the node loss is ½·G·w at that weight,
      never positive when H+λ is positive. */
  lemma NodeScoreSolvesDerivative(G: real, H: real, lambda: real)
    requires H + lambda != 0.0
    ensures G + (H + lambda) * NodeScore(G, H, lambda) == 0.0
    ensures NodeLoss(G, H, lambda) == 0.5 * G * NodeScore(G, H, lambda)
    ensures H + lambda > 0.0 ==> NodeLoss(G, H, lambda) <= 0.0
  {
    assert G * G >= 0.0;
  }

  /** The step minimises the quadratic G·w + ½·(H+λ)·w², and the minimum is the node
      loss: the objective exceeds it by ½·(H+λ)·(w - step)². */
  lemma QuadraticMinimum(G: real, H: real, lambda: real, w: real)
    requires H + lambda > 0.0
    ensures NodeLoss(G, H, lambda) == Objective(G, H, lambda, NodeScore(G, H, lambda))
    ensures Objective(G, H, lambda, NodeScore(G, H, lambda)) <= Objective(G, H, lambda, w)
  {
    var D := H + lambda;
    var s := NodeScore(G, H, lambda);
    assert G == -D * s;
    var e := w - s;
    assert Objective(G, H, lambda, s) == -0.5 * D * (s * s);
    assert NodeLoss(G, H, lambda) == -0.5 * D * (s * s);
    assert Objective(G, H, lambda, w) == Objective(G, H, lambda, s) + 0.5 * D * (e * e);
    assert D * (e * e) >= 0.0;
  }

  /** The leaf score is the minimiser of the objective, and the leaf loss is the
      minimum it attains. */
  lemma LeafScoreMinimizesObjective(g: seq<real>, h: seq<real>, lambda: real, w: real)
    requires Sum(h) + lambda > 0.0
    ensures LeafLoss(g, h, lambda) == Objective(Sum(g), Sum(h), lambda, LeafScore(g, h, lambda))
    ensures Objective(Sum(g), Sum(h), lambda, LeafScore(g, h, lambda)) <= Objective(Sum(g), Sum(h), lambda, w)
  {
    QuadraticMinimum(Sum(g), Sum(h), lambda, w);
  }

  lemma NodeScoreSign(G: real, H: real, lambda: real)
    requires H + lambda != 0.0
    ensures H + lambda > 0.0 ==>
      && (NodeScore(G, H, lambda) > 0.0 <==> G < 0.0)
      && (NodeScore(G, H, lambda) == 0.0 <==> G == 0.0)
      && (NodeScore(G, H, lambda) < 0.0 <==> G > 0.0)
  {
    if H + lambda > 0.0 {
      NodeScoreSolvesDerivative(G, H, lambda);
      StepSign(G, H + lambda, NodeScore(G, H, lambda));
    }
  }

  lemma NodeLossSign(G: real, H: real, lambda: real)
    requires H + lambda != 0.0
    ensures H + lambda > 0.0 ==> NodeLoss(G, H, lambda) <= 0.0 && (NodeLoss(G, H, lambda) == 0.0 <==> G == 0.0)
  {
    if H + lambda > 0.0 {
      NodeScoreSolvesDerivative(G, H, lambda);
      NodeScoreSign(G, H, lambda);
      var w := NodeScore(G, H, lambda);
      if G != 0.0 {
        assert G * w < 0.0;
      }
    }
  }

  lemma StepSign(G: real, D: real, s: real)
    requires D > 0.0 && G + D * s == 0.0
    ensures s > 0.0 <==> G < 0.0
    ensures s == 0.0 <==> G == 0.0
    ensures s < 0.0 <==> G > 0.0
  {
    if s > 0.0 {
      assert D * s > 0.0;
    } else if s < 0.0 {
      assert D * s < 0.0;
    }
  }

  /** The mask `feature < threshold`: true for the samples that go to the left. */
  function Below(column: seq<real>, threshold: real): seq<bool>
  {
    seq(|column|, i requires 0 <= i < |column| => column[i] < threshold)
  }

  /** The mask `feature >= threshold`: true for the samples that go to the right. */
  function AtLeast(column: seq<real>, threshold: real): seq<bool>
  {
    seq(|column|, i requires 0 <= i < |column| => column[i] >= threshold)
  }

  /** The right side is the complement `~mask` of the left side. */
  lemma AtLeastIsNegation(column: seq<real>, threshold: real)
    ensures AtLeast(column, threshold) == Negate(Below(column, threshold))
  {
  }

  /** Every sample lands on exactly one side of a threshold, so the sums that
      calculate_gain accumulates for the two sides add up to the node's sum. */
  lemma SidesAddUp(column: seq<real>, s: seq<real>, threshold: real)
    requires |s| == |column|
    ensures Sum(Select(s, Below(column, threshold))) + Sum(Select(s, AtLeast(column, threshold))) == Sum(s)
  {
    AtLeastIsNegation(column, threshold);
    SumSelectSplit(s, Below(column, threshold));
  }

  /** calculate_gain as a value: the loss of the unsplit node minus the leaf_loss of
      each side, the left side being the samples below the threshold. */
  function SplitGain(originalLoss: real, column: seq<real>, g: seq<real>, h: seq<real>,
                     threshold: real, lambda: real): real
    requires |g| == |column| && |h| == |column| && Regularized(h, lambda)
  {
    var left := Below(column, threshold);
    var right := AtLeast(column, threshold);
    SelectNonNegative(h, left);
    SelectNonNegative(h, right);
    originalLoss
      - LeafLoss(Select(g, left), Select(h, left), lambda)
      - LeafLoss(Select(g, right), Select(h, right), lambda)
  }

  /** calculate_gain: one pass over the samples accumulates the gradient and hessian
      sums of each side, then the gain is computed from them. */
  method CalculateGain(originalLoss: real, column: seq<real>, g: seq<real>, h: seq<real>,
                       threshold: real, lambda: real) returns (gain: real)
    requires |g| == |column| && |h| == |column| && Regularized(h, lambda)
    ensures gain == SplitGain(originalLoss, column, g, h, threshold, lambda)
  {
    ghost var left, right := Below(column, threshold), AtLeast(column, threshold);
    var leftG, leftH, rightG, rightH := 0.0, 0.0, 0.0, 0.0;
    for i := 0 to |column|
      invariant leftG == MaskedSum(g, left, i) && leftH == MaskedSum(h, left, i)
      invariant rightG == MaskedSum(g, right, i) && rightH == MaskedSum(h, right, i)
    {
      if column[i] < threshold {
        leftG := leftG + g[i];
        leftH := leftH + h[i];
      } else {
        rightG := rightG + g[i];
        rightH := rightH + h[i];
      }
    }
    MaskedSumIsSelectSum(g, left);
    MaskedSumIsSelectSum(h, left);
    MaskedSumIsSelectSum(g, right);
    MaskedSumIsSelectSum(h, right);
    SplitGainFromSums(originalLoss, column, g, h, threshold, lambda, leftG, leftH, rightG, rightH);
    var leftLoss := NodeLoss(leftG, leftH, lambda);
    var rightLoss := NodeLoss(rightG, rightH, lambda);
    gain := originalLoss - leftLoss - rightLoss;
  }

  /** SplitGain in terms of the four side sums. */
  lemma SplitGainFromSums(originalLoss: real, column: seq<real>, g: seq<real>, h: seq<real>,
                          threshold: real, lambda: real, leftG: real, leftH: real, rightG: real, rightH: real)
    requires |g| == |column| && |h| == |column| && Regularized(h, lambda)
    requires leftG == Sum(Select(g, Below(column, threshold))) && leftH == Sum(Select(h, Below(column, threshold)))
    requires rightG == Sum(Select(g, AtLeast(column, threshold)))
    requires rightH == Sum(Select(h, AtLeast(column, threshold)))
    ensures leftH + lambda > 0.0 && rightH + lambda > 0.0
    ensures SplitGain(originalLoss, column, g, h, threshold, lambda)
            == originalLoss - NodeLoss(leftG, leftH, lambda) - NodeLoss(rightG, rightH, lambda)
  {
    SelectNonNegative(h, Below(column, threshold));
    SelectNonNegative(h, AtLeast(column, threshold));
  }

  /** The gain is measured against the unsplit node: a threshold that leaves one side
      empty gains exactly nothing. */
  lemma OneSidedSplitGainsNothing(column: seq<real>, g: seq<real>, h: seq<real>, threshold: real, lambda: real)
    requires |g| == |column| && |h| == |column| && Regularized(h, lambda)
    requires (forall i :: 0 <= i < |column| ==> column[i] < threshold)
          || (forall i :: 0 <= i < |column| ==> column[i] >= threshold)
    ensures (SumNonNegative(h); SplitGain(LeafLoss(g, h, lambda), column, g, h, threshold, lambda) == 0.0)
  {
    SumNonNegative(h);
    var left := Below(column, threshold);
    var right := AtLeast(column, threshold);
    AtLeastIsNegation(column, threshold);
    CountSplit(left);
    if forall i :: 0 <= i < |column| ==> column[i] < threshold {
      SelectEverything(g, left);
      SelectEverything(h, left);
      assert Select(g, right) == [] && Select(h, right) == [];
      SplitGainFromSums(LeafLoss(g, h, lambda), column, g, h, threshold, lambda, Sum(g), Sum(h), 0.0, 0.0);
      assert NodeLoss(0.0, 0.0, lambda) == 0.0;
      assert LeafLoss(g, h, lambda) == NodeLoss(Sum(g), Sum(h), lambda);
    } else {
      SelectEverything(g, right);
      SelectEverything(h, right);
      assert Select(g, left) == [] && Select(h, left) == [];
      SplitGainFromSums(LeafLoss(g, h, lambda), column, g, h, threshold, lambda, 0.0, 0.0, Sum(g), Sum(h));
      assert NodeLoss(0.0, 0.0, lambda) == 0.0;
      assert LeafLoss(g, h, lambda) == NodeLoss(Sum(g), Sum(h), lambda);
    }
  }

  /** With every gradient zero no threshold gains anything. */
  lemma ZeroGradientGainsNothing(column: seq<real>, g: seq<real>, h: seq<real>, threshold: real, lambda: real)
    requires |g| == |column| && |h| == |column| && Regularized(h, lambda) && AllZero(g)
    ensures (SumNonNegative(h); SplitGain(LeafLoss(g, h, lambda), column, g, h, threshold, lambda) == 0.0)
  {
    SumNonNegative(h);
    SumAllZero(g);
    var left := Below(column, threshold);
    var right := AtLeast(column, threshold);
    SelectAllZero(g, left);
    SelectAllZero(g, right);
    SplitGainFromSums(LeafLoss(g, h, lambda), column, g, h, threshold, lambda,
                      0.0, Sum(Select(h, left)), 0.0, Sum(Select(h, right)));
  }

  /** A single candidate threshold can make the loss worse: two samples with
      gradient 1 and hessian 1, λ = 1, cut between them, gain -1/6. Only the best
      gains the searches return are kept at or above zero. */
  lemma GainCanBeNegative()
    ensures SplitGain(LeafLoss([1.0, 1.0], [1.0, 1.0], 1.0), [0.0, 1.0], [1.0, 1.0], [1.0, 1.0], 0.5, 1.0) == -1.0 / 6.0
  {
    var ones := [1.0, 1.0];
    assert Sum(ones) == 2.0 by { assert ones[..1] == [1.0]; assert [1.0][..0] == []; }
    var left := Below([0.0, 1.0], 0.5);
    assert left == [true, false];
    assert AtLeast([0.0, 1.0], 0.5) == [false, true];
    assert Select(ones, left) == [1.0] by {
      assert ones[..1] == [1.0] && left[..1] == [true];
      assert Select([1.0], [true]) == [1.0] by { assert [1.0][..0] == []; }
    }
    assert Select(ones, AtLeast([0.0, 1.0], 0.5)) == [1.0] by {
      assert ones[..1] == [1.0] && AtLeast([0.0, 1.0], 0.5)[..1] == [false];
      assert Select([1.0], [false]) == [] by { assert [1.0][..0] == []; }
    }
    assert Sum([1.0]) == 1.0 by { assert [1.0][..0] == []; }
  }
}
