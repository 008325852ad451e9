/** Gradient boosting with the squared-error loss (gbdt_numba.py, mse and GBDT):
    every round fits a tree to the gradient and hessian of the loss at the current
    scores and adds learning_rate times its predictions to them; prediction
    replays the same sum. The mse link is the identity, so scores are predictions. */
module Boosting {
  import opened Seqs
  import opened SplitStats
  import opened SplitSearch
  import opened Trees

  /** mse.g: the gradient of 0.5 * (score - true)^2 with respect to the score. */
  function MseGradient(target: seq<real>, score: seq<real>): (g: seq<real>)
    requires |score| == |target|
    ensures |g| == |target|
    ensures forall i :: 0 <= i < |g| ==>
      && (g[i] > 0.0 <==> score[i] > target[i])
      && (g[i] == 0.0 <==> score[i] == target[i])
  {
    seq(|target|, i requires 0 <= i < |target| => score[i] - target[i])
  }

  /** A vector of n copies of c (`np.ones(n) * c`). */
  function Constant(n: nat, c: real): (v: seq<real>)
    ensures |v| == n
  {
    seq(n, _ => c)
  }

  /** mse.h: the second derivative, one for every sample (np.ones_like); the
      hessians are non-negative and add up to the sample count. */
  function MseHessian(n: nat): (h: seq<real>)
    ensures |h| == n
    ensures NonNegative(h) && Sum(h) == n as real
  {
    SumConstant(n, 1.0);
    Constant(n, 1.0)
  }

  function MseLoss(truth: real, score: real): real
  {
    0.5 * (score - truth) * (score - truth)
  }

  /** The squared error is a quadratic in the score, so the Newton step the trees
      take with mse.g and mse.h describes the loss exactly: moving a score by d
      changes the loss by g*d + h*d^2/2 and nothing more. */
  lemma MseSecondOrderIsExact(target: seq<real>, score: seq<real>, i: nat, d: real)
    requires |score| == |target| && i < |target|
    ensures MseLoss(target[i], score[i] + d)
            == MseLoss(target[i], score[i]) + MseGradient(target, score)[i] * d + 0.5 * MseHessian(|target|)[i] * d * d
  {
    var e := score[i] - target[i];
    assert (e + d) * (e + d) == e * e + 2.0 * e * d + d * d;
  }

  /** target.mean(): the mean of a non-empty vector lies between its smallest and
      its largest entry. */
  function Mean(v: seq<real>): (m: real)
    requires |v| > 0
    ensures exists i :: 0 <= i < |v| && v[i] <= m
    ensures exists k :: 0 <= k < |v| && m <= v[k]
  {
    var m := Sum(v) / |v| as real;
    assert |v| as real * m == Sum(v);
    SomeEntryAtMost(v, m);
    SomeEntryAtLeast(v, m);
    m
  }

  /** A vector whose total is at most its length times m has an entry at most m. */
  lemma {:induction false} SomeEntryAtMost(v: seq<real>, m: real)
    requires |v| > 0 && Sum(v) <= |v| as real * m
    ensures exists i :: 0 <= i < |v| && v[i] <= m
  {
    var n := |v| - 1;
    if v[n] > m {
      assert |v| as real * m == n as real * m + m;
      assert n > 0;
      SomeEntryAtMost(v[..n], m);
      var i :| 0 <= i < n && v[..n][i] <= m;
      assert v[i] <= m;
    }
  }

  /** A vector whose total is at least its length times m has an entry at least m. */
  lemma {:induction false} SomeEntryAtLeast(v: seq<real>, m: real)
    requires |v| > 0 && Sum(v) >= |v| as real * m
    ensures exists k :: 0 <= k < |v| && m <= v[k]
  {
    var n := |v| - 1;
    if v[n] < m {
      assert |v| as real * m == n as real * m + m;
      assert n > 0;
      SomeEntryAtLeast(v[..n], m);
      var k :| 0 <= k < n && m <= v[..n][k];
      assert m <= v[k];
    }
  }

  lemma {:induction false} SumConstant(n: nat, c: real)
    ensures Sum(Constant(n, c)) == n as real * c
  {
    if n > 0 {
      SumConstant(n - 1, c);
      assert Constant(n, c)[..n - 1] == Constant(n - 1, c);
    }
  }

  /** The mse gradients add up to the total score minus the total target. */
  lemma {:induction false} MseGradientSum(target: seq<real>, score: seq<real>)
    requires |score| == |target|
    ensures Sum(MseGradient(target, score)) == Sum(score) - Sum(target)
  {
    if |target| > 0 {
      var n := |target| - 1;
      MseGradientSum(target[..n], score[..n]);
      assert MseGradient(target, score)[..n] == MseGradient(target[..n], score[..n]);
    }
  }

  /** Starting from the mean target, the first round's gradients add up to zero:
      the residuals of the mean balance out. */
  lemma FirstRoundGradientsSumToZero(target: seq<real>)
    requires |target| > 0
    ensures Sum(MseGradient(target, Constant(|target|, Mean(target)))) == 0.0
  {
    MseGradientSum(target, Constant(|target|, Mean(target)));
    SumConstant(|target|, Mean(target));
    assert |target| as real * Mean(target) == Sum(target);
  }

  /** Under mse a leaf's score is the Newton step for a gradient total of the
      leaf's scores minus its targets and a hessian total of its sample count:
      -(Σscore - Σtarget)/(n + λ), the mean residual shrunk towards 0. */
  lemma MseLeafScore(target: seq<real>, score: seq<real>, lambda: real)
    requires |score| == |target| && lambda > 0.0
    ensures LeafScore(MseGradient(target, score), MseHessian(|target|), lambda)
            == NodeScore(Sum(score) - Sum(target), |target| as real, lambda)
  {
    MseGradientSum(target, score);
  }

  /** The trees only split on features every row has. */
  predicate Routable(trees: seq<TreeNode>, rows: seq<seq<real>>)
  {
    forall k, i :: 0 <= k < |trees| && 0 <= i < |rows| ==> FeaturesBelow(trees[k], |rows[i]|)
  }

  /** The scores after adding `rate` times the predictions to them. */
  function Advance(scores: seq<real>, rate: real, preds: seq<real>): (next: seq<real>)
    requires |preds| == |scores|
    ensures |next| == |scores|
  {
    seq(|scores|, i requires 0 <= i < |scores| => scores[i] + rate * preds[i])
  }

  /** The scores after the trees have been applied in order: start from `start` and
      add `rate` times each tree's predictions. */
  function Scores(start: real, rate: real, trees: seq<TreeNode>, rows: seq<seq<real>>): (s: seq<real>)
    requires Routable(trees, rows)
    ensures |s| == |rows|
  {
    if |trees| == 0 then Constant(|rows|, start)
    else
      var n := |trees| - 1;
      Advance(Scores(start, rate, trees[..n], rows), rate, Predictions(trees[n], rows))
  }

  /** One more tree advances the scores by `rate` times its predictions. */
  lemma ScoresAppend(start: real, rate: real, trees: seq<TreeNode>, t: TreeNode, rows: seq<seq<real>>)
    requires Routable(trees + [t], rows)
    ensures Routable(trees, rows) && forall i :: 0 <= i < |rows| ==> FeaturesBelow(t, |rows[i]|)
    ensures Scores(start, rate, trees + [t], rows) == Advance(Scores(start, rate, trees, rows), rate, Predictions(t, rows))
  {
    assert (trees + [t])[..|trees|] == trees;
    assert (trees + [t])[|trees|] == t;
    forall k, i | 0 <= k < |trees| && 0 <= i < |rows|
      ensures FeaturesBelow(trees[k], |rows[i]|)
    {
      assert (trees + [t])[k] == trees[k];
    }
  }

  /** What each tree predicts for one row. */
  function TreeOutputs(trees: seq<TreeNode>, row: seq<real>): seq<real>
    requires forall k :: 0 <= k < |trees| ==> FeaturesBelow(trees[k], |row|)
  {
    seq(|trees|, k requires 0 <= k < |trees| => PredictSingle(trees[k], row))
  }

  /** A row's score is the start plus the learning rate times the sum of what the
      trees predict for it. */
  lemma {:induction false} ScoresAreSumOfTreeOutputs(start: real, rate: real, trees: seq<TreeNode>, rows: seq<seq<real>>, i: nat)
    requires Routable(trees, rows) && i < |rows|
    ensures Scores(start, rate, trees, rows)[i] == start + rate * Sum(TreeOutputs(trees, rows[i]))
  {
    if |trees| > 0 {
      var n := |trees| - 1;
      ScoresAreSumOfTreeOutputs(start, rate, trees[..n], rows, i);
      assert TreeOutputs(trees, rows[i])[..n] == TreeOutputs(trees[..n], rows[i]);
    }
  }

  /** The settings a GBDT hands to each of its trees, and its learning rate. */
  datatype BoostParams = BoostParams(tree: TreeParams, maxDepth: int, learningRate: real)

  lemma RectangularRoutable(trees: seq<TreeNode>, rows: seq<seq<real>>, width: nat)
    requires Rectangular(rows, width) && forall k :: 0 <= k < |trees| ==> FeaturesBelow(trees[k], width)
    ensures Routable(trees, rows)
  {
  }

  /** GBDT.fit as a value: the trees of the first `rounds` rounds. Round k fits a
      tree to the mse gradient and hessian at the scores the first k trees give,
      starting from the mean target. */
  function Boost(p: BoostParams, rows: seq<seq<real>>, width: nat, target: seq<real>, rounds: nat): (trees: seq<TreeNode>)
    requires Rectangular(rows, width) && |target| == |rows| > 0
    requires p.tree.regLambda > 0.0 && p.tree.gamma >= 0.0
    ensures |trees| == rounds && forall k :: 0 <= k < rounds ==> FeaturesBelow(trees[k], width)
  {
    if rounds == 0 then []
    else
      var prev := Boost(p, rows, width, target, rounds - 1);
      RectangularRoutable(prev, rows, width);
      var score := Scores(Mean(target), p.learningRate, prev, rows);
      prev + [ConstructTree(p.tree, rows, width, MseGradient(target, score), MseHessian(|rows|), p.maxDepth)]
  }

  /** `for i in range(n)` runs max(n, 0) times. */
  function Rounds(n: int): nat
  {
    if n < 0 then 0 else n
  }

  /** The mean of a vector whose entries all equal c is c. */
  lemma MeanOfConstant(v: seq<real>, c: real)
    requires |v| > 0 && forall i :: 0 <= i < |v| ==> v[i] == c
    ensures Mean(v) == c
  {
    assert v == Constant(|v|, c);
    SumConstant(|v|, c);
  }

  /** A leaf whose gradients are all zero scores 0. */
  lemma ZeroLeaf(g: seq<real>, h: seq<real>, lambda: real)
    requires Regularized(h, lambda) && AllZero(g)
    ensures (SumNonNegative(h); LeafScore(g, h, lambda) == 0.0)
  {
    SumNonNegative(h);
    SumAllZero(g);
  }

  /** Scores equal to the targets leave residuals of zero. */
  lemma ZeroResiduals(target: seq<real>, c: real)
    requires forall i :: 0 <= i < |target| ==> target[i] == c
    ensures AllZero(MseGradient(target, Constant(|target|, c)))
  {
  }

  /** A tree that predicts 0 everywhere leaves the scores where they are. */
  lemma ZeroTreeKeepsScores(start: real, rate: real, trees: seq<TreeNode>, rows: seq<seq<real>>, c: real)
    requires Routable(trees + [Leaf(0.0)], rows)
    requires Routable(trees, rows) && Scores(start, rate, trees, rows) == Constant(|rows|, c)
    ensures Scores(start, rate, trees + [Leaf(0.0)], rows) == Constant(|rows|, c)
  {
    ScoresAppend(start, rate, trees, Leaf(0.0), rows);
    var next := Scores(start, rate, trees + [Leaf(0.0)], rows);
    forall i | 0 <= i < |rows|
      ensures next[i] == c
    {
      assert Predictions(Leaf(0.0), rows)[i] == 0.0;
    }
  }

  /** Round k of Boost fits construct_tree to the mse gradient and hessian at the
      scores of the first k trees. */
  lemma BoostStep(p: BoostParams, rows: seq<seq<real>>, width: nat, target: seq<real>, rounds: nat)
    requires Rectangular(rows, width) && |target| == |rows| > 0
    requires p.tree.regLambda > 0.0 && p.tree.gamma >= 0.0 && rounds > 0
    ensures var prev := Boost(p, rows, width, target, rounds - 1);
      (RectangularRoutable(prev, rows, width);
       Boost(p, rows, width, target, rounds)
       == prev + [ConstructTree(p.tree, rows, width, MseGradient(target, Scores(Mean(target), p.learningRate, prev, rows)),
                                MseHessian(|rows|), p.maxDepth)])
  {
  }

  /** Fitted at scores equal to every target, a tree is the single leaf 0. */
  lemma ExactScoresGiveZeroLeaf(p: BoostParams, rows: seq<seq<real>>, width: nat, target: seq<real>, c: real)
    requires Rectangular(rows, width) && |target| == |rows|
    requires p.tree.regLambda > 0.0 && p.tree.gamma >= 0.0
    requires forall i :: 0 <= i < |target| ==> target[i] == c
    ensures ConstructTree(p.tree, rows, width, MseGradient(target, Constant(|rows|, c)), MseHessian(|rows|), p.maxDepth)
            == Leaf(0.0)
  {
    var g, h := MseGradient(target, Constant(|rows|, c)), MseHessian(|rows|);
    ZeroResiduals(target, c);
    ZeroGradientMakesLeaf(p.tree, rows, width, g, h, p.maxDepth);
    ZeroLeaf(g, h, p.tree.regLambda);
  }

  /** With every target equal to c, every round's tree is the single leaf 0 and the
      training scores stay at c: the mean target already fits, the residuals are
      zero, and find_best_split's gain of 0 stops each tree at its root. */
  lemma {:induction false} ConstantTargetFitsLeaves(p: BoostParams, rows: seq<seq<real>>, width: nat,
                                                     target: seq<real>, c: real, rounds: nat)
    requires Rectangular(rows, width) && |target| == |rows| > 0
    requires p.tree.regLambda > 0.0 && p.tree.gamma >= 0.0
    requires forall i :: 0 <= i < |target| ==> target[i] == c
    ensures Boost(p, rows, width, target, rounds) == seq(rounds, _ => Leaf(0.0))
    ensures (RectangularRoutable(Boost(p, rows, width, target, rounds), rows, width);
             Scores(Mean(target), p.learningRate, Boost(p, rows, width, target, rounds), rows) == Constant(|rows|, c))
  {
    MeanOfConstant(target, c);
    var trees := Boost(p, rows, width, target, rounds);
    RectangularRoutable(trees, rows, width);
    if rounds > 0 {
      var prev := Boost(p, rows, width, target, rounds - 1);
      ConstantTargetFitsLeaves(p, rows, width, target, c, rounds - 1);
      RectangularRoutable(prev, rows, width);
      BoostStep(p, rows, width, target, rounds);
      ExactScoresGiveZeroLeaf(p, rows, width, target, c);
      assert trees == prev + [Leaf(0.0)];
      ZeroTreeKeepsScores(Mean(target), p.learningRate, prev, rows, c);
    }
  }

  /** `score += learning_rate * pred`, in place. */
  method AddScaled(score: array<real>, rate: real, pred: array<real>)
    requires score.Length == pred.Length && score != pred
    modifies score
    ensures score[..] == Advance(old(score[..]), rate, pred[..])
  {
    for i := 0 to score.Length
      invariant forall k :: 0 <= k < i ==> score[k] == old(score[k]) + rate * pred[k]
      invariant forall k :: i <= k < score.Length ==> score[k] == old(score[k])
    {
      score[i] := score[i] + rate * pred[i];
    }
    ghost var next := Advance(old(score[..]), rate, pred[..]);
    forall k | 0 <= k < score.Length
      ensures score[k] == next[k]
    {
    }
    assert score[..] == next;
  }

  /** One round of GBDT.fit: a Tree with the GBDT's settings is fitted to the mse
      gradient and hessian at the current scores, and learning_rate times its
      predictions is added to the scores. */
  method FitRound(p: BoostParams, rows: seq<seq<real>>, width: nat, target: seq<real>,
                  score: array<real>, ghost trees: seq<TreeNode>) returns (tree: TreeNode)
    requires Rectangular(rows, width) && |target| == |rows| > 0
    requires p.tree.regLambda > 0.0 && p.tree.gamma >= 0.0
    requires trees == Boost(p, rows, width, target, |trees|) && score.Length == |rows|
    requires (RectangularRoutable(trees, rows, width);
              score[..] == Scores(Mean(target), p.learningRate, trees, rows))
    modifies score
    ensures trees + [tree] == Boost(p, rows, width, target, |trees| + 1)
    ensures (RectangularRoutable(trees + [tree], rows, width);
             score[..] == Scores(Mean(target), p.learningRate, trees + [tree], rows))
  {
    var g := MseGradient(target, score[..]);
    var h := MseHessian(|rows|);
    var estimator := new Tree(p.maxDepth, p.tree.minSampleSplit, p.tree.regLambda, p.tree.gamma);
    estimator.Fit(rows, width, g, h);
    tree := estimator.estimator.value;
    var pred := estimator.Predict(rows);
    AddScaled(score, p.learningRate, pred);
    RectangularRoutable(trees + [tree], rows, width);
    ScoresAppend(Mean(target), p.learningRate, trees, tree, rows);
  }

  /** The boosted model: its settings and, once fitted, the start score and trees. */
  class GBDT {
    var maxDepth: int
    var minSampleSplit: int
    var regLambda: real
    var gamma: real
    var learningRate: real
    var nEstimators: int
    var scoreStart: real
    /** The root of each fitted tree, in the order they were fitted. */
    var estimators: seq<TreeNode>
    /** Whether fit has run: before it the model has no start score or trees. */
    ghost var fitted: bool

    constructor(maxDepth: int := 3, minSampleSplit: int := 10, regLambda: real := 1.0, gamma: real := 0.0,
                learningRate: real := 0.1, nEstimators: int := 100)
      ensures this.maxDepth == maxDepth && this.minSampleSplit == minSampleSplit
      ensures this.regLambda == regLambda && this.gamma == gamma
      ensures this.learningRate == learningRate && this.nEstimators == nEstimators
      ensures estimators == [] && !fitted
    {
      this.maxDepth := maxDepth;
      this.minSampleSplit := minSampleSplit;
      this.regLambda := regLambda;
      this.gamma := gamma;
      this.learningRate := learningRate;
      this.nEstimators := nEstimators;
      scoreStart := 0.0;
      estimators := [];
      fitted := false;
    }

    function Params(): BoostParams
      reads this
    {
      BoostParams(TreeParams(minSampleSplit, regLambda, gamma), maxDepth, learningRate)
    }

    /** fit: start every score at the mean target, then n_estimators rounds of
        fitting a tree to the mse gradient and hessian and adding learning_rate
        times its predictions to the scores. */
    method Fit(rows: seq<seq<real>>, width: nat, target: seq<real>)
      requires Rectangular(rows, width) && |target| == |rows| > 0
      requires regLambda > 0.0 && gamma >= 0.0
      modifies this
      ensures Params() == old(Params()) && nEstimators == old(nEstimators)
      ensures scoreStart == Mean(target)
      ensures estimators == Boost(Params(), rows, width, target, Rounds(nEstimators))
      ensures fitted
    {
      estimators := [];
      scoreStart := Mean(target);
      fitted := true;
      var start := scoreStart;
      var score := new real[|rows|](_ => start);
      assert score[..] == Constant(|rows|, start);
      for i := 0 to Rounds(nEstimators)
        invariant Params() == old(Params()) && nEstimators == old(nEstimators) && scoreStart == start && fitted
        invariant estimators == Boost(Params(), rows, width, target, i)
        invariant score.Length == |rows|
        invariant (RectangularRoutable(estimators, rows, width);
                   score[..] == Scores(start, learningRate, estimators, rows))
      {
        var tree := FitRound(Params(), rows, width, target, score, estimators);
        estimators := estimators + [tree];
      }
    }

    /** predict: the mean target plus learning_rate times each of the first
        n_estimators trees' predictions. */
    method Predict(test: seq<seq<real>>) returns (result: array<real>)
      requires fitted && Rounds(nEstimators) <= |estimators| && Routable(estimators, test)
      ensures fresh(result)
      ensures result[..] == Scores(scoreStart, learningRate, estimators[..Rounds(nEstimators)], test)
    {
      var start := scoreStart;
      result := new real[|test|](_ => start);
      assert result[..] == Constant(|test|, start);
      for i := 0 to Rounds(nEstimators)
        invariant fresh(result) && result.Length == |test|
        invariant result[..] == Scores(start, learningRate, estimators[..i], test)
      {
        var pred := PredictRows(estimators[i], test);
        AddScaled(result, learningRate, pred);
        assert estimators[..i + 1] == estimators[..i] + [estimators[i]];
        ScoresAppend(start, learningRate, estimators[..i], estimators[i], test);
      }
    }
  }
}
