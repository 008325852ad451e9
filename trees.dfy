/** The regression tree (gbdt_numba.py, TreeNode and Tree): the recursive builder
    that stops on depth, sample count or gain and otherwise cuts the samples with
    `train[:,feature] < threshold`, and the predictor that routes a row down the
    same test. */
module Trees {
  import opened Seqs
  import opened SplitStats
  import opened SplitSearch

  /** A leaf holds its score; an internal node its split and two children. Rows
      whose split feature is below the threshold go left, the others right. */
  datatype TreeNode =
    | Leaf(score: real)
    | Internal(feature: nat, threshold: real, left: TreeNode, right: TreeNode)

  /** The settings construct_tree reads from the Tree besides the depth it is
      passed: min_sample_split, reg_lambda and gamma. */
  datatype TreeParams = TreeParams(minSampleSplit: int, regLambda: real, gamma: real)

  /** Every split feature of the tree is a column of a `width`-wide row. */
  predicate FeaturesBelow(t: TreeNode, width: nat)
  {
    match t
    case Leaf(_) => true
    case Internal(f, _, l, r) => f < width && FeaturesBelow(l, width) && FeaturesBelow(r, width)
  }

  /** The number of splits on the longest path from the root to a leaf. */
  function Depth(t: TreeNode): nat
  {
    match t
    case Leaf(_) => 0
    case Internal(_, _, l, r) => 1 + (if Depth(l) < Depth(r) then Depth(r) else Depth(l))
  }

  /** What construct_tree needs of its arguments: a rectangular sample matrix,
      one gradient and one hessian per row, a positive lambda with non-negative
      hessians, and a non-negative gamma. */
  predicate Fits(p: TreeParams, rows: seq<seq<real>>, width: nat, g: seq<real>, h: seq<real>)
  {
    Rectangular(rows, width) && |g| == |rows| && |h| == |rows| && Regularized(h, p.regLambda) && p.gamma >= 0.0
  }

  lemma SelectRows(rows: seq<seq<real>>, width: nat, mask: seq<bool>)
    requires |mask| == |rows| && Rectangular(rows, width)
    ensures Rectangular(Select(rows, mask), width)
  {
    var r := Select(rows, mask);
    forall j | 0 <= j < |r|
      ensures |r[j]| == width
    {
      SelectFrom(rows, mask, j);
    }
  }

  /** Cutting rows, gradients and hessians with one mask keeps them fit to build on. */
  lemma SideFits(p: TreeParams, rows: seq<seq<real>>, width: nat, g: seq<real>, h: seq<real>, mask: seq<bool>)
    requires Fits(p, rows, width, g, h) && |mask| == |rows|
    ensures Fits(p, Select(rows, mask), width, Select(g, mask), Select(h, mask))
  {
    SelectRows(rows, width, mask);
    SelectNonNegative(h, mask);
  }

  /** When find_best_split finds a threshold, both sides of the cut keep at least
      one row and fewer rows than the whole. */
  lemma SidesShrink(rows: seq<seq<real>>, width: nat, g: seq<real>, h: seq<real>, lambda: real)
    requires Rectangular(rows, width) && |g| == |rows| && |h| == |rows| && Regularized(h, lambda)
    requires BestSplit(rows, width, g, h, lambda).threshold.Some?
    ensures var s := BestSplit(rows, width, g, h, lambda);
      var column := Column(rows, s.feature);
      && 0 < Count(Below(column, s.threshold.value)) < |rows|
      && 0 < Count(AtLeast(column, s.threshold.value)) < |rows|
  {
    var s := BestSplit(rows, width, g, h, lambda);
    var column := Column(rows, s.feature);
    BestSplitSeparatesRows(rows, width, g, h, lambda);
    AtLeastIsNegation(column, s.threshold.value);
    CountSplit(Below(column, s.threshold.value));
  }

  /** construct_tree: a leaf scored by leaf_score when the depth is used up, there
      are fewer than min_sample_split rows, or the best split gains no more than
      gamma; otherwise the best split, with each child built from the rows (and
      their gradients and hessians) on its side. The result only splits on
      existing features, and its depth never exceeds a non-negative max_depth. */
  function ConstructTree(p: TreeParams, rows: seq<seq<real>>, width: nat, g: seq<real>, h: seq<real>,
                         maxDepth: int): (t: TreeNode)
    requires Fits(p, rows, width, g, h)
    ensures FeaturesBelow(t, width)
    ensures maxDepth >= 0 ==> Depth(t) <= maxDepth
    decreases |rows|
  {
    SumNonNegative(h);
    var lambda := p.regLambda;
    if maxDepth == 0 || |rows| < p.minSampleSplit then Leaf(LeafScore(g, h, lambda))
    else
      var s := BestSplit(rows, width, g, h, lambda);
      if s.gain <= p.gamma then Leaf(LeafScore(g, h, lambda))
      else
        SidesShrink(rows, width, g, h, lambda);
        var column := Column(rows, s.feature);
        var left := Below(column, s.threshold.value);
        var right := AtLeast(column, s.threshold.value);
        SideFits(p, rows, width, g, h, left);
        SideFits(p, rows, width, g, h, right);
        Internal(s.feature, s.threshold.value,
                 ConstructTree(p, Select(rows, left), width, Select(g, left), Select(h, left), maxDepth - 1),
                 ConstructTree(p, Select(rows, right), width, Select(g, right), Select(h, right), maxDepth - 1))
  }

  /** The tree is a single leaf scored by leaf_score exactly when one of the three
      stopping rules holds. */
  lemma ConstructTreeStops(p: TreeParams, rows: seq<seq<real>>, width: nat, g: seq<real>, h: seq<real>, maxDepth: int)
    requires Fits(p, rows, width, g, h)
    ensures var t := ConstructTree(p, rows, width, g, h, maxDepth);
      && (t.Leaf? <==> maxDepth == 0 || |rows| < p.minSampleSplit || BestSplit(rows, width, g, h, p.regLambda).gain <= p.gamma)
      && (t.Leaf? ==> (SumNonNegative(h); t.score == LeafScore(g, h, p.regLambda)))
  {
  }

  /** All-zero gradients leave nothing to split: find_best_split returns
      (0, None, 0), so the gain test stops the builder with a single leaf. */
  lemma ZeroGradientMakesLeaf(p: TreeParams, rows: seq<seq<real>>, width: nat, g: seq<real>, h: seq<real>, maxDepth: int)
    requires Fits(p, rows, width, g, h) && AllZero(g)
    ensures BestSplit(rows, width, g, h, p.regLambda) == Split(0, None, 0.0)
    ensures (SumNonNegative(h); ConstructTree(p, rows, width, g, h, maxDepth) == Leaf(LeafScore(g, h, p.regLambda)))
  {
    var s := BestSplit(rows, width, g, h, p.regLambda);
    if s.threshold.Some? {
      ZeroGradientHasNoThreshold(g, h, Column(rows, s.feature), p.regLambda);
      assert false;
    }
    ConstructTreeStops(p, rows, width, g, h, maxDepth);
  }

  /** When every feature takes a single value over the rows, no feature has a
      candidate threshold: find_best_split returns (0, None, 0) and the builder
      stops with a single leaf. */
  lemma ConstantFeaturesMakeLeaf(p: TreeParams, rows: seq<seq<real>>, width: nat, g: seq<real>, h: seq<real>, maxDepth: int)
    requires Fits(p, rows, width, g, h)
    requires forall i, f :: 0 <= i < |rows| && 0 <= f < width ==> rows[i][f] == rows[0][f]
    ensures BestSplit(rows, width, g, h, p.regLambda) == Split(0, None, 0.0)
    ensures (SumNonNegative(h); ConstructTree(p, rows, width, g, h, maxDepth) == Leaf(LeafScore(g, h, p.regLambda)))
  {
    var s := BestSplit(rows, width, g, h, p.regLambda);
    if s.threshold.Some? {
      var column := Column(rows, s.feature);
      assert forall i :: 0 <= i < |column| ==> column[i] == column[0];
      ConstantColumnHasNoThreshold(g, h, column, p.regLambda);
      assert false;
    }
    ConstructTreeStops(p, rows, width, g, h, maxDepth);
  }

  /** When the builder splits, it splits on find_best_split's feature and threshold,
      that split gains more than gamma, each child is built from exactly the rows
      on its side of `feature < threshold` with one less depth, and neither side
      is empty. */
  lemma ConstructTreeSplits(p: TreeParams, rows: seq<seq<real>>, width: nat, g: seq<real>, h: seq<real>, maxDepth: int)
    requires Fits(p, rows, width, g, h)
    requires ConstructTree(p, rows, width, g, h, maxDepth).Internal?
    ensures var t, s := ConstructTree(p, rows, width, g, h, maxDepth), BestSplit(rows, width, g, h, p.regLambda);
      var column := Column(rows, t.feature);
      var left, right := Below(column, t.threshold), AtLeast(column, t.threshold);
      && s.gain > p.gamma && s.threshold == Some(t.threshold) && s.feature == t.feature
      && 0 < Count(left) < |rows| && 0 < Count(right) < |rows|
      && (SideFits(p, rows, width, g, h, left);
          t.left == ConstructTree(p, Select(rows, left), width, Select(g, left), Select(h, left), maxDepth - 1))
      && (SideFits(p, rows, width, g, h, right);
          t.right == ConstructTree(p, Select(rows, right), width, Select(g, right), Select(h, right), maxDepth - 1))
  {
    SidesShrink(rows, width, g, h, p.regLambda);
  }

  /** The scores of the tree's leaves, from left to right. */
  function LeafValues(t: TreeNode): seq<real>
  {
    match t
    case Leaf(score) => [score]
    case Internal(_, _, l, r) => LeafValues(l) + LeafValues(r)
  }

  /** predict_single: follow `row[feature] < threshold` to the left, otherwise to
      the right, down to a leaf, and return its score; the prediction is always
      the score of one of the tree's leaves. */
  function PredictSingle(t: TreeNode, row: seq<real>): (y: real)
    requires FeaturesBelow(t, |row|)
    ensures y in LeafValues(t)
  {
    match t
    case Leaf(score) => score
    case Internal(f, th, l, r) => if row[f] < th then PredictSingle(l, row) else PredictSingle(r, row)
  }

  /** Rows `x` and `y` take the same branch at every node on x's path, so they
      reach the same leaf. */
  predicate SameLeaf(t: TreeNode, x: seq<real>, y: seq<real>)
    requires FeaturesBelow(t, |x|) && FeaturesBelow(t, |y|)
  {
    match t
    case Leaf(_) => true
    case Internal(f, th, l, r) =>
      (x[f] < th) == (y[f] < th) && if x[f] < th then SameLeaf(l, x, y) else SameLeaf(r, x, y)
  }

  /** Rows that reach the same leaf are given the same prediction. */
  lemma {:induction false} SameLeafSamePrediction(t: TreeNode, x: seq<real>, y: seq<real>)
    requires FeaturesBelow(t, |x|) && FeaturesBelow(t, |y|) && SameLeaf(t, x, y)
    ensures PredictSingle(t, x) == PredictSingle(t, y)
  {
    match t
    case Leaf(_) =>
    case Internal(f, th, l, r) =>
      if x[f] < th {
        SameLeafSamePrediction(l, x, y);
      } else {
        SameLeafSamePrediction(r, x, y);
      }
  }

  /** The training rows that reach the same leaf as `x`. */
  function Cell(t: TreeNode, rows: seq<seq<real>>, width: nat, x: seq<real>): (cell: seq<bool>)
    requires Rectangular(rows, width) && FeaturesBelow(t, width) && |x| == width
    ensures |cell| == |rows|
  {
    seq(|rows|, j requires 0 <= j < |rows| => SameLeaf(t, x, rows[j]))
  }

  /** At a split, the cell of `x` is the cell of `x` in the child it goes to, read
      back through the mask that cut the rows for that child. */
  lemma CellThroughSplit(f: nat, th: real, l: TreeNode, r: TreeNode, rows: seq<seq<real>>, width: nat, x: seq<real>)
    requires Rectangular(rows, width) && FeaturesBelow(Internal(f, th, l, r), width) && |x| == width
    ensures var mask := if x[f] < th then Below(Column(rows, f), th) else AtLeast(Column(rows, f), th);
      (SelectRows(rows, width, mask);
       Cell(Internal(f, th, l, r), rows, width, x)
       == Compose(mask, Cell(if x[f] < th then l else r, Select(rows, mask), width, x)))
  {
    var column := Column(rows, f);
    var mask := if x[f] < th then Below(column, th) else AtLeast(column, th);
    var child := if x[f] < th then l else r;
    SelectRows(rows, width, mask);
    var inner := Cell(child, Select(rows, mask), width, x);
    var whole := Cell(Internal(f, th, l, r), rows, width, x);
    forall j | 0 <= j < |rows|
      ensures whole[j] == Compose(mask, inner)[j]
    {
      ComposeAt(mask, inner, j);
      if mask[j] {
        SelectAt(rows, mask, j);
      }
    }
  }

  /** Because the builder cuts the rows with the very test the predictor routes by,
      a training row is predicted the leaf_score of the gradients and hessians of
      exactly the training rows that share its leaf, itself among them. */
  lemma {:induction false} TrainingRowPrediction(p: TreeParams, rows: seq<seq<real>>, width: nat, g: seq<real>, h: seq<real>,
                                                 maxDepth: int, i: nat)
    requires Fits(p, rows, width, g, h) && i < |rows|
    ensures var t := ConstructTree(p, rows, width, g, h, maxDepth);
      var cell := Cell(t, rows, width, rows[i]);
      && cell[i]
      && (SelectNonNegative(h, cell); PredictSingle(t, rows[i]) == LeafScore(Select(g, cell), Select(h, cell), p.regLambda))
    decreases |rows|
  {
    var t := ConstructTree(p, rows, width, g, h, maxDepth);
    var x := rows[i];
    var cell := Cell(t, rows, width, x);
    if t.Leaf? {
      ConstructTreeStops(p, rows, width, g, h, maxDepth);
      SelectEverything(g, cell);
      SelectEverything(h, cell);
    } else {
      ConstructTreeSplits(p, rows, width, g, h, maxDepth);
      var column := Column(rows, t.feature);
      var mask := if x[t.feature] < t.threshold then Below(column, t.threshold) else AtLeast(column, t.threshold);
      var child := if x[t.feature] < t.threshold then t.left else t.right;
      SideFits(p, rows, width, g, h, mask);
      var rowsC, gC, hC := Select(rows, mask), Select(g, mask), Select(h, mask);
      assert child == ConstructTree(p, rowsC, width, gC, hC, maxDepth - 1);
      SelectAt(rows, mask, i);
      var k := Count(mask[..i]);
      TrainingRowPrediction(p, rowsC, width, gC, hC, maxDepth - 1, k);
      var inner := Cell(child, rowsC, width, x);
      CellThroughSplit(t.feature, t.threshold, t.left, t.right, rows, width, x);
      assert cell == Compose(mask, inner);
      ComposeAt(mask, inner, i);
      SelectCompose(g, mask, inner);
      SelectCompose(h, mask, inner);
    }
  }

  /** What the tree predicts for each row, in order. */
  function Predictions(t: TreeNode, rows: seq<seq<real>>): (preds: seq<real>)
    requires forall i :: 0 <= i < |rows| ==> FeaturesBelow(t, |rows[i]|)
    ensures |preds| == |rows|
  {
    seq(|rows|, i requires 0 <= i < |rows| => PredictSingle(t, rows[i]))
  }

  /** Tree.predict on a root: `result[i] = predict_single(root, test[i])` for each
      row, filled in place into a zeroed array. */
  method PredictRows(t: TreeNode, test: seq<seq<real>>) returns (result: array<real>)
    requires forall i :: 0 <= i < |test| ==> FeaturesBelow(t, |test[i]|)
    ensures fresh(result) && result[..] == Predictions(t, test)
  {
    result := new real[|test|](_ => 0.0);
    for i := 0 to |test|
      invariant forall k :: 0 <= k < i ==> result[k] == PredictSingle(t, test[k])
    {
      result[i] := PredictSingle(t, test[i]);
    }
  }

  /** A decision tree estimator: its settings and, once fitted, its root. */
  class Tree {
    var maxDepth: int
    var minSampleSplit: int
    var regLambda: real
    var gamma: real
    /** None until fit has run. */
    var estimator: Option<TreeNode>

    constructor(maxDepth: int := 3, minSampleSplit: int := 10, regLambda: real := 1.0, gamma: real := 0.0)
      ensures this.maxDepth == maxDepth && this.minSampleSplit == minSampleSplit
      ensures this.regLambda == regLambda && this.gamma == gamma && estimator == None
    {
      this.maxDepth := maxDepth;
      this.minSampleSplit := minSampleSplit;
      this.regLambda := regLambda;
      this.gamma := gamma;
      estimator := None;
    }

    function Params(): TreeParams
      reads this
    {
      TreeParams(minSampleSplit, regLambda, gamma)
    }

    /** fit: build the tree from the samples and their gradients and hessians. */
    method Fit(rows: seq<seq<real>>, width: nat, g: seq<real>, h: seq<real>)
      requires Fits(Params(), rows, width, g, h)
      modifies this
      ensures maxDepth == old(maxDepth) && Params() == old(Params())
      ensures estimator == Some(ConstructTree(Params(), rows, width, g, h, maxDepth))
    {
      estimator := Some(ConstructTree(Params(), rows, width, g, h, maxDepth));
    }

    /** predict: one predict_single per test row, in order. */
    method Predict(test: seq<seq<real>>) returns (result: array<real>)
      requires estimator.Some?
      requires forall i :: 0 <= i < |test| ==> FeaturesBelow(estimator.value, |test[i]|)
      ensures fresh(result) && result[..] == Predictions(estimator.value, test)
    {
      result := PredictRows(estimator.value, test);
    }
  }
}
