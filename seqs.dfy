/** Vectors as Dafny sequences: the sum of a vector (np.sum) and boolean-mask
    indexing (`v[mask]`, `v[~mask]`), which the tree builder uses to cut the
    sample matrix and the gradient and hessian vectors in lockstep. */
module Seqs {

  datatype Option<T> = None | Some(value: T)

  /** The sum of a vector, accumulated from the first entry to the last. */
  function Sum(s: seq<real>): real
  {
    if |s| == 0 then 0.0 else Sum(s[..|s| - 1]) + s[|s| - 1]
  }

  predicate NonNegative(s: seq<real>)
  {
    forall i :: 0 <= i < |s| ==> s[i] >= 0.0
  }

  predicate AllZero(s: seq<real>)
  {
    forall i :: 0 <= i < |s| ==> s[i] == 0.0
  }

  /** The number of true entries of a mask. */
  function Count(mask: seq<bool>): nat
  {
    if |mask| == 0 then 0 else Count(mask[..|mask| - 1]) + (if mask[|mask| - 1] then 1 else 0)
  }

  /** The complementary mask `~mask`. */
  function Negate(mask: seq<bool>): seq<bool>
  {
    seq(|mask|, i requires 0 <= i < |mask| => !mask[i])
  }

  /** `s[mask]`: the entries of `s` whose mask entry is true, in their original order. */
  function Select<T>(s: seq<T>, mask: seq<bool>): (r: seq<T>)
    requires |mask| == |s|
    ensures |r| == Count(mask)
  {
    if |s| == 0 then []
    else
      var n := |s| - 1;
      Select(s[..n], mask[..n]) + (if mask[n] then [s[n]] else [])
  }

  /** Entry `i` of `s` is kept by the mask exactly when `mask[i]` holds, and then it
      sits at position `Count(mask[..i])` of the selection; this position depends on
      the mask alone, so vectors cut with one mask stay aligned. */
  lemma {:induction false} SelectAt<T>(s: seq<T>, mask: seq<bool>, i: nat)
    requires |mask| == |s| && i < |s| && mask[i]
    ensures Count(mask[..i]) < |Select(s, mask)|
    ensures Select(s, mask)[Count(mask[..i])] == s[i]
  {
    var n := |s| - 1;
    if i < n {
      SelectAt(s[..n], mask[..n], i);
      assert mask[..n][..i] == mask[..i];
    } else {
      assert mask[..i] == mask[..n];
    }
  }

  /** Every entry lands on exactly one side: the two sides together have as many
      entries as the whole. */
  lemma {:induction false} CountSplit(mask: seq<bool>)
    ensures Count(mask) + Count(Negate(mask)) == |mask|
  {
    if |mask| > 0 {
      var n := |mask| - 1;
      assert Negate(mask)[..n] == Negate(mask[..n]);
      CountSplit(mask[..n]);
    }
  }

  /** A mask with a true entry keeps something, and one with a false entry leaves
      something out. */
  lemma CountBounds(mask: seq<bool>, i: nat, k: nat)
    requires i < |mask| && k < |mask| && mask[i] && !mask[k]
    ensures 0 < Count(mask) < |mask|
  {
    SelectAt(mask, mask, i);
    SelectAt(mask, Negate(mask), k);
    CountSplit(mask);
  }

  /** The two sides of a split add up to the whole: Σ s[mask] + Σ s[~mask] == Σ s. */
  lemma {:induction false} SumSelectSplit(s: seq<real>, mask: seq<bool>)
    requires |mask| == |s|
    ensures Sum(Select(s, mask)) + Sum(Select(s, Negate(mask))) == Sum(s)
  {
    if |s| > 0 {
      var n := |s| - 1;
      assert Negate(mask)[..n] == Negate(mask[..n]);
      SumSelectSplit(s[..n], mask[..n]);
      if mask[n] {
        SumAppend(Select(s[..n], mask[..n]), s[n]);
        assert Select(s, Negate(mask)) == Select(s[..n], Negate(mask[..n]));
      } else {
        SumAppend(Select(s[..n], Negate(mask[..n])), s[n]);
        assert Select(s, mask) == Select(s[..n], mask[..n]);
      }
      assert s[..n] + [s[n]] == s;
      SumAppend(s[..n], s[n]);
    }
  }

  /** One more entry of a prefix adds that entry to the side its mask puts it on. */
  lemma SumSelectStep(s: seq<real>, mask: seq<bool>, i: nat)
    requires |mask| == |s| && i < |s|
    ensures Sum(Select(s[..i + 1], mask[..i + 1])) == Sum(Select(s[..i], mask[..i])) + (if mask[i] then s[i] else 0.0)
  {
    assert s[..i + 1][..i] == s[..i] && mask[..i + 1][..i] == mask[..i];
    assert Select(s[..i + 1], mask[..i + 1]) == Select(s[..i], mask[..i]) + (if mask[i] then [s[i]] else []);
    if mask[i] {
      SumAppend(Select(s[..i], mask[..i]), s[i]);
    } else {
      assert Select(s[..i], mask[..i]) + [] == Select(s[..i], mask[..i]);
    }
  }

  /** Selecting with `outer` and then selecting from the result with `inner` keeps
      the entries of this single mask: entry j survives when `outer` keeps it and
      `inner` keeps the position it landed at. */
  function Compose(outer: seq<bool>, inner: seq<bool>): (r: seq<bool>)
    requires |inner| == Count(outer)
    ensures |r| == |outer|
  {
    if |outer| == 0 then []
    else
      var n := |outer| - 1;
      var k := Count(outer[..n]);
      if outer[n] then Compose(outer[..n], inner[..k]) + [inner[k]]
      else Compose(outer[..n], inner) + [false]
  }

  lemma {:induction false} ComposeAt(outer: seq<bool>, inner: seq<bool>, j: nat)
    requires |inner| == Count(outer) && j < |outer|
    ensures outer[j] ==> Count(outer[..j]) < |inner| && Compose(outer, inner)[j] == inner[Count(outer[..j])]
    ensures !outer[j] ==> !Compose(outer, inner)[j]
  {
    var n := |outer| - 1;
    var k := Count(outer[..n]);
    if j < n {
      assert outer[..n][..j] == outer[..j];
      if outer[n] {
        ComposeAt(outer[..n], inner[..k], j);
      } else {
        ComposeAt(outer[..n], inner, j);
      }
    } else {
      assert outer[..j] == outer[..n];
    }
  }

  /** `s[outer][inner] == s[Compose(outer, inner)]`. */
  lemma {:induction false} SelectCompose<T>(s: seq<T>, outer: seq<bool>, inner: seq<bool>)
    requires |outer| == |s| && |inner| == Count(outer)
    ensures Select(Select(s, outer), inner) == Select(s, Compose(outer, inner))
  {
    if |s| > 0 {
      var n := |s| - 1;
      var k := Count(outer[..n]);
      var c := Compose(outer, inner);
      var picked := Select(s, outer);
      if outer[n] {
        SelectCompose(s[..n], outer[..n], inner[..k]);
        assert picked[..k] == Select(s[..n], outer[..n]) && picked[k] == s[n];
        assert c[..n] == Compose(outer[..n], inner[..k]) && c[n] == inner[k];
        assert Select(picked, inner) == Select(picked[..k], inner[..k]) + (if inner[k] then [s[n]] else []);
      } else {
        SelectCompose(s[..n], outer[..n], inner);
        assert picked == Select(s[..n], outer[..n]);
        assert c[..n] == Compose(outer[..n], inner) && !c[n];
      }
    }
  }

  /** The sum of the entries among the first n that the mask keeps, accumulated one
      entry at a time. */
  function MaskedSum(s: seq<real>, mask: seq<bool>, n: nat): real
    requires |mask| == |s| && n <= |s|
  {
    if n == 0 then 0.0 else MaskedSum(s, mask, n - 1) + (if mask[n - 1] then s[n - 1] else 0.0)
  }

  /** Accumulating over the whole vector gives `Σ s[mask]`. */
  lemma MaskedSumIsSelectSum(s: seq<real>, mask: seq<bool>)
    requires |mask| == |s|
    ensures MaskedSum(s, mask, |s|) == Sum(Select(s, mask))
  {
    MaskedSumPrefix(s, mask, |s|);
    assert s[..|s|] == s && mask[..|s|] == mask;
  }

  lemma {:induction false} MaskedSumPrefix(s: seq<real>, mask: seq<bool>, n: nat)
    requires |mask| == |s| && n <= |s|
    ensures MaskedSum(s, mask, n) == Sum(Select(s[..n], mask[..n]))
  {
    if n > 0 {
      var k := n - 1;
      MaskedSumPrefix(s, mask, k);
      SumSelectStep(s, mask, k);
      assert k + 1 == n;
    }
  }

  lemma SumAppend(s: seq<real>, x: real)
    ensures Sum(s + [x]) == Sum(s) + x
  {
    assert (s + [x])[..|s|] == s;
  }

  lemma {:induction false} SumNonNegative(s: seq<real>)
    requires NonNegative(s)
    ensures Sum(s) >= 0.0
  {
    if |s| > 0 {
      SumNonNegative(s[..|s| - 1]);
    }
  }

  lemma {:induction false} SumAllZero(s: seq<real>)
    requires AllZero(s)
    ensures Sum(s) == 0.0
  {
    if |s| > 0 {
      SumAllZero(s[..|s| - 1]);
    }
  }

  /** Every entry of a selection is an entry of the vector it was cut from. */
  lemma {:induction false} SelectFrom<T>(s: seq<T>, mask: seq<bool>, j: nat)
    requires |mask| == |s| && j < |Select(s, mask)|
    ensures exists i :: 0 <= i < |s| && mask[i] && s[i] == Select(s, mask)[j]
  {
    var n := |s| - 1;
    var prefix := Select(s[..n], mask[..n]);
    assert Select(s, mask) == prefix + (if mask[n] then [s[n]] else []);
    if j < |prefix| {
      SelectFrom(s[..n], mask[..n], j);
      var i :| 0 <= i < n && mask[..n][i] && s[..n][i] == prefix[j];
      assert mask[i] && s[i] == Select(s, mask)[j];
    } else {
      assert mask[n] && s[n] == Select(s, mask)[j];
    }
  }

  lemma SelectNonNegative(s: seq<real>, mask: seq<bool>)
    requires |mask| == |s| && NonNegative(s)
    ensures NonNegative(Select(s, mask)) && Sum(Select(s, mask)) >= 0.0
  {
    var r := Select(s, mask);
    forall i | 0 <= i < |r|
      ensures r[i] >= 0.0
    {
      SelectFrom(s, mask, i);
    }
    SumNonNegative(r);
  }

  lemma SelectAllZero(s: seq<real>, mask: seq<bool>)
    requires |mask| == |s| && AllZero(s)
    ensures AllZero(Select(s, mask)) && Sum(Select(s, mask)) == 0.0
  {
    var r := Select(s, mask);
    forall i | 0 <= i < |r|
      ensures r[i] == 0.0
    {
      SelectFrom(s, mask, i);
    }
    SumAllZero(r);
  }

  /** A mask that keeps every entry selects the whole vector. */
  lemma {:induction false} SelectEverything<T>(s: seq<T>, mask: seq<bool>)
    requires |mask| == |s| && forall i :: 0 <= i < |mask| ==> mask[i]
    ensures Select(s, mask) == s
  {
    if |s| > 0 {
      var n := |s| - 1;
      SelectEverything(s[..n], mask[..n]);
      assert s[..n] + [s[n]] == s;
    }
  }
}
