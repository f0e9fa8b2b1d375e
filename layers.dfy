/** The layers of a `SuccTree` as a value, `seq<seq<bv64>>` standing for
    `Vec<Vec<usize>>`, with the summary invariant that links adjacent layers
    and what it implies about the set of elements. */
module Layers {
  import opened Words
  import opened Sizing

  type Tree = seq<seq<bv64>>

  /** Bit `p` of a layer; positions past the layer's words read as clear. */
  predicate Has(s: seq<bv64>, p: nat)
  {
    p / K < |s| && Bit(s[p / K], p % K)
  }

  /** Bit `p` of layer `l`. */
  predicate Get(t: Tree, l: nat, p: nat)
    requires l < |t|
  {
    Has(t[l], p)
  }

  /** The elements present: the set positions of the leaf layer. */
  ghost function Elements(t: Tree): set<nat>
    requires |t| > 0
  {
    set p: nat | p < K * |t[0]| && Get(t, 0, p)
  }

  /** The position standing for `x` in layer `l`: `x` moved up `l` times. */
  function Ancestor(x: nat, l: nat): nat
  {
    if l == 0 then x else Ancestor(x, l - 1) / K
  }

  /** The number and length of the layers are those `new(n)` allocates, for a
      capacity `n` for which insert and delete are defined. */
  ghost predicate Shaped(t: Tree, n: nat)
  {
    n >= 2 &&
    |t| == LayerCount(n) &&
    forall l :: 0 <= l < |t| ==> |t[l]| == LayerWords(n, l)
  }

  /** The same shape stated from layer to layer: each layer has one bit per
      word of the layer below, rounded up to whole words; there are at least
      two layers and the top two are one word each. */
  ghost predicate Wf(t: Tree)
  {
    |t| >= 2 && |t[0]| >= 1 && |t[|t| - 2]| == 1 && |t[|t| - 1]| == 1 &&
    forall l :: 0 < l < |t| ==> K * |t[l]| - K < |t[l - 1]| <= K * |t[l]|
  }

  lemma ShapedWf(t: Tree, n: nat)
    requires Shaped(t, n)
    ensures Wf(t)
  {
    TopLayers(n);
    LayerWordsIsCells(n, 0);
    CellsPositive(n, 1);
    forall l | 0 < l < |t|
      ensures K * |t[l]| - K < |t[l - 1]| <= K * |t[l]|
    {
      LayerWordsIsCells(n, l);
      LayerWordsIsCells(n, l - 1);
    }
  }

  /** Bit `b` of layer `l + 1` is set exactly when word `b` of layer `l`
      exists and is non-zero. */
  ghost predicate Summarised(t: Tree, l: nat)
    requires l + 1 < |t|
  {
    forall b: nat :: Get(t, l + 1, b) <==> b < |t[l]| && t[l][b] != 0
  }

  /** Offset `j` of word `w` is position `64 * w + j`. */
  lemma GetWord(t: Tree, l: nat, w: nat, j: nat)
    requires l < |t| && w < |t[l]| && j < K
    ensures Get(t, l, K * w + j) <==> Bit(t[l][w], j)
  {
    var p := K * w + j;
    assert p / K == w && p % K == j;
  }

  /** Offset `j` of word `w` is position `64 * w + j`, as arithmetic. */
  lemma PosSplit(w: nat, j: nat)
    requires j < K
    ensures (w * K + j) / K == w && (w * K + j) % K == j
  {
  }

  /** Within one word, positions are ordered as their offsets. */
  lemma SameBlockOrder(p: nat, i: nat)
    requires p / K == i / K
    ensures p > i <==> p % K > i % K
  {
  }

  /** `Summarised` at one position. */
  lemma SummaryAt(t: Tree, l: nat, b: nat)
    requires l + 1 < |t|
    requires Summarised(t, l)
    ensures Get(t, l + 1, b) <==> b < |t[l]| && t[l][b] != 0
  {
  }

  /** Every word of the layer is zero. */
  ghost predicate Zeros(s: seq<bv64>)
  {
    forall w :: 0 <= w < |s| ==> s[w] == 0
  }

  /** The invariant on the bits: layers `0 .. len-3` are summarised by the
      layer above, so layer `len-2` (one word) is the root; and the last
      layer is never written and stays zero. */
  ghost predicate Inv(t: Tree)
  {
    Wf(t) &&
    (forall l :: 0 <= l < |t| - 2 ==> Summarised(t, l)) &&
    Zeros(t[|t| - 1])
  }

  /** The invariant every public operation keeps: the shape `new(n)` gave,
      and the summary invariant. */
  ghost predicate Valid(t: Tree, n: nat)
  {
    Shaped(t, n) && Inv(t)
  }

  /** The all-zero tree `new` allocates satisfies the invariant and holds
      nothing. */
  lemma EmptyValid(t: Tree, n: nat)
    requires Shaped(t, n)
    requires forall l :: 0 <= l < |t| ==> Zeros(t[l])
    ensures Valid(t, n) && Elements(t) == {}
  {
    ShapedWf(t, n);
    forall l | 0 <= l < |t| - 2
      ensures Summarised(t, l)
    {
      var m := l + 1;
      forall b: nat
        ensures !Get(t, m, b)
      {
        ZerosClear(t, m, b);
      }
    }
    forall p: nat
      ensures !Get(t, 0, p)
    {
      ZerosClear(t, 0, p);
    }
  }

  /** No bit of an all-zero layer is set. */
  lemma ZerosClear(t: Tree, l: nat, p: nat)
    requires l < |t| && Zeros(t[l])
    ensures !Get(t, l, p)
  {
    if p / K < |t[l]| {
      ZeroIff(t[l][p / K]);
    }
  }

  /** A word is non-zero exactly when some position in it is set. */
  lemma BlockOccupied(t: Tree, l: nat, w: nat)
    requires l < |t| && w < |t[l]|
    ensures t[l][w] != 0 <==> exists p: nat :: p / K == w && Get(t, l, p)
  {
    ZeroIff(t[l][w]);
    if t[l][w] != 0 {
      var j :| 0 <= j < K && Bit(t[l][w], j);
      GetWord(t, l, w, j);
    }
    forall p: nat | p / K == w && Get(t, l, p)
      ensures t[l][w] != 0
    {
      ZeroIff(t[l][w]);
    }
  }

  // ---------------------------------------------------------------------
  // Ancestors

  lemma {:induction false} AncestorMono(x: nat, y: nat, l: nat)
    requires x <= y
    ensures Ancestor(x, l) <= Ancestor(y, l)
  {
    if l > 0 {
      AncestorMono(x, y, l - 1);
    }
  }

  /** Layer `l`'s ancestor of any position the leaf words can hold lies in a
      word of layer `l`, and the next ancestor up is a word index there. */
  lemma {:induction false} AncestorWord(t: Tree, x: nat, l: nat)
    requires Wf(t)
    requires x < K * |t[0]|
    requires l < |t|
    ensures Ancestor(x, l + 1) < |t[l]|
    ensures Ancestor(x, l) / K < |t[l]|
  {
    if l > 0 {
      AncestorWord(t, x, l - 1);
      assert |t[l - 1]| <= K * |t[l]|;
    }
  }

  /** Every leaf position lies under the root word: its ancestor in layer
      `len-2` is below 64, and in the last layer it is 0. */
  lemma UnderRoot(t: Tree, x: nat)
    requires Wf(t)
    requires x < K * |t[0]|
    ensures Ancestor(x, |t| - 2) < K
    ensures Ancestor(x, |t| - 1) == 0
  {
    AncestorWord(t, x, |t| - 2);
    AncestorWord(t, x, |t| - 1);
  }

  // ---------------------------------------------------------------------
  // What a set bit means

  /** A present element sets its ancestor bit in every summarised layer. */
  lemma {:induction false} BitsUp(t: Tree, y: nat, l: nat)
    requires Inv(t)
    requires Get(t, 0, y)
    requires l <= |t| - 2
    ensures Get(t, l, Ancestor(y, l))
  {
    if l > 0 {
      BitsUp(t, y, l - 1);
      var a := Ancestor(y, l - 1);
      ZeroIff(t[l - 1][a / K]);
      assert Summarised(t, l - 1);
    }
  }

  /** A set bit in a summarised layer has a present element below it. */
  lemma {:induction false} BitsDown(t: Tree, l: nat, p: nat) returns (y: nat)
    requires Inv(t)
    requires l <= |t| - 2
    requires Get(t, l, p)
    ensures Get(t, 0, y) && Ancestor(y, l) == p
  {
    if l == 0 {
      y := p;
    } else {
      assert Summarised(t, l - 1);
      SummaryAt(t, l - 1, p);
      var w := t[l - 1][p];
      assert w != 0;
      var j := TrailingZeros(w);
      var q := K * p + j;
      assert q / K == p && q % K == j;
      assert Get(t, l - 1, q);
      y := BitsDown(t, l - 1, q);
    }
  }

  /** Bit `p` of a summarised layer is set exactly when some present element
      lies below it. */
  lemma Meaning(t: Tree, l: nat, p: nat)
    requires Inv(t)
    requires l <= |t| - 2
    ensures Get(t, l, p) <==> exists y :: y in Elements(t) && Ancestor(y, l) == p
  {
    if Get(t, l, p) {
      var y := BitsDown(t, l, p);
      assert y in Elements(t);
    }
    forall y | y in Elements(t) && Ancestor(y, l) == p
      ensures Get(t, l, p)
    {
      BitsUp(t, y, l);
    }
  }

  /** The root word, word 0 of layer `len-2`, is zero exactly when the tree
      holds no element. */
  lemma RootEmpty(t: Tree)
    requires Inv(t)
    ensures t[|t| - 2][0] == 0 <==> Elements(t) == {}
  {
    var r := |t| - 2;
    if t[r][0] != 0 {
      ZeroIff(t[r][0]);
      var j :| 0 <= j < K && Bit(t[r][0], j);
      assert Get(t, r, j);
      var y := BitsDown(t, r, j);
      assert y in Elements(t);
    }
    if y :| y in Elements(t) {
      BitsUp(t, y, r);
      UnderRoot(t, y);
      ZeroIff(t[r][0]);
    }
  }

  /** A valid tree is determined by its elements: two valid trees of the
      same capacity with the same elements are equal word for word. */
  lemma Canonical(t: Tree, u: Tree, n: nat)
    requires Valid(t, n) && Valid(u, n)
    requires Elements(t) == Elements(u)
    ensures t == u
  {
    assert |t| == |u|;
    forall l | 0 <= l < |t|
      ensures |t[l]| == |u[l]|
    {
    }
    SameBits(t, u);
  }

  lemma SameBits(t: Tree, u: Tree)
    requires Inv(t) && Inv(u)
    requires |t| == |u| && forall l :: 0 <= l < |t| ==> |t[l]| == |u[l]|
    requires Elements(t) == Elements(u)
    ensures t == u
  {
    forall l, w | 0 <= l < |t| && 0 <= w < |t[l]|
      ensures t[l][w] == u[l][w]
    {
      if l == |t| - 1 {
      } else {
        forall j | 0 <= j < K
          ensures Bit(t[l][w], j) <==> Bit(u[l][w], j)
        {
          var p := K * w + j;
          GetWord(t, l, w, j);
          GetWord(u, l, w, j);
          Meaning(t, l, p);
          Meaning(u, l, p);
        }
        Extensional(t[l][w], u[l][w]);
      }
    }
    forall l | 0 <= l < |t|
      ensures t[l] == u[l]
    {
      assert |t[l]| == |u[l]|;
    }
  }
}
