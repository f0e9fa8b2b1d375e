/** Why `successor` finds the least element above `x`: the facts its climb
    and its descent keep, stated on the layers as values. */
module Search {
  import opened Words
  import opened Sizing
  import opened Layers

  /** Every element above `x` lies outside `x`'s subtree at layer `l`: its
      ancestor there is strictly to the right of `x`'s. */
  ghost predicate Beyond(t: Tree, x: nat, l: nat)
    requires |t| > 0
  {
    forall y: nat :: Get(t, 0, y) && y > x ==> Ancestor(y, l) > Ancestor(x, l)
  }

  /** No bit of layer `l` is set to the right of `i` within `i`'s word. */
  ghost predicate NoneInBlockAfter(t: Tree, l: nat, i: nat)
    requires l < |t|
  {
    forall p: nat :: p / K == i / K && p > i ==> !Get(t, l, p)
  }

  /** `q` is the first set bit of layer `l` to the right of `i` within `i`'s
      word. */
  ghost predicate FirstInBlockAfter(t: Tree, l: nat, i: nat, q: nat)
    requires l < |t|
  {
    q > i && q / K == i / K && Get(t, l, q) &&
    forall p: nat :: i < p < q ==> !Get(t, l, p)
  }

  /** The descent's invariant: bit `q` of layer `l` is set, and the elements
      above `x` are exactly those whose layer-`l` ancestor is `q` or beyond. */
  ghost predicate Frontier(t: Tree, x: nat, l: nat, q: nat)
    requires l < |t|
  {
    Get(t, l, q) &&
    forall y: nat :: Get(t, 0, y) ==> (y > x <==> Ancestor(y, l) >= q)
  }

  /** Nothing of the last layer is ever set. */
  lemma TopClear(t: Tree, p: nat)
    requires Inv(t)
    ensures !Get(t, |t| - 1, p)
  {
    if p / K < |t[|t| - 1]| {
      ZeroIff(t[|t| - 1][p / K]);
    }
  }

  /** Climbing: if no bit follows `x`'s ancestor within its word at layer
      `l`, then no element above `x` shares `x`'s ancestor at layer `l + 1`
      either. */
  lemma ClimbStep(t: Tree, x: nat, l: nat)
    requires Inv(t)
    requires l <= |t| - 2
    requires Beyond(t, x, l)
    requires NoneInBlockAfter(t, l, Ancestor(x, l))
    ensures Beyond(t, x, l + 1)
  {
    forall y: nat | Get(t, 0, y) && y > x
      ensures Ancestor(y, l + 1) > Ancestor(x, l + 1)
    {
      BitsUp(t, y, l);
      AncestorMono(x, y, l);
    }
  }

  /** When the climb passes the root, no element is above `x`. */
  lemma ClimbExhausted(t: Tree, x: nat)
    requires Inv(t)
    requires x < K * |t[0]|
    requires Beyond(t, x, |t| - 1)
    ensures forall y :: y in Elements(t) ==> y <= x
  {
    forall y | y in Elements(t)
      ensures y <= x
    {
      UnderRoot(t, y);
    }
  }

  /** The climb stops at layer `l` on bit `q`: the elements above `x` are
      those whose layer-`l` ancestor is `q` or beyond. */
  lemma Hit(t: Tree, x: nat, l: nat, q: nat)
    requires Inv(t)
    requires l <= |t| - 1
    requires Beyond(t, x, l)
    requires FirstInBlockAfter(t, l, Ancestor(x, l), q)
    ensures l <= |t| - 2 && Frontier(t, x, l, q)
  {
    if l == |t| - 1 {
      TopClear(t, q);
    }
    forall y: nat | Get(t, 0, y)
      ensures y > x <==> Ancestor(y, l) >= q
    {
      if y > x {
        BitsUp(t, y, l);
      } else {
        AncestorMono(y, x, l);
      }
    }
  }

  /** Descending from bit `q` of layer `l`: its child word in layer `l - 1`
      is non-zero, and the child's first set bit carries the invariant one
      layer down. */
  lemma Descend(t: Tree, x: nat, l: nat, q: nat)
    requires Inv(t)
    requires 1 <= l <= |t| - 2
    requires Frontier(t, x, l, q)
    ensures q < |t[l - 1]| && t[l - 1][q] != 0
    ensures Frontier(t, x, l - 1, K * q + TrailingZeros(t[l - 1][q]))
  {
    assert Summarised(t, l - 1);
    SummaryAt(t, l - 1, q);
    var j := TrailingZeros(t[l - 1][q]);
    GetWord(t, l - 1, q, j);
    forall y: nat | Get(t, 0, y)
      ensures y > x <==> Ancestor(y, l - 1) >= K * q + j
    {
      DescendAt(t, x, l, q, y);
    }
  }

  /** `Descend` for one element `y`. */
  lemma DescendAt(t: Tree, x: nat, l: nat, q: nat, y: nat)
    requires Inv(t)
    requires 1 <= l <= |t| - 2
    requires Frontier(t, x, l, q)
    requires q < |t[l - 1]| && t[l - 1][q] != 0
    requires Get(t, 0, y)
    ensures y > x <==> Ancestor(y, l - 1) >= K * q + TrailingZeros(t[l - 1][q])
  {
    var a := Ancestor(y, l - 1);
    var j := TrailingZeros(t[l - 1][q]);
    assert Ancestor(y, l) == a / K;
    assert y > x <==> a / K >= q;
    if a / K == q {
      BitsUp(t, y, l - 1);
      assert a == K * q + a % K;
      GetWord(t, l - 1, q, a % K);
    }
  }

  /** The first element after `x` in `x`'s own leaf word is its successor. */
  lemma HitLeaf(t: Tree, x: nat, q: nat)
    requires Inv(t)
    requires FirstInBlockAfter(t, 0, x, q)
    ensures q in Elements(t) && q > x
    ensures forall y :: y in Elements(t) && y > x ==> q <= y
  {
    Hit(t, x, 0, q);
    Found(t, x, q);
  }

  /** At the leaves the invariant names the successor itself. */
  lemma Found(t: Tree, x: nat, q: nat)
    requires |t| > 0
    requires Frontier(t, x, 0, q)
    ensures q in Elements(t) && q > x
    ensures forall y :: y in Elements(t) && y > x ==> q <= y
  {
  }

  /** `greater_sibling_in_block`'s masking: clearing bits `0 ..= i % 64` of
      `i`'s word leaves exactly the bits after `i` in that word, so the
      result is zero when there are none and otherwise its lowest bit is the
      first of them. */
  lemma AboveMask(t: Tree, l: nat, i: nat, v: bv64)
    requires l < |t| && i / K < |t[l]|
    requires v == AndNot(t[l][i / K], LowMask(i % K + 1))
    ensures v == 0 <==> NoneInBlockAfter(t, l, i)
    ensures v != 0 ==> FirstInBlockAfter(t, l, i, (i / K) * K + TrailingZeros(v))
  {
    ZeroIff(v);
    if v == 0 {
      forall p: nat | p / K == i / K && p > i
        ensures !Get(t, l, p)
      {
        AbovePos(t, l, i, v, p);
      }
    } else {
      AboveMaskFirst(t, l, i, v);
    }
  }

  /** With a non-zero masked word, its lowest bit is the first set bit after
      `i` in `i`'s word. */
  lemma AboveMaskFirst(t: Tree, l: nat, i: nat, v: bv64)
    requires l < |t| && i / K < |t[l]| && v != 0
    requires v == AndNot(t[l][i / K], LowMask(i % K + 1))
    ensures FirstInBlockAfter(t, l, i, (i / K) * K + TrailingZeros(v))
  {
    var w := i / K;
    var j := TrailingZeros(v);
    var q := (i / K) * K + j;
    AboveBit(t, l, i, v, j);
    PosSplit(w, j);
    forall p: nat | i < p < q
      ensures !Get(t, l, p)
    {
      BetweenSameBlock(i, p, q);
      AbovePos(t, l, i, v, p);
      SameBlockOrder(p, q);
    }
  }

  /** A position between two positions of one word lies in that word. */
  lemma BetweenSameBlock(i: nat, p: nat, q: nat)
    requires i < p < q && i / K == q / K
    ensures p / K == i / K
  {
  }

  /** A position after `i` in `i`'s word is set exactly when its bit of the
      masked word is set. */
  lemma AbovePos(t: Tree, l: nat, i: nat, v: bv64, p: nat)
    requires l < |t| && i / K < |t[l]|
    requires v == AndNot(t[l][i / K], LowMask(i % K + 1))
    requires p / K == i / K && p > i
    ensures Get(t, l, p) <==> Bit(v, p % K)
  {
    SameBlockOrder(p, i);
  }

  /** Bit `j` of the masked word is set exactly when `j` is past `i`'s offset
      and position `64 * (i / 64) + j` is set. */
  lemma AboveBit(t: Tree, l: nat, i: nat, v: bv64, j: nat)
    requires l < |t| && i / K < |t[l]| && j < K
    requires v == AndNot(t[l][i / K], LowMask(i % K + 1))
    ensures Bit(v, j) <==> j > i % K && Get(t, l, (i / K) * K + j)
  {
    PosSplit(i / K, j);
  }

}
