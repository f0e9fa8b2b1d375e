/** The bit updates `insert` and `delete` make, as functions on the layers,
    and the proofs that they keep the summary invariant and change the
    element set by exactly one element. */
module Updates {
  import opened Words
  import opened Sizing
  import opened Layers

  /** Every ancestor of `x` lies in a word of its layer. */
  ghost predicate PathInRange(t: Tree, x: nat)
  {
    forall l :: 0 <= l < |t| ==> Ancestor(x, l) / K < |t[l]|
  }

  lemma PathInRangeOf(t: Tree, x: nat)
    requires Wf(t)
    requires x < K * |t[0]|
    ensures PathInRange(t, x)
  {
    forall l | 0 <= l < |t|
      ensures Ancestor(x, l) / K < |t[l]|
    {
      AncestorWord(t, x, l);
    }
  }

  /** Both trees have the same number of layers and words per layer. */
  ghost predicate SameShape(t: Tree, u: Tree)
  {
    |t| == |u| && forall l :: 0 <= l < |t| ==> |t[l]| == |u[l]|
  }

  // ---------------------------------------------------------------------
  // One bit

  /** `s[p / 64] |= 1 << p % 64`: bit `p` of the layer becomes set and no
      other bit changes. */
  function SetInLayer(s: seq<bv64>, p: nat): (r: seq<bv64>)
    requires p / K < |s|
    ensures |r| == |s|
    ensures forall q: nat :: Has(r, q) <==> Has(s, q) || q == p
    ensures forall b :: 0 <= b < |s| && b != p / K ==> r[b] == s[b]
  {
    var r := s[p / K := SetBit(s[p / K], p % K)];
    forall q: nat
      ensures Has(r, q) <==> Has(s, q) || q == p
    {
      SamePosition(p, q);
    }
    r
  }

  /** `s[p / 64] &= !(1 << p % 64)`: bit `p` of the layer becomes clear and
      no other bit changes. */
  function ClearInLayer(s: seq<bv64>, p: nat): (r: seq<bv64>)
    requires p / K < |s|
    ensures |r| == |s|
  {
    s[p / K := ClearBit(s[p / K], p % K)]
  }

  /** What `ClearInLayer` does, stated apart from it so that the facts enter a
      proof only where they are asked for. */
  lemma ClearInLayerBits(s: seq<bv64>, p: nat)
    requires p / K < |s|
    ensures forall q: nat :: Has(ClearInLayer(s, p), q) <==> Has(s, q) && q != p
    ensures forall b :: 0 <= b < |s| && b != p / K ==> ClearInLayer(s, p)[b] == s[b]
  {
    forall q: nat
      ensures Has(ClearInLayer(s, p), q) <==> Has(s, q) && q != p
    {
      SamePosition(p, q);
    }
  }

  lemma SamePosition(p: nat, q: nat)
    ensures p == q <==> p / K == q / K && p % K == q % K
  {
  }

  /** Setting a bit that is already set changes nothing. */
  lemma SetInLayerIdempotent(s: seq<bv64>, p: nat)
    requires Has(s, p)
    ensures SetInLayer(s, p) == s
  {
    SetBitIdempotent(s[p / K], p % K);
    assert s[p / K := s[p / K]] == s;
  }

  // ---------------------------------------------------------------------
  // Insert: set the ancestors of `x` in layers `0 .. k-1`

  /** The layers once the ancestors of `x` in layers `0 .. k-1` are set. */
  function SetPath(t: Tree, x: nat, k: nat): (r: Tree)
    requires PathInRange(t, x) && k <= |t|
    ensures SameShape(t, r)
  {
    seq(|t|, l requires 0 <= l < |t| => if l < k then SetInLayer(t[l], Ancestor(x, l)) else t[l])
  }

  /** Before the first iteration nothing is set. */
  lemma SetPathStart(t: Tree, x: nat)
    requires PathInRange(t, x)
    ensures SetPath(t, x, 0) == t
  {
    var r := SetPath(t, x, 0);
    assert forall l :: 0 <= l < |t| ==> r[l] == t[l];
  }

  /** One iteration of `insert`'s loop sets the ancestor in layer `k`. */
  lemma SetPathStep(t: Tree, x: nat, k: nat)
    requires PathInRange(t, x) && k < |t|
    ensures var s := SetPath(t, x, k);
      s[k := SetInLayer(s[k], Ancestor(x, k))] == SetPath(t, x, k + 1)
  {
    var s := SetPath(t, x, k);
    var r := SetPath(t, x, k + 1);
    var u := s[k := SetInLayer(s[k], Ancestor(x, k))];
    forall l | 0 <= l < |t|
      ensures u[l] == r[l]
    {
    }
  }

  /** What one iteration of `insert`'s loop needs: the word it sets and the
      parent word it tests exist, and setting the ancestor in layer `k`
      extends the path by one layer. */
  lemma InsertStep(t: Tree, x: nat, k: nat)
    requires PathInRange(t, x) && k + 1 < |t|
    ensures var s := SetPath(t, x, k);
      Ancestor(x, k) / K < |s[k]| &&
      s[k := SetInLayer(s[k], Ancestor(x, k))] == SetPath(t, x, k + 1) &&
      Ancestor(x, k + 1) == Ancestor(x, k) / K &&
      Ancestor(x, k + 1) / K < |SetPath(t, x, k + 1)[k + 1]|
  {
    SetPathStep(t, x, k);
  }

  /** Under the invariant, once the bit of `x`'s ancestor in layer `l` is
      set, so are all its ancestors' bits up to the root. */
  lemma {:induction false} AncestorsSet(t: Tree, x: nat, l: nat, k: nat)
    requires Inv(t)
    requires l <= k <= |t| - 2
    requires Get(t, l, Ancestor(x, l))
    ensures Get(t, k, Ancestor(x, k))
  {
    if k > l {
      AncestorsSet(t, x, l, k - 1);
      var a := Ancestor(x, k - 1);
      ZeroIff(t[k - 1][a / K]);
      SummaryAt(t, k - 1, a / K);
    }
  }

  /** Setting ancestors whose bits are already set changes nothing: when
      those of layers `m .. len-2` are set, setting the path up to layer `m`
      has the same result as setting it up to the root. */
  lemma InsertStops(t: Tree, x: nat, m: nat)
    requires PathInRange(t, x)
    requires m <= |t| - 2
    requires forall j :: m <= j < |t| - 1 ==> Get(t, j, Ancestor(x, j))
    ensures SetPath(t, x, |t| - 1) == SetPath(t, x, m)
  {
    var r := SetPath(t, x, |t| - 1);
    var s := SetPath(t, x, m);
    forall j | 0 <= j < |t|
      ensures r[j] == s[j]
    {
      if m <= j < |t| - 1 {
        SetInLayerIdempotent(t[j], Ancestor(x, j));
      }
    }
  }

  /** `insert`'s early exit: once the parent bit in layer `m` is already
      set, the rest of the path is set too, so setting layers `0 .. m-1` has
      the same result as setting the whole path. */
  lemma InsertBreak(t: Tree, x: nat, m: nat)
    requires Inv(t) && PathInRange(t, x)
    requires m <= |t| - 2
    requires Get(t, m, Ancestor(x, m))
    ensures SetPath(t, x, |t| - 1) == SetPath(t, x, m)
  {
    PathSet(t, x, m);
    InsertStops(t, x, m);
  }

  /** `insert`'s loop leaves early after setting layers `0 .. m-1` when the
      parent bit in layer `m` is set: its result is then the whole path set. */
  lemma InsertExit(t: Tree, x: nat, m: nat, r: Tree)
    requires Inv(t) && PathInRange(t, x)
    requires 1 <= m < |t|
    requires r == SetPath(t, x, m)
    requires Get(r, m, Ancestor(x, m))
    ensures r == SetPath(t, x, |t| - 1)
  {
    BreakBelowTop(t, m, Ancestor(x, m), r);
    InsertBreak(t, x, m);
  }

  /** The parent bit `insert` tests is `t`'s own, and it is never in the last
      layer, which stays zero. */
  lemma BreakBelowTop(t: Tree, m: nat, a: nat, r: Tree)
    requires m < |t| == |r| && Zeros(t[|t| - 1])
    requires r[m] == t[m]
    requires Get(r, m, a)
    ensures m <= |t| - 2 && Get(t, m, a)
  {
    if m == |t| - 1 {
      ZerosClear(t, m, a);
      assert false;
    }
  }

  /** Once `x`'s ancestor bit is set in layer `l`, it is set in every layer
      from `l` to the root. */
  lemma PathSet(t: Tree, x: nat, l: nat)
    requires Inv(t)
    requires l <= |t| - 2
    requires Get(t, l, Ancestor(x, l))
    ensures forall j :: l <= j < |t| - 1 ==> Get(t, j, Ancestor(x, j))
  {
    forall j | l <= j < |t| - 1
      ensures Get(t, j, Ancestor(x, j))
    {
      AncestorsSet(t, x, l, j);
    }
  }

  /** Setting the ancestors of `x` in every layer below the last keeps the
      invariant and adds exactly `x` to the elements. */
  lemma InsertValid(t: Tree, n: nat, x: nat)
    requires Valid(t, n)
    requires x < K * |t[0]|
    ensures PathInRange(t, x)
    ensures Valid(SetPath(t, x, |t| - 1), n)
    ensures Elements(SetPath(t, x, |t| - 1)) == Elements(t) + {x}
  {
    InsertInv(t, x);
    KeepsShape(t, SetPath(t, x, |t| - 1), n);
  }

  lemma InsertInv(t: Tree, x: nat)
    requires Inv(t)
    requires x < K * |t[0]|
    ensures PathInRange(t, x)
    ensures Inv(SetPath(t, x, |t| - 1))
    ensures Elements(SetPath(t, x, |t| - 1)) == Elements(t) + {x}
  {
    PathInRangeOf(t, x);
    var h := |t| - 1;
    var r := SetPath(t, x, h);
    forall l | 0 <= l < |r| - 2
      ensures Summarised(r, l)
    {
      InsertSummarised(t, x, r, l);
    }
    SetPathLayer(t, x, h, h);
    KeepsWf(t, r);
    SetPathElements(t, x, h);
  }

  /** Inserting an element already present changes no word. */
  lemma InsertPresent(t: Tree, n: nat, x: nat)
    requires Valid(t, n)
    requires x in Elements(t)
    ensures PathInRange(t, x) && SetPath(t, x, |t| - 1) == t
  {
    InsertPresentValid(t, n, x);
    Canonical(SetPath(t, x, |t| - 1), t, n);
  }

  lemma InsertPresentValid(t: Tree, n: nat, x: nat)
    requires Valid(t, n)
    requires x in Elements(t)
    ensures PathInRange(t, x)
    ensures Valid(SetPath(t, x, |t| - 1), n)
    ensures Elements(SetPath(t, x, |t| - 1)) == Elements(t)
  {
    var e := Elements(t);
    assert e + {x} == e;
    InsertValid(t, n, x);
  }

  /** Setting the path adds exactly `x` to the elements. */
  lemma SetPathElements(t: Tree, x: nat, k: nat)
    requires PathInRange(t, x) && 1 <= k <= |t|
    ensures Elements(SetPath(t, x, k)) == Elements(t) + {x}
  {
    var r := SetPath(t, x, k);
    SetPathLayer(t, x, k, 0);
    assert r[0] == SetInLayer(t[0], x);
    assert x / K < |t[0]|;
    forall p: nat
      ensures p in Elements(r) <==> p in Elements(t) || p == x
    {
    }
  }

  /** One layer of `InsertInv`. */
  lemma InsertSummarised(t: Tree, x: nat, r: Tree, l: nat)
    requires Inv(t) && PathInRange(t, x)
    requires r == SetPath(t, x, |t| - 1)
    requires l < |t| - 2
    ensures Summarised(r, l)
  {
    assert Summarised(t, l);
    SetPathLayer(t, x, |t| - 1, l);
    SetPathLayer(t, x, |t| - 1, l + 1);
    SetSummarised(t, r, x, l);
  }

  /** `SetPath` on the single layer `l`. */
  lemma SetPathLayer(t: Tree, x: nat, k: nat, l: nat)
    requires PathInRange(t, x) && k <= |t| && l < |t|
    ensures Ancestor(x, l + 1) == Ancestor(x, l) / K
    ensures l >= k ==> SetPath(t, x, k)[l] == t[l]
    ensures l < k ==> SetPath(t, x, k)[l] == SetInLayer(t[l], Ancestor(x, l))
  {
  }

  /** Setting `x`'s ancestor in layers `l` and `l + 1` keeps layer `l`
      summarised: the word holding the new bit is non-zero, and its summary
      bit is the one set above it. */
  lemma SetSummarised(t: Tree, r: Tree, x: nat, l: nat)
    requires l + 1 < |t| == |r|
    requires Summarised(t, l)
    requires Ancestor(x, l + 1) == Ancestor(x, l) / K < |t[l]|
    requires Ancestor(x, l + 1) / K < |t[l + 1]|
    requires r[l] == SetInLayer(t[l], Ancestor(x, l))
    requires r[l + 1] == SetInLayer(t[l + 1], Ancestor(x, l + 1))
    ensures Summarised(r, l)
  {
    var a := Ancestor(x, l);
    var p := Ancestor(x, l + 1);
    forall b: nat
      ensures Get(r, l + 1, b) <==> b < |r[l]| && r[l][b] != 0
    {
      SummaryAt(t, l, b);
      if b == p {
        assert Has(r[l], a);
        ZeroIff(r[l][p]);
      }
    }
  }

  /** Changing bits only keeps the shape. */
  lemma KeepsShape(t: Tree, r: Tree, n: nat)
    requires Shaped(t, n) && SameShape(t, r)
    ensures Shaped(r, n)
  {
  }

  lemma KeepsWf(t: Tree, r: Tree)
    requires Wf(t) && SameShape(t, r)
    ensures Wf(r)
  {
    forall l | 0 < l < |r|
      ensures K * |r[l]| - K < |r[l - 1]| <= K * |r[l]|
    {
      assert |r[l]| == |t[l]| && |r[l - 1]| == |t[l - 1]|;
    }
  }

  // ---------------------------------------------------------------------
  // Delete: clear the ancestors of `x` in layers `0 .. k-1`

  /** The layers once the ancestors of `x` in layers `0 .. k-1` are cleared,
      one layer after the other. */
  function ClearPath(t: Tree, x: nat, k: nat): (r: Tree)
    requires PathInRange(t, x) && k <= |t|
    ensures SameShape(t, r)
  {
    if k == 0 then t
    else
      var s := ClearPath(t, x, k - 1);
      s[k - 1 := ClearInLayer(s[k - 1], Ancestor(x, k - 1))]
  }

  /** Before the first iteration nothing is cleared. */
  lemma ClearPathStart(t: Tree, x: nat)
    requires PathInRange(t, x)
    ensures ClearPath(t, x, 0) == t
  {
  }

  /** What one iteration of `delete`'s loop needs: the word it clears
      exists, and clearing the ancestor in layer `m` extends the path by one
      layer. */
  lemma DeleteStep(t: Tree, x: nat, m: nat)
    requires PathInRange(t, x) && m + 1 < |t|
    ensures var s := ClearPath(t, x, m);
      Ancestor(x, m) / K < |s[m]| &&
      s[m := ClearInLayer(s[m], Ancestor(x, m))] == ClearPath(t, x, m + 1) &&
      Ancestor(x, m + 1) == Ancestor(x, m) / K
  {
  }

  /** Rewriting layer `m` leaves the words below it, so the layers `delete`
      has climbed past stay emptied; if the word just cleared is zero too,
      the loop climbs past layer `m` as well. */
  lemma EmptiedKept(s: Tree, x: nat, m: nat, w: seq<bv64>)
    requires m < |s|
    requires EmptiedBelow(s, x, m)
    ensures EmptiedBelow(s[m := w], x, m)
    ensures EmptyBlock(s[m := w], x, m) ==> EmptiedBelow(s[m := w], x, m + 1)
  {
    var r := s[m := w];
    forall l | 0 <= l < m
      ensures EmptyBlock(r, x, l)
    {
      assert EmptyBlock(s, x, l);
      assert r[l] == s[l];
    }
  }

  /** What `ClearPath` does: the bits of layer `l < k` are `t`'s minus `x`'s
      ancestor, the other layers keep theirs, and only the word holding the
      ancestor changes. */
  lemma ClearPathEffect(t: Tree, x: nat, k: nat)
    requires PathInRange(t, x) && k <= |t|
    ensures forall l, q: nat :: 0 <= l < |t| ==>
      (Get(ClearPath(t, x, k), l, q) <==> Get(t, l, q) && !(l < k && q == Ancestor(x, l)))
    ensures forall l, b :: 0 <= l < |t| && 0 <= b < |t[l]| && (l >= k || b != Ancestor(x, l + 1)) ==>
      ClearPath(t, x, k)[l][b] == t[l][b]
  {
    var r := ClearPath(t, x, k);
    forall l | 0 <= l < |t|
      ensures forall q: nat :: Get(r, l, q) <==> Get(t, l, q) && !(l < k && q == Ancestor(x, l))
      ensures forall b :: 0 <= b < |t[l]| && (l >= k || b != Ancestor(x, l + 1)) ==> r[l][b] == t[l][b]
    {
      ClearPathAt(t, x, k, l);
      if l < k {
        ClearInLayerBits(t[l], Ancestor(x, l));
      }
    }
  }

  /** Layer `l` of `ClearPath(t, x, k)`: cleared when `l < k`, as in `t`
      otherwise. */
  lemma {:induction false} ClearPathAt(t: Tree, x: nat, k: nat, l: nat)
    requires PathInRange(t, x) && k <= |t| && l < |t|
    ensures Ancestor(x, l + 1) == Ancestor(x, l) / K
    ensures ClearPath(t, x, k)[l] == if l < k then ClearInLayer(t[l], Ancestor(x, l)) else t[l]
  {
    if k > 0 {
      ClearPathAt(t, x, k - 1, l);
    }
  }

  /** The word of layer `l` that holds `x`'s ancestor is zero: the condition,
      tested after clearing, on which `delete` climbs past layer `l`. */
  ghost predicate EmptyBlock(t: Tree, x: nat, l: nat)
  {
    l < |t| && Ancestor(x, l + 1) < |t[l]| && t[l][Ancestor(x, l + 1)] == 0
  }

  /** `delete` climbed past every layer below `m`. */
  ghost predicate EmptiedBelow(t: Tree, x: nat, m: nat)
  {
    forall l :: 0 <= l < m ==> EmptyBlock(t, x, l)
  }

  /** `delete` clears the ancestors of `x` in layers `0 .. k-1`, where `k-1`
      is the first layer whose word still holds a set bit after clearing (or
      the root layer). Every word it cleared up to layer `k-2` became zero, so
      the parent bit it cleared above it was right to go; the word at layer
      `k-1` is non-zero, so its parent bit, left alone, is still justified. */
  lemma DeleteValid(t: Tree, n: nat, x: nat, k: nat)
    requires Valid(t, n)
    requires 1 <= k <= |t| - 1
    requires PathInRange(t, x)
    requires EmptiedBelow(ClearPath(t, x, k), x, k - 1)
    requires k < |t| - 1 ==> !EmptyBlock(ClearPath(t, x, k), x, k - 1)
    ensures Valid(ClearPath(t, x, k), n)
    ensures Elements(ClearPath(t, x, k)) == Elements(t) - {x}
  {
    DeleteInv(t, x, k);
    KeepsShape(t, ClearPath(t, x, k), n);
  }

  lemma DeleteInv(t: Tree, x: nat, k: nat)
    requires Inv(t)
    requires 1 <= k <= |t| - 1
    requires PathInRange(t, x)
    requires EmptiedBelow(ClearPath(t, x, k), x, k - 1)
    requires k < |t| - 1 ==> !EmptyBlock(ClearPath(t, x, k), x, k - 1)
    ensures Inv(ClearPath(t, x, k))
    ensures Elements(ClearPath(t, x, k)) == Elements(t) - {x}
  {
    forall l | 0 <= l < |t| - 2
      ensures Summarised(ClearPath(t, x, k), l)
    {
      ClearPathAt(t, x, k, l);
      ClearPathAt(t, x, k, l + 1);
      DeleteSummarisedAt(t, ClearPath(t, x, k), x, l, k);
    }
    ClearPathKeeps(t, x, k);
  }

  /** Clearing a path keeps the shape, the last layer, and removes exactly
      `x` from the elements. */
  lemma ClearPathKeeps(t: Tree, x: nat, k: nat)
    requires Inv(t)
    requires 1 <= k <= |t| - 1
    requires PathInRange(t, x)
    ensures Wf(ClearPath(t, x, k))
    ensures Zeros(ClearPath(t, x, k)[|t| - 1])
    ensures Elements(ClearPath(t, x, k)) == Elements(t) - {x}
  {
    var r := ClearPath(t, x, k);
    ClearPathEffect(t, x, k);
    assert |r| == |t| && r[|t| - 1] == t[|t| - 1];
    TopKept(t, r);
    KeepsWf(t, r);
  }

  /** The summary half of `DeleteInv`, for layer `l`, for any `r` whose layers
      `l` and `l + 1` are those of `ClearPath(t, x, k)`. */
  lemma DeleteSummarisedAt(t: Tree, r: Tree, x: nat, l: nat, k: nat)
    requires |r| == |t| && l + 2 < |t| && k < |t|
    requires Summarised(t, l)
    requires Ancestor(x, l + 1) == Ancestor(x, l) / K < |t[l]|
    requires Ancestor(x, l + 1) / K < |t[l + 1]|
    requires r[l] == if l < k then ClearInLayer(t[l], Ancestor(x, l)) else t[l]
    requires r[l + 1] == if l + 1 < k then ClearInLayer(t[l + 1], Ancestor(x, l + 1)) else t[l + 1]
    requires l < k - 1 ==> EmptyBlock(r, x, l)
    requires l == k - 1 ==> !EmptyBlock(r, x, l)
    ensures Summarised(r, l)
  {
    if l < k {
      ClearSummarised(t, r, x, l, k);
    } else {
      KeptSummarised(t, r, l);
    }
  }

  /** Layers `l` and `l + 1` unchanged: so is the summary between them. */
  lemma KeptSummarised(t: Tree, r: Tree, l: nat)
    requires l + 1 < |t| == |r|
    requires r[l] == t[l] && r[l + 1] == t[l + 1]
    requires Summarised(t, l)
    ensures Summarised(r, l)
  {
    forall b: nat
      ensures Get(r, l + 1, b) <==> b < |r[l]| && r[l][b] != 0
    {
      SummaryAt(t, l, b);
    }
  }

  /** The cleared case of `DeleteSummarisedAt`: layer `l` of `r` is layer `l` of `t`
      with `x`'s ancestor cleared, layer `l + 1` too when it is below `k`, and
      the word holding the ancestor in layer `l` became zero exactly when
      `delete` went on to clear its parent bit. */
  lemma ClearSummarised(t: Tree, r: Tree, x: nat, l: nat, k: nat)
    requires |r| == |t| && l + 2 < |t| && l < k
    requires Summarised(t, l)
    requires Ancestor(x, l + 1) == Ancestor(x, l) / K < |t[l]|
    requires Ancestor(x, l + 1) / K < |t[l + 1]|
    requires r[l] == ClearInLayer(t[l], Ancestor(x, l))
    requires r[l + 1] == if l + 1 < k then ClearInLayer(t[l + 1], Ancestor(x, l + 1)) else t[l + 1]
    requires l < k - 1 ==> r[l][Ancestor(x, l + 1)] == 0
    requires l == k - 1 ==> r[l][Ancestor(x, l + 1)] != 0
    ensures Summarised(r, l)
  {
    var a := Ancestor(x, l + 1);
    ClearInLayerBits(t[l], Ancestor(x, l));
    if l + 1 < k {
      ClearInLayerBits(t[l + 1], a);
    }
    forall b: nat
      ensures Get(r, l + 1, b) <==> b < |r[l]| && r[l][b] != 0
    {
      SummaryAt(t, l, b);
      if b == a && l == k - 1 {
        ZeroIff(r[l][b]);
        ZeroIff(t[l][b]);
        var j :| 0 <= j < K && Bit(r[l][b], j);
        GetWord(r, l, b, j);
        GetWord(t, l, b, j);
      }
    }
  }

  lemma TopKept(t: Tree, r: Tree)
    requires |t| > 0 && |r| == |t|
    requires Zeros(t[|t| - 1]) && r[|t| - 1] == t[|t| - 1]
    ensures Zeros(r[|r| - 1])
  {
  }
}
