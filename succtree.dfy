/** `SuccTree`: a 64-ary bitmap tree over positions `0 .. 64 * words - 1`.
    Layer 0 holds one bit per position; bit `b` of layer `l + 1` says whether
    word `b` of layer `l` is non-zero. The methods follow the source's loops
    and are proved against the set of positions present. */
module SuccTrees {
  import opened Words
  import opened Sizing
  import opened Layers
  import opened Updates
  import opened Search

  datatype Option<T> = None | Some(value: T)

  class SuccTree {
    /** The layers, leaf layer first. */
    var tree: seq<seq<bv64>>
    /** The `size` given to `new`; the source keeps only the layers. */
    ghost const capacity: nat

    ghost predicate Valid()
      reads this
    {
      Layers.Valid(tree, capacity)
    }

    /** The positions present: the set bits of the leaf layer. */
    ghost function Elements(): set<nat>
      reads this
      requires |tree| > 0
    {
      Layers.Elements(tree)
    }

    /** `new(size)`: `ceil(log_64 size) + 1` layers, layer `i` holding
        `ceil(ceil(size / 64^i) / 64)` zero words. */
    constructor (size: nat)
      ensures capacity == size
      ensures |tree| == LayerCount(size)
      ensures forall i :: 0 <= i < |tree| ==> |tree[i]| == LayerWords(size, i) && Zeros(tree[i])
      ensures size >= 2 ==> Valid() && Elements() == {}
    {
      var layers := CeilLog64(size) + 1;
      var t: seq<seq<bv64>> := [];
      for i := 0 to layers
        invariant |t| == i
        invariant forall j :: 0 <= j < i ==> |t[j]| == LayerWords(size, j) && Zeros(t[j])
      {
        var layerSize := CeilDiv(CeilDiv(size, Pow(i)), K);
        t := t + [seq(layerSize, _ => 0)];
      }
      tree := t;
      capacity := size;
      if size >= 2 {
        EmptyValid(t, size);
      }
    }

    /** `insert(x)`: set `x`'s bit and its ancestors' bits, layer by layer,
        stopping once the parent bit was already set. */
    method Insert(x: nat)
      requires Valid()
      requires x < K * |tree[0]|
      modifies this
      ensures Valid()
      ensures Elements() == old(Elements()) + {x}
      ensures PathInRange(old(tree), x) && tree == SetPath(old(tree), x, |old(tree)| - 1)
    {
      ghost var t0 := tree;
      PathInRangeOf(t0, x);
      SetPathStart(t0, x);
      var item := x;
      for layer := 0 to |tree| - 1
        invariant item == Ancestor(x, layer)
        invariant tree == SetPath(t0, x, layer)
      {
        InsertStep(t0, x, layer);
        tree := tree[layer := SetInLayer(tree[layer], item)];
        item := MoveUpLayer(item);
        var parentSet := IsParentSet(layer + 1, item);
        if parentSet {
          InsertExit(t0, x, layer + 1, tree);
          break;
        }
      }
      InsertValid(t0, capacity, x);
    }

    /** `delete(x)`: clear `x`'s bit and climb while the word just cleared
        became zero, clearing the parent bit that summarised it. */
    method Delete(x: nat)
      requires Valid()
      requires x < K * |tree[0]|
      modifies this
      ensures Valid()
      ensures Elements() == old(Elements()) - {x}
      ensures PathInRange(old(tree), x)
      ensures exists k :: 1 <= k <= |old(tree)| - 1 && tree == ClearPath(old(tree), x, k)
    {
      ghost var t0 := tree;
      PathInRangeOf(t0, x);
      ClearPathStart(t0, x);
      var item := x;
      ghost var k := |tree| - 1;
      for layer := 0 to |tree| - 1
        invariant item == Ancestor(x, layer)
        invariant tree == ClearPath(t0, x, layer)
        invariant EmptiedBelow(tree, x, layer)
      {
        DeleteStep(t0, x, layer);
        EmptiedKept(tree, x, layer, ClearInLayer(tree[layer], item));
        tree := tree[layer := ClearInLayer(tree[layer], item)];
        var siblingSet := IsAnySiblingSet(layer, item);
        if siblingSet {
          k := layer + 1;
          break;
        }
        item := MoveUpLayer(item);
      }
      DeleteValid(t0, capacity, x, k);
    }

    /** `insert(x)` followed by `delete(x)`, for an `x` not present, restores
        every word of the layers. */
    method InsertDeleteRestores(x: nat)
      requires Valid()
      requires x < K * |tree[0]| && x !in Elements()
      modifies this
      ensures tree == old(tree)
    {
      ghost var t0 := tree;
      ghost var e := Elements();
      assert e + {x} - {x} == e;
      Insert(x);
      Delete(x);
      Canonical(tree, t0, capacity);
    }

    /** `successor(x)`: the least element above `x`, or none. The first loop
        climbs while `x`'s ancestor has no set bit after it in its word; the
        second descends from the bit found to the first set leaf below it. */
    method Successor(x: nat) returns (r: Option<nat>)
      requires Valid()
      requires x < K * |tree[0]|
      ensures r.None? ==> forall y :: y in Elements() ==> y <= x
      ensures r.Some? ==> r.value in Elements() && r.value > x
      ensures r.Some? ==> forall y :: y in Elements() && y > x ==> r.value <= y
    {
      PathInRangeOf(tree, x);
      var item := x;
      var layer := 0;
      var next := GreaterSiblingInBlock(layer, item);
      if next != 0 {
        HitLeaf(tree, x, next);
        return Some(next);
      }
      while next == 0 && layer < |tree| - 1
        invariant 0 <= layer <= |tree| - 1
        invariant item == Ancestor(x, layer)
        invariant Beyond(tree, x, layer)
        invariant next == 0 ==> NoneInBlockAfter(tree, layer, item)
        invariant next != 0 ==> FirstInBlockAfter(tree, layer, item, next)
        decreases |tree| - layer
      {
        ClimbStep(tree, x, layer);
        item := MoveUpLayer(item);
        layer := layer + 1;
        next := GreaterSiblingInBlock(layer, item);
      }
      if next == 0 {
        ClimbExhausted(tree, x);
        return None;
      }
      Hit(tree, x, layer, next);
      while layer > 0
        invariant 0 <= layer <= |tree| - 2
        invariant Frontier(tree, x, layer, next)
      {
        Descend(tree, x, layer, next);
        item := MoveDown(next);
        layer := layer - 1;
        next := FirstItemSetInBlock(layer, item);
      }
      Found(tree, x, next);
      return Some(next);
    }

    /** `greater_sibling_in_block(layer, item)`: the first set position of
        `layer` after `item` within `item`'s word, or 0 when there is none. */
    method GreaterSiblingInBlock(layer: nat, item: nat) returns (r: nat)
      requires layer < |tree| && item / K < |tree[layer]|
      ensures r == 0 <==> NoneInBlockAfter(tree, layer, item)
      ensures r != 0 ==> FirstInBlockAfter(tree, layer, item, r)
    {
      var value := tree[layer][item / K];
      var mask: bv64 := 0;
      assert mask == LowMask(0);
      for i := 0 to item % K + 1
        invariant mask == LowMask(i)
      {
        LowMaskStep(i);
        mask := SetBit(mask, i);
      }
      value := AndNot(value, mask);
      AboveMask(tree, layer, item, value);
      if value == 0 {
        return 0;
      }
      r := (item / K) * K + TrailingZeros(value);
    }

    /** `first_item_set_in_block(layer, block)`: `block` plus the offset of the
        lowest set bit of its word; for a block start whose word is non-zero,
        the first set position at or after `block`. */
    function FirstItemSetInBlock(layer: nat, block: nat): (r: nat)
      reads this
      requires layer < |tree| && block / K < |tree[layer]|
      ensures block % K == 0 && tree[layer][block / K] != 0 ==>
        r / K == block / K && Get(tree, layer, r) &&
        forall p: nat :: block <= p < r ==> !Get(tree, layer, p)
    {
      FirstSet(tree, layer, block / K);
      block + TrailingZeros(tree[layer][block / K])
    }

    /** `is_any_sibling_set(layer, item)`: some position in `item`'s word is
        set. */
    function IsAnySiblingSet(layer: nat, item: nat): (r: bool)
      reads this
      requires layer < |tree| && item / K < |tree[layer]|
      ensures r <==> exists p: nat :: p / K == item / K && Get(tree, layer, p)
    {
      BlockOccupied(tree, layer, item / K);
      tree[layer][item / K] != 0
    }

    /** `is_parent_set(layer, item)`: bit `item` of `layer` is set. */
    function IsParentSet(layer: nat, item: nat): (r: bool)
      reads this
      requires layer < |tree| && item / K < |tree[layer]|
      ensures r <==> Get(tree, layer, item)
    {
      Test(tree[layer][item / K], item % K)
    }

    /** `move_up_layer(item)`: the position one layer up, whose word-sized
        block of 64 children holds `item`. */
    static function MoveUpLayer(item: nat): (r: nat)
      ensures K * r <= item < K * (r + 1)
    {
      item / K
    }

    /** `move_down(item)`: the first child of `item` one layer down. */
    static function MoveDown(item: nat): (r: nat)
      ensures r % K == 0 && r / K == item
    {
      item * K
    }

    /** `rquery(lower, upper)`, as written: `lower` itself is reported when
        bit 0 of its word is set (which is `lower`'s own bit only when
        `lower` starts a word), then the successors of `lower` below
        `upper`, in increasing order. */
    method RQuery(lower: nat, upper: nat) returns (result: seq<nat>)
      requires Valid()
      requires lower < K * |tree[0]|
      ensures LowerReported(tree, lower) ==>
        |result| >= 1 && result[0] == lower && Lists(result[1..], Elements(), lower, upper)
      ensures !LowerReported(tree, lower) ==> Lists(result, Elements(), lower, upper)
      ensures lower % K == 0 && lower < upper ==>
        Increasing(result) &&
        forall y :: y in result <==> y in Elements() && lower <= y < upper
    {
      result := [];
      if LowBitSet(tree[0][lower / K]) {
        result := result + [lower];
      }
      var rest := SuccessorsAbove(lower, upper);
      result := result + rest;
      assert LowerReported(tree, lower) ==> result[1..] == rest;
      if lower % K == 0 && lower < upper {
        WordStart(tree, lower);
        ReportedRange(result, |result| - |rest|, Elements(), lower, upper);
      }
    }

    /** The corrected range query: exactly the elements in `[lower, upper)`,
        in increasing order. `lower` is reported when its own bit is set and
        it is below `upper`. */
    method RangeQuery(lower: nat, upper: nat) returns (result: seq<nat>)
      requires Valid()
      requires lower < K * |tree[0]|
      ensures Increasing(result)
      ensures forall y :: y in result <==> y in Elements() && lower <= y < upper
    {
      result := [];
      var present := IsParentSet(0, lower);
      if present && lower < upper {
        result := result + [lower];
      }
      var rest := SuccessorsAbove(lower, upper);
      result := result + rest;
      ReportedRange(result, |result| - |rest|, Elements(), lower, upper);
    }

    /** `rquery`'s loop: starting from `lower`, collect successors while they
        are below `upper`. Each successor is larger than the last, so the loop
        ends, and it lists exactly the elements strictly between `lower` and
        `upper`. */
    method SuccessorsAbove(lower: nat, upper: nat) returns (rest: seq<nat>)
      requires Valid()
      requires lower < K * |tree[0]|
      ensures Lists(rest, Elements(), lower, upper)
    {
      rest := [];
      var cur := lower;
      ScanStart(Elements(), lower, upper);
      while true
        invariant cur < K * |tree[0]|
        invariant Scanned(rest, Elements(), lower, upper, cur)
        decreases K * |tree[0]| - cur
      {
        var s := Successor(cur);
        if s.None? {
          ScanEnd(rest, Elements(), lower, upper, cur);
          return;
        }
        var next := s.value;
        if next >= upper {
          ScanEnd(rest, Elements(), lower, upper, cur);
          return;
        }
        ScanStep(rest, Elements(), lower, upper, cur, next);
        rest := rest + [next];
        cur := next;
      }
    }

    /** `is_empty()`: the root word is zero. */
    method IsEmpty() returns (r: bool)
      requires Valid()
      ensures r <==> Elements() == {}
    {
      RootEmpty(tree);
      r := tree[|tree| - 2][0] == 0;
    }

    /** `min()`: 0 when its bit is set, otherwise the successor of 0. */
    method Min() returns (r: Option<nat>)
      requires Valid()
      ensures r.None? <==> Elements() == {}
      ensures r.Some? ==> r.value in Elements() && forall y :: y in Elements() ==> r.value <= y
    {
      if LowBitSet(tree[0][0]) {
        assert Get(tree, 0, 0);
        assert 0 in Elements();
        return Some(0);
      }
      r := Successor(0);
      assert !Get(tree, 0, 0);
    }
  }

  /** Bit 0 of `lower`'s word, which `rquery` tests to decide whether to
      report `lower` itself. */
  predicate LowerReported(t: Tree, lower: nat)
    requires |t| > 0 && lower / K < |t[0]|
  {
    Bit(t[0][lower / K], 0)
  }

  /** `rquery`'s test of bit 0 misreports a `lower` inside a word, for every
      size: after `new(n)` and `insert(0)`, `rquery(1, 2)` reports 1, which
      is absent. */
  method ReportsAbsent(n: nat) returns (t: SuccTree, r: seq<nat>)
    requires n >= 2
    ensures t.Valid() && t.Elements() == {0}
    ensures 1 in r
  {
    t := new SuccTree(n);
    t.Insert(0);
    assert Get(t.tree, 0, 0);
    r := t.RQuery(1, 2);
  }

  /** The other half of the misreport: after `new(n)` and `insert(1)`,
      `rquery(1, 2)` leaves out 1, which is present and in range. */
  method OmitsPresent(n: nat) returns (t: SuccTree, r: seq<nat>)
    requires n >= 2
    ensures t.Valid() && t.Elements() == {1}
    ensures 1 !in r
  {
    t := new SuccTree(n);
    t.Insert(1);
    assert !Get(t.tree, 0, 0);
    r := t.RQuery(1, 2);
  }

  /** The test reads `lower`'s own bit when `lower` starts its word. */
  lemma WordStart(t: Tree, lower: nat)
    requires |t| > 0 && lower / K < |t[0]|
    requires lower % K == 0
    ensures LowerReported(t, lower) <==> Get(t, 0, lower)
  {
  }

  predicate Increasing(s: seq<nat>)
  {
    forall i, j :: 0 <= i < j < |s| ==> s[i] < s[j]
  }

  /** `s` lists, in increasing order, exactly the elements of `e` strictly
      between `lower` and `upper`. */
  ghost predicate Lists(s: seq<nat>, e: set<nat>, lower: nat, upper: nat)
  {
    Increasing(s) &&
    forall y :: y in s <==> y in e && lower < y < upper
  }

  /** The range loop's invariant: `r` lists, in increasing order, the
      elements of `e` in `(lower, cur]` that are below `upper`. */
  ghost predicate Scanned(r: seq<nat>, e: set<nat>, lower: nat, upper: nat, cur: nat)
  {
    lower <= cur &&
    Increasing(r) &&
    (forall y :: y in r ==> y in e && lower < y <= cur && y < upper) &&
    (forall y :: y in e && lower < y <= cur && y < upper ==> y in r)
  }

  lemma ScanStart(e: set<nat>, lower: nat, upper: nat)
    ensures Scanned([], e, lower, upper, lower)
  {
  }

  /** Appending the successor `next` of `cur` moves the scan to `next`. */
  lemma ScanStep(r: seq<nat>, e: set<nat>, lower: nat, upper: nat, cur: nat, next: nat)
    requires Scanned(r, e, lower, upper, cur)
    requires next in e && cur < next < upper
    requires forall y :: y in e && y > cur ==> next <= y
    ensures Scanned(r + [next], e, lower, upper, next)
  {
    var r' := r + [next];
    forall i, j | 0 <= i < j < |r'|
      ensures r'[i] < r'[j]
    {
      if j == |r| {
        assert r'[i] in r;
      } else {
        assert r'[i] == r[i] && r'[j] == r[j];
      }
    }
  }

  /** When no element above `cur` is below `upper`, the scan is complete. */
  lemma ScanEnd(r: seq<nat>, e: set<nat>, lower: nat, upper: nat, cur: nat)
    requires Scanned(r, e, lower, upper, cur)
    requires forall y :: y in e && y > cur ==> upper <= y
    ensures Lists(r, e, lower, upper)
  {
  }

  /** An optional `lower` followed by the elements strictly between `lower`
      and `upper`. */
  lemma ReportedRange(s: seq<nat>, h: nat, e: set<nat>, lower: nat, upper: nat)
    requires h <= 1 && h <= |s|
    requires h == 1 ==> s[0] == lower && lower in e && lower < upper
    requires h == 0 ==> !(lower in e && lower < upper)
    requires Increasing(s[h..])
    requires forall y :: y in s[h..] ==> y in e && lower < y < upper
    requires forall y :: y in e && lower < y < upper ==> y in s[h..]
    ensures Lists(s[h..], e, lower, upper)
    ensures Increasing(s)
    ensures forall y :: y in s <==> y in e && lower <= y < upper
  {
    if h == 1 {
      assert s == [s[0]] + s[1..];
      forall i, j | 0 <= i < j < |s|
        ensures s[i] < s[j]
      {
        if i > 0 {
          assert s[i] == s[1..][i - 1] && s[j] == s[1..][j - 1];
        } else {
          assert s[j] in s[1..];
        }
      }
    } else {
      assert s[h..] == s;
    }
  }

  /** The first set bit at or after the start of word `w`. */
  lemma FirstSet(t: Tree, l: nat, w: nat)
    requires l < |t| && w < |t[l]|
    ensures var r := K * w + TrailingZeros(t[l][w]);
      t[l][w] != 0 ==>
      r / K == w && Get(t, l, r) &&
      forall p: nat :: K * w <= p < r ==> !Get(t, l, p)
  {
    if t[l][w] == 0 {
      return;
    }
    var j := TrailingZeros(t[l][w]);
    var r := K * w + j;
    GetWord(t, l, w, j);
    assert r / K == w;
    forall p: nat | K * w <= p < r
      ensures !Get(t, l, p)
    {
      assert p == K * w + (p - K * w);
      GetWord(t, l, w, p - K * w);
    }
  }
}
