# SuccTree in Dafny

A model of `SuccTree`, a 64-ary hierarchy of bitmaps over the positions
`0 .. 64 * w - 1` that answers successor queries. Layer 0 has one bit per
position. Bit `b` of layer `l + 1` records whether word `b` of layer `l` is
non-zero. `insert` and `delete` set or clear a leaf bit and repair the summary
bits above it. `successor` climbs to the first layer with a set bit to the
right of the current position, then descends along the lowest set bits.
`rquery`, `min` and `is_empty` are built on these.

The files follow the structure of the program:

- `words.dfy` (module `Words`): a `usize` word as `bv64`, with its bit
  operations: `|= 1 << i`, `&= !(1 << i)`, `& !mask`, `trailing_zeros`, and
  the mask loop.
- `sizing.dfy` (module `Sizing`): the number of layers and the words per
  layer that `new` allocates, in exact integer arithmetic.
- `layers.dfy` (module `Layers`): the layers as a value (`seq<seq<bv64>>`).
  It defines the element set (the set leaf bits), the summary invariant, and
  what a set bit in a higher layer means.
- `updates.dfy` (module `Updates`): the bits `insert` and `delete` change, as
  functions on the layers (`SetPath`, `ClearPath`). It proves that they keep
  the invariant and add or remove exactly one element.
- `search.dfy` (module `Search`): the facts that `successor`'s climb and
  descent keep.
- `succtree.dfy` (module `SuccTrees`): the class `SuccTree`, with
  `tree: seq<seq<bv64>>` reassigned in place by its methods. The methods
  follow the source's loops. Each is proved against the set of present
  positions, `Elements()`.

The invariant `Valid()` has three parts:

- The layers have the shape `new(n)` gives them.
- Layers `0 .. len-3` are each summarised by the layer above.
- The last layer, which no operation writes, is all zero.

The real root is therefore the single word of layer `len-2`. This follows the
code: `insert` and `delete` only loop over layers `0 ..= len-2`
(src/lib.rs:41, 56), so the last layer is allocated but never written, and
`is_empty` reads layer `len-2` (src/lib.rs:132). The model keeps that layer
and states that it stays zero; it does not treat it as the root.

## Model

| member | source | states |
|---|---|---|
| SuccTrees.SuccTree.constructor | src/lib.rs:24-36 | `ceil(log_64 n) + 1` layers; layer `i` has `ceil(ceil(n / 64^i) / 64)` words, all zero; for `n >= 2` the tree is valid and holds no element |
| Sizing.CeilDiv | src/lib.rs:30-31 | the result is the least `r` with `r * b >= a` |
| Sizing.CeilLog64 | src/lib.rs:27 | the result is the least exponent `r` with `64^r >= n` |
| Sizing.LayerWordsIsCells | src/lib.rs:30-31 | rounding up once by `64^i` and then by 64 equals rounding up by 64 `i + 1` times, so each layer has one bit per word of the layer below |
| Sizing.TopLayers | src/lib.rs:24-36 | for `n >= 2` there are at least two layers, and the last two have exactly one word each |
| Sizing.SixtyFourLayers | src/lib.rs:289-292 | `new(64)` gives two layers of one word each |
| Layers.EmptyValid | src/lib.rs:24-36 | the all-zero layers `new` allocates satisfy the invariant and hold no element |
| Layers.Meaning | src/lib.rs:6-8 | under the invariant, bit `p` of a summarised layer `l` is set exactly when some present element has `p` as its layer-`l` ancestor |
| Layers.RootEmpty | src/lib.rs:130-133 | under the invariant, word 0 of layer `len-2` is zero exactly when no element is present |
| Layers.Canonical | src/lib.rs:312-337 | two valid trees of the same size with the same elements are equal word for word |
| Layers.UnderRoot | src/lib.rs:41-50 | every leaf position has an ancestor below 64 in layer `len-2` and 0 in the last layer |
| Words.SetBit | src/lib.rs:44 | or-ing `1 << i` into `w` sets bit `i` and keeps every other bit |
| Words.SetBitIdempotent | src/lib.rs:303-305 | setting a bit already set leaves the word unchanged |
| Words.ClearBit | src/lib.rs:59 | `w & !(1 << i)` clears bit `i` and keeps every other bit |
| Words.Test | src/lib.rs:180 | `w & (1 << i) != 0` holds exactly when bit `i` is set |
| Words.LowBitSet | src/lib.rs:113 | `w & 1 == 1` holds exactly when bit 0 is set |
| Words.AndNot | src/lib.rs:162 | the bits of `w & !m` are those of `w` outside `m` |
| Words.LowMask | src/lib.rs:157-161 | the mask has exactly bits `0 .. i-1` set |
| Words.LowMaskStep | src/lib.rs:158-161 | or-ing bit `i` into the mask of bits below `i` gives the mask of bits below `i + 1` |
| Words.TrailingZeros | src/lib.rs:168 | the result is 64 exactly for a zero word; otherwise it is the index of the lowest set bit, with every lower bit clear |
| Words.ZeroIff | src/lib.rs:174 | a word is zero exactly when none of its 64 bits is set |
| Updates.SetInLayer | src/lib.rs:44 | setting position `p` of a layer sets exactly `p`; only `p`'s word changes |
| Updates.ClearInLayerBits | src/lib.rs:59 | clearing position `p` of a layer clears exactly `p`; only `p`'s word changes |
| Updates.InsertStep | src/lib.rs:41-47 | the word set and the parent word tested exist; setting the ancestor in layer `k` extends the set path by one layer |
| Updates.InsertBreak | src/lib.rs:46-49 | once the parent bit in layer `m` is already set, setting the path up to `m` gives the same layers as setting it up to the root |
| Updates.PathSet | src/lib.rs:46-49 | under the invariant, a set ancestor bit in layer `l` implies a set ancestor bit in every layer from `l` to the root |
| Updates.SetPathElements | src/lib.rs:41-44 | setting `x`'s ancestor path adds exactly `x` to the elements |
| Updates.InsertValid | src/lib.rs:39-51 | setting `x`'s ancestors in layers `0 .. len-2` keeps the tree valid and adds exactly `x` |
| Updates.InsertPresent | src/lib.rs:303-305 | inserting an element already present changes no word |
| Updates.ClearPathEffect | src/lib.rs:56-60 | clearing `x`'s path up to layer `k` clears exactly `x`'s ancestors in layers below `k`; only the words holding them change |
| Updates.DeleteStep | src/lib.rs:56-64 | the word `delete` clears exists; clearing the ancestor in layer `m` extends the cleared path by one layer, and the next ancestor is the word index |
| Updates.EmptiedKept | src/lib.rs:59-63 | clearing layer `m` keeps the record that every word below `m` became zero; if the word at `m` also became zero, the record extends to `m + 1` |
| Updates.DeleteValid | src/lib.rs:54-66 | clearing up to the layer where a sibling survives (or up to the root) keeps the tree valid and removes exactly `x` |
| Search.TopClear | src/lib.rs:41-44 | under the invariant, no bit of the last layer is set |
| Search.ClimbStep | src/lib.rs:77-82 | if no bit follows `x`'s ancestor in its word at layer `l`, then every element above `x` has a layer-`l + 1` ancestor right of `x`'s |
| Search.ClimbExhausted | src/lib.rs:83-86 | when the climb passes the root with nothing found, no element is above `x` |
| Search.HitLeaf | src/lib.rs:72-76 | the first set bit after `x` in `x`'s own leaf word is the least element above `x` |
| Search.Hit | src/lib.rs:77-87 | the climb stops below the last layer, and the elements above `x` are exactly those whose ancestor at the stopping layer is at or beyond the bit found |
| Search.Descend | src/lib.rs:87-92 | under the invariant, the child word of a set bit is non-zero, and its lowest set bit carries the descent invariant one layer down |
| Search.Found | src/lib.rs:94 | at layer 0 the descent invariant names the least element above `x` |
| Search.AboveMask | src/lib.rs:156-166 | the masked word is zero exactly when no bit follows `i` in its word; otherwise its lowest bit is the first bit after `i` |
| SuccTrees.SuccTree.Insert | src/lib.rs:39-51 | the tree stays valid; the elements become the old elements plus `x`; the new layers are the old ones with `x`'s ancestors set in every layer below the last |
| SuccTrees.SuccTree.Delete | src/lib.rs:54-66 | the tree stays valid; the elements become the old elements minus `x`; the new layers are the old ones with `x`'s ancestors cleared in layers `0 .. k-1` for some `k` |
| SuccTrees.SuccTree.InsertDeleteRestores | src/lib.rs:312-323 | `insert(x)` then `delete(x)` of an absent `x` restores every word |
| SuccTrees.SuccTree.Successor | src/lib.rs:70-95 | `None` exactly when no element is above `x`; otherwise `Some(m)` with `m` present, `m > x`, and no present element strictly between `x` and `m` |
| SuccTrees.SuccTree.GreaterSiblingInBlock | src/lib.rs:154-169 | the result is 0 exactly when no set bit follows `item` in its word; otherwise it is the first such bit, strictly greater than `item` and in the same word |
| SuccTrees.SuccTree.FirstItemSetInBlock | src/lib.rs:148-151 | for a word start whose word is non-zero, the result is the first set position at or after it, within the same word |
| SuccTrees.FirstSet | src/lib.rs:150 | the start of a non-zero word plus its trailing zeros is its first set position |
| SuccTrees.SuccTree.IsAnySiblingSet | src/lib.rs:172-175 | true exactly when some position in `item`'s word is set |
| SuccTrees.SuccTree.IsParentSet | src/lib.rs:178-181 | true exactly when bit `item` of the layer is set |
| SuccTrees.SuccTree.MoveUpLayer | src/lib.rs:183-186 | the result `r` satisfies `64 * r <= item < 64 * (r + 1)` |
| SuccTrees.SuccTree.MoveDown | src/lib.rs:188-191 | the result is a word start, and moving it up gives `item` back |
| SuccTrees.SuccTree.RQuery | src/lib.rs:110-127 | `lower` is reported exactly when bit 0 of its word is set; it is followed by the elements strictly between `lower` and `upper`, in increasing order; for a word-aligned `lower < upper` the result is exactly the elements of `[lower, upper)`, increasing |
| SuccTrees.SuccTree.SuccessorsAbove | src/lib.rs:117-125 | the loop ends and lists, in increasing order, exactly the elements strictly between `lower` and `upper` |
| SuccTrees.ScanStep | src/lib.rs:123-124 | appending the successor of the last reported element keeps the list increasing and complete up to that element |
| SuccTrees.ScanEnd | src/lib.rs:117-122 | when no element above the last one reported is below `upper`, the list is complete |
| SuccTrees.ReportedRange | src/lib.rs:112-126 | an optional `lower` followed by the elements strictly between `lower` and `upper` is increasing and lists exactly `[lower, upper)` |
| SuccTrees.WordStart | src/lib.rs:113 | for a word-aligned `lower`, the bit-0 test reads `lower`'s own bit |
| SuccTrees.SuccTree.RangeQuery | src/lib.rs:110-127 | the corrected query: exactly the elements of `[lower, upper)`, in increasing order |
| SuccTrees.ReportsAbsent | src/lib.rs:113 | after `new(n)` and `insert(0)`, `rquery(1, 2)` reports the absent position 1 |
| SuccTrees.OmitsPresent | src/lib.rs:113 | after `new(n)` and `insert(1)`, `rquery(1, 2)` leaves out the present position 1 |
| SuccTrees.SuccTree.IsEmpty | src/lib.rs:130-133 | true exactly when no element is present |
| SuccTrees.SuccTree.Min | src/lib.rs:135-145 | `None` exactly when the tree is empty; otherwise the least present element |

## Left out

- The `f64` arithmetic of `new` (`log`, `powi`, `ceil`, src/lib.rs:26-32) is modelled with exact integer ceiling division and an integer ceiling logarithm base 64. The floating-point formula can round differently at exact powers of 64 (for instance `log_64 4096`). The model does not capture such rounding.
- Panics are not modelled; each becomes a precondition. Positions at or beyond `64 * |tree[0]|` hit a bounds check, so every operation requires `x < 64 * |tree[0]|`. This bound is on the words allocated, not on the size `n`, because the code never compares against `n`. For `n <= 1` there is one layer and `len - 2` underflows, so the invariant requires `n >= 2`. The constructor itself accepts any size, as the code does.
- The source does not store the size. The model keeps it as the ghost field `capacity` so that `Valid()` can state the shape `new` gave.
- The million-element test sizes (src/lib.rs:280-287) and the million-element range tests (src/lib.rs:219-256) are not computed. The general contracts of `new`, `Insert`, `Successor` and `RangeQuery` cover them; `new(64)` is computed concretely.
- SuccTrees.SuccTree.RQuery: for a `lower` that does not start a word, the contract states what the code does (the bit-0 test) rather than the inclusive lower bound its doc comment promises (src/lib.rs:98). See Findings.
- `rquery`'s loop is the separate method `SuccessorsAbove`, called by both `RQuery` and `RangeQuery`, so that both share one proof.
- SuccTrees.SuccTree.Delete: the contract fixes the cleared path only up to some layer `k`. `DeleteValid` states what every such `k` must satisfy; the method does not export which `k` it stopped at.
- Machine-word width: `usize` is fixed at 64 bits (`bv64`). Indices are unbounded naturals, because every index is bounded by the layer lengths.

## Findings

| source | as written | input that shows it | evidently intended | confidence | as-written member | corrected member |
|---|---|---|---|---|---|---|
| src/lib.rs:113 | `rquery` includes `lower` when bit 0 of `lower`'s word is set (`& 1`), which tests position `64 * (lower / 64)`, not `lower` | `new(n)` for any `n >= 2`, `insert(0)`, `rquery(1, 2)` reports 1, which is absent; `insert(1)` alone, then `rquery(1, 2)` leaves out 1, which is present | include `lower` exactly when its own bit `lower % 64` is set (and `lower < upper`), giving exactly the elements of `[lower, upper)` | high (not executed) | SuccTrees.SuccTree.RQuery, SuccTrees.ReportsAbsent, SuccTrees.OmitsPresent | SuccTrees.SuccTree.RangeQuery |
