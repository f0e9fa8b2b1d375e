/** How many layers `SuccTree::new` allocates and how many words each layer
    has, in exact integer arithmetic (the source computes the same
    quantities with `f64` logarithms, powers and ceilings). */
module Sizing {

  /** `64^e`. */
  function Pow(e: nat): (r: nat)
    ensures r >= 1
  {
    if e == 0 then 1 else 64 * Pow(e - 1)
  }

  /** `ceil(a / b)`: the least `r` with `r * b >= a`. */
  function CeilDiv(a: nat, b: nat): (r: nat)
    requires b > 0
    ensures r * b >= a
    ensures r > 0 ==> (r - 1) * b < a
  {
    var q := (a + b - 1) / b;
    assert a + b - 1 == q * b + (a + b - 1) % b;
    q
  }

  /** `ceil(log_64 n)`: the least exponent `r` with `64^r >= n`. */
  function CeilLog64(n: nat): (r: nat)
    ensures Pow(r) >= n
    ensures r > 0 ==> Pow(r - 1) < n
    decreases n
  {
    if n <= 1 then
      0
    else
      var c := CeilDiv(n, 64);
      var r := 1 + CeilLog64(c);
      assert Pow(r) == 64 * Pow(r - 1);
      assert Pow(r) >= n by {
        assert Pow(r - 1) >= c;
        MulMono(c, Pow(r - 1), 64);
      }
      assert Pow(r - 1) < n by {
        if r > 1 {
          assert Pow(r - 2) < c;
          assert Pow(r - 1) == 64 * Pow(r - 2);
          MulMono(Pow(r - 2), c - 1, 64);
        }
      }
      r
  }

  /** Number of layers: `ceil(log_64 n) + 1`. */
  function LayerCount(n: nat): nat
  {
    CeilLog64(n) + 1
  }

  /** Words in layer `i`: `ceil(ceil(n / 64^i) / 64)`, the source's formula. */
  function LayerWords(n: nat, i: nat): nat
  {
    CeilDiv(CeilDiv(n, Pow(i)), 64)
  }

  /** Positions in layer `l` that stand for some element below `n`: `n`
      divided by 64 `l` times, rounding up each time. */
  function Cells(n: nat, l: nat): nat
  {
    if l == 0 then n else CeilDiv(Cells(n, l - 1), 64)
  }

  /** Rounding up once by `64^l` is rounding up `l` times by 64, so layer `i`
      has exactly as many words as layer `i + 1` has positions. */
  lemma {:induction false} CellsIsCeilDiv(n: nat, l: nat)
    ensures Cells(n, l) == CeilDiv(n, Pow(l))
  {
    if l > 0 {
      CellsIsCeilDiv(n, l - 1);
      NestedCeilDiv(n, Pow(l - 1), 64);
    }
  }

  lemma LayerWordsIsCells(n: nat, i: nat)
    ensures LayerWords(n, i) == Cells(n, i + 1)
  {
    CellsIsCeilDiv(n, i);
  }

  /** `ceil(ceil(a / b) / c) == ceil(a / (b * c))`. */
  lemma NestedCeilDiv(a: nat, b: nat, c: nat)
    requires b > 0 && c > 0
    ensures CeilDiv(CeilDiv(a, b), c) == CeilDiv(a, c * b)
  {
    var c1 := CeilDiv(a, b);
    var c2 := CeilDiv(c1, c);
    Upper(a, b, c, c1, c2);
    Lower(a, b, c, c1, c2);
    CeilDivUnique(a, c * b, c2);
  }

  lemma Upper(a: nat, b: nat, c: nat, c1: nat, c2: nat)
    requires b > 0 && c > 0
    requires c1 * b >= a && c2 * c >= c1
    ensures c2 * (c * b) >= a
  {
    MulMono(c1, c2 * c, b);
    Assoc(c2, c, b);
  }

  lemma Lower(a: nat, b: nat, c: nat, c1: nat, c2: nat)
    requires b > 0 && c > 0
    requires c1 > 0 ==> (c1 - 1) * b < a
    requires c2 > 0 ==> (c2 - 1) * c < c1
    ensures c2 > 0 ==> (c2 - 1) * (c * b) < a
  {
    if c2 > 0 {
      MulMono((c2 - 1) * c, c1 - 1, b);
      Assoc(c2 - 1, c, b);
    }
  }

  lemma Assoc(x: nat, y: nat, z: nat)
    ensures x * (y * z) == (x * y) * z
  {
  }

  /** `CeilDiv`'s contract pins its result down. */
  lemma CeilDivUnique(a: nat, d: nat, r: nat)
    requires d > 0
    requires r * d >= a
    requires r > 0 ==> (r - 1) * d < a
    ensures r == CeilDiv(a, d)
  {
    var q := CeilDiv(a, d);
    if r < q {
      MulMono(r, q - 1, d);
    } else if r > q {
      MulMono(q, r - 1, d);
    }
  }

  lemma MulMono(x: nat, y: nat, k: nat)
    requires x <= y
    ensures x * k <= y * k
  {
  }

  /** Dividing `l` times by 64 (rounding up) from the bottom or from the top
      is the same. */
  lemma {:induction false} CellsShift(n: nat, m: nat)
    ensures Cells(n, m + 1) == Cells(CeilDiv(n, 64), m)
  {
    if m > 0 {
      CellsShift(n, m - 1);
    }
  }

  /** After `ceil(log_64 n)` roundings at most one position remains. */
  lemma {:induction false} CellsAtLog(n: nat)
    ensures Cells(n, CeilLog64(n)) <= 1
    decreases n
  {
    if n > 1 {
      var c := CeilDiv(n, 64);
      CellsAtLog(c);
      CellsShift(n, CeilLog64(c));
    }
  }

  /** For `n >= 2` the two top layers are one word each: the second-to-last
      layer is the root word and the last layer is its (unused) parent. */
  lemma TopLayers(n: nat)
    requires n >= 2
    ensures LayerCount(n) >= 2
    ensures LayerWords(n, LayerCount(n) - 2) == 1
    ensures LayerWords(n, LayerCount(n) - 1) == 1
  {
    var e := CeilLog64(n);
    CellsAtLog(n);
    LayerWordsIsCells(n, e - 1);
    LayerWordsIsCells(n, e);
    CellsPositive(n, e);
    CellsPositive(n, e + 1);
  }

  lemma {:induction false} CellsPositive(n: nat, l: nat)
    requires n >= 1
    ensures Cells(n, l) >= 1
  {
    if l > 0 {
      CellsPositive(n, l - 1);
    }
  }

  /** `new(64)`: two layers of one word each. */
  lemma SixtyFourLayers()
    ensures LayerCount(64) == 2
    ensures LayerWords(64, 0) == 1 && LayerWords(64, 1) == 1
  {
    assert CeilDiv(64, 64) == 1;
  }
}
