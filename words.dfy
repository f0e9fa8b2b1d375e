/** Machine words of the bitmap: `usize` on a 64-bit target, modelled as `bv64`.
    Bit `i` of a word stands for offset `i` within its block, so the
    least-significant set bit is the smallest offset present.

    Offsets are `nat`s below 64 everywhere else in the model; inside this
    module each fact is first proved on a `bv7` shift amount and then
    carried over to the `nat` offset. */
module Words {

  /** Bits per word (`BLOCK_SIZE_BYTES` counts bits, not bytes). */
  const K: nat := 64

  /** Is bit `i` of `w` set? */
  predicate Bit(w: bv64, i: nat)
    requires i < K
  {
    BitAt(w, i as bv7)
  }

  /** `1 << i`. */
  function Single(i: nat): bv64
    requires i < K
  {
    SingleAt(i as bv7)
  }

  /** `w | (1 << i)`: bit `i` becomes set and no other bit changes. */
  function SetBit(w: bv64, i: nat): (r: bv64)
    requires i < K
    ensures Bit(r, i)
    ensures forall j :: 0 <= j < K && j != i ==> (Bit(r, j) <==> Bit(w, j))
  {
    var r := SetAt(w, i as bv7);
    forall j | 0 <= j < K
      ensures Bit(r, j) <==> j == i || Bit(w, j)
    {
      SetBitBit(w, i, j);
    }
    r
  }

  /** Setting a bit that is already set leaves the word as it was. */
  lemma SetBitIdempotent(w: bv64, i: nat)
    requires i < K
    requires Bit(w, i)
    ensures SetBit(w, i) == w
  {
    Extensional(SetBit(w, i), w);
  }

  /** `w & !(1 << i)`: bit `i` becomes clear and no other bit changes. */
  function ClearBit(w: bv64, i: nat): (r: bv64)
    requires i < K
    ensures !Bit(r, i)
    ensures forall j :: 0 <= j < K && j != i ==> (Bit(r, j) <==> Bit(w, j))
  {
    var r := ClearAt(w, i as bv7);
    forall j | 0 <= j < K
      ensures Bit(r, j) <==> j != i && Bit(w, j)
    {
      ClearBitBit(w, i, j);
    }
    r
  }

  /** `w & (1 << i) != 0`: bit `i` is set. */
  function Test(w: bv64, i: nat): (r: bool)
    requires i < K
    ensures r <==> Bit(w, i)
  {
    Bound(i);
    TestBitAt(w, i as bv7);
    w & Single(i) != 0
  }

  /** `w & 1 != 0` (equivalently `w & 1 == 1`): bit 0 is set. */
  function LowBitSet(w: bv64): (r: bool)
    ensures r <==> Bit(w, 0)
    ensures r <==> w & 1 == 1
  {
    w & 1 != 0
  }

  /** `w & !m`: the bits of `w` outside `m`. */
  function AndNot(w: bv64, m: bv64): (r: bv64)
    ensures forall j :: 0 <= j < K ==> (Bit(r, j) <==> Bit(w, j) && !Bit(m, j))
  {
    var r := w & !m;
    forall j | 0 <= j < K
      ensures Bit(r, j) <==> Bit(w, j) && !Bit(m, j)
    {
      AndNotBit(w, m, j);
    }
    r
  }

  /** A word is zero exactly when none of its 64 bits is set. */
  lemma ZeroIff(w: bv64)
    ensures w == 0 <==> forall j :: 0 <= j < K ==> !Bit(w, j)
  {
    if w != 0 {
      var n := TrailingZeros(w);
      assert Bit(w, n);
    }
  }

  /** Two words with the same bits are the same word. */
  lemma Extensional(a: bv64, b: bv64)
    requires forall j :: 0 <= j < K ==> (Bit(a, j) <==> Bit(b, j))
    ensures a == b
  {
    var d := a ^ b;
    forall j | 0 <= j < K
      ensures !Bit(d, j)
    {
      XorBit(a, b, j);
    }
    ZeroIffBits(d);
    XorZero(a, b);
  }

  /** The mask with bits `0 .. i-1` set (`1 << i` minus one; all 64 bits
      when `i == 64`). */
  function LowMask(i: nat): (r: bv64)
    requires i <= K
    ensures forall j :: 0 <= j < K ==> (Bit(r, j) <==> j < i)
  {
    var r: bv64 := MaskAt(i as bv7);
    forall j | 0 <= j < K
      ensures Bit(r, j) <==> j < i
    {
      LowMaskBit(i, j);
    }
    r
  }

  /** Or-ing bit `i` into the mask of bits below `i` gives the mask of bits
      below `i + 1`. */
  lemma LowMaskStep(i: nat)
    requires i < K
    ensures SetBit(LowMask(i), i) == LowMask(i + 1)
  {
    Bound(i);
    Succ(i);
    LowMaskStepAt(i as bv7);
  }

  /** The bits of `w & !m` are the bits of `w` outside `m`. */
  lemma AndNotBit(w: bv64, m: bv64, j: nat)
    requires j < K
    ensures Bit(w & !m, j) <==> Bit(w, j) && !Bit(m, j)
  {
    Bound(j);
    AndNotBitAt(w, m, j as bv7);
  }

  /** A word none of whose 64 bits is set is zero. */
  lemma ZeroIffBits(w: bv64)
    requires forall j :: 0 <= j < K ==> !Bit(w, j)
    ensures w == 0
  {
    forall b: bv7 | b < 64
      ensures !BitAt(w, b)
    {
      RoundTrip(b);
      assert !Bit(w, b as int);
    }
    AllClear(w);
  }

  /** The 64 bits of a word, one by one: if none is set the word is zero. */
  lemma AllClear(w: bv64)
    requires !BitAt(w, 0) && !BitAt(w, 1) && !BitAt(w, 2) && !BitAt(w, 3) && !BitAt(w, 4) && !BitAt(w, 5) && !BitAt(w, 6) && !BitAt(w, 7) &&
             !BitAt(w, 8) && !BitAt(w, 9) && !BitAt(w, 10) && !BitAt(w, 11) && !BitAt(w, 12) && !BitAt(w, 13) && !BitAt(w, 14) && !BitAt(w, 15) &&
             !BitAt(w, 16) && !BitAt(w, 17) && !BitAt(w, 18) && !BitAt(w, 19) && !BitAt(w, 20) && !BitAt(w, 21) && !BitAt(w, 22) && !BitAt(w, 23) &&
             !BitAt(w, 24) && !BitAt(w, 25) && !BitAt(w, 26) && !BitAt(w, 27) && !BitAt(w, 28) && !BitAt(w, 29) && !BitAt(w, 30) && !BitAt(w, 31) &&
             !BitAt(w, 32) && !BitAt(w, 33) && !BitAt(w, 34) && !BitAt(w, 35) && !BitAt(w, 36) && !BitAt(w, 37) && !BitAt(w, 38) && !BitAt(w, 39) &&
             !BitAt(w, 40) && !BitAt(w, 41) && !BitAt(w, 42) && !BitAt(w, 43) && !BitAt(w, 44) && !BitAt(w, 45) && !BitAt(w, 46) && !BitAt(w, 47) &&
             !BitAt(w, 48) && !BitAt(w, 49) && !BitAt(w, 50) && !BitAt(w, 51) && !BitAt(w, 52) && !BitAt(w, 53) && !BitAt(w, 54) && !BitAt(w, 55) &&
             !BitAt(w, 56) && !BitAt(w, 57) && !BitAt(w, 58) && !BitAt(w, 59) && !BitAt(w, 60) && !BitAt(w, 61) && !BitAt(w, 62) && !BitAt(w, 63)
    ensures w == 0
  {
  }

  lemma XorBit(a: bv64, b: bv64, j: nat)
    requires j < K
    ensures Bit(a ^ b, j) <==> Bit(a, j) != Bit(b, j)
  {
    Bound(j);
    XorBitAt(a, b, j as bv7);
  }

  lemma SetBitBit(w: bv64, i: nat, j: nat)
    requires i < K && j < K
    ensures Bit(SetAt(w, i as bv7), j) <==> j == i || Bit(w, j)
  {
    Bound(i);
    Bound(j);
    Same(i, j);
    SetBitAt(w, i as bv7, j as bv7);
  }

  lemma ClearBitBit(w: bv64, i: nat, j: nat)
    requires i < K && j < K
    ensures Bit(ClearAt(w, i as bv7), j) <==> j != i && Bit(w, j)
  {
    Bound(i);
    Bound(j);
    Same(i, j);
    ClearBitAt(w, i as bv7, j as bv7);
  }

  lemma LowMaskBit(i: nat, j: nat)
    requires i <= K && j < K
    ensures Bit(MaskAt(i as bv7), j) <==> j < i
  {
    Bound(i);
    Bound(j);
    Order(i, j);
    LowMaskAt(i as bv7, j as bv7);
  }

  /** `trailing_zeros`: the index of the least significant set bit, or 64
      when the word is zero. */
  function TrailingZeros(w: bv64): (n: nat)
    ensures n <= K
    ensures n == K <==> w == 0
    ensures n < K ==> Bit(w, n)
    ensures forall j :: 0 <= j < n && j < K ==> !Bit(w, j)
  {
    TrailingZerosFrom(w, 0)
  }

  /** Scan upward from bit `i`, knowing that the bits below `i` are clear. */
  function TrailingZerosFrom(w: bv64, i: nat): (n: nat)
    requires i <= K
    requires forall j :: 0 <= j < i ==> !Bit(w, j)
    ensures i <= n <= K
    ensures n == K <==> w == 0
    ensures n < K ==> Bit(w, n)
    ensures forall j :: 0 <= j < n && j < K ==> !Bit(w, j)
    decreases K - i
  {
    if i == K then
      ZeroIffBits(w);
      K
    else if Bit(w, i) then
      i
    else
      TrailingZerosFrom(w, i + 1)
  }

  // ---------------------------------------------------------------------
  // Facts on bv7 shift amounts, and the link between `nat` offsets and them.

  lemma Value(i: nat)
    requires i <= K
    ensures (i as bv7) as int == i
  {
  }

  lemma Bound(i: nat)
    requires i <= K
    ensures i as bv7 <= 64
  {
    Value(i);
  }

  lemma Same(i: nat, j: nat)
    requires i < K && j < K
    ensures (i as bv7 == j as bv7) <==> i == j
  {
    Value(i);
    Value(j);
  }

  lemma Order(i: nat, j: nat)
    requires i <= K && j < K
    ensures (j as bv7 < i as bv7) <==> j < i
  {
    Value(i);
    Value(j);
  }

  lemma Succ(i: nat)
    requires i < K
    ensures (i as bv7) + 1 == (i + 1) as bv7
  {
    Value(i);
    Value(i + 1);
    AddOne(i as bv7);
    ValueInjective((i as bv7) + 1, (i + 1) as bv7);
  }

  /** If bits below `a` of `w` are clear, masking `w` with them gives zero. */

  lemma RoundTrip(b: bv7)
    ensures (b as int) as bv7 == b
  {
  }

  lemma AddOne(a: bv7)
    requires a < 64
    ensures (a + 1) as int == a as int + 1
  {
  }

  lemma ValueInjective(a: bv7, b: bv7)
    requires a as int == b as int
    ensures a == b
  {
  }

  predicate BitAt(w: bv64, b: bv7)
    requires b < 64
  {
    (w >> b) & 1 == 1
  }

  function SingleAt(a: bv7): bv64
    requires a < 64
  {
    1 << a
  }

  function MaskAt(b: bv7): bv64
    requires b <= 64
  {
    (1 << b) - 1
  }

  function SetAt(w: bv64, a: bv7): bv64
    requires a < 64
  {
    w | SingleAt(a)
  }

  function ClearAt(w: bv64, a: bv7): bv64
    requires a < 64
  {
    w & !SingleAt(a)
  }

  lemma SetBitAt(w: bv64, a: bv7, b: bv7)
    requires a < 64 && b < 64
    ensures BitAt(SetAt(w, a), b) <==> a == b || BitAt(w, b)
  {
    if a == b {
      SetSameAt(w, a);
    } else {
      SetOtherAt(w, a, b);
    }
  }

  lemma SetSameAt(w: bv64, a: bv7)
    requires a < 64
    ensures BitAt(SetAt(w, a), a)
  {
  }

  lemma SetOtherAt(w: bv64, a: bv7, b: bv7)
    requires a < 64 && b < 64 && a != b
    ensures BitAt(w | SingleAt(a), b) == BitAt(w, b)
  {
  }

  lemma ClearBitAt(w: bv64, a: bv7, b: bv7)
    requires a < 64 && b < 64
    ensures BitAt(ClearAt(w, a), b) <==> a != b && BitAt(w, b)
  {
    if a == b {
      ClearSameAt(w, a);
    } else {
      ClearOtherAt(w, a, b);
    }
  }

  lemma ClearSameAt(w: bv64, a: bv7)
    requires a < 64
    ensures !BitAt(ClearAt(w, a), a)
  {
  }

  lemma ClearOtherAt(w: bv64, a: bv7, b: bv7)
    requires a < 64 && b < 64 && a != b
    ensures BitAt(w & !SingleAt(a), b) == BitAt(w, b)
  {
  }

  lemma AndNotBitAt(w: bv64, m: bv64, b: bv7)
    requires b < 64
    ensures BitAt(w & !m, b) <==> BitAt(w, b) && !BitAt(m, b)
  {
  }

  lemma XorBitAt(u: bv64, v: bv64, b: bv7)
    requires b < 64
    ensures BitAt(u ^ v, b) <==> BitAt(u, b) != BitAt(v, b)
  {
  }

  lemma TestBitAt(w: bv64, a: bv7)
    requires a < 64
    ensures (w & SingleAt(a) != 0) <==> BitAt(w, a)
  {
  }

  lemma XorZero(a: bv64, b: bv64)
    requires a ^ b == 0
    ensures a == b
  {
  }

  lemma LowMaskAt(i: bv7, j: bv7)
    requires i <= 64 && j < 64
    ensures BitAt(MaskAt(i), j) <==> j < i
  {
  }

  lemma LowMaskStepAt(a: bv7)
    requires a < 64
    ensures MaskAt(a) | SingleAt(a) == MaskAt(a + 1)
  {
  }

}
