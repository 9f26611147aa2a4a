/** 64-bit words seen as sets of bit positions: the mask macro of the range lock and the
    word operations it is combined with. */
module Bits {

  const U64_MAX: bv64 := 0xFFFF_FFFF_FFFF_FFFF

  /** Bit i of a word, the position given as a shift amount. */
  predicate BitAt(w: bv64, i: bv6) {
    (w >> i) & 1 == 1
  }

  /** Bit i of a word. */
  predicate Bit(w: bv64, i: nat)
    requires i < 64
  {
    BitAt(w, i as bv6)
  }

  /** All bits from position o upward. */
  function HighMask(o: bv6): bv64 {
    U64_MAX << o
  }

  /** All bits except the n highest. */
  function LowMask(n: bv6): bv64 {
    U64_MAX >> n
  }

  /** U64_MAX << o. */
  function FromBit(o: nat): bv64
    requires o < 64
  {
    HighMask(o as bv6)
  }

  /** U64_MAX >> n. */
  function WithoutTop(n: nat): bv64
    requires n < 64
  {
    LowMask(n as bv6)
  }

  /** GET_MASK64(offset, width): both shifts stay below 64, as C requires. */
  function GetMask64(offset: nat, width: nat): bv64
    requires offset < 64 && 1 <= width <= 64 - offset
  {
    FromBit(offset) & WithoutTop((64 - offset) - width)
  }

  lemma IndexBound(b: bv6)
    ensures 0 <= b as int < 64 && (b as int) as bv6 == b
  {
  }

  lemma NextIndex(b: bv6)
    requires b as int < 63
    ensures (b + 1) as int == b as int + 1
  {
  }

  lemma {:induction false} SomeIndex(i: int) returns (b: bv6)
    requires 0 <= i < 64
    ensures b as int == i
    decreases i
  {
    if i == 0 {
      b := 0;
    } else {
      b := SomeIndex(i - 1);
      NextIndex(b);
      b := b + 1;
    }
  }

  lemma IndexRoundTrip(i: int)
    requires 0 <= i < 64
    ensures (i as bv6) as int == i
  {
    var b := SomeIndex(i);
    IndexBound(b);
  }

  /** The order of positions survives the conversion to shift amounts. */
  lemma IndexOrder(i: nat, j: nat)
    requires i < 64 && j < 64
    ensures i <= j <==> (i as bv6) <= (j as bv6)
  {
    IndexRoundTrip(i);
    IndexRoundTrip(j);
  }

  lemma HighOnes(o: bv6, i: bv6)
    ensures BitAt(HighMask(o), i) <==> o <= i
  {
  }

  lemma LowOnes(n: bv6, i: bv6)
    ensures BitAt(LowMask(n), i) <==> i <= 63 - n
  {
  }

  lemma AndAt(a: bv64, b: bv64, i: bv6)
    ensures BitAt(a & b, i) <==> BitAt(a, i) && BitAt(b, i)
  {
  }

  lemma AndBit(a: bv64, b: bv64, i: nat)
    requires i < 64
    ensures Bit(a & b, i) <==> Bit(a, i) && Bit(b, i)
  {
    AndAt(a, b, i as bv6);
  }

  lemma OrAt(a: bv64, b: bv64, i: bv6)
    ensures BitAt(a | b, i) <==> BitAt(a, i) || BitAt(b, i)
  {
  }

  lemma OrBit(a: bv64, b: bv64, i: nat)
    requires i < 64
    ensures Bit(a | b, i) <==> Bit(a, i) || Bit(b, i)
  {
    OrAt(a, b, i as bv6);
  }

  lemma AndNotAt(a: bv64, b: bv64, i: bv6)
    ensures BitAt(a & !b, i) <==> BitAt(a, i) && !BitAt(b, i)
  {
  }

  lemma AndNotBit(a: bv64, b: bv64, i: nat)
    requires i < 64
    ensures Bit(a & !b, i) <==> Bit(a, i) && !Bit(b, i)
  {
    AndNotAt(a, b, i as bv6);
  }

  lemma XorAt(a: bv64, b: bv64, i: bv6)
    ensures BitAt(a ^ b, i) <==> BitAt(a, i) != BitAt(b, i)
  {
  }

  lemma XorBit(a: bv64, b: bv64, i: nat)
    requires i < 64
    ensures Bit(a ^ b, i) <==> Bit(a, i) != Bit(b, i)
  {
    XorAt(a, b, i as bv6);
  }

  lemma ComplementAsNat(b: bv6)
    ensures (63 - b) as nat == 63 - (b as nat)
  {
  }

  lemma ComplementIndex(n: nat)
    requires n < 64
    ensures (63 - n) as bv6 == 63 - (n as bv6)
  {
    IndexRoundTrip(n);
    ComplementAsNat(n as bv6);
  }

  lemma HighBit(o: nat, i: nat)
    requires o < 64 && i < 64
    ensures Bit(FromBit(o), i) <==> o <= i
  {
    HighOnes(o as bv6, i as bv6);
    IndexOrder(o, i);
  }

  lemma LowBit(n: nat, i: nat)
    requires n < 64 && i < 64
    ensures Bit(WithoutTop(n), i) <==> i <= 63 - n
  {
    LowOnes(n as bv6, i as bv6);
    ComplementIndex(n);
    IndexOrder(i, 63 - n);
  }

  /** The mask covers exactly the positions offset .. offset + width. */
  lemma MaskBit(offset: nat, width: nat, i: nat)
    requires offset < 64 && 1 <= width <= 64 - offset && i < 64
    ensures Bit(GetMask64(offset, width), i) <==> offset <= i < offset + width
  {
    hide Bit, FromBit, WithoutTop;
    var n := (64 - offset) - width;
    HighBit(offset, i);
    LowBit(n, i);
    AndBit(FromBit(offset), WithoutTop(n), i);
  }

  lemma ZeroAt(i: bv6)
    ensures !BitAt(0, i)
  {
  }

  lemma TopAt(w: bv64, k: bv6)
    requires w >> k != 0 && (k < 63 ==> w >> (k + 1) == 0)
    ensures BitAt(w, k)
  {
  }

  /** The highest set bit, searched downward. */
  lemma SetAt(w: bv64, k: bv6) returns (b: bv6)
    requires w != 0 && (k < 63 ==> w >> (k + 1) == 0)
    ensures BitAt(w, b)
    decreases k as nat
  {
    if w >> k != 0 {
      TopAt(w, k);
      b := k;
    } else {
      b := SetAt(w, k - 1);
    }
  }

  /** A word is zero exactly when none of its 64 bits is set. */
  lemma ZeroBits(w: bv64)
    ensures w == 0 <==> forall i: nat | i < 64 :: !Bit(w, i)
  {
    if w != 0 {
      var b := SetAt(w, 63);
      assert Bit(w, b as nat);
    } else {
      forall i: nat | i < 64 ensures !Bit(w, i) { ZeroAt(i as bv6); }
    }
  }

  /** Two words have no common bit exactly when their conjunction is zero. */
  lemma DisjointBits(a: bv64, b: bv64)
    ensures a & b == 0 <==> forall i: nat | i < 64 :: !(Bit(a, i) && Bit(b, i))
  {
    ZeroBits(a & b);
    forall i: nat | i < 64 ensures Bit(a & b, i) <==> Bit(a, i) && Bit(b, i) { AndBit(a, b, i); }
  }

  lemma XorZero(a: bv64, b: bv64)
    requires a ^ b == 0
    ensures a == b
  {
  }

  /** Words with the same bits are the same word. */
  lemma SameBits(a: bv64, b: bv64)
    requires forall i: nat | i < 64 :: Bit(a, i) <==> Bit(b, i)
    ensures a == b
  {
    var x := a ^ b;
    forall i: nat | i < 64 ensures !Bit(x, i) { XorBit(a, b, i); }
    ZeroBits(x);
    XorZero(a, b);
  }
}
