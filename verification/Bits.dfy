/** Bitmaps as natural numbers: the bit operations the protocol applies to its masks,
    each characterised by the bits of its result. */
module Bits {

  /** The payload kinds that a bitmap may declare. */
  const PAYLOAD_KIND_KNOWN_MASK := 0x7f

  function Pow2(k: nat): (p: nat)
    ensures p > 0
  {
    if k == 0 then 1 else 2 * Pow2(k - 1)
  }

  /** Bit `i` of `x`. */
  predicate Bit(x: nat, i: nat) {
    if i == 0 then x % 2 == 1 else Bit(x / 2, i - 1)
  }

  function Low(b: bool): nat { if b then 1 else 0 }

  /** `a | b` */
  function Or(a: nat, b: nat): nat
    decreases a + b
  {
    if a == 0 then b else if b == 0 then a
    else Low(a % 2 == 1 || b % 2 == 1) + 2 * Or(a / 2, b / 2)
  }

  /** `a & !b` */
  function AndNot(a: nat, b: nat): nat
    decreases a
  {
    if a == 0 then 0 else Low(a % 2 == 1 && b % 2 == 0) + 2 * AndNot(a / 2, b / 2)
  }

  /** `a & b` */
  function And(a: nat, b: nat): nat
    decreases a
  {
    if a == 0 then 0 else Low(a % 2 == 1 && b % 2 == 1) + 2 * And(a / 2, b / 2)
  }

  lemma {:induction false} ZeroBits(i: nat)
    ensures !Bit(0, i)
  {
    if i > 0 { ZeroBits(i - 1); }
  }

  lemma {:induction false} OrBit(a: nat, b: nat, i: nat)
    ensures Bit(Or(a, b), i) <==> Bit(a, i) || Bit(b, i)
    decreases a + b
  {
    if a == 0 || b == 0 {
      ZeroBits(i);
    } else {
      assert Or(a, b) / 2 == Or(a / 2, b / 2);
      if i > 0 { OrBit(a / 2, b / 2, i - 1); }
    }
  }

  lemma {:induction false} AndNotBit(a: nat, b: nat, i: nat)
    ensures Bit(AndNot(a, b), i) <==> Bit(a, i) && !Bit(b, i)
    decreases a
  {
    if a == 0 {
      ZeroBits(i);
    } else {
      assert AndNot(a, b) / 2 == AndNot(a / 2, b / 2);
      if i > 0 { AndNotBit(a / 2, b / 2, i - 1); }
    }
  }

  lemma {:induction false} AndBit(a: nat, b: nat, i: nat)
    ensures Bit(And(a, b), i) <==> Bit(a, i) && Bit(b, i)
    decreases a
  {
    if a == 0 {
      ZeroBits(i);
    } else {
      assert And(a, b) / 2 == And(a / 2, b / 2);
      if i > 0 { AndBit(a / 2, b / 2, i - 1); }
    }
  }

  /** A number with no bit set is zero; otherwise some bit is set. */
  lemma {:induction false} SomeBit(x: nat) returns (i: nat)
    requires x != 0
    ensures Bit(x, i)
  {
    if x % 2 == 1 {
      i := 0;
    } else {
      var j := SomeBit(x / 2);
      i := j + 1;
    }
  }

  /** Two numbers with the same bits are equal. */
  lemma {:induction false} SameBits(a: nat, b: nat)
    requires forall i: nat :: Bit(a, i) == Bit(b, i)
    ensures a == b
    decreases a + b
  {
    assert Bit(a, 0) == Bit(b, 0);
    if a != 0 || b != 0 {
      forall i: nat ensures Bit(a / 2, i) == Bit(b / 2, i) {
        assert Bit(a, i + 1) == Bit(b, i + 1);
      }
      SameBits(a / 2, b / 2);
    }
  }

  lemma {:induction false} PowerBit(k: nat, i: nat)
    ensures Bit(Pow2(k), i) <==> i == k
  {
    if k == 0 {
      if i > 0 { ZeroBits(i - 1); }
    } else if i > 0 {
      assert Pow2(k) / 2 == Pow2(k - 1);
      PowerBit(k - 1, i - 1);
    }
  }

  /** Clearing the low `k` bits leaves nothing exactly when the number is below 2^k. */
  lemma {:induction false} LowMask(x: nat, k: nat)
    ensures AndNot(x, Pow2(k) - 1) == 0 <==> x < Pow2(k)
  {
    if k == 0 {
      AndNotZero(x);
    } else if x > 0 {
      assert (Pow2(k) - 1) / 2 == Pow2(k - 1) - 1;
      LowMask(x / 2, k - 1);
    }
  }

  lemma {:induction false} AndNotZero(x: nat)
    ensures AndNot(x, 0) == x
  {
    if x > 0 { AndNotZero(x / 2); }
  }

  /** `a & !b == 0` says that every bit of `a` is a bit of `b`. */
  lemma {:induction false} AndNotSubset(a: nat, b: nat)
    ensures AndNot(a, b) == 0 <==> forall i: nat :: Bit(a, i) ==> Bit(b, i)
  {
    if AndNot(a, b) == 0 {
      forall i: nat ensures Bit(a, i) ==> Bit(b, i) {
        AndNotBit(a, b, i);
        ZeroBits(i);
      }
    } else {
      var i := SomeBit(AndNot(a, b));
      AndNotBit(a, b, i);
    }
  }

  /** A single bit `2^k` lies outside a bitmap exactly when bit `k` of the bitmap is clear. */
  lemma {:induction false} SingleBit(k: nat, b: nat)
    ensures AndNot(Pow2(k), b) == 0 <==> Bit(b, k)
  {
    AndNotSubset(Pow2(k), b);
    forall i: nat ensures Bit(Pow2(k), i) <==> i == k {
      PowerBit(k, i);
    }
  }

  /** A number passes a mask of low bits exactly when it is below the next power of two. */
  lemma {:induction false} KnownMasks(x: nat)
    ensures AndNot(x, 0x03) == 0 <==> x < 0x04
    ensures AndNot(x, 0x07) == 0 <==> x < 0x08
    ensures AndNot(x, 0x0f) == 0 <==> x < 0x10
    ensures AndNot(x, 0x3f) == 0 <==> x < 0x40
    ensures AndNot(x, 0x7f) == 0 <==> x < 0x80
  {
    assert Pow2(2) == 4 && Pow2(3) == 8 && Pow2(4) == 16;
    assert Pow2(5) == 32 && Pow2(6) == 64;
    assert Pow2(7) == 128;
    LowMask(x, 2);
    LowMask(x, 3);
    LowMask(x, 4);
    LowMask(x, 6);
    LowMask(x, 7);
  }

  lemma {:induction false} LowBits(x: nat)
    ensures Bit(x, 0) <==> x % 2 == 1
    ensures Bit(x, 1) <==> x / 2 % 2 == 1
    ensures Bit(x, 2) <==> x / 4 % 2 == 1
  {
    assert Bit(x, 2) == Bit(x / 2, 1) == Bit(x / 2 / 2, 0);
    assert x / 2 / 2 == x / 4;
  }
}
