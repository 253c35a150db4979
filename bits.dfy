/** Bitwise exclusive or on unsigned integers (Rust's `^` on `u8`), defined bit by bit
    so that its algebra is proved by induction over the bits. */
module Bits {

  function XorNat(a: nat, b: nat): nat
    decreases a + b
  {
    if a == 0 && b == 0 then 0 else 2 * XorNat(a / 2, b / 2) + LowBit(a, b)
  }

  /** The low bit of `a ^ b`: set when exactly one of the low bits of `a`, `b` is set. */
  function LowBit(a: nat, b: nat): (bit: nat)
    ensures bit < 2
  {
    if a % 2 == b % 2 then 0 else 1
  }

  /** The low bit of `a ^ b` is the xor of the low bits; the rest is the xor of the rest. */
  lemma {:induction false} XorBits(a: nat, b: nat)
    ensures XorNat(a, b) % 2 == LowBit(a, b)
    ensures XorNat(a, b) / 2 == XorNat(a / 2, b / 2)
  {
    if a != 0 || b != 0 {
      var x, bit := XorNat(a / 2, b / 2), LowBit(a, b);
      assert XorNat(a, b) == 2 * x + bit;
      DivModTwo(x, bit);
    }
  }

  lemma DivModTwo(x: nat, bit: nat)
    requires bit < 2
    ensures (2 * x + bit) % 2 == bit && (2 * x + bit) / 2 == x
  {
  }

  /** The xor of two numbers below `2^k` is below `2^k`. */
  lemma {:induction false} XorBelow(a: nat, b: nat, k: nat)
    requires a < Pow2(k) && b < Pow2(k)
    ensures XorNat(a, b) < Pow2(k)
    decreases k
  {
    if a == 0 && b == 0 {
    } else if k == 0 {
    } else {
      XorBelow(a / 2, b / 2, k - 1);
    }
  }

  function Pow2(k: nat): (p: nat)
    ensures p >= 1
  {
    if k == 0 then 1 else 2 * Pow2(k - 1)
  }

  lemma {:induction false} XorZero(a: nat)
    ensures XorNat(a, 0) == a
    decreases a
  {
    if a != 0 {
      XorZero(a / 2);
    }
  }

  lemma {:induction false} XorSelf(a: nat)
    ensures XorNat(a, a) == 0
    decreases a
  {
    if a != 0 {
      XorSelf(a / 2);
    }
  }

  lemma {:induction false} XorCommutes(a: nat, b: nat)
    ensures XorNat(a, b) == XorNat(b, a)
    decreases a + b
  {
    if a != 0 || b != 0 {
      XorCommutes(a / 2, b / 2);
    }
  }

  lemma {:induction false} XorAssociates(a: nat, b: nat, c: nat)
    ensures XorNat(XorNat(a, b), c) == XorNat(a, XorNat(b, c))
    decreases a + b + c
  {
    var ab, bc := XorNat(a, b), XorNat(b, c);
    XorBits(a, b);
    XorBits(b, c);
    if a == 0 && b == 0 && c == 0 {
    } else {
      XorAssociates(a / 2, b / 2, c / 2);
      XorBits(ab, c);
      XorBits(a, bc);
      var l, r := XorNat(ab, c), XorNat(a, bc);
      assert l % 2 == r % 2;
      assert l / 2 == r / 2;
      DivModTwo(l / 2, l % 2);
      DivModTwo(r / 2, r % 2);
    }
  }

  /** Xor-ing twice with the same value undoes it. */
  lemma XorCancels(a: nat, b: nat)
    ensures XorNat(a, XorNat(a, b)) == b
  {
    XorAssociates(a, a, b);
    XorSelf(a);
    XorCommutes(0, b);
    XorZero(b);
  }

  /** `u8 ^ u8`: the xor of two bytes is a byte. */
  function XorByte(a: nat, b: nat): (x: nat)
    requires a < 256 && b < 256
    ensures x < 256
  {
    Pow2Eight();
    XorBelow(a, b, 8);
    XorNat(a, b)
  }

  lemma Pow2Eight()
    ensures Pow2(8) == 256
  {
    assert Pow2(2) == 4;
    assert Pow2(4) == 16;
    assert Pow2(6) == 64;
  }
}
