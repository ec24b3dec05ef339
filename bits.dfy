/** Bitwise operations on non-negative integers, defined bit by bit from the
    lowest, and what they do to each bit. */
module Bits {

  /** `2^k`. */
  function Pow2(k: nat): nat
  {
    if k == 0 then 1 else 2 * Pow2(k - 1)
  }

  /** Bit `k` of `x` is set. */
  predicate TestBit(x: nat, k: nat)
  {
    if k == 0 then x % 2 == 1 else TestBit(x / 2, k - 1)
  }

  /** `a & b`. Its bound is a well-formedness fact only: it keeps a masked
      value inside whatever integer type `a` has. */
  function And(a: nat, b: nat): (r: nat)
    ensures r <= a && r <= b
    decreases a
  {
    if a == 0 || b == 0 then 0
    else 2 * And(a / 2, b / 2) + (if a % 2 == 1 && b % 2 == 1 then 1 else 0)
  }

  /** `a | b`. */
  function Or(a: nat, b: nat): nat
    decreases a + b
  {
    if a == 0 && b == 0 then 0
    else 2 * Or(a / 2, b / 2) + (if a % 2 == 1 || b % 2 == 1 then 1 else 0)
  }

  /** `a ^ b`. */
  function Xor(a: nat, b: nat): nat
    decreases a + b
  {
    if a == 0 && b == 0 then 0
    else 2 * Xor(a / 2, b / 2) + (a + b) % 2
  }

  /** One step of each operation, also when both arguments are zero. */
  lemma AndStep(a: nat, b: nat)
    ensures And(a, b) == 2 * And(a / 2, b / 2) + (if a % 2 == 1 && b % 2 == 1 then 1 else 0)
  {
  }

  lemma OrStep(a: nat, b: nat)
    ensures Or(a, b) == 2 * Or(a / 2, b / 2) + (if a % 2 == 1 || b % 2 == 1 then 1 else 0)
  {
  }

  lemma XorStep(a: nat, b: nat)
    ensures Xor(a, b) == 2 * Xor(a / 2, b / 2) + (a + b) % 2
  {
  }

  /** The OR and the XOR of two `k`-bit numbers have `k` bits. */
  lemma {:induction false} Fits(a: nat, b: nat, k: nat)
    requires a < Pow2(k) && b < Pow2(k)
    ensures Or(a, b) < Pow2(k)
    ensures Xor(a, b) < Pow2(k)
    decreases k
  {
    if a != 0 || b != 0 {
      Fits(a / 2, b / 2, k - 1);
    }
  }

  /** Halving `2q + r` gives back `q` and `r`. */
  lemma Halves(q: nat, r: nat)
    requires r < 2
    ensures (2 * q + r) / 2 == q && (2 * q + r) % 2 == r
  {
  }

  /** Bit `k` of `2q + r` is `r` at bit 0 and bit `k - 1` of `q` above it. */
  lemma BitOfStep(q: nat, r: nat, k: nat)
    requires r < 2
    ensures TestBit(2 * q + r, k) <==> if k == 0 then r == 1 else TestBit(q, k - 1)
  {
    Halves(q, r);
  }

  /** Bit `k` of `a | b` is set exactly when it is set in `a` or in `b`. */
  lemma {:induction false} OrBit(a: nat, b: nat, k: nat)
    ensures TestBit(Or(a, b), k) <==> TestBit(a, k) || TestBit(b, k)
    decreases k
  {
    OrStep(a, b);
    BitOfStep(Or(a / 2, b / 2), if a % 2 == 1 || b % 2 == 1 then 1 else 0, k);
    if k > 0 {
      OrBit(a / 2, b / 2, k - 1);
    }
  }

  /** Bit `k` of `a ^ b` is set exactly when it is set in one operand only. */
  lemma {:induction false} XorBit(a: nat, b: nat, k: nat)
    ensures TestBit(Xor(a, b), k) <==> TestBit(a, k) != TestBit(b, k)
    decreases k
  {
    XorStep(a, b);
    BitOfStep(Xor(a / 2, b / 2), (a + b) % 2, k);
    if k > 0 {
      XorBit(a / 2, b / 2, k - 1);
    }
  }

  /** Bit `k` of `a & b` is set exactly when it is set in both. */
  lemma {:induction false} AndBit(a: nat, b: nat, k: nat)
    ensures TestBit(And(a, b), k) <==> TestBit(a, k) && TestBit(b, k)
    decreases k
  {
    AndStep(a, b);
    if k > 0 {
      AndBit(a / 2, b / 2, k - 1);
    }
  }

  /** `Pow2(k)` has bit `k` alone. */
  lemma {:induction false} Pow2Bit(k: nat, j: nat)
    ensures TestBit(Pow2(k), j) <==> j == k
    decreases k
  {
    if k > 0 && j > 0 {
      Pow2Bit(k - 1, j - 1);
    } else if k > 0 {
      assert Pow2(k) % 2 == 0;
    } else if j > 0 {
      Zero(j - 1);
    }
  }

  /** No bit of 0 is set. */
  lemma {:induction false} Zero(j: nat)
    ensures !TestBit(0, j)
  {
    if j > 0 {
      Zero(j - 1);
    }
  }

  /** Masking with `Pow2(k)` leaves something exactly when bit `k` is set. */
  lemma {:induction false} AndPow2(x: nat, k: nat)
    ensures And(x, Pow2(k)) != 0 <==> TestBit(x, k)
    decreases k
  {
    AndStep(x, Pow2(k));
    if k > 0 {
      assert Pow2(k) % 2 == 0 && Pow2(k) / 2 == Pow2(k - 1);
      AndPow2(x / 2, k - 1);
    }
  }

  /** Masking with `1` keeps bit 0 alone. */
  lemma AndOne(a: nat)
    ensures And(a, 1) == a % 2
  {
    if a != 0 {
      assert And(a / 2, 0) == 0;
    }
  }

  /** The arithmetic of one XOR step taken twice: if `r` is `2q` plus the
      parity of `a + k`, then halving `r` gives `q`, and `a` is twice its
      half plus the parity of `r + k`. */
  lemma XorTwiceStep(a: nat, k: nat, q: nat, r: nat)
    requires r == 2 * q + (a + k) % 2
    ensures r / 2 == q
    ensures a == 2 * (a / 2) + (r + k) % 2
  {
  }

  /** XOR with the same key twice restores the value. */
  lemma {:induction false} XorInvolution(a: nat, k: nat)
    ensures Xor(Xor(a, k), k) == a
    decreases a + k
  {
    if a != 0 || k != 0 {
      var q := Xor(a / 2, k / 2);
      var r := Xor(a, k);
      XorStep(a, k);
      XorTwiceStep(a, k, q, r);
      XorInvolution(a / 2, k / 2);
      XorStep(r, k);
    }
  }

  /** `2^(a + b) == 2^a * 2^b`. */
  lemma {:induction false} Pow2Add(a: nat, b: nat)
    ensures Pow2(a + b) == Pow2(a) * Pow2(b)
    decreases b
  {
    if b != 0 {
      Pow2Add(a, b - 1);
    }
  }

  /** The widths used by the model: 8, 16 and 32 bits. */
  lemma Pow2Widths()
    ensures Pow2(8) == 0x100
    ensures Pow2(16) == 0x1_0000
    ensures Pow2(32) == 0x1_0000_0000
  {
    assert Pow2(4) == 16;
    Pow2Add(8, 8);
    Pow2Add(16, 16);
  }
}
