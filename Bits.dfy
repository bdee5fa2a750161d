/**
 * Bitwise exclusive or on non-negative integers, defined bit by bit from the
 * least significant end, with the algebra the XOR-linked list relies on.
 */
module Bits {

  /** `2^k`. */
  function Pow2(k: nat): (r: nat)
    ensures r >= 1
  {
    if k == 0 then 1 else 2 * Pow2(k - 1)
  }

  /** The exclusive or of the two lowest bits. */
  function LowBit(a: nat, b: nat): nat
  {
    if a % 2 == b % 2 then 0 else 1
  }

  /** Bitwise exclusive or. */
  function BitXor(a: nat, b: nat): nat
    decreases a + b
  {
    if a == 0 && b == 0 then 0 else 2 * BitXor(a / 2, b / 2) + LowBit(a, b)
  }

  /** One step of the definition, valid for every pair (zero included). */
  lemma XorStep(a: nat, b: nat)
    ensures BitXor(a, b) == 2 * BitXor(a / 2, b / 2) + LowBit(a, b)
  {
  }

  /** Exclusive or of a number with zero. */
  lemma {:induction false} XorZero(a: nat)
    ensures BitXor(a, 0) == a && BitXor(0, a) == a
    decreases a
  {
    if a != 0 {
      XorZero(a / 2);
    }
  }

  /** Exclusive or is commutative. */
  lemma {:induction false} XorComm(a: nat, b: nat)
    ensures BitXor(a, b) == BitXor(b, a)
    decreases a + b
  {
    if a != 0 || b != 0 {
      XorComm(a / 2, b / 2);
    }
  }

  /** A number XORed with itself is zero. */
  lemma {:induction false} XorSelf(a: nat)
    ensures BitXor(a, a) == 0
    decreases a
  {
    if a != 0 {
      XorSelf(a / 2);
    }
  }

  /** XORing the same operand in twice cancels it. */
  lemma {:induction false} XorCancel(a: nat, b: nat)
    ensures BitXor(BitXor(a, b), b) == a
    decreases a + b
  {
    var c := BitXor(a, b);
    if a == 0 && b == 0 {
    } else {
      XorCancel(a / 2, b / 2);
      XorStep(c, b);
      assert c / 2 == BitXor(a / 2, b / 2) && c % 2 == LowBit(a, b);
    }
  }

  /** XORing either operand in again recovers the other one. */
  lemma XorRecover(a: nat, b: nat)
    ensures BitXor(BitXor(a, b), b) == a && BitXor(BitXor(a, b), a) == b
  {
    XorCancel(a, b);
    XorComm(a, b);
    XorCancel(b, a);
  }

  /** Two numbers below `2^k` have their exclusive or below `2^k`. */
  lemma {:induction false} XorBound(a: nat, b: nat, k: nat)
    requires a < Pow2(k) && b < Pow2(k)
    ensures BitXor(a, b) < Pow2(k)
    decreases k
  {
    if k == 0 {
    } else {
      XorBound(a / 2, b / 2, k - 1);
    }
  }

  /** Halving `2 * y + r` with `r < 2`. */
  lemma Halve(x: nat, y: nat, r: nat)
    requires r < 2 && x == 2 * y + r
    ensures x / 2 == y && x % 2 == r
  {
  }

  /** `q` shifted left by `k` bits, that is `q * 2^k`. */
  function Shl(q: nat, k: nat): nat
  {
    if k == 0 then q else 2 * Shl(q, k - 1)
  }

  /** Writing both operands as `q` shifted left by `k` bits plus `r < 2^k`,
      the high and the low parts are XORed separately. */
  lemma {:induction false} XorSplit(qa: nat, ra: nat, qb: nat, rb: nat, k: nat)
    requires ra < Pow2(k) && rb < Pow2(k)
    ensures BitXor(Shl(qa, k) + ra, Shl(qb, k) + rb) == Shl(BitXor(qa, qb), k) + BitXor(ra, rb)
    decreases k
  {
    if k > 0 {
      XorSplit(qa, ra / 2, qb, rb / 2, k - 1);
      XorSplitStep(Shl(qa, k) + ra, Shl(qb, k) + rb, Shl(qa, k - 1), Shl(qb, k - 1),
                   Shl(BitXor(qa, qb), k - 1), ra, rb);
    }
  }

  /** One step of `XorSplit`, with the products named: the lowest bits and
      the halves are XORed separately. */
  lemma XorSplitStep(a: nat, b: nat, ma: nat, mb: nat, mx: nat, ra: nat, rb: nat)
    requires a == 2 * ma + ra && b == 2 * mb + rb
    requires BitXor(ma + ra / 2, mb + rb / 2) == mx + BitXor(ra / 2, rb / 2)
    ensures BitXor(a, b) == 2 * mx + BitXor(ra, rb)
  {
    Halve(a, ma + ra / 2, ra % 2);
    Halve(b, mb + rb / 2, rb % 2);
    XorStepAt(a, b, ma + ra / 2, mb + rb / 2);
    XorStep(ra, rb);
    assert LowBit(a, b) == LowBit(ra, rb);
  }

  /** `XorStep` with the halves named. */
  lemma XorStepAt(a: nat, b: nat, ha: nat, hb: nat)
    requires a / 2 == ha && b / 2 == hb
    ensures BitXor(a, b) == 2 * BitXor(ha, hb) + LowBit(a, b)
  {
    XorStep(a, b);
  }
}
