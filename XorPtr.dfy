/**
 * The XOR-encoded pointer cell of `xorptr.hxx`.
 *
 * A cell holds `p1 ^ p2` for two node addresses; given either address the
 * other one is recovered by XOR-ing it in again.  Addresses are 64-bit
 * unsigned words (`std::uintptr_t`, or the 8 bytes of a `void*`, on a 64-bit
 * target) and the null pointer is the zero word.
 *
 * Two variants of `xorptr_traits` exist: one XORs the whole word at once, the
 * other XORs the object representation of the pointer byte by byte.  Both are
 * modelled, and the byte loop is proved to compute the whole-word XOR.
 */
module XorPtr {
  import opened Bits

  /** `256^k`. */
  function Pow256(k: nat): (r: nat)
    ensures r >= 1
  {
    if k == 0 then 1 else 256 * Pow256(k - 1)
  }

  /** The number of distinct 64-bit words. */
  const WordLimit: nat := 0x1_0000_0000_0000_0000

  /** `xorptr_type`: an unsigned 64-bit word. */
  type Word = w: int | 0 <= w < 0x1_0000_0000_0000_0000

  /** A node pointer, identified by its address. */
  type Addr = Word

  /** `nullptr`. */
  const Null: Addr := 0

  /** Eight more bits multiply by 256. */
  lemma Pow2Byte(n: nat)
    ensures Pow2(n + 8) == 256 * Pow2(n)
  {
    assert Pow2(n + 8) == 2 * Pow2(n + 7) == 4 * Pow2(n + 6) == 8 * Pow2(n + 5) == 16 * Pow2(n + 4);
    assert Pow2(n + 4) == 2 * Pow2(n + 3) == 4 * Pow2(n + 2) == 8 * Pow2(n + 1) == 16 * Pow2(n);
  }

  /** `2^(8k) == 256^k`. */
  lemma {:induction false} Pow2Bytes(k: nat)
    ensures Pow2(8 * k) == Pow256(k)
  {
    if k > 0 {
      Pow2Bytes(k - 1);
      Pow2Byte(8 * (k - 1));
    }
  }

  lemma WordLimitIsPow2()
    ensures Pow2(64) == WordLimit && Pow256(8) == WordLimit && Pow2(8) == 256
  {
    Pow2Bytes(8);
    Pow2Bytes(1);
  }

  /** The exclusive or of two words is a word. */
  function WordXor(a: Word, b: Word): (r: Word)
    ensures r == BitXor(a, b)
  {
    WordLimitIsPow2();
    XorBound(a, b, 64);
    BitXor(a, b)
  }

  // ---------------------------------------------------------------------
  // xorptr_traits, whole-word (uintptr_t) variant
  // ---------------------------------------------------------------------

  /** `create(p1, p2)`: the encoding of the address pair; either endpoint
      recovers the other. */
  function Create(p1: Addr, p2: Addr): (x: Word)
    ensures Extract(x, p1) == p2
    ensures Extract(x, p2) == p1
  {
    XorRecover(p1, p2);
    WordXor(p1, p2)
  }

  /** `create()`: `create(nullptr, nullptr)`, which is the zero word and
      unlocks every address to itself. */
  function CreateNull(): (x: Word)
    ensures x == 0
    ensures forall p :: Extract(x, p) == p
  {
    XorSelf(Null);
    forall p: Addr ensures Extract(0, p) == p {
      XorZero(p);
    }
    Create(Null, Null)
  }

  /** `extract(xp, p)`: XOR the address `p` into the encoded word; the
      result is the address that, paired with `p`, encodes `xp` (`create(p, r)`
      is `p ^ r`, see `Create`). */
  function Extract(xp: Word, p: Addr): (r: Addr)
    ensures WordXor(p, r) == xp && WordXor(r, p) == xp
  {
    XorRecover(xp, p);
    XorComm(p, WordXor(xp, p));
    WordXor(xp, p)
  }

  /** `create(p, p)` is the same zero encoding that `create()` returns. */
  lemma SelfCreateIsNull(p: Addr)
    ensures Create(p, p) == CreateNull()
  {
    XorSelf(p);
  }

  /** The order of the two endpoints does not matter. */
  lemma CreateSymmetric(p1: Addr, p2: Addr)
    ensures Create(p1, p2) == Create(p2, p1)
  {
    XorComm(p1, p2);
  }

  /** The encoding determines the second endpoint once the first is known. */
  lemma CreateInjective(p: Addr, q1: Addr, q2: Addr)
    requires Create(p, q1) == Create(p, q2)
    ensures q1 == q2
  {
    assert q1 == Extract(Create(p, q1), p);
  }

  // ---------------------------------------------------------------------
  // xorptr_traits, byte-by-byte (reinterpret_cast) variant
  // ---------------------------------------------------------------------

  /** An `unsigned char`. */
  type Byte = b: int | 0 <= b < 256

  /** The `k` low bytes of `w`, least significant first. */
  function Digits(w: nat, k: nat): (r: seq<Byte>)
    ensures |r| == k
  {
    if k == 0 then [] else [w % 256] + Digits(w / 256, k - 1)
  }

  /** The number whose bytes, least significant first, are `s`. */
  function Value(s: seq<Byte>): nat
  {
    if s == [] then 0 else s[0] + 256 * Value(s[1..])
  }

  /** The object representation of an address: its 8 bytes, least
      significant first.  (The byte order of the host is immaterial to the
      XOR; little-endian is chosen.) */
  function Bytes(w: Word): (r: seq<Byte>)
    ensures |r| == 8
  {
    Digits(w, 8)
  }

  /** `ucp1[i] ^= ucp2[i]` on one byte. */
  function ByteXor(a: Byte, b: Byte): (r: Byte)
    ensures r == BitXor(a, b)
  {
    WordLimitIsPow2();
    XorBound(a, b, 8);
    BitXor(a, b)
  }

  /** Byte-wise XOR of two representations. */
  function XorEach(a: seq<Byte>, b: seq<Byte>): (r: seq<Byte>)
    requires |a| == |b|
    ensures |r| == |a|
    ensures forall j :: 0 <= j < |a| ==> r[j] == ByteXor(a[j], b[j])
  {
    seq(|a|, j requires 0 <= j < |a| => ByteXor(a[j], b[j]))
  }

  /** Reading back the bytes of a number gives the number. */
  lemma {:induction false} ValueDigits(w: nat, k: nat)
    requires w < Pow256(k)
    ensures Value(Digits(w, k)) == w
    decreases k
  {
    if k > 0 {
      ValueDigits(w / 256, k - 1);
      assert Digits(w, k)[1..] == Digits(w / 256, k - 1);
    }
  }

  /** Shifting left by a byte multiplies by 256. */
  lemma Shl8(q: nat)
    ensures Shl(q, 8) == 256 * q
  {
    assert Shl(q, 8) == 2 * Shl(q, 7) == 4 * Shl(q, 6) == 8 * Shl(q, 5) == 16 * Shl(q, 4);
    assert Shl(q, 4) == 2 * Shl(q, 3) == 4 * Shl(q, 2) == 8 * Shl(q, 1) == 16 * Shl(q, 0);
  }

  /** The low byte and the rest of a number are XORed separately. */
  lemma XorByteSplit(qa: nat, ra: nat, qb: nat, rb: nat)
    requires ra < 256 && rb < 256
    ensures BitXor(256 * qa + ra, 256 * qb + rb) == 256 * BitXor(qa, qb) + BitXor(ra, rb)
  {
    Pow2Byte(0);
    Shl8(qa);
    Shl8(qb);
    Shl8(BitXor(qa, qb));
    XorSplit(qa, ra, qb, rb, 8);
  }

  /** XOR-ing the representations byte by byte XORs the numbers. */
  lemma {:induction false} DigitsXor(a: nat, b: nat, k: nat)
    requires a < Pow256(k) && b < Pow256(k)
    ensures Value(XorEach(Digits(a, k), Digits(b, k))) == BitXor(a, b)
    decreases k
  {
    var r := XorEach(Digits(a, k), Digits(b, k));
    if k == 0 {
      assert a == 0 && b == 0;
    } else {
      var ha, hb := a / 256, b / 256;
      assert ha < Pow256(k - 1) && hb < Pow256(k - 1);
      DigitsXor(ha, hb, k - 1);
      assert r[1..] == XorEach(Digits(ha, k - 1), Digits(hb, k - 1));
      assert r[0] == BitXor(a % 256, b % 256);
      assert Value(r) == r[0] + 256 * Value(r[1..]);
      XorValue(a, b);
    }
  }

  /** The XOR of the low bytes plus 256 times the XOR of the high parts
      is the XOR of the numbers. */
  lemma XorValue(a: nat, b: nat)
    ensures BitXor(a % 256, b % 256) + 256 * BitXor(a / 256, b / 256) == BitXor(a, b)
  {
    XorByteSplit(a / 256, a % 256, b / 256, b % 256);
    XorArgs(a, b, 256 * (a / 256) + a % 256, 256 * (b / 256) + b % 256);
  }

  /** Equal operands give equal exclusive ors. */
  lemma XorArgs(a: nat, b: nat, a2: nat, b2: nat)
    requires a == a2 && b == b2
    ensures BitXor(a, b) == BitXor(a2, b2)
  {
  }

  /** The representation of an address determines it. */
  lemma ValueBytes(w: Word)
    ensures Value(Bytes(w)) == w
  {
    WordLimitIsPow2();
    ValueDigits(w, 8);
  }

  /** The loop `ucp1[i] ^= ucp2[i]` for `i` from 0 to `sizeof(xorptr_type)`
      over the bytes of `vp1` and `vp2`: `ucp1` is XORed in place. */
  method XorRepresentation(ucp1: array<Byte>, ucp2: array<Byte>)
    requires ucp1.Length == 8 && ucp2.Length == 8 && ucp1 != ucp2
    modifies ucp1
    ensures ucp1[..] == XorEach(old(ucp1[..]), ucp2[..])
  {
    var i := 0;
    while i != ucp1.Length
      invariant 0 <= i <= ucp1.Length
      invariant forall j :: 0 <= j < i ==> ucp1[j] == ByteXor(old(ucp1[j]), ucp2[j])
      invariant forall j :: i <= j < ucp1.Length ==> ucp1[j] == old(ucp1[j])
    {
      ucp1[i] := ByteXor(ucp1[i], ucp2[i]);
      i := i + 1;
    }
  }

  /** A local copy of a pointer (`xorptr_type volatile vp = p`) viewed as
      its bytes. */
  method Representation(w: Word) returns (a: array<Byte>)
    ensures fresh(a) && a[..] == Bytes(w)
  {
    var b := Bytes(w);
    a := new Byte[8](j requires 0 <= j < 8 => b[j]);
  }

  /** XORing two byte representations gives the representation of the
      XOR of the words. */
  lemma BytesXor(a: Word, b: Word)
    ensures Value(XorEach(Bytes(a), Bytes(b))) == WordXor(a, b)
  {
    WordLimitIsPow2();
    DigitsXor(a, b, 8);
  }

  /** The byte loop shared by `create` and `extract`: the XOR of the
      representations of `w1` and `w2`, read back as a word. */
  method XorBytewise(w1: Word, w2: Word) returns (x: Word)
    ensures x == WordXor(w1, w2)
  {
    var vp1 := Representation(w1);
    var vp2 := Representation(w2);
    XorRepresentation(vp1, vp2);
    BytesXor(w1, w2);
    assert Value(vp1[..]) == WordXor(w1, w2);
    x := Value(vp1[..]);
  }

  /** Byte-loop `create(p1, p2)`: the same value as the whole-word XOR. */
  method CreateBytewise(p1: Addr, p2: Addr) returns (x: Word)
    ensures x == Create(p1, p2)
  {
    x := XorBytewise(p1, p2);
  }

  /** Byte-loop `create()`: `create(nullptr, nullptr)` of that variant. */
  method CreateNullBytewise() returns (x: Word)
    ensures x == CreateNull()
  {
    x := CreateBytewise(Null, Null);
  }

  /** Byte-loop `extract(xp, p)`: the same value as the whole-word XOR. */
  method ExtractBytewise(xp: Word, p: Addr) returns (r: Addr)
    ensures r == Extract(xp, p)
  {
    r := XorBytewise(xp, p);
  }

  // ---------------------------------------------------------------------
  // xorptr<T>: the cell as a value with one encoded field
  // ---------------------------------------------------------------------

  /** `xorptr<T>`: holds one encoded word `xorptr_`. */
  datatype Cell = Cell(bits: Word)

  /** The default constructor `xorptr()`: holds `create()`, which unlocks
      every address to itself. */
  function NullCell(): (c: Cell)
    ensures c.bits == CreateNull()
    ensures forall p :: Xor(c, p) == p
  {
    Cell(CreateNull())
  }

  /** The constructor `xorptr(ptr1, ptr2)`: holds `create(ptr1, ptr2)`, so
      each endpoint unlocks the other. */
  function CellOf(p1: Addr, p2: Addr): (c: Cell)
    ensures c.bits == Create(p1, p2)
    ensures Xor(c, p1) == p2 && Xor(c, p2) == p1
  {
    Cell(Create(p1, p2))
  }

  /** `operator ^(b) const`: `extract(xorptr_, b)`; the cell is a value and
      is left as it was. */
  function Xor(c: Cell, b: Addr): (r: Addr)
    ensures Create(b, r) == c.bits
  {
    XorRecover(c.bits, b);
    XorComm(b, Extract(c.bits, b));
    Extract(c.bits, b)
  }

  /** Cells built from the same pair in either order are equal. */
  lemma CellOfSymmetric(p1: Addr, p2: Addr)
    ensures CellOf(p1, p2) == CellOf(p2, p1)
  {
    CreateSymmetric(p1, p2);
  }
}
