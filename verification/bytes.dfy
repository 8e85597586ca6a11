/** Byte strings as Python handles them: bytes as integers in [0, 256), the
    bitwise operators `^`, `&` and `>>` on them, XOR over `zip`, zero runs,
    and the clamping slice forms `s[:k]`, `s[i:j]` and `s[i:]` used by the
    PSS verifiers. */
module Bytes {
  import opened NumberTheory

  /** An element of a Python `bytes` object. */
  newtype Byte = b: int | 0 <= b < 256
  type Bytes = seq<Byte>

  // ---------------------------------------------------------------------
  // Bitwise operators on non-negative integers, bit by bit from the
  // least significant
  // ---------------------------------------------------------------------

  /** Python's `x ^ y` on non-negative integers. */
  function XorNat(x: nat, y: nat): nat
    decreases x + y
  {
    if x == 0 && y == 0 then 0
    else 2 * XorNat(x / 2, y / 2) + (if x % 2 == y % 2 then 0 else 1)
  }

  /** Python's `x & y` on non-negative integers. */
  function AndNat(x: nat, y: nat): nat
    decreases x
  {
    if x == 0 then 0
    else 2 * AndNat(x / 2, y / 2) + (if x % 2 == 1 && y % 2 == 1 then 1 else 0)
  }

  /** `x >> k`: `k` halvings rounding down. */
  function ShiftRight(x: nat, k: nat): nat
    decreases k
  {
    if k == 0 then x else ShiftRight(x / 2, k - 1)
  }

  /** The low `k` bits of `x`, that is `x % 2^k`. */
  function LowBits(x: nat, k: nat): nat
    decreases k
  {
    if k == 0 then 0 else 2 * LowBits(x / 2, k - 1) + x % 2
  }

  lemma HalveTwicePlus(z: nat, d: nat)
    requires d < 2
    ensures (2 * z + d) / 2 == z && (2 * z + d) % 2 == d
  {
  }

  lemma Halve(v: nat, z: nat, d: nat)
    requires d < 2 && v == 2 * z + d
    ensures v / 2 == z && v % 2 == d
  {
  }

  /** XOR of two `k`-bit values fits in `k` bits. */
  lemma {:induction false} XorNatBound(x: nat, y: nat, k: nat)
    requires x < Pow2(k) && y < Pow2(k)
    ensures XorNat(x, y) < Pow2(k)
    decreases k
  {
    if k > 0 && !(x == 0 && y == 0) {
      XorNatBound(x / 2, y / 2, k - 1);
    }
  }

  /** AND never exceeds its first operand. */
  lemma {:induction false} AndNatBelow(x: nat, y: nat)
    ensures AndNat(x, y) <= x
    decreases x
  {
    if x > 0 {
      AndNatBelow(x / 2, y / 2);
    }
  }

  /** XOR-ing twice with the same `y` gives `x` back. */
  lemma {:induction false} XorNatTwice(x: nat, y: nat)
    ensures XorNat(XorNat(x, y), y) == x
    decreases x + y
  {
    if !(x == 0 && y == 0) {
      var d := if x % 2 == y % 2 then 0 else 1;
      HalveTwicePlus(XorNat(x / 2, y / 2), d);
      XorNatTwice(x / 2, y / 2);
    }
  }

  lemma {:induction false} LowBitsOfZero(k: nat)
    ensures LowBits(0, k) == 0
    decreases k
  {
    if k > 0 {
      LowBitsOfZero(k - 1);
    }
  }

  lemma {:induction false} LowBitsBound(x: nat, k: nat)
    ensures LowBits(x, k) < Pow2(k)
    decreases k
  {
    if k > 0 {
      LowBitsBound(x / 2, k - 1);
    }
  }

  /** A value that fits in `k` bits is its own low `k` bits, and only such a
      value is. */
  lemma {:induction false} LowBitsOfSmall(x: nat, k: nat)
    ensures LowBits(x, k) == x <==> x < Pow2(k)
    decreases k
  {
    LowBitsBound(x, k);
    if k > 0 {
      LowBitsOfSmall(x / 2, k - 1);
    }
  }

  /** `x >> k == 0` exactly when `x < 2^k`. */
  lemma {:induction false} ShiftRightZero(x: nat, k: nat)
    ensures ShiftRight(x, k) == 0 <==> x < Pow2(k)
    decreases k
  {
    if k > 0 {
      ShiftRightZero(x / 2, k - 1);
    }
  }

  /** The recursive step of XOR holds at zero too. */
  lemma XorNatStep(x: nat, y: nat)
    ensures XorNat(x, y) == 2 * XorNat(x / 2, y / 2) + (if x % 2 == y % 2 then 0 else 1)
  {
  }

  /** The low `j` bits of an XOR are the XOR of the low `j` bits. */
  lemma {:induction false} LowBitsOfXor(x: nat, y: nat, j: nat)
    ensures LowBits(XorNat(x, y), j) == XorNat(LowBits(x, j), LowBits(y, j))
    decreases j
  {
    if j > 0 {
      var d := if x % 2 == y % 2 then 0 else 1;
      var z := XorNat(x, y);
      var lx := LowBits(x, j);
      var ly := LowBits(y, j);
      var hx := LowBits(x / 2, j - 1);
      var hy := LowBits(y / 2, j - 1);
      Halve(lx, hx, x % 2);
      Halve(ly, hy, y % 2);
      XorNatStep(x, y);
      Halve(z, XorNat(x / 2, y / 2), d);
      LowBitsOfXor(x / 2, y / 2, j - 1);
      XorNatStep(lx, ly);
      assert LowBits(z, j) == 2 * LowBits(z / 2, j - 1) + z % 2;
    }
  }

  lemma {:induction false} AndNatZero(x: nat)
    ensures AndNat(x, 0) == 0
    decreases x
  {
    if x > 0 {
      AndNatZero(x / 2);
    }
  }

  /** AND with `2^j - 1` keeps the low `j` bits. */
  lemma {:induction false} AndLowMask(x: nat, j: nat)
    ensures AndNat(x, Pow2(j) - 1) == LowBits(x, j)
    decreases j
  {
    if j == 0 {
      AndNatZero(x);
    } else if x == 0 {
      LowBitsOfZero(j);
    } else {
      HalveTwicePlus(Pow2(j - 1) - 1, 1);
      AndLowMask(x / 2, j - 1);
    }
  }

  // ---------------------------------------------------------------------
  // The operators on bytes
  // ---------------------------------------------------------------------

  /** `a ^ b` on two bytes. */
  function XorByte(a: Byte, b: Byte): Byte
  {
    XorNatBound(a as nat, b as nat, 8);
    XorNat(a as nat, b as nat) as Byte
  }

  /** `a & b` on two bytes. */
  function AndByte(a: Byte, b: Byte): Byte
  {
    AndNatBelow(a as nat, b as nat);
    AndNat(a as nat, b as nat) as Byte
  }

  /** XOR-ing a byte twice with the same byte gives it back. */
  lemma XorByteTwice(a: Byte, b: Byte)
    ensures XorByte(XorByte(a, b), b) == a
  {
    XorNatBound(a as nat, b as nat, 8);
    XorNatTwice(a as nat, b as nat);
  }

  /** `0xFF >> t` for `t <= 8`: the mask of the low `8 - t` bits. */
  function LowBitsMask(t: nat): (mask: Byte)
    requires t <= 8
    ensures mask as nat == Pow2(8 - t) - 1
  {
    ShiftRightOfAllOnes(t);
    ShiftRight(0xFF, t) as Byte
  }

  lemma ShiftRightOfAllOnes(t: nat)
    requires t <= 8
    ensures ShiftRight(0xFF, t) == Pow2(8 - t) - 1
    ensures Pow2(8 - t) <= 256
  {
    assert Pow2(8) == 256;
    ShiftRightOfOnes(8, t);
    Pow2Monotone(8 - t, 8);
  }

  /** Shifting `2^k - 1` (k one-bits) right by `j` leaves `k - j` one-bits. */
  lemma {:induction false} ShiftRightOfOnes(k: nat, j: nat)
    requires j <= k
    ensures ShiftRight(Pow2(k) - 1, j) == Pow2(k - j) - 1
    decreases j
  {
    if j > 0 {
      HalveTwicePlus(Pow2(k - 1) - 1, 1);
      ShiftRightOfOnes(k - 1, j - 1);
    }
  }

  /** The leftmost `t` bits of `b` are zero: `b >> (8 - t) == 0`. */
  predicate TopBitsClear(b: Byte, t: nat)
    requires t <= 8
  {
    ShiftRight(b as nat, 8 - t) == 0
  }

  /** The top `t` bits are clear exactly when `b < 2^(8 - t)`. */
  lemma TopBitsClearIsBound(b: Byte, t: nat)
    requires t <= 8
    ensures TopBitsClear(b, t) <==> (b as nat) < Pow2(8 - t)
  {
    ShiftRightZero(b as nat, 8 - t);
  }

  /** AND with `0xFF >> t` keeps the low `8 - t` bits of a byte. */
  lemma AndLowBitsMask(b: Byte, t: nat)
    requires t <= 8
    ensures AndByte(b, LowBitsMask(t)) as nat == LowBits(b as nat, 8 - t)
  {
    AndLowMask(b as nat, 8 - t);
  }

  /** `0xFF >> t` keeps the low `8 - t` bits: AND-ing with it clears the top
      `t` bits and changes nothing else. */
  lemma LowMask(b: Byte, t: nat)
    requires t <= 8
    ensures TopBitsClear(AndByte(b, LowBitsMask(t)), t)
    ensures AndByte(b, LowBitsMask(t)) == b <==> TopBitsClear(b, t)
  {
    AndLowBitsMask(b, t);
    LowBitsBound(b as nat, 8 - t);
    LowBitsOfSmall(b as nat, 8 - t);
    TopBitsClearIsBound(AndByte(b, LowBitsMask(t)), t);
    TopBitsClearIsBound(b, t);
  }

  /** The two spellings of the unused-bits mask agree: `(1 << (8-t)) - 1`
      and `0xFF >> t`. */
  lemma MaskSpellingsAgree(t: nat)
    requires t <= 8
    ensures Pow2(8 - t) - 1 == LowBitsMask(t) as nat
  {
  }

  // ---------------------------------------------------------------------
  // Byte strings
  // ---------------------------------------------------------------------

  /** `b'\x00' * n` (empty for `n <= 0`). */
  function Zeros(n: int): (r: Bytes)
    ensures |r| == if n < 0 then 0 else n
    ensures forall i :: 0 <= i < |r| ==> r[i] == 0
    decreases n
  {
    if n <= 0 then [] else Zeros(n - 1) + [0]
  }

  predicate AllZero(s: Bytes)
  {
    forall i :: 0 <= i < |s| ==> s[i] == 0
  }

  /** `s[:n] == b'\x00' * n`: `s` holds at least `n` bytes and the first
      `n` of them are zero. */
  predicate ZeroPrefix(s: Bytes, n: nat)
    decreases n
  {
    n == 0 || (|s| > 0 && s[0] == 0 && ZeroPrefix(s[1..], n - 1))
  }

  lemma {:induction false} ZeroPrefixMeans(s: Bytes, n: nat)
    ensures ZeroPrefix(s, n) <==> n <= |s| && AllZero(s[..n])
    decreases n
  {
    if n > 0 && |s| > 0 {
      ZeroPrefixMeans(s[1..], n - 1);
      if n <= |s| {
        assert s[..n] == [s[0]] + s[1..][..n - 1];
      }
    }
  }

  /** The recursive reading agrees with the slice comparison. */
  lemma ZeroPrefixIsComparison(s: Bytes, n: nat)
    ensures ZeroPrefix(s, n) <==> Take(s, n) == Zeros(n)
  {
    ZeroPrefixMeans(s, n);
    if Take(s, n) == Zeros(n) {
      assert |Take(s, n)| == n;
    }
  }

  /** `bytes(a ^ b for a, b in zip(x, y))`: stops at the shorter input. */
  function Xor(x: Bytes, y: Bytes): (r: Bytes)
    ensures |r| == if |x| < |y| then |x| else |y|
    ensures forall i :: 0 <= i < |r| ==> r[i] == XorByte(x[i], y[i])
    decreases |x|
  {
    if |x| == 0 || |y| == 0 then []
    else
      var rest := Xor(x[1..], y[1..]);
      [XorByte(x[0], y[0])] + rest
  }

  /** XOR-ing twice with the same mask gives the input back. */
  lemma XorTwice(x: Bytes, m: Bytes)
    requires |x| == |m|
    ensures Xor(Xor(x, m), m) == x
  {
    forall i | 0 <= i < |x|
      ensures Xor(Xor(x, m), m)[i] == x[i]
    {
      XorByteTwice(x[i], m[i]);
    }
  }

  function Min(a: int, b: int): int
  {
    if a < b then a else b
  }

  /** Python's `s[:k]` for `k >= 0`: the first `k` bytes, or all of `s`
      when it is shorter. */
  function Take(s: Bytes, k: nat): (r: Bytes)
    ensures |r| == Min(k, |s|)
    ensures r == s[..Min(k, |s|)]
  {
    s[..Min(k, |s|)]
  }

  /** Python's `s[:k]` for any integer `k` (negative counts from the end). */
  function Prefix(s: Bytes, k: int): (r: Bytes)
    ensures |r| <= |s| && r == s[..|r|]
    ensures k >= 0 ==> r == Take(s, k)
  {
    if k >= 0 then Take(s, k)
    else if k + |s| < 0 then []
    else s[..k + |s|]
  }

  /** Python's `s[i:j]` for non-negative `i` and `j`. */
  function Slice(s: Bytes, i: nat, j: int): (r: Bytes)
    ensures |r| <= |s|
  {
    var lo := Min(i, |s|);
    var hi := if j < lo then lo else Min(j, |s|);
    s[lo..hi]
  }

  /** Python's `s[i:]` for any integer `i` (negative counts from the end). */
  function From(s: Bytes, i: int): (r: Bytes)
    ensures |r| <= |s|
  {
    if i >= 0 then s[Min(i, |s|)..]
    else if i + |s| < 0 then s
    else s[i + |s|..]
  }

  /** `bytes([s[0] & mask]) + s[1:]`: masks the first byte only. */
  function MaskFirstByte(s: Bytes, mask: Byte): (r: Bytes)
    requires |s| > 0
    ensures |r| == |s| && r[0] == AndByte(s[0], mask) && r[1..] == s[1..]
  {
    [AndByte(s[0], mask)] + s[1..]
  }

  /** Masking a first byte that the mask keeps changes nothing. */
  lemma MaskFirstByteKeeps(s: Bytes, mask: Byte)
    requires |s| > 0 && AndByte(s[0], mask) == s[0]
    ensures MaskFirstByte(s, mask) == s
  {
    assert MaskFirstByte(s, mask) == [s[0]] + s[1..];
  }

  /** Unmasking a masked first byte with the same mask byte `k` and clearing
      the top `t` bits again gives `d` with its top `t` bits cleared. */
  lemma RemaskFirstByte(d: Byte, k: Byte, t: nat)
    requires t <= 8
    ensures AndByte(XorByte(AndByte(XorByte(d, k), LowBitsMask(t)), k), LowBitsMask(t))
         == AndByte(d, LowBitsMask(t))
  {
    var j := 8 - t;
    var x1 := XorByte(d, k);
    var y1 := AndByte(x1, LowBitsMask(t));
    var x2 := XorByte(y1, k);
    var y2 := AndByte(x2, LowBitsMask(t));
    var ld := LowBits(d as nat, j);
    var lk := LowBits(k as nat, j);
    AndLowBitsMask(x1, t);
    LowBitsOfXor(d as nat, k as nat, j);
    assert y1 as nat == XorNat(ld, lk);
    AndLowBitsMask(x2, t);
    LowBitsOfXor(y1 as nat, k as nat, j);
    LowBitsBound(x1 as nat, j);
    LowBitsOfSmall(y1 as nat, j);
    assert y2 as nat == XorNat(XorNat(ld, lk), lk);
    XorNatTwice(ld, lk);
    AndLowBitsMask(d, t);
  }

  /** A first byte of 0 or 1 comes back unchanged when the mask keeps at
      least bit 0. */
  lemma MaskedByteRecovers(d: Byte, k: Byte, t: nat)
    requires d == 0 || d == 1
    requires t <= 7
    ensures AndByte(XorByte(AndByte(XorByte(d, k), LowBitsMask(t)), k), LowBitsMask(t)) == d
  {
    RemaskFirstByte(d, k, t);
    AndLowBitsMask(d, t);
    LowBitsOfSmall(d as nat, 8 - t);
  }

  /** Unmasking a masked block with the same mask and clearing the first
      byte's unused bits again gives the block with those bits cleared. */
  lemma RemaskTwice(a: Bytes, m: Bytes, t: nat)
    requires |a| == |m| > 0 && t <= 8
    ensures MaskFirstByte(Xor(MaskFirstByte(Xor(a, m), LowBitsMask(t)), m), LowBitsMask(t))
         == MaskFirstByte(a, LowBitsMask(t))
  {
    var x := MaskFirstByte(Xor(a, m), LowBitsMask(t));
    var y := MaskFirstByte(Xor(x, m), LowBitsMask(t));
    RemaskFirstByte(a[0], m[0], t);
    forall i | 1 <= i < |a|
      ensures y[i] == a[i]
    {
      XorByteTwice(a[i], m[i]);
    }
  }
}
