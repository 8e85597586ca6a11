/** Big-endian conversion between non-negative integers and byte strings:
    OS2IP (`int.from_bytes(s, 'big')`, section 4.2 of RFC 8017) and I2OSP
    (`x.to_bytes(len, 'big')`, section 4.1 of RFC 8017), which raises
    OverflowError when `x` needs more than `len` bytes. */
module Octets {
  import opened Wrappers
  import opened Bytes
  import opened NumberTheory

  /** `int.from_bytes(s, 'big')`. */
  function OS2IP(s: Bytes): (x: nat)
    ensures x < Pow(256, |s|)
    decreases |s|
  {
    if |s| == 0 then 0
    else
      var init := OS2IP(s[..|s| - 1]);
      var last := s[|s| - 1] as nat;
      AppendDigitBound(init, last, Pow(256, |s| - 1));
      init * 256 + last
  }

  lemma AppendDigitBound(init: nat, last: nat, p: nat)
    requires init < p && last < 256
    ensures init * 256 + last < 256 * p
  {
    assert init * 256 + last < (init + 1) * 256;
    MulMonotone(init + 1, p, 256);
  }

  /** The `len` low-order base-256 digits of `x`, most significant first. */
  function Digits(x: nat, len: nat): (r: Bytes)
    ensures |r| == len
    decreases len
  {
    if len == 0 then [] else Digits(x / 256, len - 1) + [(x % 256) as Byte]
  }

  /** `x.to_bytes(len, 'big')`. */
  function I2OSP(x: nat, len: nat): (r: Result<Bytes>)
    ensures r.Failure? <==> x >= Pow(256, len)
    ensures r.Failure? ==> r.error == IntTooBig
    ensures r.Success? ==> |r.value| == len && OS2IP(r.value) == x
  {
    if x >= Pow(256, len) then Failure(IntTooBig)
    else
      DigitsRoundTrip(x, len);
      Success(Digits(x, len))
  }

  lemma {:induction false} DigitsRoundTrip(x: nat, len: nat)
    requires x < Pow(256, len)
    ensures OS2IP(Digits(x, len)) == x
    decreases len
  {
    if len > 0 {
      var d := Digits(x, len);
      var q := x / 256;
      var init := Digits(q, len - 1);
      assert d == init + [(x % 256) as Byte];
      assert d[..len - 1] == init;
      assert Pow(256, len) == 256 * Pow(256, len - 1);
      QuotientBound(x, Pow(256, len - 1));
      DigitsRoundTrip(q, len - 1);
      LowDigit(x);
      assert OS2IP(d) == OS2IP(init) * 256 + d[len - 1] as nat;
    }
  }

  lemma LowDigit(x: nat)
    ensures (x / 256) * 256 + x % 256 == x
  {
  }

  lemma QuotientBound(x: nat, p: nat)
    requires x < 256 * p
    ensures x / 256 < p
  {
  }

  /** Re-encoding a byte string's value at its own length gives it back. */
  lemma I2OSPOfOS2IP(s: Bytes)
    ensures I2OSP(OS2IP(s), |s|) == Success(s)
  {
    DigitsOfOS2IP(s);
  }

  lemma {:induction false} DigitsOfOS2IP(s: Bytes)
    ensures Digits(OS2IP(s), |s|) == s
    decreases |s|
  {
    if |s| > 0 {
      var n := |s|;
      var init := s[..n - 1];
      var last := s[n - 1];
      var q := OS2IP(init);
      var x := OS2IP(s);
      DigitsOfOS2IP(init);
      assert x == q * 256 + last as nat;
      DivModOfSum(256, q, last as nat);
      assert x / 256 == q && x % 256 == last as nat;
      assert Digits(x, n) == Digits(q, n - 1) + [last];
      assert init + [last] == s;
    }
  }

  /** OS2IP read from the most significant byte: the first byte weighs
      256^(|s|-1). */
  lemma {:induction false} OS2IPFront(s: Bytes)
    requires |s| > 0
    ensures OS2IP(s) == (s[0] as nat) * Pow(256, |s| - 1) + OS2IP(s[1..])
    decreases |s|
  {
    if |s| > 1 {
      var init := s[..|s| - 1];
      OS2IPFront(init);
      var a := s[0] as nat;
      var p := Pow(256, |s| - 2);
      var m := OS2IP(init[1..]);
      var last := s[|s| - 1] as nat;
      assert OS2IP(init) == a * p + m;
      assert OS2IP(s) == OS2IP(init) * 256 + last;
      assert s[1..][..|s| - 2] == init[1..];
      assert OS2IP(s[1..]) == m * 256 + last;
      assert Pow(256, |s| - 1) == 256 * p;
      Regroup(a, p, m, last);
    } else {
      assert s[1..] == [];
    }
  }

  lemma Regroup(a: int, p: int, m: int, last: int)
    ensures (a * p + m) * 256 + last == a * (256 * p) + (m * 256 + last)
  {
  }

  /** A leading zero byte does not change the value. */
  lemma LeadingZero(s: Bytes)
    ensures OS2IP([0] + s) == OS2IP(s)
  {
    OS2IPFront([0] + s);
    assert ([0] + s)[1..] == s;
  }

  /** A byte string whose first byte is below `2^(8-t)` encodes a value below
      `2^(8*|s| - t)`. */
  lemma FirstByteBound(s: Bytes, t: nat)
    requires |s| > 0 && t <= 8
    requires (s[0] as nat) < Pow2(8 - t)
    ensures OS2IP(s) < Pow2(8 * |s| - t)
  {
    OS2IPFront(s);
    var w := Pow(256, |s| - 1);
    Pow256IsPow2(|s| - 1);
    Pow2Add(8 - t, 8 * (|s| - 1));
    assert 8 - t + 8 * (|s| - 1) == 8 * |s| - t;
    LeadingDigitBound(s[0] as nat, Pow2(8 - t), w, OS2IP(s[1..]));
  }

  lemma LeadingDigitBound(a: nat, bound: nat, w: nat, rest: nat)
    requires a < bound && rest < w
    ensures a * w + rest < bound * w
  {
    assert a * w + rest < (a + 1) * w;
    assert a + 1 <= bound;
    MulMonotone(a + 1, bound, w);
  }

  lemma MulMonotone(x: nat, y: nat, w: nat)
    requires x <= y
    ensures x * w <= y * w
  {
  }
}
