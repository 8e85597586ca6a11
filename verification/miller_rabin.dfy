/** The deterministic part of the Miller-Rabin test that both `is_prime`
    functions share (FIPS 186-4 appendix C.3.1): writing `n - 1` as
    `2^r * s` with `s` odd, and one round with a given base `a`. */
module MillerRabin {
  import opened NumberTheory

  /** The rounds `generate_prime` asks of `is_prime`: its default `k`. */
  const Rounds: nat := 40

  /** The exponent `r` and odd part `s` of a positive `m == 2^r * s`. */
  function Decomposition(m: nat): (rs: (nat, nat))
    requires m > 0
    ensures m == Pow2(rs.0) * rs.1
    ensures rs.1 % 2 == 1
    decreases m
  {
    if m % 2 == 1 then (0, m)
    else
      var (r, s) := Decomposition(m / 2);
      (r + 1, s)
  }

  /** The write-up `n - 1 = 2^r * s` is unique. */
  lemma {:induction false} DecompositionUnique(m: nat, r: nat, s: nat)
    requires m > 0
    requires m == Pow2(r) * s && s % 2 == 1
    ensures Decomposition(m) == (r, s)
    decreases m
  {
    if r == 0 {
      assert m == s;
    } else {
      assert m == 2 * (Pow2(r - 1) * s);
      assert m % 2 == 0;
      DecompositionUnique(m / 2, r - 1, s);
    }
  }

  /** The loop `r, s = 0, n - 1; while s % 2 == 0: r += 1; s //= 2`. */
  method Decompose(m: nat) returns (r: nat, s: nat)
    requires m > 0
    ensures m == Pow2(r) * s && s % 2 == 1
    ensures (r, s) == Decomposition(m)
    ensures m % 2 == 0 ==> r >= 1
  {
    r, s := 0, m;
    while s % 2 == 0
      invariant s > 0
      invariant m == Pow2(r) * s
      invariant m % 2 == 0 && s == m ==> r == 0
      invariant s < m ==> r >= 1
      decreases s
    {
      r := r + 1;
      s := s / 2;
    }
    DecompositionUnique(m, r, s);
  }

  lemma DoubleExponent(i: nat, s: nat)
    ensures 2 * (Pow2(i) * s) == Pow2(i + 1) * s
  {
  }

  /** A round with base `a` passes: `a^s == 1 (mod n)` or
      `a^(2^j * s) == n - 1 (mod n)` for some `0 <= j < r`. */
  ghost predicate RoundPasses(n: nat, r: nat, s: nat, a: nat)
    requires n > 0
  {
    ModPow(a, s, n) == 1 || exists j :: 0 <= j < r && ModPow(a, Pow2(j) * s, n) == n - 1
  }

  /** One round: `x = pow(a, s, n)`; pass on 1 or n-1; otherwise square up to
      `r - 1` times looking for `n - 1` (the `for ... else: return False`). */
  method WitnessRound(n: nat, r: nat, s: nat, a: nat) returns (pass: bool)
    requires n > 2 && r >= 1
    ensures pass <==> RoundPasses(n, r, s, a)
  {
    var x := ModPow(a, s, n);
    if x == 1 || x == n - 1 {
      assert Pow2(0) * s == s;
      return true;
    }
    var i := 0;
    while i < r - 1
      invariant 0 <= i <= r - 1
      invariant x == ModPow(a, Pow2(i) * s, n)
      invariant forall j :: 0 <= j <= i ==> ModPow(a, Pow2(j) * s, n) != n - 1
    {
      ModPowSquare(a, Pow2(i) * s, n);
      DoubleExponent(i, s);
      x := ModPow(x, 2, n);
      i := i + 1;
      if x == n - 1 {
        return true;
      }
    }
    assert Pow2(0) * s == s;
    return false;
  }
}
