/** Key generation in `src/rsa_core.py`: Miller-Rabin with bases from
    `secrets.randbelow`, prime candidates from `secrets.randbits`, and key
    assembly with Euler's totient phi(n) = (p-1)(q-1), the private exponent
    being `pow(e, -1, phi)`. Keys are pairs `(n, exponent)`, the reverse of
    the order `crypto_lib.py` uses.

    Randomness is supplied by the caller: the `randbelow(n - 3)` draws of
    each Miller-Rabin round, the `randbits(bits)` value of each prime
    candidate, and the pairs of primes the generator returned. */
module RsaCore {
  import opened Wrappers
  import opened NumberTheory
  import opened MillerRabin
  import CryptoLibKeys

  /** The public exponent `e`. */
  const PublicExponent: nat := 65537

  // ---------------------------------------------------------------------
  // Miller-Rabin
  // ---------------------------------------------------------------------

  /** The round draws are values `secrets.randbelow(n - 3)` can return; the
      rounds only run for odd `n >= 5`, where `n - 3 >= 2`. */
  predicate DrawsFor(n: int, draws: seq<nat>)
  {
    n >= 5 ==> forall i :: 0 <= i < |draws| ==> draws[i] < n - 3
  }

  /** `secrets.randbelow(n - 3) + 2` when the draw was `draw`: a base in
      [2, n-2]. */
  function RoundBase(n: int, draw: nat): (a: nat)
    requires n >= 5 && draw < n - 3
    ensures 2 <= a <= n - 2
  {
    draw + 2
  }

  /** What `is_prime(n)` answers when its rounds draw `draws`. */
  ghost predicate Accepts(n: int, draws: seq<nat>)
    requires DrawsFor(n, draws)
  {
    if n < 2 then false
    else if n == 2 || n == 3 then true
    else if n % 2 == 0 then false
    else
      var (r, s) := Decomposition(n - 1);
      forall i :: 0 <= i < |draws| ==> RoundPasses(n, r, s, RoundBase(n, draws[i]))
  }

  /** `is_prime(n, k)` with `k == |draws|` rounds. */
  method IsPrime(n: int, draws: seq<nat>) returns (b: bool)
    requires DrawsFor(n, draws)
    ensures n < 2 ==> !b
    ensures n == 2 || n == 3 ==> b
    ensures n > 3 && n % 2 == 0 ==> !b
    ensures n > 3 && n % 2 == 1 ==>
      (b <==> forall i :: 0 <= i < |draws| ==>
                RoundPasses(n, Decomposition(n - 1).0, Decomposition(n - 1).1, draws[i] + 2))
    ensures b == Accepts(n, draws)
  {
    if n < 2 {
      return false;
    }
    if n == 2 || n == 3 {
      return true;
    }
    if n % 2 == 0 {
      return false;
    }
    var r, s := Decompose(n - 1);
    var i := 0;
    while i < |draws|
      invariant 0 <= i <= |draws|
      invariant forall j :: 0 <= j < i ==> RoundPasses(n, r, s, RoundBase(n, draws[j]))
    {
      var a := RoundBase(n, draws[i]);
      var pass := WitnessRound(n, r, s, a);
      if !pass {
        return false;
      }
      i := i + 1;
    }
    return true;
  }

  /** Both `is_prime` functions run the same rounds: a `crypto_lib.py`
      draw `raw` gives the base `raw % (n - 3) + 2`, which is the base of
      the `randbelow` draw `raw % (n - 3)`. */
  lemma SameRoundsAsCryptoLib(n: int, draws: seq<nat>, raws: seq<nat>)
    requires n >= 5 && |draws| == |raws|
    requires forall i :: 0 <= i < |raws| ==> draws[i] == raws[i] % (n - 3)
    ensures DrawsFor(n, draws)
    ensures Accepts(n, draws) == CryptoLibKeys.Accepts(n, raws)
  {
  }

  // ---------------------------------------------------------------------
  // Prime generation
  // ---------------------------------------------------------------------

  /** One candidate of `generate_prime(bits)`:
      `secrets.randbits(bits) | (1 << bits - 1) | 1`. The shift by
      `bits - 1` raises ValueError when `bits == 0`. */
  function Candidate(raw: nat, bits: nat): (c: Result<nat>)
    requires raw < Pow2(bits)
    ensures c.Failure? <==> bits == 0
    ensures c.Failure? ==> c.error == NegativeShift
    ensures c.Success? ==> Pow2(bits - 1) <= c.value < Pow2(bits) && c.value % 2 == 1
    ensures c.Success? ==> c.value - raw in {0, 1, Pow2(bits - 1), Pow2(bits - 1) + 1}
  {
    if bits == 0 then Failure(NegativeShift) else Success(ForceBits(raw, bits))
  }

  /** A one-bit prime is never found: every candidate is 1, which
      `is_prime` rejects, so `generate_prime(1)` does not return. */
  lemma OneBitCandidateRejected(raw: nat, draws: seq<nat>)
    requires raw < Pow2(1)
    ensures Candidate(raw, 1) == Success(1)
    ensures !Accepts(1, draws)
  {
    assert Pow2(0) == 1 && Pow2(1) == 2;
  }

  /** An accepted odd candidate of `bits` bits is at least 3, so it has at
      least two bits. */
  lemma AcceptedCandidateWide(c: nat, bits: nat, draws: seq<nat>)
    requires bits >= 1 && c < Pow2(bits) && c % 2 == 1
    requires DrawsFor(c, draws) && Accepts(c, draws)
    ensures bits >= 2 && c >= 3
  {
  }

  /** `generate_prime(bits)` fed the `randbits` values `raws[i]` and the
      round draws `draws[i]` of its attempts: the first candidate
      `is_prime` accepts, the ValueError of the shift when `bits == 0`, or
      None when every supplied attempt was rejected. */
  method GeneratePrime(bits: nat, raws: seq<nat>, draws: seq<seq<nat>>) returns (p: Option<Result<nat>>)
    requires |draws| == |raws|
    requires forall i :: 0 <= i < |draws| ==> |draws[i]| == Rounds
    requires forall i :: 0 <= i < |raws| ==> raws[i] < Pow2(bits)
    requires bits >= 1 ==> forall i :: 0 <= i < |raws| ==> DrawsFor(ForceBits(raws[i], bits), draws[i])
    ensures bits == 0 ==> p == Some(Failure(NegativeShift))
    ensures p.Some? && bits >= 1 ==> p.value.Success?
    ensures p.Some? && p.value.Success? ==>
      var c := p.value.value;
      && bits >= 2 && c >= 3 && Pow2(bits - 1) <= c < Pow2(bits) && c % 2 == 1
      && exists i :: 0 <= i < |raws| && c == ForceBits(raws[i], bits) && Accepts(c, draws[i])
                    && forall j :: 0 <= j < i ==> !Accepts(ForceBits(raws[j], bits), draws[j])
    ensures bits >= 1 ==>
      (p.None? <==> forall i :: 0 <= i < |raws| ==> !Accepts(ForceBits(raws[i], bits), draws[i]))
  {
    if bits == 0 {
      return Some(Failure(NegativeShift));
    }
    var i := 0;
    while i < |raws|
      invariant 0 <= i <= |raws|
      invariant forall j :: 0 <= j < i ==> !Accepts(ForceBits(raws[j], bits), draws[j])
    {
      var c := Candidate(raws[i], bits).value;
      var prime := IsPrime(c, draws[i]);
      if prime {
        AcceptedCandidateWide(c, bits, draws[i]);
        return Some(Success(c));
      }
      i := i + 1;
    }
    return None;
  }

  // ---------------------------------------------------------------------
  // pow(e, -1, m)
  // ---------------------------------------------------------------------

  /** `pow(e, -1, m)` for a non-negative modulus: ValueError for `m == 0`
      and for an `e` not invertible modulo `m`; otherwise the inverse of `e`
      reduced into [0, m). */
  function PowInverse(e: nat, m: nat): (r: Result<nat>)
    ensures r.Failure? <==> m == 0 || Gcd(e, m) != 1
    ensures r.Failure? ==> r.error == (if m == 0 then ZeroModulus else NoInverse)
    ensures r.Success? ==> r.value < m && (e * r.value) % m == 1 % m
  {
    if m == 0 then Failure(ZeroModulus)
    else
      var (g, x, _) := ExtendedGcd(e, m);
      ExtendedGcdAgrees(e, m);
      if g != 1 then Failure(NoInverse)
      else
        BezoutInverse(e, m);
        Success(x % m)
  }

  /** The inverse `pow` returns is the only one in [0, m). */
  lemma PowInverseUnique(e: nat, m: nat, v: nat)
    requires m > 0 && v < m && (e * v) % m == 1 % m
    ensures PowInverse(e, m) == Success(v)
  {
    if m == 1 {
      InverseIsOneModOne(e, m, v);
    } else {
      InverseNeedsCoprime(e, m, v);
    }
    InverseUnique(e, m, v, PowInverse(e, m).value);
  }

  /** For a positive modulus `pow(e, -1, m)` and `crypto_lib.py`'s
      `mod_inverse(e, m)` return the same inverse and fail on the same
      inputs. */
  lemma PowInverseAgrees(e: nat, m: nat)
    requires m > 0
    ensures PowInverse(e, m).Success? <==> CryptoLibKeys.ModInverse(e, m).Success?
    ensures PowInverse(e, m).Success? ==> PowInverse(e, m) == CryptoLibKeys.ModInverse(e, m)
  {
    var r := CryptoLibKeys.ModInverse(e, m);
    if r.Success? {
      PowInverseUnique(e, m, r.value);
    }
  }

  // ---------------------------------------------------------------------
  // Key assembly
  // ---------------------------------------------------------------------

  /** Euler's totient of `n = p*q` for distinct primes: `(p - 1) * (q - 1)`. */
  function Phi(p: nat, q: nat): (phi: nat)
    requires p >= 1 && q >= 1
  {
    (p - 1) * (q - 1)
  }

  /** A pair the loop of `generate_keys` stops at: `p != q` and
      gcd(e, phi) == 1. */
  predicate Admissible(p: nat, q: nat)
    requires p >= 1 && q >= 1
  {
    p != q && Gcd(PublicExponent, Phi(p, q)) == 1
  }

  /** The keys `((n, e), (n, d))` built from `p` and `q`: `e` is 65537,
      `n == p*q`, and `d` inverts `e` modulo phi and is reduced. */
  ghost predicate KeyPairInvariant(p: nat, q: nat, keys: ((nat, nat), (nat, nat)))
  {
    && p >= 2 && q >= 2 && p != q
    && keys.0 == (p * q, PublicExponent)
    && keys.1.0 == p * q
    && keys.1.1 < Phi(p, q)
    && (PublicExponent * keys.1.1) % Phi(p, q) == 1
  }

  /** The totient of two distinct numbers above one is at least 2, so an
      inverse modulo it has remainder exactly 1. */
  lemma PhiAtLeastTwo(p: nat, q: nat)
    requires p >= 2 && q >= 2 && p != q
    ensures Phi(p, q) >= 2 && 1 % Phi(p, q) == 1
  {
    if p > 2 {
      MulAtLeast(q - 1, p - 1);
    } else {
      MulAtLeast(p - 1, q - 1);
    }
    DivModOfSum(Phi(p, q), 0, 1);
  }

  /** The key assembly after the loop: `n = p*q`, `phi_n = (p-1)*(q-1)`,
      `d = pow(e, -1, phi_n)`; `pow` cannot raise since the loop checked
      the gcd. */
  function KeysFrom(p: nat, q: nat): (keys: ((nat, nat), (nat, nat)))
    requires p >= 2 && q >= 2 && Admissible(p, q)
    ensures KeyPairInvariant(p, q, keys)
  {
    var phi := Phi(p, q);
    PhiAtLeastTwo(p, q);
    var d := PowInverse(PublicExponent, phi).value;
    var n := p * q;
    ((n, PublicExponent), (n, d))
  }

  /** `generate_keys()` given the pairs `(p, q)` its loop drew from
      `generate_prime`: the keys of the first pair with `p != q` and
      gcd(e, phi) == 1, or None when no supplied pair qualifies. */
  method GenerateKeys(pairs: seq<(nat, nat)>) returns (keys: Option<((nat, nat), (nat, nat))>)
    requires forall i :: 0 <= i < |pairs| ==> pairs[i].0 >= 2 && pairs[i].1 >= 2
    ensures keys.None? <==> forall i :: 0 <= i < |pairs| ==> !Admissible(pairs[i].0, pairs[i].1)
    ensures keys.Some? ==>
      exists i :: 0 <= i < |pairs| && Admissible(pairs[i].0, pairs[i].1)
                 && (forall j :: 0 <= j < i ==> !Admissible(pairs[j].0, pairs[j].1))
                 && KeyPairInvariant(pairs[i].0, pairs[i].1, keys.value)
  {
    var i := 0;
    while i < |pairs|
      invariant 0 <= i <= |pairs|
      invariant forall j :: 0 <= j < i ==> !Admissible(pairs[j].0, pairs[j].1)
    {
      var p, q := pairs[i].0, pairs[i].1;
      if Admissible(p, q) {
        return Some(KeysFrom(p, q));
      }
      i := i + 1;
    }
    return None;
  }

  /** The invariant fixes the keys: `d` is the unique reduced inverse. */
  lemma KeysDetermined(p: nat, q: nat, k1: ((nat, nat), (nat, nat)), k2: ((nat, nat), (nat, nat)))
    requires KeyPairInvariant(p, q, k1) && KeyPairInvariant(p, q, k2)
    ensures k1 == k2
  {
    InverseUnique(PublicExponent, Phi(p, q), k1.1.1, k2.1.1);
  }

  /** The private exponent inverts `e` modulo phi, hence also modulo
      lambda(n) = lcm(p-1, q-1), which divides phi: reduced modulo lambda
      it is the exponent `crypto_lib.py`'s `generate_rsa_keys` computes
      from the same primes, which does not raise for them. */
  lemma AgreesWithCarmichaelKeys(p: nat, q: nat, keys: ((nat, nat), (nat, nat)))
    requires KeyPairInvariant(p, q, keys)
    ensures var lam := CryptoLibKeys.CarmichaelLambda(p, q);
      && lam > 0
      && CryptoLibKeys.KeysFrom(p, q)
         == Success(((PublicExponent, p * q), (keys.1.1 % lam, p * q)))
  {
    var lam := CryptoLibKeys.CarmichaelLambda(p, q);
    var phi := Phi(p, q);
    var d := keys.1.1;
    CryptoLibKeys.LcmPositive(lam, p - 1, q - 1);
    InvertsModDivisor(d, lam, p, q);
    CryptoLibKeys.ModInverseUnique(PublicExponent, lam, d % lam);
  }

  /** `(e * (d % lam)) % lam == 1 % lam` for the lcm `lam` of `p - 1` and
      `q - 1`, from `(d * e) % phi == 1`. */
  lemma InvertsModDivisor(d: nat, lam: nat, p: nat, q: nat)
    requires p >= 2 && q >= 2 && p != q
    requires lam > 0 && IsLcm(lam, p - 1, q - 1)
    requires (PublicExponent * d) % Phi(p, q) == 1
    ensures (PublicExponent * (d % lam)) % lam == 1 % lam
  {
    var phi := Phi(p, q);
    var e := PublicExponent;
    DividesByWitness(p - 1, phi, q - 1);
    DividesByWitness(q - 1, phi, p - 1);
    assert CommonMultiple(phi, p - 1, q - 1);
    var c := DividesWitness(lam, phi);
    var k := (e * d) / phi;
    assert e * d == phi * k + 1;
    assert e * d == lam * (c * k) + 1;
    ModOfSumMultiple(lam, c * k, 1);
    MulMod(e, d, lam);
    MulMod(e, d % lam, lam);
    ModIdempotent(d, lam);
  }
}
