/** Key generation in `crypto_lib.py`: Miller-Rabin with bases derived from
    16 random bytes, prime generation from `os.urandom`, the modular inverse
    built on the recursive extended Euclid, and key assembly with the
    Carmichael totient lambda(n) = lcm(p-1, q-1).

    Randomness is supplied by the caller: the 16-byte draws of each
    Miller-Rabin round as integers, the `bits // 8` random bytes of each
    prime candidate, and the stream of primes the generator returned. */
module CryptoLibKeys {
  import opened Wrappers
  import opened Bytes
  import opened NumberTheory
  import opened Octets
  import opened MillerRabin

  /** The public exponent `e`. */
  const PublicExponent: nat := 65537

  /** `int.from_bytes(os.urandom(16), 'big') % (n - 3) + 2`. */
  function RoundBase(n: nat, draw: nat): (a: nat)
    requires n >= 5
    ensures 2 <= a <= n - 2
  {
    draw % (n - 3) + 2
  }

  /** What `is_prime(n)` answers when its rounds draw `draws`. */
  ghost predicate Accepts(n: int, draws: seq<nat>)
  {
    if n < 2 then false
    else if n == 2 || n == 3 then true
    else if n % 2 == 0 then false
    else
      var (r, s) := Decomposition(n - 1);
      forall i :: 0 <= i < |draws| ==> RoundPasses(n, r, s, RoundBase(n, draws[i]))
  }

  /** `is_prime(n, k)` with `k == |draws|` rounds. */
  method IsPrime(n: int, draws: seq<nat>) returns (b: bool)
    ensures n < 2 ==> !b
    ensures n == 2 || n == 3 ==> b
    ensures n > 3 && n % 2 == 0 ==> !b
    ensures n > 3 && n % 2 == 1 ==>
      (b <==> forall i :: 0 <= i < |draws| ==>
                RoundPasses(n, Decomposition(n - 1).0, Decomposition(n - 1).1, RoundBase(n, draws[i])))
    ensures b == Accepts(n, draws)
  {
    if n < 2 {
      return false;
    }
    if n == 2 || n == 3 {
      return true;
    }
    if n % 2 == 0 {
      return false;
    }
    var r, s := Decompose(n - 1);
    var i := 0;
    while i < |draws|
      invariant 0 <= i <= |draws|
      invariant forall j :: 0 <= j < i ==> RoundPasses(n, r, s, RoundBase(n, draws[j]))
    {
      var a := RoundBase(n, draws[i]);
      var pass := WitnessRound(n, r, s, a);
      if !pass {
        return false;
      }
      i := i + 1;
    }
    return true;
  }

  /** One candidate of `generate_prime(bits)`:
      `int.from_bytes(os.urandom(bits // 8), 'big') | (1 << (bits - 1)) | 1`. */
  function Candidate(raw: Bytes, bits: nat): (c: nat)
    requires bits >= 1 && |raw| == bits / 8
    ensures Pow2(bits - 1) <= c < Pow2(bits) && c % 2 == 1
  {
    var x := OS2IP(raw);
    Pow256IsPow2(|raw|);
    Pow2Monotone(8 * (bits / 8), bits);
    ForceBits(x, bits)
  }

  /** `generate_prime(bits)` fed the random bytes `raws[i]` and the round
      draws `draws[i]` of its attempts: the first candidate `is_prime`
      accepts, or None when every supplied attempt was rejected. */
  method GeneratePrime(bits: nat, raws: seq<Bytes>, draws: seq<seq<nat>>) returns (p: Option<nat>)
    requires bits >= 1
    requires |draws| == |raws|
    requires forall i :: 0 <= i < |draws| ==> |draws[i]| == Rounds
    requires forall i :: 0 <= i < |raws| ==> |raws[i]| == bits / 8
    ensures p.Some? ==> Pow2(bits - 1) <= p.value < Pow2(bits) && p.value % 2 == 1
    ensures p.Some? ==> exists i :: 0 <= i < |raws| && p.value == Candidate(raws[i], bits)
                                   && Accepts(p.value, draws[i])
                                   && forall j :: 0 <= j < i ==> !Accepts(Candidate(raws[j], bits), draws[j])
    ensures p.None? <==> forall i :: 0 <= i < |raws| ==> !Accepts(Candidate(raws[i], bits), draws[i])
  {
    var i := 0;
    while i < |raws|
      invariant 0 <= i <= |raws|
      invariant forall j :: 0 <= j < i ==> !Accepts(Candidate(raws[j], bits), draws[j])
    {
      var c := Candidate(raws[i], bits);
      var prime := IsPrime(c, draws[i]);
      if prime {
        return Some(c);
      }
      i := i + 1;
    }
    return None;
  }

  /** `mod_inverse(e, m)`: the Bezout coefficient of `e` reduced modulo `m`;
      raises ValueError when gcd(e, m) != 1 and ZeroDivisionError when
      `m == 0` (with `e == 1`). */
  function ModInverse(e: nat, m: nat): (r: Result<nat>)
    ensures r.Failure? && r.error == NoInverse <==> Gcd(e, m) != 1
    ensures r.Failure? <==> Gcd(e, m) != 1 || m == 0
    ensures r.Success? ==> r.value < m && (e * r.value) % m == 1 % m
  {
    var (d, x, y) := ExtendedGcd(e, m);
    ExtendedGcdAgrees(e, m);
    if d != 1 then Failure(NoInverse)
    else if m == 0 then Failure(DivisionByZero)
    else
      BezoutInverse(e, m);
      Success(x % m)
  }

  /** The inverse `mod_inverse` returns is the only one in [0, m). */
  lemma ModInverseUnique(e: nat, m: nat, v: nat)
    requires m > 0 && v < m && (e * v) % m == 1 % m
    ensures ModInverse(e, m) == Success(v)
  {
    if m == 1 {
      InverseIsOneModOne(e, m, v);
    } else {
      InverseNeedsCoprime(e, m, v);
    }
    var w := ModInverse(e, m).value;
    InverseUnique(e, m, v, w);
  }

  /** The `while p == q` loop: the first prime of the stream that differs
      from `p`. */
  function FirstDifferent(p: nat, qs: seq<nat>): (q: Option<nat>)
    ensures q.None? <==> forall i :: 0 <= i < |qs| ==> qs[i] == p
    ensures q.Some? ==> exists i :: 0 <= i < |qs| && qs[i] == q.value && q.value != p
                                  && forall j :: 0 <= j < i ==> qs[j] == p
    decreases |qs|
  {
    if |qs| == 0 then None
    else if qs[0] != p then Some(qs[0])
    else
      var q := FirstDifferent(p, qs[1..]);
      if q.Some? then
        var i :| 0 <= i < |qs| - 1 && qs[1..][i] == q.value && q.value != p
                 && forall j :: 0 <= j < i ==> qs[1..][j] == p;
        assert qs[i + 1] == q.value;
        assert forall j :: 0 <= j < i + 1 ==> qs[j] == p by {
          forall j | 0 <= j < i + 1
            ensures qs[j] == p
          {
            if j > 0 {
              assert qs[j] == qs[1..][j - 1];
            }
          }
        }
        q
      else
        assert forall i :: 0 <= i < |qs| ==> qs[i] == p by {
          forall i | 0 <= i < |qs|
            ensures qs[i] == p
          {
            if i > 0 {
              assert qs[i] == qs[1..][i - 1];
            }
          }
        }
        q
  }

  /** `lambda_n = (p - 1) * (q - 1) // math.gcd(p - 1, q - 1)`. */
  function CarmichaelLambda(p: nat, q: nat): (lam: nat)
    requires p >= 2 && q >= 2
    ensures IsLcm(lam, p - 1, q - 1)
  {
    Lcm(p - 1, q - 1)
  }

  /** The keys `((e, n), (d, n))` built from distinct `p` and `q`: `e` is
      65537, `n == p*q`, and `d` inverts `e` modulo lcm(p-1, q-1). */
  ghost predicate KeyPairInvariant(p: nat, q: nat, keys: ((nat, nat), (nat, nat)))
  {
    && p >= 2 && q >= 2 && p != q
    && keys.0.0 == PublicExponent
    && keys.0.1 == keys.1.1 == p * q
    && InvertsModLcm(keys.1.0, PublicExponent, p - 1, q - 1)
  }

  /** `d * e == 1` modulo lcm(a, b), with `d` reduced. */
  ghost predicate InvertsModLcm(d: nat, e: nat, a: nat, b: nat)
  {
    exists lam: nat :: IsLcm(lam, a, b) && d < lam && (d * e) % lam == 1 % lam
  }

  /** The invariant fixes the keys: the lcm of `p - 1` and `q - 1` is
      unique, and so is the reduced inverse of `e` modulo it. */
  lemma KeysDetermined(p: nat, q: nat, k1: ((nat, nat), (nat, nat)), k2: ((nat, nat), (nat, nat)))
    requires KeyPairInvariant(p, q, k1) && KeyPairInvariant(p, q, k2)
    ensures k1 == k2
  {
    var l1: nat :| IsLcm(l1, p - 1, q - 1) && k1.1.0 < l1 && (k1.1.0 * PublicExponent) % l1 == 1 % l1;
    var l2: nat :| IsLcm(l2, p - 1, q - 1) && k2.1.0 < l2 && (k2.1.0 * PublicExponent) % l2 == 1 % l2;
    DividesAntisymmetric(l1, l2);
    assert PublicExponent * k1.1.0 == k1.1.0 * PublicExponent;
    assert PublicExponent * k2.1.0 == k2.1.0 * PublicExponent;
    InverseUnique(PublicExponent, l1, k1.1.0, k2.1.0);
  }

  /** The key assembly of `generate_rsa_keys` once `p != q` is fixed:
      `n = p*q`, `lambda_n = lcm(p-1, q-1)`, `d = mod_inverse(e, lambda_n)`. */
  function KeysFrom(p: nat, q: nat): (r: Result<((nat, nat), (nat, nat))>)
    requires p >= 2 && q >= 2 && p != q
    ensures r.Failure? <==> Gcd(PublicExponent, CarmichaelLambda(p, q)) != 1
    ensures r.Failure? ==> r.error == NoInverse
    ensures r.Success? ==> KeyPairInvariant(p, q, r.value)
  {
    var lam := CarmichaelLambda(p, q);
    LcmPositive(lam, p - 1, q - 1);
    match ModInverse(PublicExponent, lam)
    case Failure(err) => Failure(err)
    case Success(d) =>
      assert InvertsModLcm(d, PublicExponent, p - 1, q - 1) by {
        assert IsLcm(lam, p - 1, q - 1) && d < lam && (d * PublicExponent) % lam == 1 % lam;
      }
      var n := p * q;
      Success(((PublicExponent, n), (d, n)))
  }

  /** `generate_rsa_keys(bits)` given its first prime `p` and the primes
      `qs` generated for `q`: the keys `((e, n), (d, n))` of the first prime
      different from `p`, the `mod_inverse` exception when
      gcd(e, lambda) != 1 (there is no separate check), or None when the
      stream holds no prime different from `p`. */
  function GenerateRsaKeys(p: nat, qs: seq<nat>): (r: Option<Result<((nat, nat), (nat, nat))>>)
    requires p >= 2
    requires forall i :: 0 <= i < |qs| ==> qs[i] >= 2
    ensures r.None? <==> forall i :: 0 <= i < |qs| ==> qs[i] == p
    ensures r.Some? ==> exists i :: 0 <= i < |qs| && qs[i] != p
                                  && (forall j :: 0 <= j < i ==> qs[j] == p)
                                  && r.value == KeysFrom(p, qs[i])
  {
    match FirstDifferent(p, qs)
    case None => None
    case Some(q) => Some(KeysFrom(p, q))
  }

  lemma LcmPositive(l: nat, a: nat, b: nat)
    requires a > 0 && b > 0 && IsLcm(l, a, b)
    ensures l > 0
  {
    DividesByWitness(a, a * b, b);
    DividesByWitness(b, a * b, a);
    assert CommonMultiple(a * b, a, b);
    assert Divides(l, a * b);
  }
}
