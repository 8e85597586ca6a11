/** Exact integer arithmetic shared by both key-generation paths: powers,
    modular exponentiation (Python's three-argument `pow`), divisibility,
    greatest common divisor (`math.gcd`), the recursive extended Euclidean
    algorithm, least common multiples and bit lengths. */
module NumberTheory {

  // ---------------------------------------------------------------------
  // Powers
  // ---------------------------------------------------------------------

  function Pow(b: int, e: nat): int
    decreases e
  {
    if e == 0 then 1 else b * Pow(b, e - 1)
  }

  function Pow2(k: nat): (r: nat)
    ensures r >= 1
    decreases k
  {
    if k == 0 then 1 else 2 * Pow2(k - 1)
  }

  /** Python's `pow(b, e, m)` for a positive modulus. */
  function ModPow(b: nat, e: nat, m: nat): (r: nat)
    requires m > 0
    ensures r < m
  {
    PowNonNegative(b, e);
    Pow(b, e) % m
  }

  lemma PowNonNegative(b: nat, e: nat)
    ensures Pow(b, e) >= 0
    decreases e
  {
    if e > 0 {
      PowNonNegative(b, e - 1);
    }
  }

  lemma {:induction false} PowAdd(b: int, e1: nat, e2: nat)
    ensures Pow(b, e1 + e2) == Pow(b, e1) * Pow(b, e2)
    decreases e1
  {
    if e1 > 0 {
      PowAdd(b, e1 - 1, e2);
      assert Pow(b, e1 + e2) == b * Pow(b, e1 - 1 + e2);
    }
  }

  lemma {:induction false} Pow2Add(a: nat, c: nat)
    ensures Pow2(a + c) == Pow2(a) * Pow2(c)
    decreases a
  {
    if a > 0 {
      Pow2Add(a - 1, c);
    }
  }

  lemma {:induction false} Pow2IsPow(k: nat)
    ensures Pow2(k) == Pow(2, k)
    decreases k
  {
    if k > 0 {
      Pow2IsPow(k - 1);
    }
  }

  lemma {:induction false} Pow2Monotone(a: nat, c: nat)
    requires a <= c
    ensures Pow2(a) <= Pow2(c)
    decreases c
  {
    if a < c {
      Pow2Monotone(a, c - 1);
    }
  }

  /** 256^k is 2^(8k). */
  lemma {:induction false} Pow256IsPow2(k: nat)
    ensures Pow(256, k) == Pow2(8 * k)
    decreases k
  {
    if k > 0 {
      Pow256IsPow2(k - 1);
      Pow2Add(8, 8 * (k - 1));
      assert 8 * k == 8 + 8 * (k - 1);
    }
  }

  // ---------------------------------------------------------------------
  // Division facts (Dafny's / and % on a positive divisor are floor
  // division and the non-negative remainder, as in Python)
  // ---------------------------------------------------------------------

  lemma DivModUnique(n: int, q1: int, r1: int, q2: int, r2: int)
    requires n > 0
    requires 0 <= r1 < n && 0 <= r2 < n
    requires n * q1 + r1 == n * q2 + r2
    ensures q1 == q2 && r1 == r2
  {
    if q1 > q2 {
      assert n * (q1 - q2) == r2 - r1;
      MulAtLeast(n, q1 - q2);
    } else if q1 < q2 {
      assert n * (q2 - q1) == r1 - r2;
      MulAtLeast(n, q2 - q1);
    }
  }

  lemma MulAtLeast(n: int, k: int)
    requires n > 0 && k >= 1
    ensures n * k >= n
  {
    assert n * k == n * (k - 1) + n;
    assert n * (k - 1) >= 0;
  }

  /** The quotient and remainder of `n * q + r` by `n`, for `0 <= r < n`. */
  lemma DivModOfSum(n: int, q: int, r: int)
    requires n > 0 && 0 <= r < n
    ensures (n * q + r) / n == q && (n * q + r) % n == r
  {
    var x := n * q + r;
    DivModUnique(n, x / n, x % n, q, r);
  }

  lemma ModOfSumMultiple(n: int, k: int, a: int)
    requires n > 0
    ensures (n * k + a) % n == a % n
  {
    assert n * k + a == n * (k + a / n) + a % n;
    DivModOfSum(n, k + a / n, a % n);
  }

  lemma MulMod(x: int, y: int, n: int)
    requires n > 0
    ensures (x * y) % n == ((x % n) * (y % n)) % n
  {
    var qx, rx := x / n, x % n;
    var qy, ry := y / n, y % n;
    var k := qx * n * qy + qx * ry + rx * qy;
    assert x * y == (n * qx + rx) * (n * qy + ry);
    ProductExpansion(n, qx, rx, qy, ry);
    ModOfSumMultiple(n, k, rx * ry);
  }

  lemma ProductExpansion(n: int, qx: int, rx: int, qy: int, ry: int)
    ensures (n * qx + rx) * (n * qy + ry) == n * (qx * n * qy + qx * ry + rx * qy) + rx * ry
  {
  }

  /** `math.ceil(a / b)` for a positive `b`: the least `r` with `b*r >= a`. */
  function CeilDiv(a: int, b: int): (r: int)
    requires b > 0
    ensures b * r >= a && b * (r - 1) < a
    decreases if a > 0 then a else -a
  {
    if a <= 0 then
      if a > -b then 0
      else
        var r := CeilDiv(a + b, b);
        ShiftFactor(b, r - 1);
        r - 1
    else if a <= b then 1
    else
      var r := CeilDiv(a - b, b);
      ShiftFactor(b, r);
      r + 1
  }

  lemma ShiftFactor(b: int, r: int)
    ensures b * (r + 1) == b * r + b && b * (r - 1) == b * r - b
  {
  }

  /** Squaring `b^E mod m` gives `b^(2E) mod m`: one step of the Miller-Rabin
      squaring chain. */
  lemma ModPowSquare(b: nat, e: nat, m: nat)
    requires m > 0
    ensures ModPow(ModPow(b, e, m), 2, m) == ModPow(b, 2 * e, m)
  {
    var y := Pow(b, e);
    PowNonNegative(b, e);
    PowAdd(b, e, e);
    assert Pow(b, 2 * e) == y * y;
    var z := y % m;
    assert Pow(z, 2) == z * z by {
      assert Pow(z, 2) == z * Pow(z, 1);
      assert Pow(z, 1) == z * Pow(z, 0);
    }
    MulMod(y, y, m);
  }

  // ---------------------------------------------------------------------
  // Divisibility, gcd and lcm
  // ---------------------------------------------------------------------

  /** `c` divides `a`. */
  predicate Divides(c: nat, a: int)
  {
    if c == 0 then a == 0 else a % c == 0
  }

  /** `d` is the (non-negative) greatest common divisor of `a` and `b`:
      a common divisor that every common divisor divides. */
  ghost predicate IsGcd(d: nat, a: nat, b: nat)
  {
    && CommonDivisor(d, a, b)
    && forall c: nat {:trigger CommonDivisor(c, a, b)} :: CommonDivisor(c, a, b) ==> Divides(c, d)
  }

  /** `c` divides both `a` and `b`. */
  predicate CommonDivisor(c: nat, a: int, b: int)
  {
    Divides(c, a) && Divides(c, b)
  }

  /** `l` is the least common multiple of `a` and `b`: a common multiple
      that divides every common multiple. */
  ghost predicate IsLcm(l: nat, a: nat, b: nat)
  {
    && CommonMultiple(l, a, b)
    && forall m: nat {:trigger CommonMultiple(m, a, b)} :: CommonMultiple(m, a, b) ==> Divides(l, m)
  }

  /** Both `a` and `b` divide `m`. */
  predicate CommonMultiple(m: int, a: nat, b: nat)
  {
    Divides(a, m) && Divides(b, m)
  }

  lemma DividesByWitness(c: nat, a: int, k: int)
    requires a == c * k
    ensures Divides(c, a)
  {
    if c > 0 {
      DivModOfSum(c, k, 0);
    }
  }

  lemma DividesWitness(c: nat, a: int) returns (k: int)
    requires Divides(c, a)
    ensures a == c * k
  {
    if c == 0 {
      k := 0;
    } else {
      k := a / c;
    }
  }

  /** Every common divisor of `x` and `y` divides `x*u + y*v`. */
  lemma DividesCombination(c: nat, x: int, y: int, u: int, v: int)
    requires Divides(c, x) && Divides(c, y)
    ensures Divides(c, x * u + y * v)
  {
    var kx := DividesWitness(c, x);
    var ky := DividesWitness(c, y);
    assert x * u + y * v == c * (kx * u + ky * v);
    DividesByWitness(c, x * u + y * v, kx * u + ky * v);
  }

  lemma DividesAntisymmetric(a: nat, b: nat)
    requires Divides(a, b) && Divides(b, a)
    ensures a == b
  {
    if a > 0 && b > 0 {
      var k := DividesWitness(a, b);
      var j := DividesWitness(b, a);
      PositiveFactor(a, k, b);
      PositiveFactor(b, j, a);
      MulAtLeast(a, k);
      MulAtLeast(b, j);
    }
  }

  lemma PositiveFactor(a: int, k: int, b: int)
    requires a > 0 && b > 0 && b == a * k
    ensures k >= 1
  {
    if k <= 0 {
      NonPositiveProduct(a, k);
    }
  }

  lemma NonPositiveProduct(a: int, k: int)
    requires a > 0 && k <= 0
    ensures a * k <= 0
  {
  }

  /** A gcd is unique. */
  lemma GcdUnique(d1: nat, d2: nat, a: nat, b: nat)
    requires IsGcd(d1, a, b) && IsGcd(d2, a, b)
    ensures d1 == d2
  {
    assert CommonDivisor(d1, a, b) && CommonDivisor(d2, a, b);
    assert Divides(d1, d2);
    assert Divides(d2, d1);
    DividesAntisymmetric(d1, d2);
  }

  /** One Euclid step preserves the gcd: gcd(b % a, a) is gcd(a, b). */
  lemma EuclidStep(g: nat, a: nat, b: nat)
    requires a > 0
    requires IsGcd(g, b % a, a)
    ensures IsGcd(g, a, b)
  {
    assert b == a * (b / a) + b % a;
    DividesCombination(g, a, b % a, b / a, 1);
    forall c: nat | CommonDivisor(c, a, b)
      ensures Divides(c, g)
    {
      DividesCombination(c, a, b, -(b / a), 1);
      assert a * -(b / a) + b * 1 == b % a;
      assert CommonDivisor(c, b % a, a);
    }
  }

  /** Python's `math.gcd` on non-negative arguments (Euclid's algorithm). */
  function Gcd(a: nat, b: nat): (g: nat)
    ensures IsGcd(g, a, b)
    decreases a
  {
    if a == 0 then
      assert Divides(b, 0);
      b
    else
      var g := Gcd(b % a, a);
      EuclidStep(g, a, b);
      g
  }

  /** crypto_lib's recursive `extended_gcd(a, b)`: returns `(d, x, y)` with
      `d` the gcd of `a` and `b` (the Bezout identity `a*x + b*y == d` is
      `ExtendedGcdBezout`). */
  function ExtendedGcd(a: nat, b: nat): (r: (nat, int, int))
    ensures IsGcd(r.0, a, b)
    decreases a
  {
    if a == 0 then
      assert Divides(b, 0);
      (b, 0, 1)
    else
      var (d, x1, y1) := ExtendedGcd(b % a, a);
      EuclidStep(d, a, b);
      (d, y1 - (b / a) * x1, x1)
  }

  /** The coefficients `extended_gcd` returns satisfy `a*x + b*y == d`. */
  lemma {:induction false} ExtendedGcdBezout(a: nat, b: nat)
    ensures a * ExtendedGcd(a, b).1 + b * ExtendedGcd(a, b).2 == ExtendedGcd(a, b).0
    decreases a
  {
    if a > 0 {
      var (d, x1, y1) := ExtendedGcd(b % a, a);
      ExtendedGcdBezout(b % a, a);
      assert (b % a) * x1 + a * y1 == d;
      var q := b / a;
      assert b == a * q + b % a;
      StepBezout(a, b % a, q, x1, y1);
    }
  }

  lemma StepBezout(a: int, r: int, q: int, x1: int, y1: int)
    ensures a * (y1 - q * x1) + (a * q + r) * x1 == r * x1 + a * y1
  {
  }

  /** The gcd `ExtendedGcd` reports is the one `math.gcd` computes. */
  lemma ExtendedGcdAgrees(a: nat, b: nat)
    ensures ExtendedGcd(a, b).0 == Gcd(a, b)
  {
    GcdUnique(ExtendedGcd(a, b).0, Gcd(a, b), a, b);
  }

  /** The Bezout coefficient of a coprime `e`, reduced modulo `m`, is an
      inverse of `e` modulo `m`. */
  lemma BezoutInverse(e: nat, m: nat)
    requires m > 0
    requires ExtendedGcd(e, m).0 == 1
    ensures 0 <= ExtendedGcd(e, m).1 % m < m
    ensures (e * (ExtendedGcd(e, m).1 % m)) % m == 1 % m
  {
    var r := ExtendedGcd(e, m);
    ExtendedGcdBezout(e, m);
    InverseFromBezout(e, m, r.1, r.2);
  }

  lemma InverseFromBezout(e: nat, m: nat, x: int, y: int)
    requires m > 0
    requires e * x + m * y == 1
    ensures (e * (x % m)) % m == 1 % m
  {
    var ex := e * x;
    ModOfSumMultiple(m, y, ex);
    assert ex % m == 1 % m;
    MulMod(e, x, m);
    MulMod(e, x % m, m);
    ModIdempotent(x, m);
  }

  lemma ModIdempotent(x: int, m: int)
    requires m > 0
    ensures (x % m) % m == x % m
  {
    DivModOfSum(m, 0, x % m);
  }

  /** An inverse of `e` modulo `m > 1` exists only when gcd(e, m) == 1. */
  lemma InverseNeedsCoprime(e: nat, m: nat, v: int)
    requires m > 1
    requires (e * v) % m == 1
    ensures Gcd(e, m) == 1
  {
    var g := Gcd(e, m);
    var ev := e * v;
    var k := ev / m;
    assert ev == m * k + 1;
    assert e * v + m * -k == 1;
    DividesCombination(g, e, m, v, -k);
    assert Divides(g, 1);
    DividesOne(g);
  }

  lemma InverseIsOneModOne(e: nat, m: nat, v: nat)
    requires m == 1
    ensures Gcd(e, m) == 1
  {
    assert Divides(Gcd(e, m), 1);
    DividesOne(Gcd(e, m));
  }

  /** Two inverses of `e` in [0, m) coincide. */
  lemma InverseUnique(e: nat, m: nat, v: nat, w: nat)
    requires m > 0 && v < m && w < m
    requires (e * v) % m == 1 % m && (e * w) % m == 1 % m
    ensures v == w
  {
    // v == v*(e*w) == w*(e*v) == w  (mod m)
    MulMod(v, e * w, m);
    MulMod(w, e * v, m);
    assert v * (e * w) == w * (e * v);
    assert (v * (e * w)) % m == ((v % m) * (1 % m)) % m;
    assert (w * (e * v)) % m == ((w % m) * (1 % m)) % m;
    ModIdempotent(v, m);
    ModIdempotent(w, m);
    if m == 1 {
    } else {
      assert 1 % m == 1;
      DivModOfSum(m, 0, v);
      DivModOfSum(m, 0, w);
    }
  }

  lemma DividesOne(g: nat)
    requires Divides(g, 1)
    ensures g == 1
  {
    var w := DividesWitness(g, 1);
    PositiveFactor(g, w, 1);
    MulAtLeast(g, w);
  }

  /** (a*b)/gcd(a, b) is the least common multiple of positive `a`, `b`. */
  lemma LcmFormula(a: nat, b: nat)
    requires a > 0 && b > 0
    ensures Gcd(a, b) > 0
    ensures (a * b) % Gcd(a, b) == 0
    ensures IsLcm((a * b) / Gcd(a, b), a, b)
  {
    var g := Gcd(a, b);
    assert Divides(g, a);
    var a' := DividesWitness(g, a);
    var b' := DividesWitness(g, b);
    var l := LcmQuotient(a, b, g, a', b');
    var (d, x, y) := ExtendedGcd(a, b);
    ExtendedGcdAgrees(a, b);
    ExtendedGcdBezout(a, b);
    forall m: nat | CommonMultiple(m, a, b)
      ensures Divides(l, m)
    {
      var u := DividesWitness(a, m);
      var v := DividesWitness(b, m);
      LcmDividesMultiple(a, b, g, l, m, u, v, x, y);
    }
  }

  /** `a*b // math.gcd(a, b)`, the least common multiple of positive `a`
      and `b`. */
  function Lcm(a: nat, b: nat): (l: nat)
    requires a > 0 && b > 0
    ensures IsLcm(l, a, b)
  {
    LcmFormula(a, b);
    QuotientIsDiv(a * b, Gcd(a, b));
    Quotient(a * b, Gcd(a, b))
  }

  /** `x // d` for a positive `d`, by repeated subtraction (equal to
      `x / d` by `QuotientIsDiv`). */
  function Quotient(x: nat, d: nat): nat
    requires d > 0
    decreases x
  {
    if x < d then 0 else 1 + Quotient(x - d, d)
  }

  lemma {:induction false} QuotientIsDiv(x: nat, d: nat)
    requires d > 0
    ensures Quotient(x, d) == x / d
    decreases x
  {
    if x >= d {
      QuotientIsDiv(x - d, d);
      DivModOfSum(d, (x - d) / d + 1, (x - d) % d);
    }
  }

  /** With `a == g*a'` and `b == g*b'`, `(a*b)/g` is `a'*b == a*b'`, a common
      multiple of `a` and `b`. */
  lemma LcmQuotient(a: nat, b: nat, g: nat, a': int, b': int) returns (l: nat)
    requires g > 0 && a == g * a' && b == g * b'
    ensures (a * b) % g == 0 && l == (a * b) / g
    ensures l == a' * b && l == a * b'
    ensures Divides(a, l) && Divides(b, l)
  {
    var ab := a * b;
    assert ab == g * (a' * b) by {
      assert a * b == (g * a') * b;
    }
    DivModOfSum(g, a' * b, 0);
    assert a' * b == a * b' by {
      assert (g * a') * b' == (g * b') * a';
    }
    NonNegativeFactor(g, a', a);
    l := a' * b;
    DividesByWitness(a, l, b');
    DividesByWitness(b, l, a');
  }

  lemma NonNegativeFactor(g: int, k: int, a: int)
    requires g > 0 && a >= 0 && a == g * k
    ensures k >= 0
  {
    if k < 0 {
      NonPositiveProduct(g, k);
      assert g * k < 0 by {
        assert g * k == g * (k + 1) - g;
        NonPositiveProduct(g, k + 1);
      }
    }
  }

  /** Any common multiple `m` of `a` and `b` is a multiple of
      `l = a*b/g`, using Bezout's `a*x + b*y == g`. */
  lemma LcmDividesMultiple(a: nat, b: nat, g: nat, l: nat, m: nat, u: int, v: int, x: int, y: int)
    requires g > 0 && a * b == l * g
    requires a * x + b * y == g
    requires m == a * u && m == b * v
    ensures Divides(l, m)
  {
    var k := v * x + u * y;
    assert m * g == m * (a * x) + m * (b * y);
    assert m * (a * x) == (b * v) * (a * x);
    assert m * (b * y) == (a * u) * (b * y);
    assert m * g == (a * b) * k;
    assert m * g == (l * k) * g;
    CancelPositive(m, l * k, g);
    DividesByWitness(l, m, k);
  }

  lemma CancelPositive(x: int, y: int, g: int)
    requires g > 0 && x * g == y * g
    ensures x == y
  {
    assert (x - y) * g == 0;
  }

  // ---------------------------------------------------------------------
  // Bit length (Python's `int.bit_length`)
  // ---------------------------------------------------------------------

  function BitLength(n: nat): nat
    decreases n
  {
    if n == 0 then 0 else 1 + BitLength(n / 2)
  }

  /** `n` lies in [2^(b-1), 2^b) where `b` is its bit length. */
  lemma {:induction false} BitLengthBounds(n: nat)
    ensures n < Pow2(BitLength(n))
    ensures n > 0 ==> BitLength(n) >= 1 && Pow2(BitLength(n) - 1) <= n
    decreases n
  {
    if n > 0 {
      BitLengthBounds(n / 2);
      if n / 2 > 0 {
        assert Pow2(BitLength(n / 2) - 1) <= n / 2;
      }
    }
  }

  // ---------------------------------------------------------------------
  // Forcing bits of a prime candidate: `p |= (1 << (bits - 1)) | 1`
  // ---------------------------------------------------------------------

  /** `x | (1 << k)`. */
  function SetBit(x: nat, k: nat): nat
  {
    if (x / Pow2(k)) % 2 == 1 then x else x + Pow2(k)
  }

  /** `p | (1 << (bits - 1)) | 1` for a `p` drawn below `2^bits`: the result
      has exactly `bits` bits, is odd, and differs from `p` only by the two
      forced bits. */
  function ForceBits(p: nat, bits: nat): (c: nat)
    requires bits >= 1 && p < Pow2(bits)
    ensures Pow2(bits - 1) <= c < Pow2(bits)
    ensures c % 2 == 1
    ensures c - p in {0, 1, Pow2(bits - 1), Pow2(bits - 1) + 1}
  {
    var top := Pow2(bits - 1);
    TopBit(p, top);
    var x := SetBit(p, bits - 1);
    LowBit(x, top);
    SetBit(x, 0)
  }

  /** For `p < 2*top`, bit `top` of `p` is set exactly when `p >= top`. */
  lemma TopBit(p: nat, top: nat)
    requires top > 0 && p < 2 * top
    ensures (p / top) % 2 == 1 <==> p >= top
  {
    if p >= top {
      DivModOfSum(top, 1, p - top);
    } else {
      DivModOfSum(top, 0, p);
    }
  }

  /** Setting bit 0 of an `x` in [top, 2*top) keeps it there, for `top` a
      power of two. */
  lemma LowBit(x: nat, top: nat)
    requires top >= 1 && top <= x < 2 * top
    requires top == 1 || top % 2 == 0
    ensures top <= SetBit(x, 0) < 2 * top
    ensures SetBit(x, 0) % 2 == 1
    ensures SetBit(x, 0) - x in {0, 1}
  {
    assert Pow2(0) == 1;
  }
}
