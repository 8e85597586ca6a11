# RSA-PSS from first principles, modelled in Dafny

This project models the cryptographic core of a small Python RSA-PSS
signing tool. The tool has two parallel implementations, and the model
keeps them apart as the source does:

- `crypto_lib.py` holds one of each piece:
  - Miller-Rabin primality testing and prime generation;
  - the recursive extended Euclid and the modular inverse;
  - key generation with Carmichael's totient lambda(n) = lcm(p-1, q-1);
  - MGF1 and the EMSA-PSS encoder and verifier (sections 9.1.1 and 9.1.2 of RFC 8017);
  - the raw RSA signing and verification transforms.
- `src/rsa_core.py` is a second key generator. It uses Euler's totient
  phi(n) = (p-1)(q-1) and Python's `pow(e, -1, phi)`.
- `src/pss_padding.py` is a second EMSA-PSS codec. It works on a message
  hash and an `em_bits` size.

Dafny modules, one concept each:

| module | file | models |
|---|---|---|
| `Wrappers` | wrappers.dfy | `Result`/`Option`; Python exceptions as `Error` values |
| `NumberTheory` | number_theory.dfy | powers, `pow(b, e, m)`, gcd/lcm, extended Euclid, inverses, bit length, `math.ceil` of a quotient |
| `Bytes` | bytes.dfy | `bytes` values, `^`, `&`, `>>`, XOR over `zip`, Python's clamping slices |
| `Octets` | octets.dfy | `int.from_bytes` / `int.to_bytes(len, 'big')` (OS2IP / I2OSP) |
| `Hashing` | hashing.dfy | the hash as an uninterpreted function with a fixed digest size, M', DB, the MGF1 reference stream |
| `MillerRabin` | miller_rabin.dfy | the `n - 1 = 2^r * s` decomposition and one witness round |
| `CryptoLibKeys` | crypto_lib_keys.dfy | `is_prime`, `generate_prime`, `extended_gcd`, `mod_inverse`, `generate_rsa_keys` |
| `CryptoLibPss` | crypto_lib_pss.dfy | `mgf1`, `pss_encode`, `pss_verify` of `crypto_lib.py` |
| `CryptoLibSign` | crypto_lib_sign.dfy | `sign_message`, `verify_signature` |
| `PssPadding` | pss_padding.dfy | `mgf1`, `pss_encode`, `pss_verify` of `src/pss_padding.py` |
| `RsaCore` | rsa_core.dfy | `is_prime`, `generate_prime`, `generate_keys` of `src/rsa_core.py` |

The model handles randomness and hashing as follows:

- **Randomness is an input.** Each operation takes the values its random
  source would return:
  - a PSS salt;
  - the 16-byte or `randbelow` draw of each Miller-Rabin round;
  - the random bytes or `randbits` value of each prime candidate;
  - the primes a key generator receives.
- **The unbounded retry loops become finite.** They run over a finite
  supply of these values. `None` means "no success within the supply".
- **The hash is uninterpreted.** It is any function whose digests all have
  one positive size. The source uses SHA3-256.

The main results:

- **PSS round trip.** For both codecs, verification accepts an encoding
  exactly when it is the encoding of the message under some salt of the
  expected length (`PssVerifyExact`). One direction of this is the round
  trip `verify(encode(m, salt)) == True` (`PssRoundTrip`).
- **Sign/verify round trip.** Given RSA-inverse exponents,
  `verify_signature` accepts whatever `sign_message` produces.
- **Prime generation.** Candidates have exactly `bits` bits and are odd.
- **Key generation.** Both generators' keys satisfy their inverse
  invariant, and the invariant determines the keys. The Euler key reduced
  modulo lambda is the Carmichael key that `crypto_lib.py` builds from the
  same primes.

Points worth knowing about the code itself:

- **Verification can raise.** `pss_verify` and `verify_signature` raise
  IndexError and OverflowError on some inputs, and the model keeps those
  errors.
- **The extended Euclid is recursive.** `extended_gcd` recurses on
  `(b % a, a)`, and the model follows that recursion.
- **Both totients are used.** `crypto_lib.py` uses lambda and
  `src/rsa_core.py` uses phi. Both are modelled, and
  `RsaCore.AgreesWithCarmichaelKeys` relates them.
- **The key tuples differ.** `crypto_lib.py` returns `((e, n), (d, n))`;
  `src/rsa_core.py` returns `((n, e), (n, d))`.

## Model

| member | source | states |
|---|---|---|
| NumberTheory.ModPow | crypto_lib.py:221 | `pow(b, e, m)` for a positive modulus is a residue below `m` |
| NumberTheory.ModPowSquare | crypto_lib.py:34 | squaring `b^e mod m` gives `b^(2e) mod m`, the step of the inner Miller-Rabin loop |
| NumberTheory.CeilDiv | crypto_lib.py:144 | `math.ceil(a / b)` is the least `r` with `b*r >= a` |
| NumberTheory.Gcd | src/rsa_core.py:114 | `math.gcd(a, b)` is a common divisor that every common divisor divides |
| NumberTheory.ExtendedGcd | crypto_lib.py:52-59 | the recursive `extended_gcd` returns a greatest common divisor as its first component |
| NumberTheory.ExtendedGcdBezout | crypto_lib.py:52-59 | the coefficients satisfy Bezout's identity `a*x + b*y == d` |
| NumberTheory.ExtendedGcdAgrees | crypto_lib.py:52-59 | the gcd `extended_gcd` reports is the one `math.gcd` computes |
| NumberTheory.BezoutInverse | crypto_lib.py:61-66 | for coprime arguments, `x % m` is an inverse of `e` modulo `m` |
| NumberTheory.InverseUnique | crypto_lib.py:61-66 | two inverses of `e` in [0, m) are equal |
| NumberTheory.Lcm | crypto_lib.py:81 | `(a*b) // gcd(a, b)` is a least common multiple: a common multiple dividing every common multiple |
| NumberTheory.ForceBits | crypto_lib.py:47 | `p OR (1 << (bits-1)) OR 1` (bitwise) of a `p < 2^bits` lies in [2^(bits-1), 2^bits), is odd, and differs from `p` only in the two forced bits |
| NumberTheory.BitLengthBounds | crypto_lib.py:215 | `n.bit_length()` is the `b` with `2^(b-1) <= n < 2^b` |
| Bytes.Xor | crypto_lib.py:159 | `bytes(a ^ b for a, b in zip(x, y))` has the shorter length and XORs byte by byte |
| Bytes.XorTwice | crypto_lib.py:188 | XOR with the same mask twice restores the block |
| Bytes.MaskFirstByte | crypto_lib.py:163 | `bytes([s[0] & mask]) + s[1:]` changes only the first byte |
| Bytes.LowMask | crypto_lib.py:162-163 | AND with the low mask clears the top `t` bits, and leaves the byte unchanged exactly when those bits are already clear |
| Bytes.RemaskTwice | crypto_lib.py:188-192 | XOR-then-clear applied twice with the same mask gives the block with its top bits cleared |
| Octets.OS2IP | crypto_lib.py:218 | `int.from_bytes(s, 'big')` is below `256^len(s)` |
| Octets.I2OSP | crypto_lib.py:237 | `x.to_bytes(len, 'big')` raises OverflowError exactly when `x >= 256^len`; otherwise it has that length and reads back as `x` |
| Octets.I2OSPOfOS2IP | crypto_lib.py:218 | writing back the value of a byte string at its own length gives the string |
| Octets.LeadingZero | crypto_lib.py:231 | a leading zero byte does not change `int.from_bytes` |
| Octets.FirstByteBound | crypto_lib.py:162-165 | a string whose first byte is below `2^(8-t)` has a value below `2^(8*len - t)` |
| Hashing.MPrime | crypto_lib.py:151 | M' has `8 + len(mHash) + len(salt)` bytes and ends with the salt |
| Hashing.MPrimeLayout | crypto_lib.py:151 | a byte string is M' exactly when it is eight zero bytes, then the message hash, then the salt |
| Hashing.DataBlock | crypto_lib.py:154-155 | DB is `ps` zeros, 0x01 and the salt |
| Hashing.DataBlockParse | crypto_lib.py:196-202 | a block that is zeros, then 0x01, then a tail is the data block of that tail |
| Hashing.CounterIsI2OSP | crypto_lib.py:132 | `i.to_bytes(4, 'big')` succeeds exactly for `i < 2^32` |
| Hashing.StreamPrefixOfLonger | crypto_lib.py:124-135 | a shorter MGF1 output is a prefix of a longer one from the same seed |
| MillerRabin.Decomposition | crypto_lib.py:20-23 | `n - 1 == 2^r * s` with `s` odd |
| MillerRabin.DecompositionUnique | crypto_lib.py:20-23 | the decomposition is unique |
| MillerRabin.Decompose | crypto_lib.py:20-23 | the halving loop computes that unique decomposition |
| MillerRabin.WitnessRound | crypto_lib.py:29-38 | one round passes exactly when `a^s == 1` or `a^(2^j s) == n-1` for some `j < r` (mod n) |
| CryptoLibKeys.RoundBase | crypto_lib.py:26-27 | the base derived from a 16-byte draw lies in [2, n-2] |
| CryptoLibKeys.IsPrime | crypto_lib.py:8-40 | False below 2 and for even numbers above 2, True for 2 and 3, and otherwise True exactly when every round passes |
| CryptoLibKeys.Candidate | crypto_lib.py:46-47 | a candidate has exactly `bits` bits and is odd |
| CryptoLibKeys.GeneratePrime | crypto_lib.py:42-50 | the result is the first accepted candidate, with `bits` bits and odd; None exactly when every supplied candidate is rejected |
| CryptoLibKeys.ModInverse | crypto_lib.py:61-66 | ValueError exactly when gcd(e, m) != 1; failure also for `m == 0`; otherwise a reduced inverse |
| CryptoLibKeys.ModInverseUnique | crypto_lib.py:61-66 | every reduced inverse is the one `mod_inverse` returns |
| CryptoLibKeys.FirstDifferent | crypto_lib.py:75-77 | the `while p == q` loop ends at the first prime different from `p`, or never when there is none |
| CryptoLibKeys.CarmichaelLambda | crypto_lib.py:81 | `lambda_n` is lcm(p-1, q-1) |
| CryptoLibKeys.KeysFrom | crypto_lib.py:79-88 | key assembly fails exactly when gcd(e, lambda) != 1; otherwise `((65537, pq), (d, pq))` with `d` inverting `e` modulo lambda |
| CryptoLibKeys.GenerateRsaKeys | crypto_lib.py:70-88 | the keys are those of `p` and the first generated `q != p`; None exactly when all equal `p` |
| CryptoLibPss.Blocks | crypto_lib.py:130-133 | after `count` iterations `T` holds `count` digests, byte `i` being byte `i` of the MGF1 stream |
| CryptoLibPss.Mgf1 | crypto_lib.py:124-135 | ValueError exactly when `mask_len > 2^32 * h_len`; otherwise the first `mask_len` bytes of the stream |
| CryptoLibPss.EmLen | crypto_lib.py:144 | `em_len` is the least number of bytes holding `key_bits - 1` bits |
| CryptoLibPss.FirstByteMaskClears | crypto_lib.py:162-163 | the `0xFF >> unused` mask clears exactly the unused top bits |
| CryptoLibPss.ApplyMaskTwice | crypto_lib.py:159-163 | masking twice with the same seed gives back the block with its unused bits cleared |
| CryptoLibPss.PssEncode | crypto_lib.py:137-166 | ValueError exactly when `em_len < h_len + salt_len + 2` or the mask is too long; EM has `em_len` bytes, ends in 0xbc, holds H = hash(M') in the `h_len` bytes before the trailer, and has clear unused bits |
| CryptoLibPss.PssVerify | crypto_lib.py:168-207 | False when too short for the parameters, on a wrong trailer, or on set unused bits; never raises on an EM of `em_len` bytes when the DB length `em_len - h_len - 1` is within MGF1's limit of `2^32 * h_len` |
| CryptoLibPss.PssVerifyRejectsBadPadding | crypto_lib.py:195-200 | a DB whose padding is not zeros followed by 0x01 is rejected |
| CryptoLibPss.PssRoundTrip | crypto_lib.py:137-207 | `pss_verify` accepts every output of `pss_encode` with the same salt length |
| CryptoLibPss.PssVerifyExact | crypto_lib.py:137-207 | `pss_verify` returns True exactly for the encodings of the message under some salt of `salt_len` bytes |
| CryptoLibPss.LengthOfEncoding | crypto_lib.py:144-166 | a string of any length other than `em_len` is no encoding |
| CryptoLibPss.EmptyEncodingRaises | crypto_lib.py:177 | an empty EM raises IndexError at `encoded_message[-1]` instead of returning False |
| CryptoLibPss.PssVerifyChecked | crypto_lib.py:168-207 | verification with the length checked first never raises and returns True exactly for encodings; where `pss_verify` returns, they agree |
| CryptoLibSign.ModulusLen | crypto_lib.py:223 | `(n.bit_length() + 7) // 8` bytes hold every residue modulo `n` |
| CryptoLibSign.EncodingBelowModulus | crypto_lib.py:217-221 | an encoding for the key size of `n` is a number below `n` |
| CryptoLibSign.SignMessage | crypto_lib.py:212-224 | fails exactly when `pss_encode` fails, with its error; otherwise the signature has the modulus length and is the encoding raised to `d` modulo `n` |
| CryptoLibSign.ZeroModulusCannotSign | crypto_lib.py:215-217 | with `n == 0` the encoder raises before `pow` is reached |
| CryptoLibSign.RecoverEncoding | crypto_lib.py:228-237 | ValueError for `n == 0`; OverflowError exactly when the recovered value needs more than `em_len` bytes; otherwise its bytes |
| CryptoLibSign.VerifySignature | crypto_lib.py:226-239 | recovery errors propagate; otherwise True exactly when the recovered bytes encode the message under some salt of `SALT_LEN` bytes |
| CryptoLibSign.RecoverSigned | crypto_lib.py:212-237 | with inverse exponents the public key recovers exactly the signed encoding |
| CryptoLibSign.SignVerifyRoundTrip | crypto_lib.py:212-239 | `verify_signature` accepts every signature `sign_message` makes with the matching key |
| CryptoLibSign.OverflowRaises | crypto_lib.py:234-237 | a nine-bit modulus and a recovered value of 256 make `to_bytes` raise |
| CryptoLibSign.PaddedSignatureVerifies | crypto_lib.py:231 | a zero byte in front of a signature does not change the verdict |
| CryptoLibSign.VerifySignatureChecked | crypto_lib.py:226-239 | with the length, range and overflow checks, verification never raises and is True exactly for signatures of the modulus length whose recovered bytes are an encoding |
| CryptoLibSign.CheckedRoundTrip | crypto_lib.py:212-239 | the checked verification accepts every signature `sign_message` makes |
| CryptoLibSign.CheckedAgrees | crypto_lib.py:226-239 | on well-formed signatures the checked verification agrees with `verify_signature` wherever the latter returns |
| CryptoLibSign.CheckedRejectsPadded | crypto_lib.py:231 | the checked verification rejects a signature with an extra leading zero byte |
| PssPadding.MaskLoopSpec | src/pss_padding.py:21-32 | the `while len(mask) < mask_len` loop yields the MGF1 stream and raises OverflowError exactly when the counter reaches `2^32` |
| PssPadding.Mgf1 | src/pss_padding.py:6-32 | OverflowError exactly when `mask_len > 2^32 * h_len`; otherwise the first `mask_len` stream bytes |
| PssPadding.EmLen | src/pss_padding.py:51 | `(em_bits + 7) // 8` is the least number of bytes holding `em_bits` bits |
| PssPadding.SpareBits | src/pss_padding.py:80 | `8 * em_len - em_bits` is below 8 |
| PssPadding.ClearSpareBits | src/pss_padding.py:80-83 | clearing keeps the length and the tail, clears the spare bits, and changes nothing exactly when they are already clear |
| PssPadding.ApplyMaskTwice | src/pss_padding.py:77-83 | masking twice with the same seed gives back the block with its spare bits cleared |
| PssPadding.PssEncode | src/pss_padding.py:34-86 | ValueError exactly when `em_len < h_len + s_len + 2`; failure also for too long a mask; EM ends in H and 0xbc with clear spare bits |
| PssPadding.CheckDb | src/pss_padding.py:133-145 | IndexError exactly when DB is at most `ps_len` zero bytes; True only for zeros, 0x01 and a salt whose M' hashes to H |
| PssPadding.PssVerify | src/pss_padding.py:88-145 | False when too short for the parameters, on a wrong trailer, or on set spare bits; never raises on an EM of the encoder's length when the DB length `em_len - h_len - 1` is within MGF1's `2^32 * h_len` counter limit |
| PssPadding.PssVerifyRejectsBadPadding | src/pss_padding.py:133-135 | a DB whose padding is not zeros followed by 0x01 is rejected |
| PssPadding.PssRoundTrip | src/pss_padding.py:34-145 | `pss_verify` accepts every output of `pss_encode` with the same salt length |
| PssPadding.PssVerifyExact | src/pss_padding.py:34-145 | `pss_verify` returns True exactly for encodings of the hash under some salt of `s_len` bytes |
| PssPadding.ShortEncodingRaises | src/pss_padding.py:110-135 | with a one-byte hash whose every digest is 0xbc, the one-byte EM `0xbc` with a 32-bit EM size and no salt raises IndexError at `DB[ps_len]` |
| PssPadding.PssVerifyChecked | src/pss_padding.py:88-145 | verification with the length checked first never raises and returns True exactly for encodings |
| RsaCore.RoundBase | src/rsa_core.py:38 | `randbelow(n - 3) + 2` lies in [2, n-2] |
| RsaCore.IsPrime | src/rsa_core.py:4-58 | False below 2 and for even numbers above 2, True for 2 and 3, and otherwise True exactly when every round passes |
| RsaCore.SameRoundsAsCryptoLib | src/rsa_core.py:36-55 | `is_prime` of both files runs the same rounds, given draws that give the same bases |
| RsaCore.Candidate | src/rsa_core.py:72-77 | ValueError exactly for `bits == 0`; otherwise a candidate with exactly `bits` bits that is odd |
| RsaCore.OneBitCandidateRejected | src/rsa_core.py:72-80 | for one bit every candidate is 1, which `is_prime` rejects |
| RsaCore.GeneratePrime | src/rsa_core.py:60-81 | ValueError for `bits == 0`; otherwise the first accepted candidate, at least 3, with `bits >= 2` bits and odd; None exactly when every candidate is rejected |
| RsaCore.PowInverse | src/rsa_core.py:119 | `pow(e, -1, m)` raises ValueError exactly for `m == 0` or gcd(e, m) != 1; otherwise a reduced inverse |
| RsaCore.PowInverseUnique | src/rsa_core.py:119 | every reduced inverse is the one `pow` returns |
| RsaCore.PowInverseAgrees | src/rsa_core.py:119 | for a positive modulus `pow(e, -1, m)` and `mod_inverse(e, m)` agree |
| RsaCore.KeysFrom | src/rsa_core.py:110-126 | `((pq, 65537), (pq, d))` with `d < phi` and `e*d == 1 (mod phi)` |
| RsaCore.GenerateKeys | src/rsa_core.py:83-126 | the keys are those of the first pair with `p != q` and gcd(e, phi) == 1; None exactly when no pair qualifies |
| CryptoLibKeys.KeysDetermined | crypto_lib.py:79-88 | two key tuples satisfying the invariant for the same primes are equal, whichever lcm witnesses them |
| RsaCore.KeysDetermined | src/rsa_core.py:119-126 | the key invariant determines the keys |
| RsaCore.AgreesWithCarmichaelKeys | src/rsa_core.py:110-126 | `d mod lambda` is the private exponent `generate_rsa_keys` builds from the same primes, which does not raise for them |

## Left out

- **Unmodelled code:**
  - The PEM key files (`save_key_to_pem`, `load_key_from_pem`), the other
    serialization modules and the command-line front ends: file I/O and
    base64 text, outside the core.
  - The `print` calls of `generate_keys`: output only.
- **Randomness and hashing become inputs:**
  - `os.urandom`, `secrets.randbelow`, `secrets.randbits` and
    `secrets.token_bytes` become parameters, and the unbounded `while True`
    retry loops run over finite supplies. Termination of the real loops is
    probabilistic and not modelled.
  - SHA3-256 becomes an uninterpreted hash with a fixed digest size. Its
    internals are out of scope.
- **Operations stated differently:**
  - `secrets.compare_digest` is modelled as equality. Constant-time
    behaviour is not expressible here.
  - `math.ceil((key_bits - 1) / 8)` (crypto_lib.py:144, 172, 236) and
    `math.ceil(mask_len / h_len)` (crypto_lib.py:131) are modelled as exact
    integer ceiling division. This agrees with the float computation only
    while the dividend is below 2^53, and the float rounding beyond that is
    not modelled. For `mgf1` the `2^32 * h_len` limit keeps `mask_len` there
    for any digest of fewer than 2^21 bytes, SHA3-256's 32 included.
- **Properties not proved:**
  - The number theory of RSA correctness is not proved. `RsaInverse` is a
    hypothesis of the round trips, not derived from `d*e == 1 (mod lambda)`.
  - Miller-Rabin soundness is not proved; `is_prime` is modelled as the
    test it runs.
- **Behaviour limited by the model's setup:**
  - CryptoLibKeys.Candidate: requires `bits >= 1`. The `1 << -1` ValueError
    of `generate_prime(0)` is modelled only in `RsaCore.Candidate`.
  - CryptoLibKeys.GeneratePrime: requires `bits >= 1` as well, for the same
    reason, so `generate_prime(0)` of `crypto_lib.py` is not modelled.
  - CryptoLibKeys.GenerateRsaKeys: takes its first prime `p` and the stream
    of `q` values as already generated primes.
  - RsaCore.GenerateKeys: the same, with the `(p, q)` pairs as already
    generated primes.
  - CryptoLibKeys.GeneratePrime and RsaCore.GeneratePrime: the draws of
    each candidate's rounds are supplied. `is_prime` may stop early and
    leave some unused.
  - RsaCore.GeneratePrime: `generate_prime(1)` never returns in the
    source. The model shows this only as None on every supply, via
    `OneBitCandidateRejected`.

## Findings

| source | as written | input that shows it | evidently intended | confidence | as-written member | corrected member |
|---|---|---|---|---|---|---|
| crypto_lib.py:177 | `encoded_message[-1]` is read without a length check | an empty EM with any admissible key size | return False, as for every other malformed EM | medium, not executed | CryptoLibPss.EmptyEncodingRaises | CryptoLibPss.PssVerifyChecked |
| src/pss_padding.py:110-135 | EM length is never checked, so slices can come back short and `DB[ps_len]` can fail | EM `0xbc`, `em_bits = 32`, no salt, and a one-byte hash whose digest of `00000000` is 0xbc | return False for an EM not of the encoded length | medium, not executed | PssPadding.ShortEncodingRaises | PssPadding.PssVerifyChecked |
| crypto_lib.py:234-237 | `em_int.to_bytes(em_len)` raises OverflowError when the recovered value needs more than `em_len` bytes (step 2c of section 8.1.2 of RFC 8017 calls this an invalid signature) | `n = 257`, `e = 3`, signature `0x0100` | return False | high, not executed | CryptoLibSign.OverflowRaises | CryptoLibSign.VerifySignatureChecked |
| crypto_lib.py:231 | the signature length is not checked against the modulus length (step 1 of section 8.1.2 of RFC 8017) | any valid signature with a zero byte in front | reject a signature of the wrong length | medium, not executed | CryptoLibSign.PaddedSignatureVerifies | CryptoLibSign.VerifySignatureChecked |
