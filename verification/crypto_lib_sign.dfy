/** Signing and verification of `crypto_lib.py`: `sign_message` encodes the
    message with EMSA-PSS and raises the encoding to the private exponent,
    `verify_signature` raises the signature to the public exponent and
    checks the recovered encoding. The salt `os.urandom` would draw is a
    parameter; keys are pairs `(exponent, modulus)` as in the source. */
module CryptoLibSign {
  import opened Wrappers
  import opened Bytes
  import opened NumberTheory
  import opened Octets
  import opened Hashing
  import opened CryptoLibPss

  // ---------------------------------------------------------------------
  // Lengths
  // ---------------------------------------------------------------------

  /** `(n.bit_length() + 7) // 8`, the signature length `sign_message`
      uses: every residue modulo `n` fits in it. */
  function ModulusLen(n: nat): (k: nat)
    ensures n < Pow(256, k)
  {
    var k := (BitLength(n) + 7) / 8;
    BitLengthBounds(n);
    Pow256IsPow2(k);
    Pow2Monotone(BitLength(n), 8 * k);
    k
  }

  /** An encoding for the key size of `n`, whose unused leading bits are
      clear, is a number below `n`: `pow` does not reduce it. */
  lemma EncodingBelowModulus(em: Bytes, n: nat)
    requires n > 0
    requires |em| == EmLen(BitLength(n)) && |em| > 0
    requires TopBitsClear(em[0], UnusedBits(BitLength(n)))
    ensures OS2IP(em) < n
  {
    var t := UnusedBits(BitLength(n));
    TopBitsClearIsBound(em[0], t);
    FirstByteBound(em, t);
    assert 8 * |em| - t == BitLength(n) - 1;
    BitLengthBounds(n);
  }

  // ---------------------------------------------------------------------
  // Signing
  // ---------------------------------------------------------------------

  /** `sign_message(message_bytes, (d, n))` when `os.urandom(SALT_LEN)`
      returns `salt`: the encoding's value raised to `d` modulo `n`, written
      on the modulus length. Only the encoding can raise. */
  function SignMessage(message: Bytes, privateKey: (nat, nat), salt: Bytes, h: Hash): (r: Result<Bytes>)
    requires h.Valid() && |salt| == h.size
    ensures var enc := PssEncode(message, BitLength(privateKey.1), salt, h);
      && (r.Failure? <==> enc.Failure?)
      && (r.Failure? ==> r.error == enc.error)
    ensures r.Success? ==> privateKey.1 > 0 && |r.value| == ModulusLen(privateKey.1)
    ensures r.Success? ==>
      OS2IP(r.value) == ModPow(OS2IP(PssEncode(message, BitLength(privateKey.1), salt, h).value), privateKey.0, privateKey.1)
  {
    var (d, n) := privateKey;
    match PssEncode(message, BitLength(n), salt, h)
    case Failure(e) => Failure(e)
    case Success(em) =>
      if n == 0 then
        assert false;
        Failure(ZeroModulus)
      else
        var s := ModPow(OS2IP(em), d, n);
        I2OSP(s, ModulusLen(n))
  }

  /** Signing with the zero modulus raises the ValueError of `pss_encode`
      before `pow` is reached: `math.ceil((key_bits - 1) / 8)` is zero. */
  lemma ZeroModulusCannotSign(message: Bytes, d: nat, salt: Bytes, h: Hash)
    requires h.Valid() && |salt| == h.size
    ensures SignMessage(message, (d, 0), salt, h) == Failure(EncodingTooLong)
  {
    assert BitLength(0) == 0;
    assert EmLen(0) <= 0;
  }

  // ---------------------------------------------------------------------
  // Verification
  // ---------------------------------------------------------------------

  /** `pow(signature_int, e, n).to_bytes(em_len, 'big')` with
      `em_len = math.ceil((key_bits - 1) / 8)`: `pow` raises ValueError for
      the zero modulus, and `to_bytes` raises OverflowError when the
      recovered value needs more than `em_len` bytes. */
  function RecoverEncoding(signature: Bytes, e: nat, n: nat): (r: Result<Bytes>)
    ensures n == 0 ==> r == Failure(ZeroModulus)
    ensures n > 0 ==>
      var x := ModPow(OS2IP(signature), e, n);
      var emLen := EmLen(BitLength(n));
      && emLen >= 0
      && (r.Failure? <==> x >= Pow(256, emLen))
      && (r.Failure? ==> r.error == IntTooBig)
      && (r.Success? ==> |r.value| == emLen && OS2IP(r.value) == x)
  {
    if n == 0 then Failure(ZeroModulus)
    else
      var x := ModPow(OS2IP(signature), e, n);
      I2OSP(x, EmLen(BitLength(n)))
  }

  /** `verify_signature(message_bytes, signature_bytes, (e, n))`: True
      exactly when the recovered encoding is the PSS encoding of the message
      for some salt of `SALT_LEN` bytes. Recovery errors propagate; past
      recovery only a mask beyond MGF1's counter range raises. */
  function VerifySignature(message: Bytes, signature: Bytes, publicKey: (nat, nat), h: Hash): (r: Result<bool>)
    requires h.Valid()
    ensures var rec := RecoverEncoding(signature, publicKey.0, publicKey.1);
      && (rec.Failure? ==> r == Failure(rec.error))
      && (rec.Success? && r.Failure? ==> EmLen(BitLength(publicKey.1)) - h.size - 1 > CounterLimit * h.size)
      && (rec.Success? ==>
            (r == Success(true) <==>
               exists salt :: |salt| == h.size && PssEncode(message, BitLength(publicKey.1), salt, h) == Success(rec.value)))
  {
    var (e, n) := publicKey;
    match RecoverEncoding(signature, e, n)
    case Failure(err) => Failure(err)
    case Success(em) =>
      PssVerifyExact(message, em, BitLength(n), h.size, h);
      PssVerify(message, em, BitLength(n), h.size, h)
  }

  // ---------------------------------------------------------------------
  // Round trip
  // ---------------------------------------------------------------------

  /** `e` undoes `d` modulo `n` on every residue: the property of an RSA key
      pair that the round trip needs (its number theory is not modelled). */
  ghost predicate RsaInverse(e: nat, d: nat, n: nat)
  {
    n > 0 && forall x: nat :: x < n ==> ModPow(ModPow(x, d, n), e, n) == x
  }

  /** With a key pair whose exponents are inverse, the public key recovers
      from a signature exactly the encoding that was signed. */
  lemma RecoverSigned(message: Bytes, salt: Bytes, e: nat, d: nat, n: nat, h: Hash)
    requires h.Valid() && |salt| == h.size && RsaInverse(e, d, n)
    requires SignMessage(message, (d, n), salt, h).Success?
    ensures RecoverEncoding(SignMessage(message, (d, n), salt, h).value, e, n)
         == PssEncode(message, BitLength(n), salt, h)
  {
    var em := PssEncode(message, BitLength(n), salt, h).value;
    var sig := SignMessage(message, (d, n), salt, h).value;
    EncodingBelowModulus(em, n);
    assert OS2IP(sig) == ModPow(OS2IP(em), d, n);
    assert ModPow(OS2IP(sig), e, n) == OS2IP(em);
    I2OSPOfOS2IP(em);
  }

  /** `verify_signature` accepts every signature `sign_message` makes with
      the matching private key, whatever the salt. */
  lemma SignVerifyRoundTrip(message: Bytes, salt: Bytes, e: nat, d: nat, n: nat, h: Hash)
    requires h.Valid() && |salt| == h.size && RsaInverse(e, d, n)
    requires SignMessage(message, (d, n), salt, h).Success?
    ensures VerifySignature(message, SignMessage(message, (d, n), salt, h).value, (e, n), h) == Success(true)
  {
    RecoverSigned(message, salt, e, d, n, h);
  }

  // ---------------------------------------------------------------------
  // What verification does not check
  // ---------------------------------------------------------------------

  /** A recovered value wider than the encoding length makes `to_bytes`
      raise OverflowError instead of `verify_signature` returning False:
      with `n = 257` (nine bits, a one-byte encoding) and `e = 3`, the
      signature `0x0100` recovers `256^3 mod 257 = 256`. */
  lemma OverflowRaises(message: Bytes, h: Hash)
    requires h.Valid()
    ensures VerifySignature(message, [1, 0], (3, 257), h) == Failure(IntTooBig)
  {
    assert OS2IP([1, 0]) == 256 by {
      assert [1, 0][..1] == [1];
      assert [1 as Byte][..0] == [];
    }
    assert BitLength(257) == 9;
    assert EmLen(9) == 1;
  }

  /** The signature length is never checked: a signature with a zero byte
      in front verifies exactly as the signature itself does. */
  lemma PaddedSignatureVerifies(message: Bytes, signature: Bytes, publicKey: (nat, nat), h: Hash)
    requires h.Valid()
    ensures VerifySignature(message, [0] + signature, publicKey, h) == VerifySignature(message, signature, publicKey, h)
  {
    LeadingZero(signature);
  }

  /** `verify_signature` with the checks of section 8.1.2 of RFC 8017: the
      signature has the modulus length (step 1), its value is below the
      modulus (RSAVP1), and a recovered value too wide for the encoding is
      an invalid signature rather than an error (step 2c). Never raises. */
  function VerifySignatureChecked(message: Bytes, signature: Bytes, publicKey: (nat, nat), h: Hash): (ok: bool)
    requires h.Valid()
    ensures ok ==> publicKey.1 > 0 && |signature| == ModulusLen(publicKey.1) && OS2IP(signature) < publicKey.1
    ensures publicKey.1 > 0 && |signature| == ModulusLen(publicKey.1) && OS2IP(signature) < publicKey.1 ==>
      var rec := RecoverEncoding(signature, publicKey.0, publicKey.1);
      (ok <==> (rec.Success? &&
                exists salt :: |salt| == h.size && PssEncode(message, BitLength(publicKey.1), salt, h) == Success(rec.value)))
  {
    var (e, n) := publicKey;
    if n == 0 || |signature| != ModulusLen(n) || OS2IP(signature) >= n then false
    else
      match RecoverEncoding(signature, e, n)
      case Failure(_) => false
      case Success(em) => PssVerifyChecked(message, em, BitLength(n), h.size, h)
  }

  /** The checked verification accepts every signature `sign_message` makes
      with the matching private key. */
  lemma CheckedRoundTrip(message: Bytes, salt: Bytes, e: nat, d: nat, n: nat, h: Hash)
    requires h.Valid() && |salt| == h.size && RsaInverse(e, d, n)
    requires SignMessage(message, (d, n), salt, h).Success?
    ensures VerifySignatureChecked(message, SignMessage(message, (d, n), salt, h).value, (e, n), h)
  {
    RecoverSigned(message, salt, e, d, n, h);
  }

  /** On a signature of the modulus length whose value is below the
      modulus, the checked verification agrees with `verify_signature`
      wherever the latter returns. */
  lemma CheckedAgrees(message: Bytes, signature: Bytes, publicKey: (nat, nat), h: Hash)
    requires h.Valid()
    requires publicKey.1 > 0 && |signature| == ModulusLen(publicKey.1) && OS2IP(signature) < publicKey.1
    requires VerifySignature(message, signature, publicKey, h).Success?
    ensures VerifySignatureChecked(message, signature, publicKey, h) == VerifySignature(message, signature, publicKey, h).value
  {
  }

  /** The checked verification rejects a signature with a zero byte in
      front of one of the modulus length, which `verify_signature`
      accepts whenever it accepts the signature. */
  lemma CheckedRejectsPadded(message: Bytes, signature: Bytes, publicKey: (nat, nat), h: Hash)
    requires h.Valid() && |signature| == ModulusLen(publicKey.1)
    ensures !VerifySignatureChecked(message, [0] + signature, publicKey, h)
  {
  }
}
