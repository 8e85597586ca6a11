/** The EMSA-PSS codec of `crypto_lib.py` (sections 9.1.1 and 9.1.2 of
    RFC 8017): `mgf1`, `pss_encode` and `pss_verify`. This variant hashes the
    message itself and derives the encoded length from the key size,
    `emLen = ceil((keyBits - 1) / 8)`. The salt `os.urandom` would draw is a
    parameter. */
module CryptoLibPss {
  import opened Wrappers
  import opened Bytes
  import opened NumberTheory
  import opened Octets
  import opened Hashing

  // ---------------------------------------------------------------------
  // MGF1
  // ---------------------------------------------------------------------

  /** `T` after `count` iterations of the `for i in range(...)` loop:
      hash(seed || I2OSP(0, 4)) || ... || hash(seed || I2OSP(count - 1, 4)). */
  function Blocks(seed: Bytes, count: nat, h: Hash): (t: Bytes)
    requires h.Valid() && count <= CounterLimit
    ensures |t| == count * h.size
    ensures forall i :: 0 <= i < |t| ==> t[i] == MaskByte(seed, i, h)
    decreases count
  {
    if count == 0 then []
    else
      var prev := Blocks(seed, count - 1, h);
      CounterIsI2OSP(count - 1);
      var block := h.digest(seed + I2OSP(count - 1, 4).value);
      AppendBlock(seed, count, prev, block, h);
      prev + block
  }

  /** `mgf1(seed, mask_len)`: ValueError past `2^32 * hLen` bytes; otherwise
      the first `mask_len` bytes of the MGF1 stream (none when `mask_len`
      is not positive). */
  function Mgf1(seed: Bytes, maskLen: int, h: Hash): (r: Result<Bytes>)
    requires h.Valid()
    ensures r.Failure? <==> maskLen > CounterLimit * h.size
    ensures r.Failure? ==> r.error == MaskTooLong
    ensures r.Success? ==> r.value == Stream(seed, if maskLen < 0 then 0 else maskLen, h)
  {
    if maskLen > CounterLimit * h.size then Failure(MaskTooLong)
    else
      var count := CeilDiv(maskLen, h.size);
      CountSign(maskLen, h.size, count);
      if count <= 0 then
        Success([])
      else
        CountBound(maskLen, h.size, count);
        var t := Blocks(seed, count, h);
        StreamPrefix(seed, t[..maskLen], h);
        Success(t[..maskLen])
  }

  /** The block count `ceil(maskLen / size)` of an admissible mask length
      needs counters below `2^32` only, and its blocks cover the mask. */
  lemma CountBound(maskLen: int, size: nat, count: int)
    requires size > 0 && count > 0
    requires size * count >= maskLen && size * (count - 1) < maskLen
    requires maskLen <= CounterLimit * size
    ensures count <= CounterLimit && maskLen <= count * size
  {
    if count > CounterLimit {
      MulMonotoneLeft(size, CounterLimit, count - 1);
    }
  }

  /** `range(ceil(maskLen / size))` is empty exactly when `maskLen <= 0`. */
  lemma CountSign(maskLen: int, size: nat, count: int)
    requires size > 0
    requires size * count >= maskLen && size * (count - 1) < maskLen
    ensures count <= 0 <==> maskLen <= 0
  {
    if count <= 0 {
      assert size * count <= 0;
    } else {
      MulMonotoneLeft(size, 0, count - 1);
    }
  }

  lemma MulMonotoneLeft(size: nat, a: nat, b: nat)
    requires a <= b
    ensures size * a <= size * b
  {
  }

  // ---------------------------------------------------------------------
  // Lengths
  // ---------------------------------------------------------------------

  /** `em_len = math.ceil((key_bits - 1) / 8)`. */
  function EmLen(keyBits: int): (emLen: int)
    ensures 8 * emLen >= keyBits - 1 && 8 * (emLen - 1) < keyBits - 1
  {
    CeilDiv(keyBits - 1, 8)
  }

  /** `8 * em_len - (key_bits - 1)`: the leftmost bits of EM outside the
      `key_bits - 1` bits an encoding may use. */
  function UnusedBits(keyBits: int): (t: nat)
    ensures 8 * EmLen(keyBits) == (keyBits - 1) + t
    ensures t < 8
  {
    8 * EmLen(keyBits) - (keyBits - 1)
  }

  /** `0xFF >> (8 * em_len - (key_bits - 1))`. */
  function FirstByteMask(keyBits: int): (mask: Byte)
    ensures mask as nat == Pow2(8 - UnusedBits(keyBits)) - 1
  {
    LowBitsMask(UnusedBits(keyBits))
  }

  /** AND-ing with the mask clears the unused bits and keeps the others. */
  lemma FirstByteMaskClears(b: Byte, keyBits: int)
    ensures TopBitsClear(AndByte(b, FirstByteMask(keyBits)), UnusedBits(keyBits))
    ensures AndByte(b, FirstByteMask(keyBits)) == b <==> TopBitsClear(b, UnusedBits(keyBits))
  {
    LowMask(b, UnusedBits(keyBits));
  }

  // ---------------------------------------------------------------------
  // Encoding
  // ---------------------------------------------------------------------

  /** `masked = bytes(a ^ b for a, b in zip(block, mgf1(seed, maskLen)))`
      followed by `bytes([masked[0] & mask]) + masked[1:]` with the mask
      `0xFF >> t`: the masking step of both `pss_encode` and `pss_verify`,
      for a first byte whose `t` leftmost bits are unused. */
  function ApplyMask(block: Bytes, seed: Bytes, maskLen: int, t: nat, h: Hash): (r: Result<Bytes>)
    requires h.Valid() && 0 < |block| <= maskLen && t <= 8
    ensures r.Failure? <==> maskLen > CounterLimit * h.size
    ensures r.Failure? ==> r.error == MaskTooLong
    ensures r.Success? ==> |r.value| == |block| && TopBitsClear(r.value[0], t)
    ensures r.Success? ==> r.value[1..] == Xor(block[1..], Mgf1(seed, maskLen, h).value[1..])
  {
    match Mgf1(seed, maskLen, h)
    case Failure(e) => Failure(e)
    case Success(dbMask) =>
      var x := Xor(block, dbMask);
      LowMask(x[0], t);
      Success(MaskFirstByte(x, LowBitsMask(t)))
  }

  /** Masking twice with the same seed gives the block back, with the
      unused bits of its first byte cleared. */
  lemma ApplyMaskTwice(block: Bytes, seed: Bytes, t: nat, h: Hash)
    requires h.Valid() && 0 < |block| && t <= 8
    requires ApplyMask(block, seed, |block|, t, h).Success?
    ensures ApplyMask(ApplyMask(block, seed, |block|, t, h).value, seed, |block|, t, h)
         == Success(MaskFirstByte(block, LowBitsMask(t)))
  {
    RemaskTwice(block, Mgf1(seed, |block|, h).value, t);
  }

  /** The steps of `pss_encode` once `em_len` is known, for a first byte
      whose `t` leftmost bits are unused: raises ValueError when
      `em_len < h_len + salt_len + 2`, otherwise returns
      maskedDB || H || 0xbc. */
  function EncodeWith(mHash: Bytes, emLen: int, t: nat, salt: Bytes, h: Hash): (r: Result<Bytes>)
    requires h.Valid() && |mHash| == h.size && t <= 8
    ensures r.Failure? <==> !LongEnough(emLen, h.size, |salt|) || emLen - h.size - 1 > CounterLimit * h.size
    ensures r.Failure? ==> (r.error == EncodingTooLong <==> !LongEnough(emLen, h.size, |salt|))
    ensures r.Success? ==> |r.value| == emLen && r.value[emLen - 1] == 0xbc
    ensures r.Success? ==> r.value[emLen - h.size - 1..emLen - 1] == h.digest(MPrime(mHash, salt))
    ensures r.Success? ==> TopBitsClear(r.value[0], t)
  {
    var hLen := |mHash|;
    if emLen < hLen + |salt| + 2 then Failure(EncodingTooLong)
    else
      var hh := h.digest(MPrime(mHash, salt));
      var db := DataBlock(emLen - |salt| - hLen - 2, salt);
      match ApplyMask(db, hh, emLen - hLen - 1, t, h)
      case Failure(e) => Failure(e)
      case Success(maskedDb) =>
        var em := maskedDb + hh + [0xbc];
        assert em[emLen - hLen - 1..emLen - 1] == hh;
        assert em[0] == maskedDb[0];
        Success(em)
  }

  /** The encoding as its three parts maskedDB || H || 0xbc. */
  lemma EncodeParts(mHash: Bytes, emLen: int, t: nat, salt: Bytes, h: Hash)
    requires h.Valid() && |mHash| == h.size && t <= 8
    requires EncodeWith(mHash, emLen, t, salt, h).Success?
    ensures var hh := h.digest(MPrime(mHash, salt));
      var db := DataBlock(emLen - |salt| - h.size - 2, salt);
      && ApplyMask(db, hh, emLen - h.size - 1, t, h).Success?
      && EncodeWith(mHash, emLen, t, salt, h).value
         == ApplyMask(db, hh, emLen - h.size - 1, t, h).value + hh + [0xbc]
  {
  }

  /** `pss_encode(message, key_bits, len(salt))` when `os.urandom` returns
      `salt`. */
  function PssEncode(message: Bytes, keyBits: int, salt: Bytes, h: Hash): (r: Result<Bytes>)
    requires h.Valid()
    ensures r.Failure? <==>
      !LongEnough(EmLen(keyBits), h.size, |salt|) || EmLen(keyBits) - h.size - 1 > CounterLimit * h.size
    ensures r.Failure? ==> (r.error == EncodingTooLong <==> !LongEnough(EmLen(keyBits), h.size, |salt|))
    ensures r.Success? ==> |r.value| == EmLen(keyBits) && r.value[|r.value| - 1] == 0xbc
    ensures r.Success? ==>
      r.value[EmLen(keyBits) - h.size - 1..EmLen(keyBits) - 1] == h.digest(MPrime(h.digest(message), salt))
    ensures r.Success? ==> TopBitsClear(r.value[0], UnusedBits(keyBits))
  {
    EncodeWith(h.digest(message), EmLen(keyBits), UnusedBits(keyBits), salt, h)
  }

  // ---------------------------------------------------------------------
  // Verification
  // ---------------------------------------------------------------------

  /** The checks on the unmasked DB: `DB[:ps_len]` all zero, `DB[ps_len]`
      the 0x01 separator, then H compared with the hash of M' over the salt
      `DB[ps_len + 1:]`. Reading `DB[ps_len]` past the end raises. */
  function CheckDb(mHash: Bytes, db: Bytes, hh: Bytes, psLen: nat, h: Hash): (r: Result<bool>)
    requires h.Valid()
    ensures r.Failure? <==> |db| == psLen && AllZero(db)
    ensures r.Failure? ==> r.error == IndexOutOfRange
    ensures Take(db, psLen) != Zeros(psLen) || (|db| > psLen && db[psLen] != 1) ==> r == Success(false)
    ensures r == Success(true) ==>
      |db| > psLen && db == DataBlock(psLen, db[psLen + 1..]) && hh == h.digest(MPrime(mHash, db[psLen + 1..]))
    ensures |db| > psLen && db == DataBlock(psLen, db[psLen + 1..]) ==>
      r == Success(hh == h.digest(MPrime(mHash, db[psLen + 1..])))
  {
    ZeroPrefixIsComparison(db, psLen);
    ZeroPrefixMeans(db, psLen);
    if !ZeroPrefix(db, psLen) then Success(false)
    else if psLen >= |db| then Failure(IndexOutOfRange)
    else if db[psLen] != 1 then Success(false)
    else
      var salt := From(db, psLen + 1);
      assert db == Take(db, psLen) + [db[psLen]] + db[psLen + 1..];
      Success(hh == h.digest(MPrime(mHash, salt)))
  }

  /** The steps of `pss_verify` after the trailer check, given the mask
      length `em_len - h_len - 1` and padding length `ps_len`: the
      unused-bits test on maskedDB, unmasking, and the DB checks. */
  function VerifyMasked(mHash: Bytes, maskedDb: Bytes, hh: Bytes, maskLen: nat, psLen: nat, t: nat, h: Hash): (r: Result<bool>)
    requires h.Valid() && 0 < |maskedDb| <= maskLen && t <= 8
    ensures !TopBitsClear(maskedDb[0], t) ==> r == Success(false)
    ensures TopBitsClear(maskedDb[0], t) ==>
      var unmasked := ApplyMask(maskedDb, hh, maskLen, t, h);
      && (unmasked.Failure? ==> r == Failure(MaskTooLong))
      && (unmasked.Success? ==> r == CheckDb(mHash, unmasked.value, hh, psLen, h))
  {
    if !TopBitsClear(maskedDb[0], t) then Success(false)
    else
      var unmasked := ApplyMask(maskedDb, hh, maskLen, t, h);
      if unmasked.Failure? then Failure(unmasked.error)
      else CheckDb(mHash, unmasked.value, hh, psLen, h)
  }

  /** The steps of `pss_verify` once `em_len` is known: False on each
      rejection, True exactly when the recomputed H' equals H. Indexing an
      empty encoded message or reading past the end of a short DB raises
      IndexError, and an oversized mask the ValueError of `mgf1`. */
  function VerifyWith(mHash: Bytes, em: Bytes, emLen: int, t: nat, saltLen: nat, h: Hash): (r: Result<bool>)
    requires h.Valid() && |mHash| == h.size && t <= 8
    ensures !LongEnough(emLen, h.size, saltLen) ==> r == Success(false)
    ensures LongEnough(emLen, h.size, saltLen) && |em| == 0 ==> r == Failure(IndexOutOfRange)
    ensures |em| > 0 && em[|em| - 1] != 0xbc ==> r == Success(false)
    ensures |em| > 0 && !TopBitsClear(em[0], t) ==> r == Success(false)
    ensures |em| == emLen && emLen - h.size - 1 <= CounterLimit * h.size ==> r.Success?
  {
    var hLen := |mHash|;
    if emLen < hLen + saltLen + 2 then Success(false)
    else if |em| == 0 then Failure(IndexOutOfRange)
    else if em[|em| - 1] != 0xbc then Success(false)
    else
      var maskedDb := Take(em, emLen - hLen - 1);
      var hh := Slice(em, emLen - hLen - 1, |em| - 1);
      assert maskedDb[0] == em[0];
      VerifyMasked(mHash, maskedDb, hh, emLen - hLen - 1, emLen - hLen - saltLen - 2, t, h)
  }

  /** `pss_verify(message, encoded_message, key_bits, salt_len)`. */
  function PssVerify(message: Bytes, em: Bytes, keyBits: int, saltLen: nat, h: Hash): (r: Result<bool>)
    requires h.Valid()
    ensures !LongEnough(EmLen(keyBits), h.size, saltLen) ==> r == Success(false)
    ensures |em| > 0 && em[|em| - 1] != 0xbc ==> r == Success(false)
    ensures |em| > 0 && !TopBitsClear(em[0], UnusedBits(keyBits)) ==> r == Success(false)
    ensures |em| == EmLen(keyBits) && EmLen(keyBits) - h.size - 1 <= CounterLimit * h.size ==> r.Success?
  {
    VerifyWith(h.digest(message), em, EmLen(keyBits), UnusedBits(keyBits), saltLen, h)
  }

  /** Verification of a message whose length, trailer and unused bits
      pass: the DB checks on the unmasked block. */
  lemma VerifyParts(mHash: Bytes, em: Bytes, emLen: int, t: nat, saltLen: nat, h: Hash)
    requires h.Valid() && |mHash| == h.size && t <= 8
    requires LongEnough(emLen, h.size, saltLen) && |em| > 0
    requires em[|em| - 1] == 0xbc && TopBitsClear(em[0], t)
    ensures var cut := emLen - |mHash| - 1;
      var hh := Slice(em, cut, |em| - 1);
      var unmasked := ApplyMask(Take(em, cut), hh, cut, t, h);
      && (unmasked.Failure? ==> VerifyWith(mHash, em, emLen, t, saltLen, h) == Failure(MaskTooLong))
      && (unmasked.Success? ==>
            VerifyWith(mHash, em, emLen, t, saltLen, h)
            == CheckDb(mHash, unmasked.value, hh, emLen - |mHash| - saltLen - 2, h))
  {
    VerifyUnfolds(mHash, em, emLen, t, saltLen, h);
    var cut := emLen - |mHash| - 1;
    var maskedDb := Take(em, cut);
    assert maskedDb[0] == em[0];
  }

  /** Past the length, trailer and unused-bits checks, verification is the
      masked-block stage on `EM[:cut]` and `EM[cut:-1]`. */
  lemma VerifyUnfolds(mHash: Bytes, em: Bytes, emLen: int, t: nat, saltLen: nat, h: Hash)
    requires h.Valid() && |mHash| == h.size && t <= 8
    requires LongEnough(emLen, h.size, saltLen) && |em| > 0
    requires em[|em| - 1] == 0xbc && TopBitsClear(em[0], t)
    ensures VerifyWith(mHash, em, emLen, t, saltLen, h)
        == VerifyMasked(mHash, Take(em, emLen - |mHash| - 1), Slice(em, emLen - |mHash| - 1, |em| - 1), emLen - |mHash| - 1, emLen - |mHash| - saltLen - 2, t, h)
  {
  }

  /** For a message of length `em_len`, `EM[:emLen - hLen - 1]` and
      `EM[emLen - hLen - 1:-1]` are maskedDB and H. */
  lemma ExactSplit(em: Bytes, cut: nat)
    requires cut < |em|
    ensures Take(em, cut) == em[..cut]
    ensures Slice(em, cut, |em| - 1) == em[cut..|em| - 1]
    ensures em == em[..cut] + em[cut..|em| - 1] + [em[|em| - 1]]
  {
  }

  /** Verification rejects, without raising, a message of length `em_len`
      whose unmasked DB has a non-zero padding byte or no 0x01 separator. */
  lemma RejectsBadPaddingWith(mHash: Bytes, em: Bytes, emLen: int, t: nat, saltLen: nat, h: Hash, db: Bytes)
    requires h.Valid() && |mHash| == h.size && t <= 8
    requires LongEnough(emLen, h.size, saltLen) && |em| == emLen
    requires var cut := emLen - h.size - 1;
      ApplyMask(em[..cut], em[cut..|em| - 1], cut, t, h) == Success(db)
    requires var psLen := emLen - h.size - saltLen - 2;
      !AllZero(db[..psLen]) || db[psLen] != 1
    ensures VerifyWith(mHash, em, emLen, t, saltLen, h) == Success(false)
  {
    var cut := emLen - h.size - 1;
    var psLen := emLen - h.size - saltLen - 2;
    if em[|em| - 1] == 0xbc && TopBitsClear(em[0], t) {
      ExactSplit(em, cut);
      VerifyParts(mHash, em, emLen, t, saltLen, h);
      assert Take(db, psLen) == db[..psLen];
    }
  }

  /** `pss_verify` rejects, without raising, a message of length `em_len`
      whose unmasked DB has a non-zero padding byte or no 0x01 separator. */
  lemma PssVerifyRejectsBadPadding(message: Bytes, em: Bytes, keyBits: int, saltLen: nat, h: Hash, db: Bytes)
    requires h.Valid()
    requires LongEnough(EmLen(keyBits), h.size, saltLen) && |em| == EmLen(keyBits)
    requires var cut := EmLen(keyBits) - h.size - 1;
      ApplyMask(em[..cut], em[cut..|em| - 1], cut, UnusedBits(keyBits), h) == Success(db)
    requires var psLen := EmLen(keyBits) - h.size - saltLen - 2;
      !AllZero(db[..psLen]) || db[psLen] != 1
    ensures PssVerify(message, em, keyBits, saltLen, h) == Success(false)
  {
    RejectsBadPaddingWith(h.digest(message), em, EmLen(keyBits), UnusedBits(keyBits), saltLen, h, db);
  }

  // ---------------------------------------------------------------------
  // Round trip and exact characterisation
  // ---------------------------------------------------------------------

  /** Verification accepts every encoding, whatever the salt, as long as
      bit 0 of the first byte is in use. */
  lemma RoundTripWith(mHash: Bytes, emLen: int, t: nat, salt: Bytes, h: Hash)
    requires h.Valid() && |mHash| == h.size && t <= 7
    requires EncodeWith(mHash, emLen, t, salt, h).Success?
    ensures VerifyWith(mHash, EncodeWith(mHash, emLen, t, salt, h).value, emLen, t, |salt|, h) == Success(true)
  {
    var em := EncodeSplit(mHash, emLen, t, salt, h);
    UnmaskEncoding(mHash, em, emLen, t, salt, h);
    VerifyAccepts(mHash, em, emLen, t, |salt|, h);
  }

  /** Unmasking the masked block of an encoding recovers its data block,
      whose salt gives H back. */
  lemma UnmaskEncoding(mHash: Bytes, em: Bytes, emLen: int, t: nat, salt: Bytes, h: Hash)
    requires h.Valid() && |mHash| == h.size && t <= 7
    requires LongEnough(emLen, h.size, |salt|) && |em| == emLen
    requires var cut := emLen - |mHash| - 1;
      var hh := Slice(em, cut, |em| - 1);
      var db := DataBlock(emLen - |mHash| - |salt| - 2, salt);
      && hh == h.digest(MPrime(mHash, salt))
      && ApplyMask(db, hh, cut, t, h).Success?
      && Take(em, cut) == ApplyMask(db, hh, cut, t, h).value
    ensures var cut := emLen - |mHash| - 1;
      var psLen := emLen - |mHash| - |salt| - 2;
      var u := ApplyMask(Take(em, cut), Slice(em, cut, |em| - 1), cut, t, h);
      && u.Success? && |u.value| > psLen && u.value == DataBlock(psLen, u.value[psLen + 1..])
      && Slice(em, cut, |em| - 1) == h.digest(MPrime(mHash, u.value[psLen + 1..]))
  {
    var cut := emLen - |mHash| - 1;
    UnmaskDataBlock(emLen - |mHash| - |salt| - 2, salt, Slice(em, cut, |em| - 1), cut, t, h);
  }

  /** An encoding is the masked DB, H and the trailer 0xbc, split at
      `em_len - h_len - 1`. */
  lemma EncodeSplit(mHash: Bytes, emLen: int, t: nat, salt: Bytes, h: Hash) returns (em: Bytes)
    requires h.Valid() && |mHash| == h.size && t <= 8
    requires EncodeWith(mHash, emLen, t, salt, h).Success?
    ensures em == EncodeWith(mHash, emLen, t, salt, h).value
    ensures LongEnough(emLen, h.size, |salt|) && |em| == emLen
    ensures em[|em| - 1] == 0xbc && TopBitsClear(em[0], t)
    ensures var cut := emLen - |mHash| - 1;
      var hh := Slice(em, cut, |em| - 1);
      var db := DataBlock(emLen - |mHash| - |salt| - 2, salt);
      && hh == h.digest(MPrime(mHash, salt))
      && ApplyMask(db, hh, cut, t, h).Success?
      && Take(em, cut) == ApplyMask(db, hh, cut, t, h).value
  {
    em := EncodeWith(mHash, emLen, t, salt, h).value;
    EncodeParts(mHash, emLen, t, salt, h);
    ExactSplit(em, emLen - h.size - 1);
  }

  /** Unmasking a masked data block gives it back: its first byte, 0 or 1,
      has none of the unused bits set. */
  lemma UnmaskDataBlock(psLen: nat, salt: Bytes, hh: Bytes, maskLen: nat, t: nat, h: Hash)
    requires h.Valid() && t <= 7 && maskLen == psLen + 1 + |salt|
    requires ApplyMask(DataBlock(psLen, salt), hh, maskLen, t, h).Success?
    ensures ApplyMask(ApplyMask(DataBlock(psLen, salt), hh, maskLen, t, h).value, hh, maskLen, t, h)
         == Success(DataBlock(psLen, salt))
  {
    var db := DataBlock(psLen, salt);
    ApplyMaskTwice(db, hh, t, h);
    MaskedByteRecovers(db[0], Mgf1(hh, |db|, h).value[0], t);
    assert MaskFirstByte(db, LowBitsMask(t)) == db by {
      assert db[0] == 0 || db[0] == 1;
    }
  }

  /** Verification accepts a message of `em_len` bytes with the trailer and
      clear unused bits whose masked block unmasks to a data block of the
      expected shape with H the digest of its M'. */
  lemma VerifyAccepts(mHash: Bytes, em: Bytes, emLen: int, t: nat, saltLen: nat, h: Hash)
    requires h.Valid() && |mHash| == h.size && t <= 8
    requires LongEnough(emLen, h.size, saltLen) && |em| == emLen
    requires em[|em| - 1] == 0xbc && TopBitsClear(em[0], t)
    requires var cut := emLen - |mHash| - 1;
      var psLen := emLen - |mHash| - saltLen - 2;
      var u := ApplyMask(Take(em, cut), Slice(em, cut, |em| - 1), cut, t, h);
      && u.Success? && |u.value| > psLen && u.value == DataBlock(psLen, u.value[psLen + 1..])
      && Slice(em, cut, |em| - 1) == h.digest(MPrime(mHash, u.value[psLen + 1..]))
    ensures VerifyWith(mHash, em, emLen, t, saltLen, h) == Success(true)
  {
    VerifyParts(mHash, em, emLen, t, saltLen, h);
  }


  /** Only a message of `em_len` bytes passes verification: any other
      length leaves H with fewer or more bytes than a digest. The DB it
      unmasks passes the DB checks. */
  lemma AcceptedLength(mHash: Bytes, em: Bytes, emLen: int, t: nat, saltLen: nat, h: Hash) returns (db: Bytes)
    requires h.Valid() && |mHash| == h.size && t <= 8
    requires VerifyWith(mHash, em, emLen, t, saltLen, h) == Success(true)
    ensures LongEnough(emLen, h.size, saltLen)
    ensures |em| == emLen
    ensures em[|em| - 1] == 0xbc && TopBitsClear(em[0], t)
    ensures var cut := emLen - |mHash| - 1;
      var hh := Slice(em, cut, |em| - 1);
      var u := ApplyMask(Take(em, cut), hh, cut, t, h);
      && u.Success? && db == u.value
      && CheckDb(mHash, db, hh, emLen - |mHash| - saltLen - 2, h) == Success(true)
  {
    AcceptedChecks(mHash, em, emLen, t, saltLen, h);
    db := AcceptedSplit(mHash, em, emLen - |mHash| - 1, emLen - |mHash| - saltLen - 2, t, h);
  }

  /** An accepting verification has passed the length, trailer and
      unused-bit checks, and the masked-block stage has accepted. */
  lemma AcceptedChecks(mHash: Bytes, em: Bytes, emLen: int, t: nat, saltLen: nat, h: Hash)
    requires h.Valid() && |mHash| == h.size && t <= 8
    requires VerifyWith(mHash, em, emLen, t, saltLen, h) == Success(true)
    ensures LongEnough(emLen, h.size, saltLen) && |em| > 0
    ensures em[|em| - 1] == 0xbc && TopBitsClear(em[0], t)
    ensures VerifyMasked(mHash, Take(em, emLen - |mHash| - 1), Slice(em, emLen - |mHash| - 1, |em| - 1),
                         emLen - |mHash| - 1, emLen - |mHash| - saltLen - 2, t, h) == Success(true)
  {
    VerifyUnfolds(mHash, em, emLen, t, saltLen, h);
  }

  /** A masked-block stage that accepts `em[:cut]` and `em[cut:-1]` fixes
      the length of EM: H is as long as a digest. */
  lemma AcceptedSplit(mHash: Bytes, em: Bytes, cut: nat, psLen: nat, t: nat, h: Hash) returns (db: Bytes)
    requires h.Valid() && 0 < cut < |em| && t <= 8
    requires VerifyMasked(mHash, Take(em, cut), Slice(em, cut, |em| - 1), cut, psLen, t, h) == Success(true)
    ensures |em| == cut + 1 + h.size
    ensures var hh := Slice(em, cut, |em| - 1);
      var u := ApplyMask(Take(em, cut), hh, cut, t, h);
      && u.Success? && db == u.value
      && CheckDb(mHash, db, hh, psLen, h) == Success(true)
  {
    var maskedDb, hh := Take(em, cut), Slice(em, cut, |em| - 1);
    db := AcceptedMasked(mHash, maskedDb, hh, cut, psLen, t, h);
    SliceLength(em, cut, |em| - 1);
    assert |hh| == |em| - 1 - cut;
  }

  /** The masked-block stage accepts only after unmasking a DB that passes
      the DB checks, with H as long as a digest. */
  lemma AcceptedMasked(mHash: Bytes, maskedDb: Bytes, hh: Bytes, maskLen: nat, psLen: nat, t: nat, h: Hash) returns (db: Bytes)
    requires h.Valid() && 0 < |maskedDb| <= maskLen && t <= 8
    requires VerifyMasked(mHash, maskedDb, hh, maskLen, psLen, t, h) == Success(true)
    ensures var u := ApplyMask(maskedDb, hh, maskLen, t, h);
      && u.Success? && db == u.value
      && CheckDb(mHash, db, hh, psLen, h) == Success(true)
      && |hh| == h.size
  {
    db := ApplyMask(maskedDb, hh, maskLen, t, h).value;
    DigestLength(mHash, db, hh, psLen, h);
  }

  /** A DB check that accepts has matched H against a digest. */
  lemma DigestLength(mHash: Bytes, db: Bytes, hh: Bytes, psLen: nat, h: Hash)
    requires h.Valid() && CheckDb(mHash, db, hh, psLen, h) == Success(true)
    ensures |hh| == h.size
  {
  }

  /** `s[i:j]` holds `j - i` bytes only when both ends are inside `s`. */
  lemma SliceLength(s: Bytes, i: nat, j: int)
    requires |Slice(s, i, j)| > 0
    ensures |Slice(s, i, j)| == Min(j, |s|) - i
  {
  }

  /** An accepting verification unmasks a well-formed data block whose
      salt hashes, with the message hash, to H. */
  lemma AcceptedDb(mHash: Bytes, em: Bytes, emLen: int, t: nat, saltLen: nat, h: Hash) returns (db: Bytes)
    requires h.Valid() && |mHash| == h.size && t <= 8
    requires VerifyWith(mHash, em, emLen, t, saltLen, h) == Success(true)
    ensures LongEnough(emLen, h.size, saltLen) && |em| == emLen
    ensures em[|em| - 1] == 0xbc && TopBitsClear(em[0], t)
    ensures var cut := emLen - |mHash| - 1;
      var u := ApplyMask(Take(em, cut), Slice(em, cut, |em| - 1), cut, t, h);
      && u.Success? && db == u.value
      && db == DataBlock(emLen - |mHash| - saltLen - 2, db[emLen - |mHash| - saltLen - 1..])
      && Slice(em, cut, |em| - 1) == h.digest(MPrime(mHash, db[emLen - |mHash| - saltLen - 1..]))
  {
    db := AcceptedLength(mHash, em, emLen, t, saltLen, h);
  }

  /** The salt an accepting verification extracts re-encodes to the
      verified message. */
  lemma AcceptedSalt(mHash: Bytes, em: Bytes, emLen: int, t: nat, saltLen: nat, h: Hash) returns (salt: Bytes)
    requires h.Valid() && |mHash| == h.size && t <= 8
    requires VerifyWith(mHash, em, emLen, t, saltLen, h) == Success(true)
    ensures |salt| == saltLen && EncodeWith(mHash, emLen, t, salt, h) == Success(em)
  {
    var cut := emLen - |mHash| - 1;
    var db := AcceptedDb(mHash, em, emLen, t, saltLen, h);
    salt := db[emLen - |mHash| - saltLen - 1..];
    ExactSplit(em, cut);
    var maskedDb := em[..cut];
    // re-masking gives the masked block back, its unused bits being clear
    ApplyMaskTwice(maskedDb, em[cut..emLen - 1], t, h);
    LowMask(maskedDb[0], t);
    MaskFirstByteKeeps(maskedDb, LowBitsMask(t));
    EncodeParts(mHash, emLen, t, salt, h);
  }

  /** Verification answers True exactly for the encodings of the message
      hash: any byte string it accepts is the encoding for some salt of
      `saltLen` bytes, and every such encoding is accepted. */
  lemma VerifyExactWith(mHash: Bytes, em: Bytes, emLen: int, t: nat, saltLen: nat, h: Hash)
    requires h.Valid() && |mHash| == h.size && t <= 7
    ensures VerifyWith(mHash, em, emLen, t, saltLen, h) == Success(true) <==>
      exists salt :: |salt| == saltLen && EncodeWith(mHash, emLen, t, salt, h) == Success(em)
  {
    if VerifyWith(mHash, em, emLen, t, saltLen, h) == Success(true) {
      var salt := AcceptedSalt(mHash, em, emLen, t, saltLen, h);
    }
    if exists salt :: |salt| == saltLen && EncodeWith(mHash, emLen, t, salt, h) == Success(em) {
      var salt :| |salt| == saltLen && EncodeWith(mHash, emLen, t, salt, h) == Success(em);
      RoundTripWith(mHash, emLen, t, salt, h);
    }
  }

  /** `pss_verify` accepts every output of `pss_encode`, whatever the salt. */
  lemma PssRoundTrip(message: Bytes, keyBits: int, salt: Bytes, h: Hash)
    requires h.Valid()
    requires PssEncode(message, keyBits, salt, h).Success?
    ensures PssVerify(message, PssEncode(message, keyBits, salt, h).value, keyBits, |salt|, h) == Success(true)
  {
    RoundTripWith(h.digest(message), EmLen(keyBits), UnusedBits(keyBits), salt, h);
  }

  /** `pss_verify` answers True exactly for the outputs of `pss_encode` on
      the same message and key size. */
  lemma PssVerifyExact(message: Bytes, em: Bytes, keyBits: int, saltLen: nat, h: Hash)
    requires h.Valid()
    ensures PssVerify(message, em, keyBits, saltLen, h) == Success(true) <==>
      exists salt :: |salt| == saltLen && PssEncode(message, keyBits, salt, h) == Success(em)
  {
    VerifyExactWith(h.digest(message), em, EmLen(keyBits), UnusedBits(keyBits), saltLen, h);
  }

  /** Indexing an empty encoded message raises IndexError instead of
      returning False. */
  lemma EmptyEncodingRaises(message: Bytes, keyBits: int, saltLen: nat, h: Hash)
    requires h.Valid() && LongEnough(EmLen(keyBits), h.size, saltLen)
    ensures PssVerify(message, [], keyBits, saltLen, h) == Failure(IndexOutOfRange)
  {
  }

  /** `pss_verify` with the encoded-message length checked first (step 1 of
      section 9.1.2 of RFC 8017 sizes EM to emLen bytes): never raises, and
      agrees with `pss_verify` on every message of the right length. */
  function PssVerifyChecked(message: Bytes, em: Bytes, keyBits: int, saltLen: nat, h: Hash): (ok: bool)
    requires h.Valid()
    ensures ok <==> exists salt :: |salt| == saltLen && PssEncode(message, keyBits, salt, h) == Success(em)
    ensures |em| == EmLen(keyBits) ==> (ok <==> PssVerify(message, em, keyBits, saltLen, h) == Success(true))
  {
    PssVerifyExact(message, em, keyBits, saltLen, h);
    if |em| != EmLen(keyBits) then
      LengthOfEncoding(message, em, keyBits, saltLen, h);
      false
    else
      match PssVerify(message, em, keyBits, saltLen, h)
      case Success(b) => b
      case Failure(_) => false
  }

  lemma LengthOfEncoding(message: Bytes, em: Bytes, keyBits: int, saltLen: nat, h: Hash)
    requires h.Valid()
    requires |em| != EmLen(keyBits)
    ensures !exists salt :: |salt| == saltLen && PssEncode(message, keyBits, salt, h) == Success(em)
  {
  }
}
