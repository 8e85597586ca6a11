/** The EMSA-PSS codec of `src/pss_padding.py` (sections 9.1.1 and 9.1.2 of
    RFC 8017). Unlike the `crypto_lib.py` variant it takes the message hash
    `m_hash` and the bit size `em_bits` directly, with the digest length
    `h_len` and the salt length `s_len` as separate arguments; its `mgf1` has
    no length check; the spare bits of the first byte are cleared only when
    there are some, with the mask `(1 << (8 - bits)) - 1`; and the salt is
    read from the end of DB. The salt `secrets.token_bytes` would draw is a
    parameter, and `secrets.compare_digest` is plain equality. */
module PssPadding {
  import opened Wrappers
  import opened Bytes
  import opened NumberTheory
  import opened Octets
  import opened Hashing

  // ---------------------------------------------------------------------
  // MGF1
  // ---------------------------------------------------------------------

  /** The `while len(mask) < mask_len` loop of `mgf1` from the state
      (`mask`, `counter`): each pass appends
      hash(seed || counter.to_bytes(4, 'big')), and `to_bytes` raises
      OverflowError once the counter reaches 2^32. */
  function MaskLoop(seed: Bytes, maskLen: int, mask: Bytes, counter: nat, h: Hash): (r: Result<Bytes>)
    requires h.Valid()
    decreases maskLen - |mask|
  {
    if |mask| >= maskLen then Success(mask)
    else
      match I2OSP(counter, 4)
      case Failure(e) => Failure(e)
      case Success(c) => MaskLoop(seed, maskLen, mask + h.digest(seed + c), counter + 1, h)
  }

  /** From a state holding the first `counter` blocks of the stream, the loop
      raises exactly when the mask needs more than 2^32 blocks, and otherwise
      stops with at least `maskLen` bytes of the stream. */
  lemma {:induction false} MaskLoopSpec(seed: Bytes, maskLen: int, mask: Bytes, counter: nat, h: Hash)
    requires h.Valid() && counter <= CounterLimit
    requires |mask| == counter * h.size
    requires forall i :: 0 <= i < |mask| ==> mask[i] == MaskByte(seed, i, h)
    ensures var r := MaskLoop(seed, maskLen, mask, counter, h);
      && (r.Failure? <==> maskLen > CounterLimit * h.size)
      && (r.Failure? ==> r.error == IntTooBig)
      && (r.Success? ==> |r.value| >= maskLen)
      && (r.Success? ==> forall i :: 0 <= i < |r.value| ==> r.value[i] == MaskByte(seed, i, h))
    decreases maskLen - |mask|
  {
    MulMonotone(counter, CounterLimit, h.size);
    if |mask| < maskLen {
      CounterIsI2OSP(counter);
      if counter < CounterLimit {
        var block := h.digest(seed + Counter(counter));
        AppendBlock(seed, counter + 1, mask, block, h);
        MaskLoopSpec(seed, maskLen, mask + block, counter + 1, h);
      }
    }
  }

  /** `mgf1(seed_bytes, mask_len, hash_algo)`: `mask[:mask_len]` of the
      loop's output, the first `mask_len` bytes of the MGF1 stream (none when
      `mask_len` is not positive). A mask needing more than 2^32 blocks
      raises OverflowError. */
  function Mgf1(seed: Bytes, maskLen: int, h: Hash): (r: Result<Bytes>)
    requires h.Valid()
    ensures r.Failure? <==> maskLen > CounterLimit * h.size
    ensures r.Failure? ==> r.error == IntTooBig
    ensures r.Success? ==> r.value == Stream(seed, if maskLen < 0 then 0 else maskLen, h)
  {
    MaskLoopSpec(seed, maskLen, [], 0, h);
    match MaskLoop(seed, maskLen, [], 0, h)
    case Failure(e) => Failure(e)
    case Success(mask) =>
      assert maskLen <= 0 ==> mask == [];
      var r := Prefix(mask, maskLen);
      StreamPrefix(seed, r, h);
      Success(r)
  }

  // ---------------------------------------------------------------------
  // Lengths and the spare bits
  // ---------------------------------------------------------------------

  /** `em_len = (em_bits + 7) // 8`, the bytes needed for `em_bits` bits. */
  function EmLen(emBits: int): (emLen: int)
    ensures 8 * emLen >= emBits && 8 * (emLen - 1) < emBits
  {
    (emBits + 7) / 8
  }

  /** `bits_sobrando = 8 * em_len - em_bits`: the leftmost bits of EM
      outside the `em_bits` bits an encoding may use. */
  function SpareBits(emBits: int): (bits: nat)
    ensures 8 * EmLen(emBits) == emBits + bits
    ensures bits < 8
  {
    8 * EmLen(emBits) - emBits
  }

  /** `(1 << (8 - bits)) - 1`, which is `0xFF >> bits`. */
  function SpareMask(bits: nat): (mask: Byte)
    requires bits <= 8
    ensures mask == LowBitsMask(bits)
  {
    MaskSpellingsAgree(bits);
    (Pow2(8 - bits) - 1) as Byte
  }

  /** `if bits > 0: s = bytes([s[0] & mask]) + s[1:]`: clears the `bits`
      leftmost bits of the first byte and leaves everything else, and leaves
      `s` untouched when there are no spare bits. */
  function ClearSpareBits(s: Bytes, bits: nat): (r: Bytes)
    requires |s| > 0 && bits <= 8
    ensures |r| == |s| && r[1..] == s[1..]
    ensures TopBitsClear(r[0], bits)
    ensures r == s <==> TopBitsClear(s[0], bits)
    ensures bits == 0 ==> r == s
  {
    if bits > 0 then
      LowMask(s[0], bits);
      var r := MaskFirstByte(s, SpareMask(bits));
      assert r == s <==> r[0] == s[0] by {
        if r[0] == s[0] {
          MaskFirstByteKeeps(s, SpareMask(bits));
        }
      }
      r
    else
      TopBitsClearIsBound(s[0], 0);
      assert Pow2(8) == 256;
      s
  }

  /** Unmasking first bytes 0 and 1: a spare-bit count below eight keeps
      bit 0, so a data block whose first byte is 0 or 1 is left as it is. */
  lemma ClearSpareBitsKeepsSmall(s: Bytes, bits: nat)
    requires |s| > 0 && bits < 8
    requires s[0] == 0 || s[0] == 1
    ensures ClearSpareBits(s, bits) == s
  {
    TopBitsClearIsBound(s[0], bits);
    Pow2Monotone(1, 8 - bits);
    assert Pow2(1) == 2;
  }

  // ---------------------------------------------------------------------
  // Encoding
  // ---------------------------------------------------------------------

  /** `bytes(a ^ b for a, b in zip(block, mgf1(seed, mask_len)))` with the
      spare bits of the first byte cleared: steps 7 to 9 of `pss_encode` and
      4 to 6 of `pss_verify`. */
  function ApplyMask(block: Bytes, seed: Bytes, maskLen: int, bits: nat, h: Hash): (r: Result<Bytes>)
    requires h.Valid() && 0 < |block| <= maskLen && bits <= 8
    ensures r.Failure? <==> maskLen > CounterLimit * h.size
    ensures r.Failure? ==> r.error == IntTooBig
    ensures r.Success? ==> |r.value| == |block| && TopBitsClear(r.value[0], bits)
    ensures r.Success? ==> r.value[1..] == Xor(block[1..], Mgf1(seed, maskLen, h).value[1..])
  {
    match Mgf1(seed, maskLen, h)
    case Failure(e) => Failure(e)
    case Success(dbMask) => Success(ClearSpareBits(Xor(block, dbMask), bits))
  }

  /** Masking twice with the same seed gives the block back, with its spare
      bits cleared. */
  lemma ApplyMaskTwice(block: Bytes, seed: Bytes, bits: nat, h: Hash)
    requires h.Valid() && 0 < |block| && bits <= 8
    requires ApplyMask(block, seed, |block|, bits, h).Success?
    ensures ApplyMask(ApplyMask(block, seed, |block|, bits, h).value, seed, |block|, bits, h)
         == Success(ClearSpareBits(block, bits))
  {
    var m := Mgf1(seed, |block|, h).value;
    if bits > 0 {
      RemaskTwice(block, m, bits);
    } else {
      XorTwice(block, m);
    }
  }

  /** The steps of `pss_encode` once `em_len` and the spare-bit count are
      known: ValueError when `em_len < h_len + s_len + 2`, otherwise
      maskedDB || H' || 0xbc. */
  function EncodeWith(mHash: Bytes, emLen: int, bits: nat, hLen: nat, salt: Bytes, h: Hash): (r: Result<Bytes>)
    requires h.Valid() && bits <= 8
    ensures r.Failure? <==> !LongEnough(emLen, hLen, |salt|) || emLen - hLen - 1 > CounterLimit * h.size
    ensures r.Failure? ==> (r.error == EncodingTooLong <==> !LongEnough(emLen, hLen, |salt|))
    ensures r.Success? ==> |r.value| == emLen - hLen + h.size && r.value[|r.value| - 1] == 0xbc
    ensures r.Success? ==> r.value[emLen - hLen - 1..|r.value| - 1] == h.digest(MPrime(mHash, salt))
    ensures r.Success? ==> TopBitsClear(r.value[0], bits)
  {
    if emLen < hLen + |salt| + 2 then Failure(EncodingTooLong)
    else
      var hh := h.digest(MPrime(mHash, salt));
      var db := DataBlock(emLen - |salt| - hLen - 2, salt);
      match ApplyMask(db, hh, emLen - hLen - 1, bits, h)
      case Failure(e) => Failure(e)
      case Success(maskedDb) =>
        var em := maskedDb + hh + [0xbc];
        assert em[emLen - hLen - 1..|em| - 1] == hh;
        assert em[0] == maskedDb[0];
        Success(em)
  }

  /** The encoding as its three parts maskedDB || H' || 0xbc. */
  lemma EncodeParts(mHash: Bytes, emLen: int, bits: nat, hLen: nat, salt: Bytes, h: Hash)
    requires h.Valid() && bits <= 8
    requires EncodeWith(mHash, emLen, bits, hLen, salt, h).Success?
    ensures var hh := h.digest(MPrime(mHash, salt));
      var db := DataBlock(emLen - |salt| - hLen - 2, salt);
      && ApplyMask(db, hh, emLen - hLen - 1, bits, h).Success?
      && EncodeWith(mHash, emLen, bits, hLen, salt, h).value
         == ApplyMask(db, hh, emLen - hLen - 1, bits, h).value + hh + [0xbc]
  {
  }

  /** `pss_encode(m_hash, em_bits, hash_algo, h_len, len(salt))` when
      `secrets.token_bytes` returns `salt`. */
  function PssEncode(mHash: Bytes, emBits: int, hLen: nat, salt: Bytes, h: Hash): (r: Result<Bytes>)
    requires h.Valid()
    ensures r.Failure? <==>
      !LongEnough(EmLen(emBits), hLen, |salt|) || EmLen(emBits) - hLen - 1 > CounterLimit * h.size
    ensures r.Failure? ==> (r.error == EncodingTooLong <==> !LongEnough(EmLen(emBits), hLen, |salt|))
    ensures r.Success? ==> |r.value| == EmLen(emBits) - hLen + h.size
    ensures r.Success? ==> r.value[|r.value| - 1] == 0xbc
    ensures r.Success? && hLen == h.size ==>
      r.value[EmLen(emBits) - hLen - 1..EmLen(emBits) - 1] == h.digest(MPrime(mHash, salt))
    ensures r.Success? ==> TopBitsClear(r.value[0], SpareBits(emBits))
  {
    EncodeWith(mHash, EmLen(emBits), SpareBits(emBits), hLen, salt, h)
  }

  // ---------------------------------------------------------------------
  // Verification
  // ---------------------------------------------------------------------

  /** Steps 7 to 10 of `pss_verify` on the unmasked DB:
      `all(b == 0 for b in DB[:ps_len])`, `DB[ps_len] == 0x01` (IndexError
      past the end of DB), then H' compared with the hash of M' over the
      salt `DB[len(DB) - s_len:]`. */
  function CheckDb(mHash: Bytes, db: Bytes, hh: Bytes, psLen: nat, sLen: nat, h: Hash): (r: Result<bool>)
    requires h.Valid()
    ensures r.Failure? <==> |db| <= psLen && AllZero(db)
    ensures r.Failure? ==> r.error == IndexOutOfRange
    ensures !AllZero(Take(db, psLen)) || (|db| > psLen && db[psLen] != 1) ==> r == Success(false)
    ensures r == Success(true) ==>
      && |db| > psLen && AllZero(db[..psLen]) && db[psLen] == 1
      && hh == h.digest(MPrime(mHash, From(db, |db| - sLen)))
    ensures |db| == psLen + 1 + sLen && db == DataBlock(psLen, db[psLen + 1..]) ==>
      r == Success(hh == h.digest(MPrime(mHash, db[psLen + 1..])))
  {
    if !AllZero(Take(db, psLen)) then Success(false)
    else if psLen >= |db| then Failure(IndexOutOfRange)
    else if db[psLen] != 1 then Success(false)
    else Success(hh == h.digest(MPrime(mHash, From(db, |db| - sLen))))
  }

  /** Steps 3 to 10 of `pss_verify` on maskedDB and H': the spare-bit test,
      unmasking, and the DB checks. */
  function VerifyMasked(mHash: Bytes, maskedDb: Bytes, hh: Bytes, maskLen: nat, psLen: nat, bits: nat, sLen: nat, h: Hash): (r: Result<bool>)
    requires h.Valid() && 0 < |maskedDb| <= maskLen && bits <= 8
    ensures bits > 0 && !TopBitsClear(maskedDb[0], bits) ==> r == Success(false)
    ensures bits == 0 || TopBitsClear(maskedDb[0], bits) ==>
      var unmasked := ApplyMask(maskedDb, hh, maskLen, bits, h);
      && (unmasked.Failure? ==> r == Failure(IntTooBig))
      && (unmasked.Success? ==> r == CheckDb(mHash, unmasked.value, hh, psLen, sLen, h))
  {
    if bits > 0 && !TopBitsClear(maskedDb[0], bits) then Success(false)
    else
      match ApplyMask(maskedDb, hh, maskLen, bits, h)
      case Failure(e) => Failure(e)
      case Success(db) => CheckDb(mHash, db, hh, psLen, sLen, h)
  }

  /** The steps of `pss_verify` once `em_len` and the spare-bit count are
      known: False on each rejection, True exactly when H' matches. Indexing
      an empty EM, or reading `DB[ps_len]` past the end of a short DB,
      raises IndexError, and a mask of more than 2^32 blocks the
      OverflowError of `mgf1`. */
  function VerifyWith(mHash: Bytes, em: Bytes, emLen: int, bits: nat, hLen: nat, sLen: nat, h: Hash): (r: Result<bool>)
    requires h.Valid() && bits <= 8
    ensures !LongEnough(emLen, hLen, sLen) ==> r == Success(false)
    ensures LongEnough(emLen, hLen, sLen) && |em| == 0 ==> r == Failure(IndexOutOfRange)
    ensures |em| > 0 && em[|em| - 1] != 0xbc ==> r == Success(false)
    ensures |em| > 0 && bits > 0 && !TopBitsClear(em[0], bits) ==> r == Success(false)
    ensures |em| == emLen - hLen + h.size && emLen - hLen - 1 <= CounterLimit * h.size ==> r.Success?
  {
    if emLen < hLen + sLen + 2 then Success(false)
    else if |em| == 0 then Failure(IndexOutOfRange)
    else if em[|em| - 1] != 0xbc then Success(false)
    else
      var cut := emLen - hLen - 1;
      assert Take(em, cut)[0] == em[0];
      VerifyMasked(mHash, Take(em, cut), Slice(em, cut, |em| - 1), cut, emLen - hLen - sLen - 2, bits, sLen, h)
  }

  /** `pss_verify(m_hash, em, em_bits, hash_algo, h_len, s_len)`. */
  function PssVerify(mHash: Bytes, em: Bytes, emBits: int, hLen: nat, sLen: nat, h: Hash): (r: Result<bool>)
    requires h.Valid()
    ensures !LongEnough(EmLen(emBits), hLen, sLen) ==> r == Success(false)
    ensures |em| > 0 && em[|em| - 1] != 0xbc ==> r == Success(false)
    ensures |em| > 0 && !TopBitsClear(em[0], SpareBits(emBits)) ==> r == Success(false)
    ensures hLen == h.size && |em| == EmLen(emBits) && EmLen(emBits) - hLen - 1 <= CounterLimit * h.size ==> r.Success?
  {
    VerifyWith(mHash, em, EmLen(emBits), SpareBits(emBits), hLen, sLen, h)
  }

  /** Past the length, trailer and spare-bit checks, verification is the
      masked-block stage on `em[:cut]` and `em[cut:-1]`. */
  lemma VerifyUnfolds(mHash: Bytes, em: Bytes, emLen: int, bits: nat, hLen: nat, sLen: nat, h: Hash)
    requires h.Valid() && bits <= 8
    requires LongEnough(emLen, hLen, sLen) && |em| > 0 && em[|em| - 1] == 0xbc
    ensures VerifyWith(mHash, em, emLen, bits, hLen, sLen, h)
         == VerifyMasked(mHash, Take(em, emLen - hLen - 1), Slice(em, emLen - hLen - 1, |em| - 1),
                         emLen - hLen - 1, emLen - hLen - sLen - 2, bits, sLen, h)
  {
  }

  /** Verification of a message whose length, trailer and spare bits pass:
      the DB checks on the unmasked block. */
  lemma VerifyParts(mHash: Bytes, em: Bytes, emLen: int, bits: nat, hLen: nat, sLen: nat, h: Hash)
    requires h.Valid() && bits <= 8
    requires LongEnough(emLen, hLen, sLen) && |em| > 0 && em[|em| - 1] == 0xbc
    requires bits == 0 || TopBitsClear(em[0], bits)
    ensures var cut := emLen - hLen - 1;
      var hh := Slice(em, cut, |em| - 1);
      var unmasked := ApplyMask(Take(em, cut), hh, cut, bits, h);
      && (unmasked.Failure? ==> VerifyWith(mHash, em, emLen, bits, hLen, sLen, h) == Failure(IntTooBig))
      && (unmasked.Success? ==>
            VerifyWith(mHash, em, emLen, bits, hLen, sLen, h)
            == CheckDb(mHash, unmasked.value, hh, emLen - hLen - sLen - 2, sLen, h))
  {
    VerifyUnfolds(mHash, em, emLen, bits, hLen, sLen, h);
    assert Take(em, emLen - hLen - 1)[0] == em[0];
  }

  /** For a message of encoding length, `em[:cut]` and `em[cut:-1]` are
      maskedDB and H'. */
  lemma ExactSplit(em: Bytes, cut: nat)
    requires cut < |em|
    ensures Take(em, cut) == em[..cut]
    ensures Slice(em, cut, |em| - 1) == em[cut..|em| - 1]
    ensures em == em[..cut] + em[cut..|em| - 1] + [em[|em| - 1]]
  {
  }

  /** Verification rejects, without raising, a message of encoding length
      whose unmasked DB has a non-zero padding byte or no 0x01 separator. */
  lemma RejectsBadPaddingWith(mHash: Bytes, em: Bytes, emLen: int, bits: nat, hLen: nat, sLen: nat, h: Hash, db: Bytes)
    requires h.Valid() && bits <= 8
    requires LongEnough(emLen, hLen, sLen) && |em| == emLen - hLen + h.size
    requires var cut := emLen - hLen - 1;
      ApplyMask(em[..cut], em[cut..|em| - 1], cut, bits, h) == Success(db)
    requires var psLen := emLen - hLen - sLen - 2;
      !AllZero(db[..psLen]) || db[psLen] != 1
    ensures VerifyWith(mHash, em, emLen, bits, hLen, sLen, h) == Success(false)
  {
    var cut := emLen - hLen - 1;
    var psLen := emLen - hLen - sLen - 2;
    if em[|em| - 1] == 0xbc && (bits == 0 || TopBitsClear(em[0], bits)) {
      ExactSplit(em, cut);
      VerifyParts(mHash, em, emLen, bits, hLen, sLen, h);
      assert Take(db, psLen) == db[..psLen];
    }
  }

  /** `pss_verify` rejects, without raising, an EM of `em_len` bytes whose
      unmasked DB has a non-zero padding byte or no 0x01 separator. */
  lemma PssVerifyRejectsBadPadding(mHash: Bytes, em: Bytes, emBits: int, hLen: nat, sLen: nat, h: Hash, db: Bytes)
    requires h.Valid() && hLen == h.size
    requires LongEnough(EmLen(emBits), hLen, sLen) && |em| == EmLen(emBits)
    requires var cut := EmLen(emBits) - hLen - 1;
      ApplyMask(em[..cut], em[cut..|em| - 1], cut, SpareBits(emBits), h) == Success(db)
    requires var psLen := EmLen(emBits) - hLen - sLen - 2;
      !AllZero(db[..psLen]) || db[psLen] != 1
    ensures PssVerify(mHash, em, emBits, hLen, sLen, h) == Success(false)
  {
    RejectsBadPaddingWith(mHash, em, EmLen(emBits), SpareBits(emBits), hLen, sLen, h, db);
  }

  // ---------------------------------------------------------------------
  // Round trip and exact characterisation
  // ---------------------------------------------------------------------

  /** Verification accepts every encoding, whatever the salt; the salt read
      from the end of the recovered DB is the encoded one. */
  lemma RoundTripWith(mHash: Bytes, emLen: int, bits: nat, hLen: nat, salt: Bytes, h: Hash)
    requires h.Valid() && bits < 8
    requires EncodeWith(mHash, emLen, bits, hLen, salt, h).Success?
    ensures VerifyWith(mHash, EncodeWith(mHash, emLen, bits, hLen, salt, h).value, emLen, bits, hLen, |salt|, h)
         == Success(true)
  {
    var em := EncodeWith(mHash, emLen, bits, hLen, salt, h).value;
    var cut := emLen - hLen - 1;
    var psLen := emLen - |salt| - hLen - 2;
    var hh := h.digest(MPrime(mHash, salt));
    var db := DataBlock(psLen, salt);
    EncodeParts(mHash, emLen, bits, hLen, salt, h);
    var maskedDb := ApplyMask(db, hh, cut, bits, h).value;
    ExactSplit(em, cut);
    assert em[..cut] == maskedDb;
    assert em[cut..|em| - 1] == hh;
    VerifyParts(mHash, em, emLen, bits, hLen, |salt|, h);
    ApplyMaskTwice(db, hh, bits, h);
    ClearSpareBitsKeepsSmall(db, bits);
  }

  /** Only a message of encoding length passes verification: any other
      length leaves H' with fewer or more bytes than a digest. The DB it
      unmasks passes the DB checks. */
  lemma AcceptedLength(mHash: Bytes, em: Bytes, emLen: int, bits: nat, hLen: nat, sLen: nat, h: Hash) returns (db: Bytes)
    requires h.Valid() && bits <= 8
    requires VerifyWith(mHash, em, emLen, bits, hLen, sLen, h) == Success(true)
    ensures LongEnough(emLen, hLen, sLen)
    ensures |em| == emLen - hLen + h.size
    ensures em[|em| - 1] == 0xbc && (bits == 0 || TopBitsClear(em[0], bits))
    ensures var cut := emLen - hLen - 1;
      var hh := Slice(em, cut, |em| - 1);
      var u := ApplyMask(Take(em, cut), hh, cut, bits, h);
      && u.Success? && db == u.value
      && CheckDb(mHash, db, hh, emLen - hLen - sLen - 2, sLen, h) == Success(true)
  {
    AcceptedChecks(mHash, em, emLen, bits, hLen, sLen, h);
    db := AcceptedSplit(mHash, em, emLen - hLen - 1, emLen - hLen - sLen - 2, bits, sLen, h);
  }

  /** A masked-block stage that accepts `em[:cut]` and `em[cut:-1]` fixes
      the length of EM: H' is as long as a digest. */
  lemma AcceptedSplit(mHash: Bytes, em: Bytes, cut: nat, psLen: nat, bits: nat, sLen: nat, h: Hash) returns (db: Bytes)
    requires h.Valid() && 0 < cut < |em| && bits <= 8
    requires VerifyMasked(mHash, Take(em, cut), Slice(em, cut, |em| - 1), cut, psLen, bits, sLen, h) == Success(true)
    ensures |em| == cut + 1 + h.size
    ensures var hh := Slice(em, cut, |em| - 1);
      var u := ApplyMask(Take(em, cut), hh, cut, bits, h);
      && u.Success? && db == u.value
      && CheckDb(mHash, db, hh, psLen, sLen, h) == Success(true)
  {
    var maskedDb, hh := Take(em, cut), Slice(em, cut, |em| - 1);
    db := AcceptedMasked(mHash, maskedDb, hh, cut, psLen, bits, sLen, h);
    SliceLength(em, cut, |em| - 1);
    assert |hh| == |em| - 1 - cut;
  }

  /** An accepting verification has passed the length, trailer and
      spare-bit checks, and the masked-block stage has accepted. */
  lemma AcceptedChecks(mHash: Bytes, em: Bytes, emLen: int, bits: nat, hLen: nat, sLen: nat, h: Hash)
    requires h.Valid() && bits <= 8
    requires VerifyWith(mHash, em, emLen, bits, hLen, sLen, h) == Success(true)
    ensures LongEnough(emLen, hLen, sLen) && |em| > 0
    ensures em[|em| - 1] == 0xbc && (bits == 0 || TopBitsClear(em[0], bits))
    ensures VerifyMasked(mHash, Take(em, emLen - hLen - 1), Slice(em, emLen - hLen - 1, |em| - 1),
                         emLen - hLen - 1, emLen - hLen - sLen - 2, bits, sLen, h) == Success(true)
  {
    VerifyUnfolds(mHash, em, emLen, bits, hLen, sLen, h);
  }

  /** The masked-block stage accepts only after unmasking a DB that passes
      the DB checks, with H' as long as a digest. */
  lemma AcceptedMasked(mHash: Bytes, maskedDb: Bytes, hh: Bytes, maskLen: nat, psLen: nat, bits: nat, sLen: nat, h: Hash) returns (db: Bytes)
    requires h.Valid() && 0 < |maskedDb| <= maskLen && bits <= 8
    requires VerifyMasked(mHash, maskedDb, hh, maskLen, psLen, bits, sLen, h) == Success(true)
    ensures var u := ApplyMask(maskedDb, hh, maskLen, bits, h);
      && u.Success? && db == u.value
      && CheckDb(mHash, db, hh, psLen, sLen, h) == Success(true)
      && |hh| == h.size
  {
    db := ApplyMask(maskedDb, hh, maskLen, bits, h).value;
    DigestLength(mHash, db, hh, psLen, sLen, h);
  }

  /** A DB check that accepts has matched H' against a digest. */
  lemma DigestLength(mHash: Bytes, db: Bytes, hh: Bytes, psLen: nat, sLen: nat, h: Hash)
    requires h.Valid() && CheckDb(mHash, db, hh, psLen, sLen, h) == Success(true)
    ensures |hh| == h.size
  {
  }

  /** `s[i:j]` holds `j - i` bytes only when both ends are inside `s`. */
  lemma SliceLength(s: Bytes, i: nat, j: int)
    requires |Slice(s, i, j)| > 0
    ensures |Slice(s, i, j)| == Min(j, |s|) - i
  {
  }

  /** An accepting DB check on a block of `ps_len + 1 + s_len` bytes has
      parsed a data block whose salt hashes, with the message hash, to H'. */
  lemma AcceptedDbParts(mHash: Bytes, db: Bytes, hh: Bytes, psLen: nat, sLen: nat, h: Hash)
    requires h.Valid() && |db| == psLen + 1 + sLen
    requires CheckDb(mHash, db, hh, psLen, sLen, h) == Success(true)
    ensures db == DataBlock(psLen, db[psLen + 1..])
    ensures hh == h.digest(MPrime(mHash, db[psLen + 1..]))
  {
    assert From(db, |db| - sLen) == db[psLen + 1..];
    DataBlockParse(db, psLen);
  }

  /** An accepting verification unmasks a well-formed data block whose
      salt hashes, with the message hash, to H'. */
  lemma AcceptedDb(mHash: Bytes, em: Bytes, emLen: int, bits: nat, hLen: nat, sLen: nat, h: Hash) returns (db: Bytes)
    requires h.Valid() && bits <= 8
    requires VerifyWith(mHash, em, emLen, bits, hLen, sLen, h) == Success(true)
    ensures LongEnough(emLen, hLen, sLen) && |em| == emLen - hLen + h.size
    ensures em[|em| - 1] == 0xbc && (bits == 0 || TopBitsClear(em[0], bits))
    ensures var cut := emLen - hLen - 1;
      var u := ApplyMask(Take(em, cut), Slice(em, cut, |em| - 1), cut, bits, h);
      && u.Success? && db == u.value
      && db == DataBlock(emLen - hLen - sLen - 2, db[emLen - hLen - sLen - 1..])
      && Slice(em, cut, |em| - 1) == h.digest(MPrime(mHash, db[emLen - hLen - sLen - 1..]))
  {
    db := AcceptedLength(mHash, em, emLen, bits, hLen, sLen, h);
    AcceptedDbParts(mHash, db, Slice(em, emLen - hLen - 1, |em| - 1), emLen - hLen - sLen - 2, sLen, h);
  }

  /** The salt an accepting verification extracts re-encodes to the
      verified message. */
  lemma AcceptedSalt(mHash: Bytes, em: Bytes, emLen: int, bits: nat, hLen: nat, sLen: nat, h: Hash) returns (salt: Bytes)
    requires h.Valid() && bits <= 8
    requires VerifyWith(mHash, em, emLen, bits, hLen, sLen, h) == Success(true)
    ensures |salt| == sLen && EncodeWith(mHash, emLen, bits, hLen, salt, h) == Success(em)
  {
    var cut := emLen - hLen - 1;
    var db := AcceptedDb(mHash, em, emLen, bits, hLen, sLen, h);
    salt := db[emLen - hLen - sLen - 1..];
    ExactSplit(em, cut);
    // re-masking gives the masked block back, its spare bits being clear
    ApplyMaskTwice(em[..cut], em[cut..|em| - 1], bits, h);
    EncodeParts(mHash, emLen, bits, hLen, salt, h);
  }

  /** Verification answers True exactly for the encodings of the message
      hash: any byte string it accepts is the encoding for some salt of
      `sLen` bytes, and every such encoding is accepted. */
  lemma VerifyExactWith(mHash: Bytes, em: Bytes, emLen: int, bits: nat, hLen: nat, sLen: nat, h: Hash)
    requires h.Valid() && bits < 8
    ensures VerifyWith(mHash, em, emLen, bits, hLen, sLen, h) == Success(true) <==>
      exists salt :: |salt| == sLen && EncodeWith(mHash, emLen, bits, hLen, salt, h) == Success(em)
  {
    if VerifyWith(mHash, em, emLen, bits, hLen, sLen, h) == Success(true) {
      var salt := AcceptedSalt(mHash, em, emLen, bits, hLen, sLen, h);
    }
    if exists salt :: |salt| == sLen && EncodeWith(mHash, emLen, bits, hLen, salt, h) == Success(em) {
      var salt :| |salt| == sLen && EncodeWith(mHash, emLen, bits, hLen, salt, h) == Success(em);
      RoundTripWith(mHash, emLen, bits, hLen, salt, h);
    }
  }

  /** `pss_verify` accepts every output of `pss_encode` with the same
      arguments, whatever the salt. */
  lemma PssRoundTrip(mHash: Bytes, emBits: int, hLen: nat, salt: Bytes, h: Hash)
    requires h.Valid()
    requires PssEncode(mHash, emBits, hLen, salt, h).Success?
    ensures PssVerify(mHash, PssEncode(mHash, emBits, hLen, salt, h).value, emBits, hLen, |salt|, h) == Success(true)
  {
    RoundTripWith(mHash, EmLen(emBits), SpareBits(emBits), hLen, salt, h);
  }

  /** `pss_verify` answers True exactly for the outputs of `pss_encode` with
      the same arguments. */
  lemma PssVerifyExact(mHash: Bytes, em: Bytes, emBits: int, hLen: nat, sLen: nat, h: Hash)
    requires h.Valid()
    ensures PssVerify(mHash, em, emBits, hLen, sLen, h) == Success(true) <==>
      exists salt :: |salt| == sLen && PssEncode(mHash, emBits, hLen, salt, h) == Success(em)
  {
    VerifyExactWith(mHash, em, EmLen(emBits), SpareBits(emBits), hLen, sLen, h);
  }

  // ---------------------------------------------------------------------
  // A short encoded message raises
  // ---------------------------------------------------------------------

  /** A digest that is always the single byte 0xbc. */
  function ConstantHash(): (h: Hash)
    ensures h.Valid() && h.size == 1
  {
    Hash((m: Bytes) => [0xbc], 1)
  }

  /** With a one-byte hash whose every digest is 0xbc, 32-bit EM and no
      salt, the one-byte message `0xbc` unmasks to DB = 0x00, which passes
      the padding test and then raises IndexError at `DB[1]` instead of
      returning False. The hash matters: one whose digest of the mask seed
      is not 0xbc leaves a non-zero DB, which the padding test rejects. */
  lemma ShortEncodingRaises()
    ensures PssVerify([], [0xbc], 32, 1, 0, ConstantHash()) == Failure(IndexOutOfRange)
  {
    var h := ConstantHash();
    var em: Bytes := [0xbc];
    assert EmLen(32) == 4 && SpareBits(32) == 0;
    VerifyUnfolds([], em, 4, 0, 1, 0, h);
    assert Take(em, 2) == em;
    var mask := Mgf1(Slice(em, 2, 0), 2, h).value;
    StreamByte(Slice(em, 2, 0), 2, 0, h);
    assert mask[0] == 0xbc;
    XorNatSelf(0xbc);
    assert Xor(em, mask) == [0];
  }

  lemma {:induction false} XorNatSelf(x: nat)
    ensures XorNat(x, x) == 0
    decreases x
  {
    if x > 0 {
      XorNatSelf(x / 2);
    }
  }

  /** `pss_verify` with the length of EM checked first: never raises, and
      answers True exactly for the outputs of `pss_encode`. */
  function PssVerifyChecked(mHash: Bytes, em: Bytes, emBits: int, hLen: nat, sLen: nat, h: Hash): (ok: bool)
    requires h.Valid()
    ensures ok <==> exists salt :: |salt| == sLen && PssEncode(mHash, emBits, hLen, salt, h) == Success(em)
    ensures |em| == EmLen(emBits) - hLen + h.size ==>
      (ok <==> PssVerify(mHash, em, emBits, hLen, sLen, h) == Success(true))
  {
    PssVerifyExact(mHash, em, emBits, hLen, sLen, h);
    if |em| != EmLen(emBits) - hLen + h.size then
      false
    else
      match PssVerify(mHash, em, emBits, hLen, sLen, h)
      case Success(b) => b
      case Failure(_) => false
  }
}
