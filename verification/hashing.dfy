/** The hash capability (SHA3-256 in the source, left uninterpreted here)
    and the parts of EMSA-PSS that both PSS modules share: the message
    prefix M' and the MGF1 output stream of appendix B.2.1 of RFC 8017. */
module Hashing {
  import opened Wrappers
  import opened Bytes
  import opened NumberTheory
  import opened Octets

  /** A hash function and its digest length in bytes. */
  datatype Hash = Hash(digest: Bytes -> Bytes, size: nat) {
    /** Every digest has the declared, positive length. */
    ghost predicate Valid()
    {
      size > 0 && forall m :: |digest(m)| == size
    }
  }

  /** M' = 0x00 * 8 || mHash || salt (step 5 of section 9.1.1 of RFC 8017). */
  function MPrime(mHash: Bytes, salt: Bytes): (r: Bytes)
    ensures |r| == 8 + |mHash| + |salt|
    ensures r[8 + |mHash|..] == salt
  {
    Zeros(8) + mHash + salt
  }

  /** M' is eight zero bytes, then the message hash, then the salt, and
      those three parts determine it. */
  lemma MPrimeLayout(mHash: Bytes, salt: Bytes, m: Bytes)
    ensures m == MPrime(mHash, salt) <==>
      && |m| == 8 + |mHash| + |salt|
      && AllZero(m[..8]) && m[8..8 + |mHash|] == mHash && m[8 + |mHash|..] == salt
  {
    var r := MPrime(mHash, salt);
    assert r[..8] == Zeros(8) && r[8..8 + |mHash|] == mHash;
    if |m| == 8 + |mHash| + |salt| && AllZero(m[..8]) && m[8..8 + |mHash|] == mHash && m[8 + |mHash|..] == salt {
      assert m[..8] == Zeros(8);
      assert m == m[..8] + m[8..8 + |mHash|] + m[8 + |mHash|..];
    }
  }

  /** The admissible-length condition `em_len >= h_len + salt_len + 2`. */
  predicate LongEnough(emLen: int, hLen: nat, saltLen: nat)
  {
    emLen >= hLen + saltLen + 2
  }

  /** The data block DB = PS || 0x01 || salt with `psLen` zero bytes. */
  function DataBlock(psLen: int, salt: Bytes): (db: Bytes)
    ensures |db| == (if psLen < 0 then 0 else psLen) + 1 + |salt|
    ensures psLen >= 0 ==> AllZero(db[..psLen]) && db[psLen] == 1 && db[psLen + 1..] == salt
  {
    var db := Zeros(psLen) + [1] + salt;
    assert psLen >= 0 ==> db[..psLen] == Zeros(psLen) && db[psLen + 1..] == salt;
    db
  }

  /** A block of zeros, 0x01 and a tail is the data block of that tail:
      parsing DB inverts its construction. */
  lemma DataBlockParse(db: Bytes, psLen: nat)
    requires psLen < |db| && AllZero(db[..psLen]) && db[psLen] == 1
    ensures db == DataBlock(psLen, db[psLen + 1..])
  {
    var salt := db[psLen + 1..];
    assert db[..psLen] == Zeros(psLen);
    assert db == db[..psLen] + [db[psLen]] + salt;
  }

  /** The four-byte big-endian counter of block `i`, `i.to_bytes(4, 'big')`,
      reduced to its low 32 bits (the counters MGF1 uses never exceed them). */
  function Counter(i: nat): (c: Bytes)
    ensures |c| == 4
  {
    Digits(i, 4)
  }

  /** The number of distinct four-byte counters, `2^32`. */
  const CounterLimit: nat := 0x1_0000_0000

  /** A counter below `2^32` fits in four bytes: `to_bytes(4, 'big')` does
      not raise and gives `Counter(i)`. */
  lemma CounterIsI2OSP(i: nat)
    ensures I2OSP(i, 4).Success? <==> i < CounterLimit
    ensures i < CounterLimit ==> I2OSP(i, 4) == Success(Counter(i))
  {
    assert Pow(256, 4) == CounterLimit by {
      assert Pow(256, 2) == 65536;
    }
  }

  /** Byte `i` of the MGF1 stream
      hash(seed || C(0)) || hash(seed || C(1)) || ... */
  function MaskByte(seed: Bytes, i: nat, h: Hash): Byte
    requires h.Valid()
  {
    ByteFromBlock(seed, 0, i, h)
  }

  /** Byte `j` of the stream that starts at block `q`, found by skipping
      whole blocks. */
  function ByteFromBlock(seed: Bytes, q: nat, j: nat, h: Hash): Byte
    requires h.Valid()
    decreases j
  {
    if j < h.size then h.digest(seed + Counter(q))[j]
    else ByteFromBlock(seed, q + 1, j - h.size, h)
  }

  /** Position `q*size + j` of the stream is byte `j` of block `q`: byte `i`
      lies in block `i / size` at offset `i % size`. */
  lemma MaskByteInBlock(seed: Bytes, q: nat, j: nat, h: Hash)
    requires h.Valid() && j < h.size
    ensures MaskByte(seed, q * h.size + j, h) == h.digest(seed + Counter(q))[j]
  {
    SkipBlocks(seed, 0, q, j, h);
  }

  lemma {:induction false} SkipBlocks(seed: Bytes, k: nat, q: nat, j: nat, h: Hash)
    requires h.Valid() && j < h.size
    ensures ByteFromBlock(seed, k, q * h.size + j, h) == ByteFromBlock(seed, k + q, j, h)
    decreases q
  {
    if q > 0 {
      BlockStep(q, h.size, j);
      SkipBlocks(seed, k + 1, q - 1, j, h);
    }
  }

  lemma BlockStep(q: nat, size: nat, j: nat)
    requires q > 0 && j < size
    ensures q * size + j >= size
    ensures q * size + j - size == (q - 1) * size + j
  {
  }

  /** Appending block `count - 1` to the first `count - 1` blocks of the
      stream gives the first `count` blocks. */
  lemma AppendBlock(seed: Bytes, count: nat, prev: Bytes, block: Bytes, h: Hash)
    requires h.Valid() && count > 0
    requires |prev| == (count - 1) * h.size
    requires forall i :: 0 <= i < |prev| ==> prev[i] == MaskByte(seed, i, h)
    requires block == h.digest(seed + Counter(count - 1))
    ensures |prev + block| == count * h.size
    ensures forall i :: 0 <= i < |prev + block| ==> (prev + block)[i] == MaskByte(seed, i, h)
  {
    var t := prev + block;
    assert (count - 1) * h.size + h.size == count * h.size;
    forall i | 0 <= i < |t|
      ensures t[i] == MaskByte(seed, i, h)
    {
      if i >= |prev| {
        MaskByteInBlock(seed, count - 1, i - |prev|, h);
      }
    }
  }

  /** The first `n` bytes of the MGF1 stream. */
  function Stream(seed: Bytes, n: nat, h: Hash): (s: Bytes)
    requires h.Valid()
    ensures |s| == n
    decreases n
  {
    if n == 0 then [] else Stream(seed, n - 1, h) + [MaskByte(seed, n - 1, h)]
  }

  /** Byte `i` of a stream prefix is byte `i` of the stream. */
  lemma {:induction false} StreamByte(seed: Bytes, n: nat, i: nat, h: Hash)
    requires h.Valid() && i < n
    ensures Stream(seed, n, h)[i] == MaskByte(seed, i, h)
    decreases n
  {
    if i < n - 1 {
      StreamByte(seed, n - 1, i, h);
    }
  }

  /** A byte string that agrees with the stream byte by byte is a prefix of
      it. */
  lemma StreamPrefix(seed: Bytes, s: Bytes, h: Hash)
    requires h.Valid()
    requires forall i :: 0 <= i < |s| ==> s[i] == MaskByte(seed, i, h)
    ensures s == Stream(seed, |s|, h)
  {
    forall i | 0 <= i < |s|
      ensures s[i] == Stream(seed, |s|, h)[i]
    {
      StreamByte(seed, |s|, i, h);
    }
  }

  /** A shorter prefix of the stream is a prefix of a longer one. */
  lemma StreamPrefixOfLonger(seed: Bytes, n: nat, m: nat, h: Hash)
    requires h.Valid() && n <= m
    ensures Stream(seed, n, h) == Stream(seed, m, h)[..n]
  {
    forall i | 0 <= i < n
      ensures Stream(seed, n, h)[i] == Stream(seed, m, h)[i]
    {
      StreamByte(seed, n, i, h);
      StreamByte(seed, m, i, h);
    }
  }
}
