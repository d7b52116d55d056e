/** HKDF-Expand and HMAC with an empty key as written in mls-rs-crypto-webcrypto/src/hkdf.rs. */
module Hkdf {
  import opened Bits
  import opened Bytes

  datatype CryptoError = CryptoError

  type Digest = Result<ByteSeq, CryptoError>

  /** A keyed hash of the platform that, when it answers, answers with `size` bytes. */
  ghost predicate HmacOfSize(hmac: (ByteSeq, ByteSeq) -> Digest, size: nat) {
    forall k, d :: hmac(k, d).Ok? ==> |hmac(k, d).value| == size
  }

  // ----- Section 2.3 of RFC 5869 -----

  /** T(n) = HMAC(PRK, T(n - 1) | info | n), T(0) empty. */
  function T(hmac: (ByteSeq, ByteSeq) -> Digest, prk: ByteSeq, info: ByteSeq, n: nat): Digest
    requires n <= 255
  {
    if n == 0 then Ok([])
    else
      var previous :- T(hmac, prk, info, n - 1);
      hmac(prk, previous + info + [n])
  }

  /** T(1) | T(2) | ... | T(n). */
  function Okm(hmac: (ByteSeq, ByteSeq) -> Digest, prk: ByteSeq, info: ByteSeq, n: nat): Digest
    requires n <= 255
  {
    if n == 0 then Ok([])
    else
      var init :- Okm(hmac, prk, info, n - 1);
      var t :- T(hmac, prk, info, n);
      Ok(init + t)
  }

  /** Blocks that cover `len` bytes. */
  function Blocks(len: nat, size: nat): nat
    requires size >= 1
  {
    (len + size - 1) / size
  }

  lemma BlocksLaw(len: nat, size: nat, n: nat)
    requires size >= 1
    ensures Blocks(len, size) <= n <==> len <= n * size
  {
    var q, r := (len + size - 1) / size, (len + size - 1) % size;
    assert len + size - 1 == size * q + r;
    if q <= n {
      MulMonotone(size, q, n);
    } else {
      MulMonotone(size, n + 1, q);
      assert size * (n + 1) == size * n + size;
    }
  }

  lemma {:induction false} OkmLength(hmac: (ByteSeq, ByteSeq) -> Digest, size: nat, prk: ByteSeq, info: ByteSeq, n: nat)
    requires HmacOfSize(hmac, size) && n <= 255
    ensures Okm(hmac, prk, info, n).Ok? ==> |Okm(hmac, prk, info, n).value| == n * size
    ensures Okm(hmac, prk, info, n).Ok? ==> T(hmac, prk, info, n).Ok?
  {
    if n > 0 {
      OkmLength(hmac, size, prk, info, n - 1);
      assert n * size == (n - 1) * size + size;
    }
  }

  lemma {:induction false} OkmPrefix(hmac: (ByteSeq, ByteSeq) -> Digest, prk: ByteSeq, info: ByteSeq, m: nat, n: nat)
    requires m <= n <= 255 && Okm(hmac, prk, info, n).Ok?
    ensures Okm(hmac, prk, info, m).Ok? && Okm(hmac, prk, info, m).value <= Okm(hmac, prk, info, n).value
    decreases n
  {
    if m < n { OkmPrefix(hmac, prk, info, m, n - 1); }
  }

  // ----- The code -----

  /** The output, the error of the keyed hash, or the overflow of the block counter `i: u8`. */
  datatype Outcome = Done(okm: ByteSeq) | Failed(error: CryptoError) | CounterOverflow

  /** What the loop returns: after 255 blocks the counter is stepped past its type. */
  function Expected(hmac: (ByteSeq, ByteSeq) -> Digest, size: nat, prk: ByteSeq, info: ByteSeq, len: nat): Outcome
    requires size >= 1 && HmacOfSize(hmac, size)
  {
    var n := Blocks(len, size);
    var okm := Okm(hmac, prk, info, if n <= 255 then n else 255);
    if okm.Err? then Failed(okm.error)
    else if n >= 255 then CounterOverflow
    else
      OkmLength(hmac, size, prk, info, n);
      BlocksLaw(len, size, n);
      Done(okm.value[..len])
  }

  method Expand(hmac: (ByteSeq, ByteSeq) -> Digest, size: nat, prk: ByteSeq, info: ByteSeq, len: nat)
    returns (res: Outcome)
    requires size >= 1 && HmacOfSize(hmac, size)
    ensures res == Expected(hmac, size, prk, info, len)
  {
    hide T, Blocks, Okm, Expected, HmacOfSize;
    OkmStart(hmac, prk, info);
    if len == 0 {
      BlocksLaw(0, size, 0);
      ExpectedOutput(hmac, size, prk, info, 0, 0);
      return Done([]);
    }
    var out := new Byte[len](_ => 0);
    var i, t: ByteSeq := 1, [];
    var pos := 0;
    ghost var done, okm: ByteSeq := 0, [];
    while pos < len
      invariant 0 <= done <= 254 && i == done + 1
      invariant done >= 1 ==> (done - 1) * size < len
      invariant pos == if done * size < len then done * size else len
      invariant T(hmac, prk, info, done) == Ok(t) && Okm(hmac, prk, info, done) == Ok(okm)
      invariant |okm| == done * size && out[..pos] == okm[..pos]
      decreases len - pos
    {
      var chunk := if len - pos < size then len - pos else size;
      assert (done + 1) * size == done * size + size;
      var digest := hmac(prk, t + info + [i]);
      OkmStep(hmac, size, prk, info, done, t, okm);
      if digest.Err? {
        BlocksAbove(len, size, done);
        ExpectedFailure(hmac, size, prk, info, len, done + 1);
        return Failed(digest.error);
      }
      t := digest.value;
      ghost var before := out[..];
      Copy(out, pos, t[..chunk]);
      assert out[..pos + chunk] == before[..pos] + t[..chunk];
      assert (okm + t)[..pos + chunk] == okm + t[..chunk];
      pos := pos + chunk;
      done, okm := done + 1, okm + t;
      if i == 255 {
        BlocksAbove(len, size, 254);
        OverflowShows(hmac, size, prk, info, len);
        return CounterOverflow;
      }
      i := i + 1;
    }
    BlocksAbove(len, size, done - 1);
    BlocksLaw(len, size, done);
    ExpectedOutput(hmac, size, prk, info, len, done);
    assert out[..len] == out[..];
    res := Done(out[..]);
  }

  lemma OkmStart(hmac: (ByteSeq, ByteSeq) -> Digest, prk: ByteSeq, info: ByteSeq)
    ensures T(hmac, prk, info, 0) == Ok([]) && Okm(hmac, prk, info, 0) == Ok([])
  {
  }

  /** One turn of the loop computes the next block. */
  lemma OkmStep(hmac: (ByteSeq, ByteSeq) -> Digest, size: nat, prk: ByteSeq, info: ByteSeq, n: nat, t: ByteSeq,
                okm: ByteSeq)
    requires HmacOfSize(hmac, size) && n <= 254 && T(hmac, prk, info, n) == Ok(t) && Okm(hmac, prk, info, n) == Ok(okm)
    ensures var d := hmac(prk, t + info + [n + 1]);
            && T(hmac, prk, info, n + 1) == d
            && (d.Ok? ==> |d.value| == size && Okm(hmac, prk, info, n + 1) == Ok(okm + d.value))
  {
  }

  lemma BlocksAbove(len: nat, size: nat, n: nat)
    requires size >= 1 && n * size < len
    ensures Blocks(len, size) > n
  {
    BlocksLaw(len, size, n);
  }

  lemma ExpectedFailure(hmac: (ByteSeq, ByteSeq) -> Digest, size: nat, prk: ByteSeq, info: ByteSeq, len: nat, n: nat)
    requires size >= 1 && HmacOfSize(hmac, size) && 1 <= n <= 255 && n <= Blocks(len, size)
    requires Okm(hmac, prk, info, n - 1).Ok? && T(hmac, prk, info, n).Err?
    ensures Expected(hmac, size, prk, info, len) == Failed(T(hmac, prk, info, n).error)
  {
    FailureShows(hmac, prk, info, n, if Blocks(len, size) <= 255 then Blocks(len, size) else 255);
  }

  lemma ExpectedOutput(hmac: (ByteSeq, ByteSeq) -> Digest, size: nat, prk: ByteSeq, info: ByteSeq, len: nat, n: nat)
    requires size >= 1 && HmacOfSize(hmac, size) && n == Blocks(len, size) <= 254
    requires Okm(hmac, prk, info, n).Ok? && len <= |Okm(hmac, prk, info, n).value|
    ensures Expected(hmac, size, prk, info, len) == Done(Okm(hmac, prk, info, n).value[..len])
  {
  }

  /** `copy_from_slice` into a chunk of the buffer. */
  method Copy(a: array<Byte>, at: nat, s: ByteSeq)
    requires at + |s| <= a.Length
    modifies a
    ensures a[..] == old(a[..at]) + s + old(a[at + |s|..])
  {
    var j := 0;
    while j < |s|
      invariant j <= |s|
      invariant forall k :: 0 <= k < a.Length ==> a[k] == if at <= k < at + j then s[k - at] else old(a[k])
    {
      a[at + j] := s[j];
      j := j + 1;
    }
  }

  lemma {:induction false} FailureShows(hmac: (ByteSeq, ByteSeq) -> Digest, prk: ByteSeq, info: ByteSeq, m: nat, n: nat)
    requires 1 <= m <= n <= 255 && Okm(hmac, prk, info, m - 1).Ok? && T(hmac, prk, info, m).Err?
    ensures Okm(hmac, prk, info, n) == T(hmac, prk, info, m)
    decreases n
  {
    if m < n { FailureShows(hmac, prk, info, m, n - 1); }
  }

  lemma OverflowShows(hmac: (ByteSeq, ByteSeq) -> Digest, size: nat, prk: ByteSeq, info: ByteSeq, len: nat)
    requires size >= 1 && HmacOfSize(hmac, size) && Blocks(len, size) >= 255 && Okm(hmac, prk, info, 255).Ok?
    ensures Expected(hmac, size, prk, info, len) == CounterOverflow
  {
  }

  // ----- What the caller gets -----

  /**
   With a keyed hash that always answers, the output is the first `len` bytes of T(1), T(2), ...
   exactly up to 254 blocks; one block before the limit of RFC 5869 the counter overflows.
   */
  lemma {:induction false} ExpandExactly(hmac: (ByteSeq, ByteSeq) -> Digest, size: nat, prk: ByteSeq, info: ByteSeq,
                                         len: nat)
    requires size >= 1 && HmacOfSize(hmac, size) && forall k, d :: hmac(k, d).Ok?
    ensures Expected(hmac, size, prk, info, len).CounterOverflow? <==> len > 254 * size
    ensures len <= 254 * size ==>
            && Okm(hmac, prk, info, 254).Ok? && len <= |Okm(hmac, prk, info, 254).value|
            && Expected(hmac, size, prk, info, len) == Done(Okm(hmac, prk, info, 254).value[..len])
  {
    BlocksLaw(len, size, 254);
    AlwaysAnswers(hmac, prk, info, 255);
    AlwaysAnswers(hmac, prk, info, 254);
    OkmLength(hmac, size, prk, info, 254);
    var n := Blocks(len, size);
    if n <= 254 {
      OkmPrefix(hmac, prk, info, n, 254);
      OkmLength(hmac, size, prk, info, n);
      BlocksLaw(len, size, n);
    }
  }

  lemma {:induction false} AlwaysAnswers(hmac: (ByteSeq, ByteSeq) -> Digest, prk: ByteSeq, info: ByteSeq, n: nat)
    requires n <= 255 && forall k, d :: hmac(k, d).Ok?
    ensures T(hmac, prk, info, n).Ok? && Okm(hmac, prk, info, n).Ok?
  {
    if n > 0 { AlwaysAnswers(hmac, prk, info, n - 1); }
  }

  /** The output for a shorter length is a prefix of the output for a longer one. */
  lemma {:induction false} ExpandPrefix(hmac: (ByteSeq, ByteSeq) -> Digest, size: nat, prk: ByteSeq, info: ByteSeq,
                                        short: nat, long: nat)
    requires size >= 1 && HmacOfSize(hmac, size) && short <= long
    requires Expected(hmac, size, prk, info, long).Done?
    ensures Expected(hmac, size, prk, info, short).Done?
    ensures Expected(hmac, size, prk, info, short).okm <= Expected(hmac, size, prk, info, long).okm
  {
    var m, n := Blocks(short, size), Blocks(long, size);
    BlocksLaw(long, size, n);
    BlocksLaw(short, size, n);
    BlocksLaw(short, size, m);
    OkmPrefix(hmac, prk, info, m, n);
    OkmLength(hmac, size, prk, info, m);
    OkmLength(hmac, size, prk, info, n);
  }

  // ----- HMAC with an empty key -----

  const IPAD: Byte := 0x36
  const OPAD: Byte := 0x5c

  function XorAll(key: ByteSeq, pad: Byte): (r: ByteSeq)
    ensures |r| == |key|
  {
    assert Pow2(8) == 256 by { assert Pow2(4) == 16; }
    seq(|key|, i requires 0 <= i < |key| => Xor(key[i], pad, 8) as Byte)
  }

  /** HMAC of RFC 2104 for a key no longer than a block. */
  function HmacReference(hash: ByteSeq -> Digest, blocksize: nat, key: ByteSeq, data: ByteSeq): Digest
    requires |key| <= blocksize
  {
    var padded := key + Zeros(blocksize - |key|);
    var inner :- hash(XorAll(padded, IPAD) + data);
    hash(XorAll(padded, OPAD) + inner)
  }

  /** `hmac_empty_key`. */
  function HmacEmptyKey(hash: ByteSeq -> Digest, blocksize: nat, data: ByteSeq): Digest {
    var inner := seq(blocksize, _ => IPAD) + data;
    var digest :- hash(inner);
    hash(seq(blocksize, _ => OPAD) + digest)
  }

  lemma {:induction false} EmptyKeyIsHmac(hash: ByteSeq -> Digest, blocksize: nat, data: ByteSeq)
    ensures HmacEmptyKey(hash, blocksize, data) == HmacReference(hash, blocksize, [], data)
  {
    var padded := [] + Zeros(blocksize);
    ZeroKeyPads(padded, IPAD);
    ZeroKeyPads(padded, OPAD);
    assert XorAll(padded, IPAD) == seq(blocksize, _ => IPAD);
    assert XorAll(padded, OPAD) == seq(blocksize, _ => OPAD);
  }

  lemma ZeroKeyPads(key: ByteSeq, pad: Byte)
    requires forall i :: 0 <= i < |key| ==> key[i] == 0
    ensures forall i :: 0 <= i < |key| ==> XorAll(key, pad)[i] == pad
  {
    assert Pow2(8) == 256 by { assert Pow2(4) == 16; }
    XorZero(pad, 8);
  }
}
