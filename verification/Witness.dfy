/** Concrete instances of the abstract primitives: everything assumed of them can be met together. */
module Witnesses {
  import opened Bytes
  import opened HpkeKdfs
  import opened HpkeContexts
  import opened Kems
  import opened Hpkes

  /** Answers zeros of the length asked for. */
  function ZeroKdf(): Kdf {
    Kdf(1, 32, (salt, ikm) => Ok(Zeros(32)), (key, info, len) => Ok(Zeros(len)))
  }

  /** Puts a tag byte before the plaintext. */
  function TagAead(): Aead {
    Aead(1, 16, 12,
         (key, pt: ByteSeq, aad, nonce) => Ok([0x54] + pt),
         (key, ct: ByteSeq, aad, nonce) => if |ct| > 0 && ct[0] == 0x54 then Ok(ct[1..]) else Err(ProviderError(0)))
  }

  /** A group of one element per secret: exchanging adds the two bytes, so that both sides agree. */
  function SumDh(sampling: SamplingMethod): Dh {
    Dh(1, 1, sampling,
       c => Ok(KeyPair([0x07], [0x07])),
       (sk: ByteSeq) => if |sk| == 1 then Ok(sk) else Err(ProviderError(0)),
       (sk: ByteSeq, pk: ByteSeq) => if |sk| == 1 && |pk| == 1 then Ok([Sum(sk[0], pk[0])]) else Err(ProviderError(0)))
  }

  function Sum(a: int, b: int): Byte {
    (a + b) % 256
  }

  function SumKem(sampling: SamplingMethod): DhKem {
    DhKem(SumDh(sampling), HpkeKdf(SuiteId(KemSuite(1)), ZeroKdf()), 1, 32)
  }

  function LongHashes(): Hashes {
    Hashes(x => Ok(Zeros(32)), (x, n) => Ok(Zeros(n)))
  }

  lemma {:induction false} LawsHold(sampling: SamplingMethod)
    ensures ExpandsToLength(ZeroKdf()) && AeadCorrect(TagAead()) && DhLaws(SumDh(sampling))
            && HashesToLength(LongHashes())
  {
    var g := SumDh(sampling);
    forall p, q | IsDhPair(g, p) && IsDhPair(g, q) ensures g.dh(p.secret, q.public) == g.dh(q.secret, p.public) {
      assert p.secret == p.public && q.secret == q.public;
    }
    forall key, pt: ByteSeq, aad, nonce
      ensures TagAead().open(key, TagAead().seal(key, pt, aad, nonce).value, aad, nonce) == Ok(pt)
    {
      assert ([0x54] + pt)[1..] == pt;
    }
  }

  /** The mechanism over this group is sound, and HPKE over it seals. */
  lemma {:induction false} HpkeIsInhabited(pt: ByteSeq, c: Coins) returns (h: Hpke, p: KeyPair)
    ensures ValidHpke(h) && Sound(h.kem) && h.aead == Some(TagAead()) && AeadCorrect(TagAead()) && IsPair(h.kem, p)
    ensures SealOnce(h, p.public, [], None, None, pt, c).Ok?
  {
    LawsHold(Raw);
    var m := SumKem(Raw);
    DhKemSound(m);
    h := Hpke(AsKem(m), ZeroKdf(), Some(TagAead()));
    p := KeyPair([0x07], [0x07]);
    assert h.kem.generate(c) == Ok(p);
    assert IsPair(h.kem, p);
    assert h.kem.encap(p.public, c).Ok?;
  }
}
