/** The ratchet tree over HPKE: what the providers' `hpke_seal`, `hpke_open` and `kem_derive` give it. */
module HpkeSuites {
  import opened Bytes
  import opened HpkeKdfs
  import opened HpkeContexts
  import opened Kems
  import opened Hpkes
  import opened MlsKdfs
  import opened TreeKems
  import opened GroupRuns

  type Refusals = (ByteSeq, Purpose) -> Option<ProviderError>

  function Provided<T>(r: Result<T, HpkeError>): Result<T, ProviderError> {
    if r.Ok? then Ok(r.value) else Err(ProviderError(0))
  }

  /** Base mode without additional data, as for path secrets. */
  function SuiteFrom(h: Hpke, kdf: Provider, refuses: Refusals): CipherSuite
    requires ValidHpke(h)
  {
    CipherSuite(
      kdf,
      refuses,
      seed => Provided(Hpkes.Derive(h, seed)),
      (pk, info, text, c) => Provided(SealOnce(h, pk, info, None, None, text, c)),
      (ct, sk, pk, info) => Provided(OpenOnce(h, ct, KeyPair(sk, pk), info, None, None)))
  }

  /** Key pairs of the mechanism open what is sealed to them, drawn at random or derived. */
  lemma {:induction false} PairsOpen(h: Hpke, kdf: Provider, refuses: Refusals, p: KeyPair)
    requires ValidHpke(h) && Correct(h.kem) && h.aead.Some? && AeadCorrect(h.aead.value) && IsPair(h.kem, p)
    ensures Opens(SuiteFrom(h, kdf, refuses), p.secret, p.public)
  {
    hide SealOnce, OpenOnce, Hpkes.Derive, Correct, AeadCorrect, IsPair;
    var e := SuiteFrom(h, kdf, refuses);
    forall info, text, c | e.seal(p.public, info, text, c).Ok?
      ensures e.open(e.seal(p.public, info, text, c).value, p.secret, p.public, info) == Ok(text)
    {
      OpenUndoesSeal(h, p, info, None, None, text, c);
      assert KeyPair(p.secret, p.public) == p;
    }
  }

  lemma {:induction false} HpkeSuiteWorks(h: Hpke, kdf: Provider, refuses: Refusals)
    requires ValidHpke(h) && Correct(h.kem) && h.aead.Some? && AeadCorrect(h.aead.value)
    ensures Works(SuiteFrom(h, kdf, refuses))
  {
    hide SealOnce, OpenOnce, Correct, AeadCorrect, Opens, Hpkes.Derive, IsPair;
    var e := SuiteFrom(h, kdf, refuses);
    forall seed | e.derivePair(seed).Ok?
      ensures Opens(e, e.derivePair(seed).value.secret, e.derivePair(seed).value.public)
    {
      DerivedIsPair(h, seed);
      PairsOpen(h, kdf, refuses, Hpkes.Derive(h, seed).value);
    }
  }

  /** From sound mechanisms, however combined, to agreement in every run of every group. */
  lemma {:induction false} AgreementOverHpke(parts: KemTree, h: Hpke, kdf: Provider, refuses: Refusals,
                                             founder: KeyPair, events: seq<Event>, n: nat)
    requires SoundParts(parts) && h.kem == Denotes(parts) && ValidHpke(h) && h.aead.Some? && AeadCorrect(h.aead.value)
    requires IsPair(h.kem, founder)
    requires Run(SuiteFrom(h, kdf, refuses), Founded(founder), events) && n < |events| && events[n].Path?
    ensures AgreesAt(SuiteFrom(h, kdf, refuses), Founded(founder), events, n)
  {
    hide Run, AgreesAt, SuiteFrom, AeadCorrect, IsPair, Works, Opens, SoundParts;
    TreeSound(parts);
    HpkeSuiteWorks(h, kdf, refuses);
    PairsOpen(h, kdf, refuses, founder);
    GroupAgrees(SuiteFrom(h, kdf, refuses), founder, events, n);
  }
}
