/**
 Key encapsulation: the combiner of two mechanisms (mls-rs-crypto-hpke/src/kem_combiner.rs) and the
 mechanism over Diffie-Hellman (mls-rs-crypto-hpke/src/dhkem.rs, section 4.1 of RFC 9180).
 */
module Kems {
  import opened Bits
  import opened Bytes
  import opened HpkeKdfs

  /** The random choices of a call; a combined mechanism draws for its parts separately. */
  datatype Coins = Draw(bytes: ByteSeq) | Both(left: Coins, right: Coins)

  function Left(c: Coins): Coins {
    if c.Both? then c.left else c
  }

  function Right(c: Coins): Coins {
    if c.Both? then c.right else c
  }

  datatype KeyPair = KeyPair(secret: ByteSeq, public: ByteSeq)

  datatype KemResult = KemResult(sharedSecret: ByteSeq, enc: ByteSeq)

  datatype KemError = InvalidKeyData | KemFailed(error: ProviderError) | KeyDerivationError

  /** `KemType` (mls-rs-crypto-traits/src/kem.rs). */
  datatype Kem = Kem(
    id: nat,
    seedLength: nat,
    publicKeySize: nat,
    secretKeySize: nat,
    encSize: nat,
    generate: Coins -> Result<KeyPair, KemError>,
    derive: ByteSeq -> Result<KeyPair, KemError>,                                  // generate_deterministic
    encap: (ByteSeq, Coins) -> Result<KemResult, KemError>,                        // remote public key
    decap: (ByteSeq, ByteSeq, ByteSeq) -> Result<ByteSeq, KemError>)               // enc, secret key, public key

  /** Key pairs the mechanism hands out, at random or from a seed. */
  ghost predicate IsPair(k: Kem, p: KeyPair) {
    || (exists c :: k.generate(c) == Ok(p))
    || (exists seed :: k.derive(seed) == Ok(p))
  }

  /** Keys and encapsulations have the announced sizes. */
  ghost predicate ObeysSizes(k: Kem) {
    && (forall p :: IsPair(k, p) ==> |p.secret| == k.secretKeySize && |p.public| == k.publicKeySize)
    && (forall pk, c :: k.encap(pk, c).Ok? ==> |k.encap(pk, c).value.enc| == k.encSize)
  }

  /** Decapsulating an encapsulation to a key pair gives the same secret. */
  ghost predicate Correct(k: Kem) {
    forall p, c :: IsPair(k, p) && k.encap(p.public, c).Ok? ==>
      k.decap(k.encap(p.public, c).value.enc, p.secret, p.public) == Ok(k.encap(p.public, c).value.sharedSecret)
  }

  ghost predicate Sound(k: Kem) {
    ObeysSizes(k) && Correct(k)
  }

  // ----- The combiner -----

  datatype SharedSecretDetails = Details(sharedSecret: ByteSeq, enc: ByteSeq, publicKey: ByteSeq)

  datatype HashRule = Default | XWing

  /** `SharedSecretHashInput::input` of the two rules. */
  function HashInput(rule: HashRule, a: SharedSecretDetails, b: SharedSecretDetails): ByteSeq {
    match rule
    case Default => a.enc + a.sharedSecret + a.publicKey + b.enc + b.sharedSecret + b.publicKey
    case XWing => Ascii("\\./\n/^\\") + a.sharedSecret + b.sharedSecret + b.enc + b.publicKey
  }

  ghost predicate SameShape(a: SharedSecretDetails, b: SharedSecretDetails) {
    |a.sharedSecret| == |b.sharedSecret| && |a.enc| == |b.enc| && |a.publicKey| == |b.publicKey|
  }

  /**
   What the combined secret is bound to, for parts of fixed sizes: the default rule fixes both secrets,
   both encapsulations and both public keys; the X-Wing rule leaves those of the first part open.
   */
  lemma {:induction false} HashInputBinds(a: SharedSecretDetails, b: SharedSecretDetails, c: SharedSecretDetails,
                                          d: SharedSecretDetails, rule: HashRule)
    requires SameShape(a, c) && SameShape(b, d) && HashInput(rule, a, b) == HashInput(rule, c, d)
    ensures b == d && a.sharedSecret == c.sharedSecret
    ensures rule.Default? ==> a == c
  {
    if rule.Default? {
      var x, y := b.enc + b.sharedSecret + b.publicKey, d.enc + d.sharedSecret + d.publicKey;
      var u, v := a.enc + a.sharedSecret + a.publicKey, c.enc + c.sharedSecret + c.publicKey;
      assert HashInput(rule, a, b) == u + x && HashInput(rule, c, d) == v + y;
      PeelPrefix(u, x, v, y);
      PeelThree(a.enc, a.sharedSecret, a.publicKey, c.enc, c.sharedSecret, c.publicKey);
      PeelThree(b.enc, b.sharedSecret, b.publicKey, d.enc, d.sharedSecret, d.publicKey);
    } else {
      var l := Ascii("\\./\n/^\\");
      var x, y := b.sharedSecret + b.enc + b.publicKey, d.sharedSecret + d.enc + d.publicKey;
      assert HashInput(rule, a, b) == l + (a.sharedSecret + x) && HashInput(rule, c, d) == l + (c.sharedSecret + y);
      PeelPrefix(l, a.sharedSecret + x, l, c.sharedSecret + y);
      PeelPrefix(a.sharedSecret, x, c.sharedSecret, y);
      PeelThree(b.sharedSecret, b.enc, b.publicKey, d.sharedSecret, d.enc, d.publicKey);
    }
  }

  lemma PeelThree(a: ByteSeq, b: ByteSeq, c: ByteSeq, x: ByteSeq, y: ByteSeq, z: ByteSeq)
    requires a + b + c == x + y + z && |a| == |x| && |b| == |y|
    ensures a == x && b == y && c == z
  {
    PeelPrefix(a + b, c, x + y, z);
    PeelPrefix(a, b, x, y);
  }

  /** A hash, and a hash of chosen output length. */
  datatype Hashes = Hashes(
    hash: ByteSeq -> Output,
    variable: (ByteSeq, nat) -> Output)

  ghost predicate HashesToLength(h: Hashes) {
    forall x, n :: h.variable(x, n).Ok? ==> |h.variable(x, n).value| == n
  }

  /** `parse_key`. */
  function ParseKey(key: ByteSeq, size: nat): (r: Result<(ByteSeq, ByteSeq), KemError>)
    ensures r.Ok? <==> |key| >= size
    ensures r.Ok? ==> key == r.value.0 + r.value.1 && |r.value.0| == size
  {
    if |key| < size then Err(InvalidKeyData) else Ok((key[..size], key[size..]))
  }

  function Hashed(out: Output): Result<ByteSeq, KemError> {
    if out.Ok? then Ok(out.value) else Err(KemFailed(out.error))
  }

  function JoinedPair(a: Result<KeyPair, KemError>, b: Result<KeyPair, KemError>): Result<KeyPair, KemError> {
    if a.Err? then a
    else if b.Err? then b
    else Ok(KeyPair(a.value.secret + b.value.secret, a.value.public + b.value.public))
  }

  function CombinedGenerate(k1: Kem, k2: Kem, c: Coins): Result<KeyPair, KemError> {
    JoinedPair(k1.generate(Left(c)), k2.generate(Right(c)))
  }

  /** `split_at` of the hashed seed panics on a hash of the wrong length; such a hash is reported as a failure. */
  function CombinedDerive(k1: Kem, k2: Kem, h: Hashes, ikm: ByteSeq): Result<KeyPair, KemError> {
    var seed := h.variable(ikm, k1.seedLength + k2.seedLength);
    if seed.Err? then Err(KemFailed(seed.error))
    else if |seed.value| < k1.seedLength then Err(InvalidKeyData)
    else JoinedPair(k1.derive(seed.value[..k1.seedLength]), k2.derive(seed.value[k1.seedLength..]))
  }

  function CombinedEncap(k1: Kem, k2: Kem, h: Hashes, rule: HashRule, pk: ByteSeq, c: Coins)
    : Result<KemResult, KemError>
  {
    var pks :- ParseKey(pk, k1.publicKeySize);
    var ct1 :- k1.encap(pks.0, Left(c));
    var ct2 :- k2.encap(pks.1, Right(c));
    var input := HashInput(rule, Details(ct1.sharedSecret, ct1.enc, pks.0), Details(ct2.sharedSecret, ct2.enc, pks.1));
    var ss :- Hashed(h.hash(input));
    Ok(KemResult(ss, ct1.enc + ct2.enc))
  }

  function CombinedDecap(k1: Kem, k2: Kem, h: Hashes, rule: HashRule, enc: ByteSeq, sk: ByteSeq, pk: ByteSeq)
    : Result<ByteSeq, KemError>
  {
    var pks :- ParseKey(pk, k1.publicKeySize);
    var sks :- ParseKey(sk, k1.secretKeySize);
    var encs :- ParseKey(enc, k1.encSize);
    var ss1 :- k1.decap(encs.0, sks.0, pks.0);
    var ss2 :- k2.decap(encs.1, sks.1, pks.1);
    Hashed(h.hash(HashInput(rule, Details(ss1, encs.0, pks.0), Details(ss2, encs.1, pks.1))))
  }

  /** `CombinedKem`. */
  function Combined(k1: Kem, k2: Kem, h: Hashes, rule: HashRule): Kem {
    Kem(15,
        k1.seedLength + k2.seedLength,
        k1.publicKeySize + k2.publicKeySize,
        k1.secretKeySize + k2.secretKeySize,
        k1.encSize + k2.encSize,
        c => CombinedGenerate(k1, k2, c),
        ikm => CombinedDerive(k1, k2, h, ikm),
        (pk, c) => CombinedEncap(k1, k2, h, rule, pk, c),
        (enc, sk, pk) => CombinedDecap(k1, k2, h, rule, enc, sk, pk))
  }

  /** A hash of the promised length always splits into two seeds of the lengths the parts ask for. */
  lemma {:induction false} DeriveNeverPanics(k1: Kem, k2: Kem, h: Hashes, ikm: ByteSeq)
    requires HashesToLength(h) && h.variable(ikm, k1.seedLength + k2.seedLength).Ok?
    ensures exists s1, s2 :: |s1| == k1.seedLength && |s2| == k2.seedLength
              && h.variable(ikm, k1.seedLength + k2.seedLength) == Ok(s1 + s2)
              && CombinedDerive(k1, k2, h, ikm) == JoinedPair(k1.derive(s1), k2.derive(s2))
  {
    var seed := h.variable(ikm, k1.seedLength + k2.seedLength).value;
    var s1, s2 := seed[..k1.seedLength], seed[k1.seedLength..];
    assert seed == s1 + s2;
  }

  lemma Split(a: ByteSeq, b: ByteSeq)
    ensures ParseKey(a + b, |a|) == Ok((a, b))
  {
    assert (a + b)[..|a|] == a && (a + b)[|a|..] == b;
  }

  /** A combined key pair is a pair of key pairs. */
  lemma CombinedPairSplits(k1: Kem, k2: Kem, h: Hashes, rule: HashRule, p: KeyPair) returns (p1: KeyPair, p2: KeyPair)
    requires IsPair(Combined(k1, k2, h, rule), p)
    ensures IsPair(k1, p1) && IsPair(k2, p2)
    ensures p == KeyPair(p1.secret + p2.secret, p1.public + p2.public)
  {
    var k := Combined(k1, k2, h, rule);
    if c :| k.generate(c) == Ok(p) {
      assert CombinedGenerate(k1, k2, c) == Ok(p);
      p1, p2 := k1.generate(Left(c)).value, k2.generate(Right(c)).value;
    } else {
      var ikm :| k.derive(ikm) == Ok(p);
      assert CombinedDerive(k1, k2, h, ikm) == Ok(p);
      var seed := h.variable(ikm, k1.seedLength + k2.seedLength).value;
      var s1, s2 := seed[..k1.seedLength], seed[k1.seedLength..];
      p1, p2 := k1.derive(s1).value, k2.derive(s2).value;
      assert k1.derive(s1) == Ok(p1) && k2.derive(s2) == Ok(p2);
    }
  }

  lemma {:induction false} CombinedObeysSizes(k1: Kem, k2: Kem, h: Hashes, rule: HashRule)
    requires Sound(k1) && Sound(k2)
    ensures ObeysSizes(Combined(k1, k2, h, rule))
  {
    var k := Combined(k1, k2, h, rule);
    forall p | IsPair(k, p) ensures |p.secret| == k.secretKeySize && |p.public| == k.publicKeySize {
      var p1, p2 := CombinedPairSplits(k1, k2, h, rule, p);
    }
    forall pk, c | k.encap(pk, c).Ok? ensures |k.encap(pk, c).value.enc| == k.encSize {
      assert k.encap(pk, c) == CombinedEncap(k1, k2, h, rule, pk, c);
    }
  }

  lemma {:induction false} CombinedDecapsulates(k1: Kem, k2: Kem, h: Hashes, rule: HashRule, p1: KeyPair, p2: KeyPair,
                                                c: Coins)
    requires Sound(k1) && Sound(k2) && IsPair(k1, p1) && IsPair(k2, p2)
    requires CombinedEncap(k1, k2, h, rule, p1.public + p2.public, c).Ok?
    ensures var r := CombinedEncap(k1, k2, h, rule, p1.public + p2.public, c).value;
            CombinedDecap(k1, k2, h, rule, r.enc, p1.secret + p2.secret, p1.public + p2.public) == Ok(r.sharedSecret)
  {
    Split(p1.public, p2.public);
    Split(p1.secret, p2.secret);
    var ct1, ct2 := k1.encap(p1.public, Left(c)).value, k2.encap(p2.public, Right(c)).value;
    Split(ct1.enc, ct2.enc);
  }

  /** The combination of two sound mechanisms is sound, under either hash rule. */
  lemma {:induction false} CombinedSound(k1: Kem, k2: Kem, h: Hashes, rule: HashRule)
    requires Sound(k1) && Sound(k2)
    ensures Sound(Combined(k1, k2, h, rule))
  {
    var k := Combined(k1, k2, h, rule);
    CombinedObeysSizes(k1, k2, h, rule);
    forall p, c | IsPair(k, p) && k.encap(p.public, c).Ok?
      ensures k.decap(k.encap(p.public, c).value.enc, p.secret, p.public) == Ok(k.encap(p.public, c).value.sharedSecret)
    {
      var p1, p2 := CombinedPairSplits(k1, k2, h, rule, p);
      CombinedDecapsulates(k1, k2, h, rule, p1, p2, c);
    }
  }

  /** Combiners nest: a tree of mechanisms. */
  datatype KemTree = Base(kem: Kem) | Pairing(left: KemTree, right: KemTree, hashes: Hashes, rule: HashRule)

  function Denotes(t: KemTree): Kem {
    match t
    case Base(k) => k
    case Pairing(l, r, h, rule) => Combined(Denotes(l), Denotes(r), h, rule)
  }

  ghost predicate SoundParts(t: KemTree) {
    match t
    case Base(k) => Sound(k)
    case Pairing(l, r, _, _) => SoundParts(l) && SoundParts(r)
  }

  /** Every finite tree over sound mechanisms is a sound mechanism. */
  lemma {:induction false} TreeSound(t: KemTree)
    requires SoundParts(t)
    ensures Sound(Denotes(t))
  {
    if t.Pairing? {
      TreeSound(t.left);
      TreeSound(t.right);
      CombinedSound(Denotes(t.left), Denotes(t.right), t.hashes, t.rule);
    }
  }

  // ----- Diffie-Hellman -----

  datatype SamplingMethod = HpkeWithBitmask(bitmask: Byte) | HpkeWithoutBitmask | Raw

  /** `DhType` (mls-rs-crypto-traits/src/dh.rs). */
  datatype Dh = Dh(
    publicKeySize: nat,
    secretKeySize: nat,
    sampling: SamplingMethod,
    generate: Coins -> Result<KeyPair, KemError>,
    toPublic: ByteSeq -> Output,
    dh: (ByteSeq, ByteSeq) -> Output)          // secret key, public key

  /** A key pair of the group. */
  ghost predicate IsDhPair(g: Dh, p: KeyPair) {
    (exists c :: g.generate(c) == Ok(p)) || g.toPublic(p.secret) == Ok(p.public)
  }

  /** Both sides of an exchange compute the same, keys have the announced sizes, malformed secrets are refused. */
  ghost predicate DhLaws(g: Dh) {
    && g.secretKeySize >= 1
    && (forall sk :: g.toPublic(sk).Ok? ==> |sk| == g.secretKeySize)
    && (forall p, q :: IsDhPair(g, p) && IsDhPair(g, q) ==> g.dh(p.secret, q.public) == g.dh(q.secret, p.public))
    && (forall p :: IsDhPair(g, p) ==> |p.public| == g.publicKeySize)
    && (forall c :: g.generate(c).Ok? ==> |g.generate(c).value.secret| == g.secretKeySize)
  }

  datatype DhKem = DhKem(dh: Dh, kdf: HpkeKdf, id: nat, nSecret: nat)

  function DhKemEncap(m: DhKem, pk: ByteSeq, c: Coins): Result<KemResult, KemError> {
    var ephemeral :- m.dh.generate(c);
    var secret :- Hashed(m.dh.dh(ephemeral.secret, pk));
    var ss :- Hashed(LabeledExtractThenExpand(m.kdf, secret, ephemeral.public + pk, m.nSecret));
    Ok(KemResult(ss, ephemeral.public))
  }

  function DhKemDecap(m: DhKem, enc: ByteSeq, sk: ByteSeq, pk: ByteSeq): Result<ByteSeq, KemError> {
    var secret :- Hashed(m.dh.dh(sk, enc));
    Hashed(LabeledExtractThenExpand(m.kdf, secret, enc + pk, m.nSecret))
  }

  // ----- Rejection sampling -----

  function AndByte(a: Byte, b: Byte): Byte {
    AndBound(a, b, 8);
    assert Pow2(8) == 256 by { assert Pow2(4) == 16; }
    And(a, b, 8)
  }

  lemma {:induction false} AndBound(a: nat, b: nat, width: nat)
    ensures And(a, b, width) < Pow2(width)
  {
    if width > 0 { AndBound(a / 2, b / 2, width - 1); }
  }

  /** Candidate `i`: the expanded key with the mask applied to its first byte. */
  function Candidate(m: DhKem, prk: ByteSeq, mask: Byte, i: Byte): (r: Output)
    requires m.dh.secretKeySize >= 1 && ExpandsToLength(m.kdf.kdf)
    ensures r.Ok? ==> |r.value| == m.dh.secretKeySize
  {
    var sk :- LabeledExpand(m.kdf, prk, Text(HpkeKdfs.Candidate), [i], m.dh.secretKeySize);
    Ok([AndByte(sk[0], mask)] + sk[1..])
  }

  /** The key pair of candidate `i`, if the group accepts it. */
  function Accepts(m: DhKem, prk: ByteSeq, mask: Byte, i: Byte): bool
    requires m.dh.secretKeySize >= 1 && ExpandsToLength(m.kdf.kdf)
  {
    var sk := Candidate(m, prk, mask, i);
    sk.Ok? && m.dh.toPublic(sk.value).Ok?
  }

  /** What sampling from candidate `i` on returns. */
  function SampleFrom(m: DhKem, prk: ByteSeq, mask: Byte, i: nat): Result<KeyPair, KemError>
    requires m.dh.secretKeySize >= 1 && ExpandsToLength(m.kdf.kdf) && i <= 255
    decreases 255 - i
  {
    if i == 255 then Err(KeyDerivationError)
    else
      var sk := Candidate(m, prk, mask, i);
      if sk.Err? then Err(KemFailed(sk.error))
      else
        var pk := m.dh.toPublic(sk.value);
        if pk.Ok? then Ok(KeyPair(sk.value, pk.value)) else SampleFrom(m, prk, mask, i + 1)
  }

  /** `derive_with_rejection_sampling`: a counted loop that masks the first byte in place. */
  method DeriveWithRejectionSampling(m: DhKem, prk: ByteSeq, mask: Byte) returns (res: Result<KeyPair, KemError>)
    requires m.dh.secretKeySize >= 1 && ExpandsToLength(m.kdf.kdf)
    ensures res == SampleFrom(m, prk, mask, 0)
  {
    for i := 0 to 255
      invariant SampleFrom(m, prk, mask, 0) == SampleFrom(m, prk, mask, i)
    {
      var expanded := LabeledExpand(m.kdf, prk, Text(HpkeKdfs.Candidate), [i], m.dh.secretKeySize);
      if expanded.Err? { return Err(KemFailed(expanded.error)); }
      var bytes := expanded.value;
      var secretKey := new Byte[|bytes|](j requires 0 <= j < |bytes| => bytes[j]);
      secretKey[0] := AndByte(secretKey[0], mask);
      assert secretKey[..] == [AndByte(bytes[0], mask)] + bytes[1..];
      var pk := m.dh.toPublic(secretKey[..]);
      if pk.Ok? { return Ok(KeyPair(secretKey[..], pk.value)); }
    }
    res := Err(KeyDerivationError);
  }

  /** Candidate `i` is the first from `from` on that the group accepts, and `p` its key pair. */
  ghost predicate FirstAccepted(m: DhKem, prk: ByteSeq, mask: Byte, from: nat, i: Byte, p: KeyPair)
    requires m.dh.secretKeySize >= 1 && ExpandsToLength(m.kdf.kdf)
  {
    && from <= i < 255 && Accepts(m, prk, mask, i)
    && (forall j: Byte :: from <= j < i ==> !Accepts(m, prk, mask, j))
    && Candidate(m, prk, mask, i) == Ok(p.secret) && m.dh.toPublic(p.secret) == Ok(p.public)
  }

  ghost predicate NoneAccepted(m: DhKem, prk: ByteSeq, mask: Byte, from: nat)
    requires m.dh.secretKeySize >= 1 && ExpandsToLength(m.kdf.kdf)
  {
    forall i: Byte :: from <= i < 255 ==> !Accepts(m, prk, mask, i)
  }

  /**
   When the key derivation answers, sampling returns the candidate of the least counter below 255 that
   the group accepts, and fails exactly when it accepts none.
   */
  lemma {:induction false} SamplingExactly(m: DhKem, prk: ByteSeq, mask: Byte, from: nat)
    requires m.dh.secretKeySize >= 1 && ExpandsToLength(m.kdf.kdf) && from <= 255
    requires forall i :: 0 <= i < 255 ==> Candidate(m, prk, mask, i).Ok?
    ensures var r := SampleFrom(m, prk, mask, from);
            && (r.Err? <==> NoneAccepted(m, prk, mask, from))
            && (r.Err? ==> r.error == KeyDerivationError)
            && (r.Ok? ==> exists i: Byte :: FirstAccepted(m, prk, mask, from, i, r.value))
    decreases 255 - from
  {
    hide Candidate, Accepts, SampleFrom, ExpandsToLength, FirstAccepted, NoneAccepted;
    SampleStep(m, prk, mask, from);
    if from < 255 && !Accepts(m, prk, mask, from) {
      SamplingExactly(m, prk, mask, from + 1);
      var r := SampleFrom(m, prk, mask, from);
      if r.Ok? {
        var i: Byte :| FirstAccepted(m, prk, mask, from + 1, i, r.value);
        FirstStays(m, prk, mask, from, i, r.value);
      }
    }
  }

  lemma FirstStays(m: DhKem, prk: ByteSeq, mask: Byte, from: nat, i: Byte, p: KeyPair)
    requires m.dh.secretKeySize >= 1 && ExpandsToLength(m.kdf.kdf) && from < 255
    requires !Accepts(m, prk, mask, from) && FirstAccepted(m, prk, mask, from + 1, i, p)
    ensures FirstAccepted(m, prk, mask, from, i, p)
  {
    hide Candidate, Accepts, ExpandsToLength;
  }

  lemma SampleStep(m: DhKem, prk: ByteSeq, mask: Byte, i: nat)
    requires m.dh.secretKeySize >= 1 && ExpandsToLength(m.kdf.kdf) && i <= 255
    requires i < 255 ==> Candidate(m, prk, mask, i).Ok?
    ensures i == 255 ==> SampleFrom(m, prk, mask, i) == Err(KeyDerivationError) && NoneAccepted(m, prk, mask, i)
    ensures i < 255 && !Accepts(m, prk, mask, i) ==>
              && SampleFrom(m, prk, mask, i) == SampleFrom(m, prk, mask, i + 1)
              && (NoneAccepted(m, prk, mask, i) <==> NoneAccepted(m, prk, mask, i + 1))
    ensures i < 255 && Accepts(m, prk, mask, i) ==>
              && SampleFrom(m, prk, mask, i).Ok? && !NoneAccepted(m, prk, mask, i)
              && FirstAccepted(m, prk, mask, i, i, SampleFrom(m, prk, mask, i).value)
  {
    hide Candidate, ExpandsToLength;
  }

  lemma {:induction false} SampledIsPair(m: DhKem, prk: ByteSeq, mask: Byte, from: nat)
    requires m.dh.secretKeySize >= 1 && ExpandsToLength(m.kdf.kdf) && from <= 255
    ensures var r := SampleFrom(m, prk, mask, from);
            r.Ok? ==> m.dh.toPublic(r.value.secret) == Ok(r.value.public) && |r.value.secret| == m.dh.secretKeySize
    decreases 255 - from
  {
    if from < 255 { SampledIsPair(m, prk, mask, from + 1); }
  }

  function DeriveRaw(m: DhKem, sk: ByteSeq): Result<KeyPair, KemError> {
    var pk :- Hashed(m.dh.toPublic(sk));
    Ok(KeyPair(sk, pk))
  }

  /** `generate_deterministic`, one way per sampling method. */
  function DhKemDerive(m: DhKem, seed: ByteSeq): Result<KeyPair, KemError>
    requires m.dh.secretKeySize >= 1 && ExpandsToLength(m.kdf.kdf)
  {
    match m.dh.sampling
    case HpkeWithBitmask(mask) => SampleFrom(m, seed, mask, 0)
    case HpkeWithoutBitmask =>
      var sk :- Hashed(LabeledExpand(m.kdf, seed, Text(Sk), [], m.dh.secretKeySize));
      DeriveRaw(m, sk)
    case Raw => DeriveRaw(m, seed)
  }

  /** The mechanism over a group as a `Kem`. */
  ghost function AsKem(m: DhKem): Kem
    requires m.dh.secretKeySize >= 1 && ExpandsToLength(m.kdf.kdf)
  {
    Kem(m.id, m.nSecret, m.dh.publicKeySize, m.dh.secretKeySize, m.dh.publicKeySize,
        m.dh.generate,
        (seed: ByteSeq) => DhKemDerive(m, seed),
        (pk, c) => DhKemEncap(m, pk, c),
        (enc, sk, pk) => DhKemDecap(m, enc, sk, pk))
  }

  lemma DhKemPair(m: DhKem, p: KeyPair)
    requires DhLaws(m.dh) && ExpandsToLength(m.kdf.kdf)
    requires IsPair(AsKem(m), p)
    ensures IsDhPair(m.dh, p) && |p.secret| == m.dh.secretKeySize
  {
    var k := AsKem(m);
    if c :| k.generate(c) == Ok(p) {
    } else {
      var seed :| k.derive(seed) == Ok(p);
      assert DhKemDerive(m, seed) == Ok(p);
      if m.dh.sampling.HpkeWithBitmask? { SampledIsPair(m, seed, m.dh.sampling.bitmask, 0); }
    }
  }

  lemma {:induction false} DhKemAgrees(m: DhKem, p: KeyPair, c: Coins)
    requires DhLaws(m.dh) && IsDhPair(m.dh, p) && DhKemEncap(m, p.public, c).Ok?
    ensures var r := DhKemEncap(m, p.public, c).value;
            DhKemDecap(m, r.enc, p.secret, p.public) == Ok(r.sharedSecret) && |r.enc| == m.dh.publicKeySize
  {
    var e := m.dh.generate(c).value;
    assert IsDhPair(m.dh, e);
    assert m.dh.dh(e.secret, p.public) == m.dh.dh(p.secret, e.public);
  }

  /** Over a group whose exchange commutes, the mechanism is sound for every sampling method. */
  lemma {:induction false} DhKemSound(m: DhKem)
    requires DhLaws(m.dh) && ExpandsToLength(m.kdf.kdf)
    ensures Sound(AsKem(m))
  {
    var k := AsKem(m);
    forall p | IsPair(k, p) ensures |p.secret| == k.secretKeySize && |p.public| == k.publicKeySize { DhKemPair(m, p); }
    forall pk, c | k.encap(pk, c).Ok? ensures |k.encap(pk, c).value.enc| == k.encSize {
      assert k.encap(pk, c) == DhKemEncap(m, pk, c);
      assert IsDhPair(m.dh, m.dh.generate(c).value);
    }
    forall p, c | IsPair(k, p) && k.encap(p.public, c).Ok?
      ensures k.decap(k.encap(p.public, c).value.enc, p.secret, p.public) == Ok(k.encap(p.public, c).value.sharedSecret)
    {
      DhKemPair(m, p);
      DhKemAgrees(m, p, c);
    }
  }
}
