/**
 Setup, key schedule, single-shot use and export of HPKE (sections 5.1 and 6 of RFC 9180),
 mls-rs-crypto-hpke/src/hpke.rs.
 */
module Hpkes {
  import opened Bytes
  import opened HpkeKdfs
  import opened HpkeContexts
  import opened Kems

  const AEAD_ID_EXPORT_ONLY: nat := 0xFFFF

  datatype Hpke = Hpke(kem: Kem, kdf: Kdf, aead: Option<Aead>)

  datatype Psk = Psk(id: ByteSeq, value: ByteSeq)

  datatype Mode = ModeBase | ModePsk

  function ModeByte(m: Mode): Byte {
    if m.ModeBase? then 0 else 1
  }

  /** The identifiers are 16-bit numbers. */
  predicate ValidHpke(h: Hpke) {
    h.kem.id < 65536 && h.kdf.id < 65536 && (h.aead.Some? ==> h.aead.value.id < 65536)
  }

  function SuiteOf(h: Hpke): Suite {
    HpkeSuite(h.kem.id, h.kdf.id, if h.aead.Some? then h.aead.value.id else AEAD_ID_EXPORT_ONLY)
  }

  function KdfOf(h: Hpke): HpkeKdf
    requires ValidHpke(h)
  {
    HpkeKdf(SuiteId(SuiteOf(h)), h.kdf)
  }

  /** `Context`: the encryption context unless the suite only exports, and the exporter secret. */
  datatype Context = Context(encryption: Option<Ctx>, exporterSecret: ByteSeq, kdf: HpkeKdf)

  function Derived(out: Output): Result<ByteSeq, HpkeError> {
    if out.Ok? then Ok(out.value) else Err(KdfError(out.error))
  }

  function BaseMode(psk: Option<Psk>): Mode {
    if psk.Some? then ModePsk else ModeBase
  }

  /** `check_psk`. */
  predicate PskIsShort(psk: Option<Psk>) {
    psk.Some? && |psk.value.value| < 32
  }

  function KeyScheduleContext(mode: Mode, pskIdHash: ByteSeq, infoHash: ByteSeq): ByteSeq {
    [ModeByte(mode)] + pskIdHash + infoHash
  }

  function EncryptionOf(h: Hpke, secret: ByteSeq, ksc: ByteSeq): Result<Option<Ctx>, HpkeError>
    requires ValidHpke(h)
  {
    if h.aead.None? then Ok(None)
    else
      var aead := h.aead.value;
      var key :- Derived(LabeledExpand(KdfOf(h), secret, Text(Key), ksc, aead.keySize));
      var baseNonce :- Derived(LabeledExpand(KdfOf(h), secret, Text(BaseNonce), ksc, aead.nonceSize));
      var ctx :- NewCtx(baseNonce, aead, key);
      Ok(Some(ctx))
  }

  function KeySchedule(h: Hpke, mode: Mode, sharedSecret: ByteSeq, info: ByteSeq, psk: Option<Psk>)
    : Result<Context, HpkeError>
    requires ValidHpke(h)
  {
    if PskIsShort(psk) then Err(InsufficientPskLength)
    else
      var p := if psk.Some? then psk.value else Psk([], []);
      var pskIdHash :- Derived(LabeledExtract(KdfOf(h), [], Text(PskIdHash), p.id));
      var infoHash :- Derived(LabeledExtract(KdfOf(h), [], Text(InfoHash), info));
      var secret :- Derived(LabeledExtract(KdfOf(h), sharedSecret, Text(Secret), p.value));
      var ksc := KeyScheduleContext(mode, pskIdHash, infoHash);
      var encryption :- EncryptionOf(h, secret, ksc);
      var exporter :- Derived(LabeledExpand(KdfOf(h), secret, Text(Exp), ksc, h.kdf.extractSize));
      Ok(Context(encryption, exporter, KdfOf(h)))
  }

  /** The error is wrapped; only what a provider reported is kept apart here. */
  function FromKem<T>(r: Result<T, KemError>): Result<T, HpkeError> {
    match r
    case Ok(v) => Ok(v)
    case Err(KemFailed(e)) => Err(HpkeError.KemError(e))
    case Err(_) => Err(HpkeError.KemError(ProviderError(0)))
  }

  function SetupSender(h: Hpke, pk: ByteSeq, info: ByteSeq, psk: Option<Psk>, c: Coins)
    : Result<(ByteSeq, Context), HpkeError>
    requires ValidHpke(h)
  {
    var r :- FromKem(h.kem.encap(pk, c));
    var ctx :- KeySchedule(h, BaseMode(psk), r.sharedSecret, info, psk);
    Ok((r.enc, ctx))
  }

  function SetupReceiver(h: Hpke, enc: ByteSeq, p: KeyPair, info: ByteSeq, psk: Option<Psk>): Result<Context, HpkeError>
    requires ValidHpke(h)
  {
    var ss :- FromKem(h.kem.decap(enc, p.secret, p.public));
    KeySchedule(h, BaseMode(psk), ss, info, psk)
  }

  /** `Hpke::derive`. */
  function Derive(h: Hpke, ikm: ByteSeq): Result<KeyPair, HpkeError>
    requires ValidHpke(h)
  {
    var prk :- Derived(LabeledExtract(HpkeKdf(SuiteId(KemSuite(h.kem.id)), h.kdf), [], Text(DkpPrk), ikm));
    FromKem(h.kem.derive(prk))
  }

  /** `Context::export`. */
  function Export(c: Context, exporterContext: ByteSeq, len: nat): Result<ByteSeq, HpkeError> {
    Derived(LabeledExpand(c.kdf, c.exporterSecret, Text(Sec), exporterContext, len))
  }

  datatype HpkeCiphertext = HpkeCiphertext(kemOutput: ByteSeq, ciphertext: ByteSeq)

  function SealOnce(h: Hpke, pk: ByteSeq, info: ByteSeq, psk: Option<Psk>, aad: Option<ByteSeq>, pt: ByteSeq, c: Coins)
    : Result<HpkeCiphertext, HpkeError>
    requires ValidHpke(h)
  {
    var s :- SetupSender(h, pk, info, psk, c);
    if s.1.encryption.None? then Err(ExportOnlyMode)
    else
      var ct :- Seal(s.1.encryption.value, aad, pt).1;
      Ok(HpkeCiphertext(s.0, ct))
  }

  function OpenOnce(h: Hpke, ct: HpkeCiphertext, p: KeyPair, info: ByteSeq, psk: Option<Psk>, aad: Option<ByteSeq>)
    : Result<ByteSeq, HpkeError>
    requires ValidHpke(h)
  {
    var r :- SetupReceiver(h, ct.kemOutput, p, info, psk);
    if r.encryption.None? then Err(ExportOnlyMode) else Open(r.encryption.value, aad, ct.ciphertext).1
  }

  /** `Hpke::seal` drives a fresh mutable context. */
  method SealSingleShot(h: Hpke, pk: ByteSeq, info: ByteSeq, psk: Option<Psk>, aad: Option<ByteSeq>, pt: ByteSeq,
                        c: Coins) returns (res: Result<HpkeCiphertext, HpkeError>)
    requires ValidHpke(h)
    ensures res == SealOnce(h, pk, info, psk, aad, pt, c)
  {
    var s := SetupSender(h, pk, info, psk, c);
    if s.Err? { return Err(s.error); }
    if s.value.1.encryption.None? { return Err(ExportOnlyMode); }
    var ctx := new EncryptionContext(s.value.1.encryption.value);
    var ct := ctx.SealNext(aad, pt);
    res := if ct.Err? then Err(ct.error) else Ok(HpkeCiphertext(s.value.0, ct.value));
  }

  /** `Hpke::open`. */
  method OpenSingleShot(h: Hpke, ct: HpkeCiphertext, p: KeyPair, info: ByteSeq, psk: Option<Psk>, aad: Option<ByteSeq>)
    returns (res: Result<ByteSeq, HpkeError>)
    requires ValidHpke(h)
    ensures res == OpenOnce(h, ct, p, info, psk, aad)
  {
    var r := SetupReceiver(h, ct.kemOutput, p, info, psk);
    if r.Err? { return Err(r.error); }
    if r.value.encryption.None? { return Err(ExportOnlyMode); }
    var ctx := new EncryptionContext(r.value.encryption.value);
    res := ctx.OpenNext(aad, ct.ciphertext);
  }

  // ----- Agreement -----

  /** For every sound mechanism, key pair, info and pre-shared key, both sides set up the same context. */
  lemma {:induction false} SetupAgrees(h: Hpke, p: KeyPair, info: ByteSeq, psk: Option<Psk>, c: Coins)
    requires ValidHpke(h) && Correct(h.kem) && IsPair(h.kem, p) && SetupSender(h, p.public, info, psk, c).Ok?
    ensures var s := SetupSender(h, p.public, info, psk, c).value;
            SetupReceiver(h, s.0, p, info, psk) == Ok(s.1)
  {
    hide KeySchedule;
    assert h.kem.encap(p.public, c).Ok?;
  }

  /** A context that was set up holds a key and a nonce of the sizes the AEAD asks for, at number 0. */
  lemma {:induction false} ScheduledIsValid(h: Hpke, mode: Mode, ss: ByteSeq, info: ByteSeq, psk: Option<Psk>)
    requires ValidHpke(h) && KeySchedule(h, mode, ss, info, psk).Ok?
    ensures var c := KeySchedule(h, mode, ss, info, psk).value;
            && (c.encryption.Some? <==> h.aead.Some?)
            && (c.encryption.Some? ==> ValidCtx(c.encryption.value) && c.encryption.value.seqNumber == 0
                                       && c.encryption.value.aead == h.aead.value)
  {
    hide LabeledExpand, LabeledExtract, SuiteId, Text;
  }

  /** The receiver exports the sender's secrets, at every length. */
  lemma {:induction false} ExportsAgree(h: Hpke, p: KeyPair, info: ByteSeq, psk: Option<Psk>, c: Coins,
                                        exporterContext: ByteSeq, len: nat)
    requires ValidHpke(h) && Correct(h.kem) && IsPair(h.kem, p) && SetupSender(h, p.public, info, psk, c).Ok?
    ensures var s := SetupSender(h, p.public, info, psk, c).value;
            && SetupReceiver(h, s.0, p, info, psk).Ok?
            && Export(SetupReceiver(h, s.0, p, info, psk).value, exporterContext, len)
               == Export(s.1, exporterContext, len)
  {
    hide SetupSender, SetupReceiver;
    SetupAgrees(h, p, info, psk, c);
  }

  /** Single-shot open undoes single-shot seal. */
  lemma {:induction false} OpenUndoesSeal(h: Hpke, p: KeyPair, info: ByteSeq, psk: Option<Psk>, aad: Option<ByteSeq>,
                                          pt: ByteSeq, c: Coins)
    requires ValidHpke(h) && Correct(h.kem) && IsPair(h.kem, p) && h.aead.Some? && AeadCorrect(h.aead.value)
    requires SealOnce(h, p.public, info, psk, aad, pt, c).Ok?
    ensures OpenOnce(h, SealOnce(h, p.public, info, psk, aad, pt, c).value, p, info, psk, aad) == Ok(pt)
  {
    hide KeySchedule, SetupReceiver, Nonce;
    SetupAgrees(h, p, info, psk, c);
    var s := SetupSender(h, p.public, info, psk, c).value;
    ScheduledIsValid(h, BaseMode(psk), h.kem.encap(p.public, c).value.sharedSecret, info, psk);
    var ctx := s.1.encryption.value;
    var ct := ctx.aead.seal(ctx.key, pt, aad, Nonce(ctx.baseNonce, ctx.seqNumber));
    assert ct.Ok?;
  }

  /** A pre-shared key under 32 bytes is refused by both sides, whatever else is supplied. */
  lemma {:induction false} ShortPskIsRefused(h: Hpke, pk: ByteSeq, enc: ByteSeq, p: KeyPair, info: ByteSeq,
                                             psk: Option<Psk>, c: Coins)
    requires ValidHpke(h) && PskIsShort(psk)
    ensures SetupSender(h, pk, info, psk, c).Err? && SetupReceiver(h, enc, p, info, psk).Err?
    ensures h.kem.encap(pk, c).Ok? ==> SetupSender(h, pk, info, psk, c) == Err(InsufficientPskLength)
    ensures h.kem.decap(enc, p.secret, p.public).Ok? ==>
              SetupReceiver(h, enc, p, info, psk) == Err(InsufficientPskLength)
  {
  }

  /** Whole conversations: a receiver set up from the sender's output reads any stretch of its messages. */
  lemma {:induction false} ConversationWorks(h: Hpke, p: KeyPair, info: ByteSeq, psk: Option<Psk>, c: Coins,
                                             msgs: seq<Message>, schedule: seq<Delivery>)
    requires ValidHpke(h) && Correct(h.kem) && IsPair(h.kem, p) && h.aead.Some? && AeadCorrect(h.aead.value)
    requires SetupSender(h, p.public, info, psk, c).Ok?
    requires var s := SetupSender(h, p.public, info, psk, c).value.1.encryption;
             s.Some? && AllSealed(s.value, msgs) && ForgeriesFail(s.value, s.value, msgs, 0, schedule)
    ensures var s := SetupSender(h, p.public, info, psk, c).value;
            var r := SetupReceiver(h, s.0, p, info, psk);
            && r.Ok? && r.value.encryption.Some?
            && Accepted(Received(r.value.encryption.value, s.1.encryption.value, msgs, 0, schedule))
               == Texts(msgs)[..Deliveries(schedule, |msgs|)]
  {
    hide KeySchedule, SetupReceiver, ForgeriesFail, Received, AllSealed, Accepted;
    SetupAgrees(h, p, info, psk, c);
    ScheduledIsValid(h, BaseMode(psk), h.kem.encap(p.public, c).value.sharedSecret, info, psk);
    var s := SetupSender(h, p.public, info, psk, c).value.1.encryption.value;
    DeliveryTheorem(s, msgs, 0, schedule);
  }

  lemma DerivedIsPair(h: Hpke, ikm: ByteSeq)
    requires ValidHpke(h) && Derive(h, ikm).Ok?
    ensures IsPair(h.kem, Derive(h, ikm).value)
  {
    hide LabeledExtract;
  }

  /** A key pair derived from any input material opens what is sealed to it. */
  lemma {:induction false} DerivedPairOpens(h: Hpke, ikm: ByteSeq, info: ByteSeq, psk: Option<Psk>,
                                            aad: Option<ByteSeq>, pt: ByteSeq, c: Coins)
    requires ValidHpke(h) && Correct(h.kem) && h.aead.Some? && AeadCorrect(h.aead.value) && Derive(h, ikm).Ok?
    requires SealOnce(h, Derive(h, ikm).value.public, info, psk, aad, pt, c).Ok?
    ensures var p := Derive(h, ikm).value;
            OpenOnce(h, SealOnce(h, p.public, info, psk, aad, pt, c).value, p, info, psk, aad) == Ok(pt)
  {
    hide SealOnce, OpenOnce;
    DerivedIsPair(h, ikm);
    OpenUndoesSeal(h, Derive(h, ikm).value, info, psk, aad, pt, c);
  }

  // ----- The schedule of section 5.1 of RFC 9180 -----

  ghost predicate IsAscii(name: string) {
    forall i :: 0 <= i < |name| ==> name[i] < 128 as char
  }

  ghost function RfcSuite(h: Hpke): ByteSeq
    requires ValidHpke(h)
  {
    assert Pow256(2) == 65536 by { Pow256Two(); }
    Ascii("HPKE") + ToBigEndian(h.kem.id, 2) + ToBigEndian(h.kdf.id, 2)
    + ToBigEndian(if h.aead.None? then 0xFFFF else h.aead.value.id, 2)
  }

  ghost function RfcExtract(h: Hpke, salt: ByteSeq, name: string, ikm: ByteSeq): Output
    requires ValidHpke(h) && IsAscii(name)
  {
    h.kdf.extract(salt, Ascii("HPKE-v1") + RfcSuite(h) + Ascii(name) + ikm)
  }

  ghost function RfcExpand(h: Hpke, prk: ByteSeq, name: string, info: ByteSeq, len: nat): Output
    requires ValidHpke(h) && IsAscii(name) && len < 65536
  {
    assert Pow256(2) == 65536 by { Pow256Two(); }
    h.kdf.expand(prk, ToBigEndian(len, 2) + Ascii("HPKE-v1") + RfcSuite(h) + Ascii(name) + info, len)
  }

  /** The context an RFC implementation would have, in the base and the pre-shared key modes. */
  ghost predicate RfcContext(h: Hpke, ss: ByteSeq, info: ByteSeq, psk: Option<Psk>, c: Context)
    requires ValidHpke(h) && h.kdf.extractSize < 65536
    requires h.aead.Some? ==> h.aead.value.keySize < 65536 && h.aead.value.nonceSize < 65536
  {
    var pskIdHash := RfcExtract(h, [], "psk_id_hash", if psk.Some? then psk.value.id else []);
    var infoHash := RfcExtract(h, [], "info_hash", info);
    var secret := RfcExtract(h, ss, "secret", if psk.Some? then psk.value.value else []);
    && pskIdHash.Ok? && infoHash.Ok? && secret.Ok?
    && var ksc := [if psk.Some? then 0x01 else 0x00] + pskIdHash.value + infoHash.value;
    && RfcExpand(h, secret.value, "exp", ksc, h.kdf.extractSize) == Ok(c.exporterSecret)
    && (h.aead.None? ==> c.encryption.None?)
    && (h.aead.Some? ==>
          && c.encryption.Some?
          && RfcExpand(h, secret.value, "key", ksc, h.aead.value.keySize) == Ok(c.encryption.value.key)
          && RfcExpand(h, secret.value, "base_nonce", ksc, h.aead.value.nonceSize) == Ok(c.encryption.value.baseNonce)
          && c.encryption.value.seqNumber == 0)
  }

  /** A schedule that succeeds gives what the RFC prescribes, the mode following from the key. */
  lemma {:induction false} ScheduleMatchesRfc(h: Hpke, ss: ByteSeq, info: ByteSeq, psk: Option<Psk>)
    requires ValidHpke(h) && h.kdf.extractSize < 65536
    requires h.aead.Some? ==> h.aead.value.keySize < 65536 && h.aead.value.nonceSize < 65536
    requires KeySchedule(h, BaseMode(psk), ss, info, psk).Ok?
    ensures RfcContext(h, ss, info, psk, KeySchedule(h, BaseMode(psk), ss, info, psk).value)
  {
    hide ToBigEndian, Ascii, LabeledExtract, LabeledExpand, RfcExtract, RfcExpand, Text;
    var p := if psk.Some? then psk.value else Psk([], []);
    var idHash := SameExtract(h, [], PskIdHash, p.id);
    var infoHash := SameExtract(h, [], InfoHash, info);
    var secret := SameExtract(h, ss, Secret, p.value);
    var ksc := KeyScheduleContext(BaseMode(psk), idHash.value, infoHash.value);
    SameExpand(h, secret.value, Exp, ksc, h.kdf.extractSize);
    if h.aead.Some? {
      SameExpand(h, secret.value, Key, ksc, h.aead.value.keySize);
      SameExpand(h, secret.value, BaseNonce, ksc, h.aead.value.nonceSize);
    }
  }

  ghost function Name(l: Label): (s: string)
    requires l in {PskIdHash, InfoHash, Secret, Exp, Key, BaseNonce}
    ensures IsAscii(s) && Text(l) == Ascii(s)
  {
    match l
    case PskIdHash => "psk_id_hash"
    case InfoHash => "info_hash"
    case Secret => "secret"
    case Exp => "exp"
    case Key => "key"
    case BaseNonce => "base_nonce"
  }

  lemma SameExtract(h: Hpke, salt: ByteSeq, l: Label, ikm: ByteSeq) returns (out: Output)
    requires ValidHpke(h) && l in {PskIdHash, InfoHash, Secret}
    ensures out == LabeledExtract(KdfOf(h), salt, Text(l), ikm) == RfcExtract(h, salt, Name(l), ikm)
  {
    out := LabeledExtract(KdfOf(h), salt, Text(l), ikm);
  }

  lemma SameExpand(h: Hpke, prk: ByteSeq, l: Label, info: ByteSeq, len: nat)
    requires ValidHpke(h) && l in {Exp, Key, BaseNonce} && len < 65536
    ensures LabeledExpand(KdfOf(h), prk, Text(l), info, len) == RfcExpand(h, prk, Name(l), info, len)
  {
    assert Pow256(2) == 65536 by { Pow256Two(); }
  }

  // ----- Separation -----

  /** The schedule context fixes the mode and both hashes, for hashes of one size. */
  lemma {:induction false} ScheduleContextBinds(m: Mode, a: ByteSeq, b: ByteSeq, n: Mode, x: ByteSeq, y: ByteSeq)
    requires |a| == |x| && KeyScheduleContext(m, a, b) == KeyScheduleContext(n, x, y)
    ensures m == n && a == x && b == y
  {
    PeelThree([ModeByte(m)], a, b, [ModeByte(n)], x, y);
  }

  /**
   From one secret the key, the base nonce, the exporter secret and every exported value are expanded
   under different inputs, and the three extractions of the schedule read different inputs.
   */
  lemma {:induction false} ScheduleInputsAreSeparate(h: Hpke, l: Label, info: ByteSeq, len: nat, m: Label,
                                                     info': ByteSeq, len': nat)
    requires ValidHpke(h) && l != m && ForExtract(l) == ForExtract(m)
    ensures ForExtract(l) ==>
              ExtractInput(KdfOf(h).suiteId, Text(l), info) != ExtractInput(KdfOf(h).suiteId, Text(m), info')
    ensures !ForExtract(l) ==>
              ExpandInput(KdfOf(h).suiteId, Text(l), info, len) != ExpandInput(KdfOf(h).suiteId, Text(m), info', len')
  {
    hide ExtractInput, ExpandInput, SuiteId, Text;
    var s := SuiteOf(h);
    if ForExtract(l) && ExtractInput(SuiteId(s), Text(l), info) == ExtractInput(SuiteId(s), Text(m), info') {
      ExtractUnambiguous(s, l, info, s, m, info');
    }
    if !ForExtract(l) && ExpandInput(SuiteId(s), Text(l), info, len) == ExpandInput(SuiteId(s), Text(m), info', len') {
      ExpandUnambiguous(s, l, info, len, s, m, info', len');
    }
  }
}
