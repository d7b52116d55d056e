/** The labelled key derivation of HPKE (section 4 of RFC 9180), mls-rs-crypto-hpke/src/kdf.rs. */
module HpkeKdfs {
  import opened Bytes

  /** An error of a crypto provider, of which only the identity matters. */
  datatype ProviderError = ProviderError(code: nat)

  type Output = Result<ByteSeq, ProviderError>

  /** A key derivation function of a provider (mls-rs-crypto-traits/src/kdf.rs). */
  datatype Kdf = Kdf(
    id: nat,
    extractSize: nat,
    extract: (ByteSeq, ByteSeq) -> Output,       // salt, input key material
    expand: (ByteSeq, ByteSeq, nat) -> Output)   // key, info, length

  /** `expand` answers with as many bytes as asked for. */
  ghost predicate ExpandsToLength(kdf: Kdf) {
    forall k, info, len :: kdf.expand(k, info, len).Ok? ==> |kdf.expand(k, info, len).value| == len
  }

  datatype HpkeKdf = HpkeKdf(suiteId: ByteSeq, kdf: Kdf)

  function Ascii(s: string): (r: ByteSeq)
    requires forall i :: 0 <= i < |s| ==> s[i] < 128 as char
    ensures |r| == |s|
    ensures forall i :: 0 <= i < |s| ==> r[i] == s[i] as int
  {
    seq(|s|, i requires 0 <= i < |s| => s[i] as int)
  }

  const VERSION: ByteSeq := Ascii("HPKE-v1")

  function ExtractInput(suiteId: ByteSeq, tag: ByteSeq, ikm: ByteSeq): ByteSeq {
    VERSION + suiteId + tag + ikm
  }

  /** `len as u16` keeps the low 16 bits. */
  function ExpandInput(suiteId: ByteSeq, tag: ByteSeq, info: ByteSeq, len: nat): ByteSeq {
    assert Pow256(2) == 65536 by { assert Pow256(1) == 256; }
    ToBigEndian(len % 65536, 2) + VERSION + suiteId + tag + info
  }

  function LabeledExtract(k: HpkeKdf, salt: ByteSeq, tag: ByteSeq, ikm: ByteSeq): Output {
    k.kdf.extract(salt, ExtractInput(k.suiteId, tag, ikm))
  }

  function LabeledExpand(k: HpkeKdf, key: ByteSeq, tag: ByteSeq, info: ByteSeq, len: nat): Output {
    k.kdf.expand(key, ExpandInput(k.suiteId, tag, info, len), len)
  }

  function LabeledExtractThenExpand(k: HpkeKdf, ikm: ByteSeq, ctx: ByteSeq, len: nat): Output {
    var eaePrk :- LabeledExtract(k, [], Text(EaePrk), ikm);
    LabeledExpand(k, eaePrk, Text(SharedSecret), ctx, len)
  }

  // ----- The suites and labels in use -----

  datatype Suite = HpkeSuite(kem: nat, kdf: nat, aead: nat) | KemSuite(kem: nat)

  predicate ValidSuite(s: Suite) {
    s.kem < 65536 && (s.HpkeSuite? ==> s.kdf < 65536 && s.aead < 65536)
  }

  function SuiteId(s: Suite): (r: ByteSeq)
    requires ValidSuite(s)
    ensures |r| == if s.HpkeSuite? then 10 else 5
  {
    assert Pow256(2) == 65536 by { assert Pow256(1) == 256; }
    match s
    case HpkeSuite(kem, kdf, aead) => Ascii("HPKE") + ToBigEndian(kem, 2) + ToBigEndian(kdf, 2) + ToBigEndian(aead, 2)
    case KemSuite(kem) => Ascii("KEM") + ToBigEndian(kem, 2)
  }

  datatype Label =
    | PskIdHash | InfoHash | Secret | EaePrk | DkpPrk                                     // extract
    | Key | BaseNonce | Exp | Sec | SharedSecret | Candidate | Sk                         // expand

  predicate ForExtract(l: Label) {
    l.PskIdHash? || l.InfoHash? || l.Secret? || l.EaePrk? || l.DkpPrk?
  }

  function Text(l: Label): ByteSeq {
    match l
    case PskIdHash => Ascii("psk_id_hash")
    case InfoHash => Ascii("info_hash")
    case Secret => Ascii("secret")
    case EaePrk => Ascii("eae_prk")
    case DkpPrk => Ascii("dkp_prk")
    case Key => Ascii("key")
    case BaseNonce => Ascii("base_nonce")
    case Exp => Ascii("exp")
    case Sec => Ascii("sec")
    case SharedSecret => Ascii("shared_secret")
    case Candidate => Ascii("candidate")
    case Sk => Ascii("sk")
  }

  // ----- Unambiguity -----

  lemma PeelPrefix(a: ByteSeq, x: ByteSeq, b: ByteSeq, y: ByteSeq)
    requires a + x == b + y && |a| == |b|
    ensures a == b && x == y
  {
    assert a == (a + x)[..|a|] && b == (b + y)[..|a|];
    assert x == (a + x)[|a|..] && y == (b + y)[|a|..];
  }

  /** The first two bytes tell the labels of one operation apart. */
  lemma LabelHeads(l: Label, m: Label)
    requires ForExtract(l) == ForExtract(m) && l != m
    ensures |Text(l)| >= 2 && |Text(m)| >= 2 && Text(l)[..2] != Text(m)[..2]
  {
    assert Text(l)[..2] == [Text(l)[0], Text(l)[1]];
    assert Text(m)[..2] == [Text(m)[0], Text(m)[1]];
  }

  lemma {:induction false} SuiteIdInjective(s: Suite, x: ByteSeq, t: Suite, y: ByteSeq)
    requires ValidSuite(s) && ValidSuite(t) && SuiteId(s) + x == SuiteId(t) + y
    ensures s == t && x == y
  {
    var a, b := SuiteId(s), SuiteId(t);
    assert (a + x)[0] == a[0] && (b + y)[0] == b[0];
    assert Ascii("HPKE")[0] != Ascii("KEM")[0];
    PeelPrefix(a, x, b, y);
    assert Pow256(2) == 65536 by { assert Pow256(1) == 256; }
    if s.HpkeSuite? {
      assert a[4..6] == ToBigEndian(s.kem, 2) && b[4..6] == ToBigEndian(t.kem, 2);
      assert a[6..8] == ToBigEndian(s.kdf, 2) && b[6..8] == ToBigEndian(t.kdf, 2);
      assert a[8..10] == ToBigEndian(s.aead, 2) && b[8..10] == ToBigEndian(t.aead, 2);
      ToBigEndianInjective(s.kem, t.kem, 2);
      ToBigEndianInjective(s.kdf, t.kdf, 2);
      ToBigEndianInjective(s.aead, t.aead, 2);
    } else {
      assert a[3..5] == ToBigEndian(s.kem, 2) && b[3..5] == ToBigEndian(t.kem, 2);
      ToBigEndianInjective(s.kem, t.kem, 2);
    }
  }

  lemma LabelInjective(l: Label, x: ByteSeq, m: Label, y: ByteSeq)
    requires ForExtract(l) == ForExtract(m) && Text(l) + x == Text(m) + y
    ensures l == m && x == y
  {
    hide Text;
    SameHeads(l, x, m, y);
    if l != m { LabelHeads(l, m); }
    PeelPrefix(Text(l), x, Text(m), y);
  }

  lemma SameHeads(l: Label, x: ByteSeq, m: Label, y: ByteSeq)
    requires Text(l) + x == Text(m) + y
    ensures |Text(l)| >= 2 && |Text(m)| >= 2 && Text(l)[..2] == Text(m)[..2]
  {
    assert |Text(l)| >= 2 && |Text(m)| >= 2;
    assert (Text(l) + x)[..2] == Text(l)[..2] && (Text(m) + y)[..2] == Text(m)[..2];
  }

  /** Equal inputs of extract come from the same suite, the same label and the same key material. */
  lemma {:induction false} ExtractUnambiguous(s: Suite, l: Label, ikm: ByteSeq, t: Suite, m: Label, ikm': ByteSeq)
    requires ValidSuite(s) && ValidSuite(t) && ForExtract(l) && ForExtract(m)
    requires ExtractInput(SuiteId(s), Text(l), ikm) == ExtractInput(SuiteId(t), Text(m), ikm')
    ensures s == t && l == m && ikm == ikm'
  {
    hide SuiteId, Text, Ascii;
    var a, b := SuiteId(s) + (Text(l) + ikm), SuiteId(t) + (Text(m) + ikm');
    assert ExtractInput(SuiteId(s), Text(l), ikm) == VERSION + a;
    assert ExtractInput(SuiteId(t), Text(m), ikm') == VERSION + b;
    PeelPrefix(VERSION, a, VERSION, b);
    SuiteIdInjective(s, Text(l) + ikm, t, Text(m) + ikm');
    LabelInjective(l, ikm, m, ikm');
  }

  /** Equal inputs of expand agree on the suite, the label, the info and the low 16 bits of the length. */
  lemma {:induction false} ExpandUnambiguous(s: Suite, l: Label, info: ByteSeq, len: nat, t: Suite, m: Label,
                                             info': ByteSeq, len': nat)
    requires ValidSuite(s) && ValidSuite(t) && !ForExtract(l) && !ForExtract(m)
    requires ExpandInput(SuiteId(s), Text(l), info, len) == ExpandInput(SuiteId(t), Text(m), info', len')
    ensures s == t && l == m && info == info' && len % 65536 == len' % 65536
  {
    hide SuiteId, Text, Ascii, ToBigEndian, Pow256;
    assert Pow256(2) == 65536 by { Pow256Two(); }
    var n, n' := ToBigEndian(len % 65536, 2), ToBigEndian(len' % 65536, 2);
    var a, b := SuiteId(s) + (Text(l) + info), SuiteId(t) + (Text(m) + info');
    assert ExpandInput(SuiteId(s), Text(l), info, len) == n + (VERSION + a);
    assert ExpandInput(SuiteId(t), Text(m), info', len') == n' + (VERSION + b);
    PeelPrefix(n, VERSION + a, n', VERSION + b);
    ToBigEndianInjective(len % 65536, len' % 65536, 2);
    PeelPrefix(VERSION, a, VERSION, b);
    SuiteIdInjective(s, Text(l) + info, t, Text(m) + info');
    LabelInjective(l, info, m, info');
  }

  lemma Pow256Two()
    ensures Pow256(2) == 65536
  {
    assert Pow256(1) == 256;
  }

  /**
   Why the choice of labels matters: labels carry no length, so two of them can produce equal inputs
   under one suite exactly when one is a prefix of the other.
   */
  lemma {:induction false} LabelsCollideExactly(suiteId: ByteSeq, l: ByteSeq, m: ByteSeq)
    ensures (exists x, y :: ExtractInput(suiteId, l, x) == ExtractInput(suiteId, m, y)) <==> l <= m || m <= l
  {
    if x, y :| ExtractInput(suiteId, l, x) == ExtractInput(suiteId, m, y) {
      var p := VERSION + suiteId;
      assert p + (l + x) == ExtractInput(suiteId, l, x) && p + (m + y) == ExtractInput(suiteId, m, y);
      PeelPrefix(p, l + x, p, m + y);
      if |l| <= |m| {
        assert l == (l + x)[..|l|] == m[..|l|];
      } else {
        assert m == (m + y)[..|m|] == l[..|m|];
      }
    }
    if l <= m {
      assert ExtractInput(suiteId, l, m[|l|..]) == ExtractInput(suiteId, m, []);
    }
    if m <= l {
      assert ExtractInput(suiteId, l, []) == ExtractInput(suiteId, m, l[|m|..]);
    }
  }
}
