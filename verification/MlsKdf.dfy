/**
 `kdf_expand_with_label` (mls-rs/src/group/key_schedule.rs) and what the secret tree and the ratchet
 tree derive with it.
 */
module MlsKdfs {
  import opened Bytes
  import opened VarInts
  import opened Schemas
  import opened CodecLaws
  import opened HpkeKdfs

  /** What a cipher suite provider computes; its failures are supplied per request. */
  datatype Provider = Provider(
    expand: (ByteSeq, ByteSeq, nat) -> ByteSeq,   // secret, info, length
    extractSize: nat,
    keySize: nat,
    nonceSize: nat)

  datatype KeyType = Handshake | Application

  /** The derivations of the secret tree, of its ratchets, and of the path secrets of a commit. */
  datatype Purpose =
    | LeftChild
    | RightChild
    | RatchetRoot(keyType: KeyType)
    | NonceOf(generation: nat)
    | KeyOf(generation: nat)
    | SecretAfter(generation: nat)
    | PathSecret
    | NodeSeed

  const U32: nat := 0x1_0000_0000

  predicate ValidPurpose(x: Purpose) {
    match x
    case NonceOf(g) => g < U32
    case KeyOf(g) => g < U32
    case SecretAfter(g) => g < U32
    case _ => true
  }

  function LabelOf(x: Purpose): (r: ByteSeq)
    ensures |r| <= 11
  {
    match x
    case LeftChild => Ascii("tree")
    case RightChild => Ascii("tree")
    case RatchetRoot(Handshake) => Ascii("handshake")
    case RatchetRoot(Application) => Ascii("application")
    case NonceOf(_) => Ascii("nonce")
    case KeyOf(_) => Ascii("key")
    case SecretAfter(_) => Ascii("secret")
    case PathSecret => Ascii("path")
    case NodeSeed => Ascii("node")
  }

  lemma U32IsPow256()
    ensures Pow256(4) == U32
  {
    assert Pow256(2) == 65536 by { Pow256Two(); }
    assert Pow256(3) == 256 * Pow256(2);
  }

  /** The generation as four bytes, most significant first. */
  function Generation(g: nat): (r: ByteSeq)
    requires g < U32
    ensures |r| == 4
  {
    U32IsPow256();
    ToBigEndian(g, 4)
  }

  function ContextOf(x: Purpose): (r: ByteSeq)
    requires ValidPurpose(x)
    ensures |r| <= 5
  {
    match x
    case LeftChild => Ascii("left")
    case RightChild => Ascii("right")
    case RatchetRoot(_) => []
    case NonceOf(g) => Generation(g)
    case KeyOf(g) => Generation(g)
    case SecretAfter(g) => Generation(g)
    case PathSecret => []
    case NodeSeed => []
  }

  function LengthOf(p: Provider, x: Purpose): nat {
    match x
    case NonceOf(_) => p.nonceSize
    case KeyOf(_) => p.keySize
    case _ => p.extractSize
  }

  const LABEL: Schema := Pair(UInt(2), Pair(ByteVec, ByteVec))

  /** The fields of `Label`; `len as u16` keeps the low 16 bits. */
  function LabelValue(name: ByteSeq, context: ByteSeq, len: nat): Value {
    VPair(VNat(len % 65536), VPair(VBytes(Ascii("MLS 1.0 ") + name), VBytes(context)))
  }

  lemma LabelTyped(name: ByteSeq, context: ByteSeq, len: nat)
    ensures HasType(LABEL, LabelValue(name, context, len))
    ensures |name| + 8 <= MAX && |context| <= MAX ==> Fits(LABEL, LabelValue(name, context, len))
  {
    assert Pow256(2) == 65536 by { Pow256Two(); }
  }

  function LabelBytes(name: ByteSeq, context: ByteSeq, len: nat): ByteSeq
    requires |name| + 8 <= MAX && |context| <= MAX
  {
    LabelTyped(name, context, len);
    Wire(LABEL, LabelValue(name, context, len))
  }

  /** The bytes on the wire determine name, context and the length as transmitted. */
  lemma {:induction false} LabelBytesInjective(name: ByteSeq, context: ByteSeq, len: nat, name': ByteSeq,
                                               context': ByteSeq, len': nat)
    requires |name| + 8 <= MAX && |context| <= MAX && |name'| + 8 <= MAX && |context'| <= MAX
    requires LabelBytes(name, context, len) == LabelBytes(name', context', len')
    ensures name == name' && context == context' && len % 65536 == len' % 65536
  {
    hide Decode, Encode, Fits, HasType;
    LabelTyped(name, context, len);
    LabelTyped(name', context', len');
    var v, v' := LabelValue(name, context, len), LabelValue(name', context', len');
    LabelRoundTrip(v);
    LabelRoundTrip(v');
    PeelPrefix(Ascii("MLS 1.0 "), name, Ascii("MLS 1.0 "), name');
  }

  lemma LabelRoundTrip(v: Value)
    requires HasType(LABEL, v) && Fits(LABEL, v)
    ensures Decode(LABEL, Wire(LABEL, v), true).result == Ok(v)
  {
    EncodeLaw(LABEL, v);
    RoundTrip(LABEL, v, [], true);
    assert Wire(LABEL, v) + [] == Wire(LABEL, v);
  }

  function Derive(p: Provider, secret: ByteSeq, x: Purpose): ByteSeq
    requires ValidPurpose(x)
  {
    var len := LengthOf(p, x);
    p.expand(secret, LabelBytes(LabelOf(x), ContextOf(x), len), len)
  }

  lemma {:induction false} PurposeBySpelling(x: Purpose, y: Purpose)
    requires ValidPurpose(x) && ValidPurpose(y) && LabelOf(x) == LabelOf(y) && ContextOf(x) == ContextOf(y)
    ensures x == y
  {
    hide ToBigEndian, Generation;
    var a, b := LabelOf(x), LabelOf(y);
    assert |a| == |b| && a[0] == b[0] && a[|a| - 1] == b[|b| - 1];
    if x.NonceOf? || x.KeyOf? || x.SecretAfter? {
      GenerationInjective(x.generation, y.generation);
    } else if x.LeftChild? || x.RightChild? {
      assert |ContextOf(x)| == |ContextOf(y)|;
    }
  }

  lemma GenerationInjective(g: nat, g': nat)
    requires g < U32 && g' < U32 && Generation(g) == Generation(g')
    ensures g == g'
  {
    U32IsPow256();
    ToBigEndianInjective(g, g', 4);
  }

  /** From one secret, no two derivations feed the KDF the same info. */
  lemma {:induction false} PurposesAreSeparate(p: Provider, x: Purpose, y: Purpose)
    requires ValidPurpose(x) && ValidPurpose(y) && x != y
    ensures LabelBytes(LabelOf(x), ContextOf(x), LengthOf(p, x)) != LabelBytes(LabelOf(y), ContextOf(y), LengthOf(p, y))
  {
    hide LabelBytes, LabelOf, ContextOf;
    if LabelBytes(LabelOf(x), ContextOf(x), LengthOf(p, x)) == LabelBytes(LabelOf(y), ContextOf(y), LengthOf(p, y)) {
      LabelBytesInjective(LabelOf(x), ContextOf(x), LengthOf(p, x), LabelOf(y), ContextOf(y), LengthOf(p, y));
      PurposeBySpelling(x, y);
    }
  }
}
