/** The hand-written codec of credentials, mls-rs-core/src/identity/credential.rs. */
module Credentials {
  import opened Bytes
  import opened CodecErrors
  import opened VarInts
  import opened Schemas
  import opened CodecLaws

  const BASIC: nat := 1
  const X509_TYPE: nat := 2
  const CHAIN: Schema := Vec(ByteVec)

  datatype Credential =
    | Basic(identifier: ByteSeq)
    | X509(chain: seq<ByteSeq>)
    | Custom(credentialType: nat, data: ByteSeq)

  /** The Rust types: a 16-bit type, and the X.509 variant only with the `x509` feature. */
  predicate Valid(c: Credential, x509: bool) {
    (c.X509? ==> x509) && (c.Custom? ==> c.credentialType < 0x1_0000)
  }

  function TypeOf(c: Credential): nat {
    match c
    case Basic(_) => BASIC
    case X509(_) => X509_TYPE
    case Custom(t, _) => t
  }

  function Certificates(chain: seq<ByteSeq>): seq<Value> {
    seq(|chain|, i requires 0 <= i < |chain| => VBytes(chain[i]))
  }

  /** What follows the type on the wire. */
  function BodySchema(c: Credential): Schema {
    if c.X509? then CHAIN else ByteVec
  }

  function Body(c: Credential): (v: Value) {
    match c
    case Basic(id) => VBytes(id)
    case X509(chain) => VSeq(Certificates(chain))
    case Custom(_, data) => VBytes(data)
  }

  lemma {:induction false} CertificatesTyped(chain: seq<ByteSeq>)
    ensures AllTyped(ByteVec, Certificates(chain))
  {
    if |chain| > 0 {
      CertificatesTyped(chain[1..]);
      assert Certificates(chain)[1..] == Certificates(chain[1..]);
    }
  }

  lemma BodyTyped(c: Credential)
    ensures HasType(BodySchema(c), Body(c))
  {
    if c.X509? { CertificatesTyped(c.chain); }
  }

  function CredentialSize(c: Credential): nat {
    BodyTyped(c);
    2 + Size(BodySchema(c), Body(c))
  }

  function CredentialEncode(c: Credential, how: Strategy): Encoded
    requires Valid(c, true)
  {
    BodyTyped(c);
    PowersOf256();
    var b :- Encode(BodySchema(c), Body(c), how);
    Ok(ToBigEndian(TypeOf(c), 2) + b)
  }

  function CredentialDecode(d: ByteSeq, x509: bool): Parsed<Credential> {
    var t := DecodeUInt(2, d);
    if t.result.Err? then Parsed(Err(t.result.error), t.rest)
    else if x509 && t.result.value == X509_TYPE then
      var p := Decode(CHAIN, t.rest, false);
      if p.result.Err? then Parsed(Err(p.result.error), p.rest)
      else Parsed(Ok(X509(Chain(p.result.value))), p.rest)
    else
      var p := Decode(ByteVec, t.rest, false);
      if p.result.Err? then Parsed(Err(p.result.error), p.rest)
      else if t.result.value == BASIC then Parsed(Ok(Basic(p.result.value.bytes)), p.rest)
      else Parsed(Ok(Credential.Custom(t.result.value, p.result.value.bytes)), p.rest)
  }

  function Chain(v: Value): seq<ByteSeq> {
    if v.VSeq? then seq(|v.items|, i requires 0 <= i < |v.items| => if v.items[i].VBytes? then v.items[i].bytes else [])
    else []
  }

  lemma {:induction false} ChainInverse(vs: seq<Value>)
    requires AllTyped(ByteVec, vs)
    ensures Certificates(Chain(VSeq(vs))) == vs
  {
    if |vs| > 0 {
      ChainInverse(vs[1..]);
      assert Chain(VSeq(vs))[1..] == Chain(VSeq(vs[1..]));
      assert Certificates(Chain(VSeq(vs))) == [vs[0]] + Certificates(Chain(VSeq(vs[1..])));
    }
  }

  lemma CertificatesInverse(chain: seq<ByteSeq>)
    ensures Chain(VSeq(Certificates(chain))) == chain
  {
  }

  /** A custom credential that uses a type the library reserves. */
  predicate Reserved(c: Credential, x509: bool) {
    c.Custom? && (c.credentialType == BASIC || (x509 && c.credentialType == X509_TYPE))
  }

  lemma TypeSplit(c: Credential, t: ByteSeq)
    requires Valid(c, true) && CredentialEncode(c, Buffering).Ok?
    ensures HasType(BodySchema(c), Body(c))
    ensures var b := Encode(BodySchema(c), Body(c), Buffering);
            && b.Ok?
            && DecodeUInt(2, CredentialEncode(c, Buffering).value + t) == Parsed(Ok(TypeOf(c)), b.value + t)
  {
    BodyTyped(c);
    PowersOf256();
    var d := CredentialEncode(c, Buffering).value + t;
    var b := Encode(BodySchema(c), Body(c), Buffering).value;
    var tag := ToBigEndian(TypeOf(c), 2);
    assert d == tag + (b + t);
    assert d[..2] == tag && d[2..] == b + t;
    BigEndianInverse(TypeOf(c), 2);
  }

  /** A credential that encodes comes back exactly when it is not a custom one with a reserved type. */
  lemma {:induction false} CredentialRoundTrip(c: Credential, t: ByteSeq, x509: bool)
    requires Valid(c, x509) && CredentialEncode(c, Buffering).Ok?
    ensures CredentialDecode(CredentialEncode(c, Buffering).value + t, x509) == Parsed(Ok(c), t) <==> !Reserved(c, x509)
  {
    TypeSplit(c, t);
    RoundTrip(BodySchema(c), Body(c), t, false);
    if c.X509? { CertificatesInverse(c.chain); }
  }

  /** A custom credential of the basic type is read back as a basic one. */
  lemma {:induction false} ReservedTypeIsCaptured(data: ByteSeq, t: ByteSeq, x509: bool)
    requires CredentialEncode(Credential.Custom(BASIC, data), Buffering).Ok?
    ensures CredentialDecode(CredentialEncode(Credential.Custom(BASIC, data), Buffering).value + t, x509)
            == Parsed(Ok(Basic(data)), t)
  {
    TypeSplit(Credential.Custom(BASIC, data), t);
    RoundTrip(ByteVec, VBytes(data), t, false);
  }

  /** Whatever decodes is the encoding of the credential it decodes to, which is never a reserved custom one. */
  lemma {:induction false} CredentialCanonical(d: ByteSeq, x509: bool)
    requires CredentialDecode(d, x509).result.Ok?
    ensures var p := CredentialDecode(d, x509);
            && var c := p.result.value;
            && Valid(c, x509) && !Reserved(c, x509)
            && CredentialEncode(c, Buffering).Ok?
            && d == CredentialEncode(c, Buffering).value + p.rest
  {
    hide Decode, DecodeUInt, ToBigEndian, Encode, Pow256, HasType, Certificates, Chain;
    PowersOf256();
    var t := DecodeUInt(2, d);
    DecodeUIntLaw(2, d);
    var s := if x509 && t.result.value == X509_TYPE then CHAIN else ByteVec;
    BodyCanonical(s, t.rest);
    var q := Decode(s, t.rest, false);
    var b := Encode(s, q.result.value, Buffering).value;
    assert d == Used(d, t.rest) + b + q.rest;
  }

  lemma {:induction false} BodyCanonical(s: Schema, d: ByteSeq)
    requires (s == CHAIN || s == ByteVec) && Decode(s, d, false).result.Ok?
    ensures var p := Decode(s, d, false);
            && var v := p.result.value;
            && HasType(s, v) && Encode(s, v, Buffering).Ok? && d == Encode(s, v, Buffering).value + p.rest
            && if s == CHAIN then v == VSeq(Certificates(Chain(v))) else v.VBytes?
  {
    hide Decode, Encode;
    PlainCanonical(s, d);
    var v := Decode(s, d, false).result.value;
    EncodeLaw(s, v);
    if s == CHAIN { ChainInverse(v.items); }
  }

  /** The size function counts the bytes written, and both collection encoders write the same. */
  lemma {:induction false} CredentialSizeLaw(c: Credential)
    requires Valid(c, true)
    ensures CredentialEncode(c, Preallocating) == CredentialEncode(c, Buffering)
    ensures CredentialEncode(c, Buffering).Ok? ==> |CredentialEncode(c, Buffering).value| == CredentialSize(c)
  {
    BodyTyped(c);
    EncodeLaw(BodySchema(c), Body(c));
  }
}
