/**
 What the derive macros generate (mls-rs-codec-derive/src/lib.rs): the three operations of a
 struct or an enum declaration, and the schema they amount to.
 */
module Derive {
  import opened Bytes
  import opened CodecErrors
  import opened Schemas
  import opened CodecLaws
  import opened Collections

  /** A field, with its `mls_codec(with = "mls_rs_codec::byte_vec")` annotation or without it. */
  datatype Field = Field(ty: Schema, byteVec: bool)

  /** The codec a generated call goes through. */
  function CodecOf(f: Field): Schema {
    if f.byteVec then ByteVec else f.ty
  }

  // ----- struct_impl -----

  predicate FieldsTyped(fs: seq<Field>, vs: seq<Value>) {
    |fs| == |vs| && forall i :: 0 <= i < |fs| ==> HasType(CodecOf(fs[i]), vs[i])
  }

  /** `0 + a + b + ...` */
  function StructSize(fs: seq<Field>, vs: seq<Value>): nat
    requires FieldsTyped(fs, vs)
  {
    if |fs| == 0 then 0
    else StructSize(fs[..|fs| - 1], vs[..|fs| - 1]) + Size(CodecOf(fs[|fs| - 1]), vs[|fs| - 1])
  }

  /** `a.mls_encode(writer)?; b.mls_encode(writer)?; ... Ok(())` */
  function StructEncode(fs: seq<Field>, vs: seq<Value>, how: Strategy): Encoded
    requires FieldsTyped(fs, vs)
  {
    if |fs| == 0 then Ok([])
    else
      var b :- Encode(CodecOf(fs[0]), vs[0], how);
      var bs :- StructEncode(fs[1..], vs[1..], how);
      Ok(b + bs)
  }

  predicate FieldsWellFormed(fs: seq<Field>) {
    forall i :: 0 <= i < |fs| ==> WellFormed(CodecOf(fs[i]))
  }

  /** `Ok(Self { a: ...mls_decode(reader)?, b: ...mls_decode(reader)?, ... })` */
  function StructDecode(fs: seq<Field>, d: ByteSeq): Parsed<seq<Value>>
    requires FieldsWellFormed(fs)
  {
    if |fs| == 0 then Parsed(Ok([]), d)
    else
      var x := Decode(CodecOf(fs[0]), d, false);
      if x.result.Err? then Parsed(Err(x.result.error), x.rest)
      else
        var xs := StructDecode(fs[1..], x.rest);
        if xs.result.Err? then xs else Parsed(Ok([x.result.value] + xs.result.value), xs.rest)
  }

  /** A struct is its first field paired with the struct of the others. */
  function StructSchema(fs: seq<Field>): Schema {
    if |fs| == 0 then Unit else Pair(CodecOf(fs[0]), StructSchema(fs[1..]))
  }

  function Tuple(vs: seq<Value>): (v: Value)
    ensures v.VUnit? || v.VPair?
  {
    if |vs| == 0 then VUnit else VPair(vs[0], Tuple(vs[1..]))
  }

  lemma {:induction false} TupleInjective(vs: seq<Value>, us: seq<Value>)
    requires Tuple(vs) == Tuple(us)
    ensures vs == us
  {
    if |vs| > 0 && |us| > 0 { TupleInjective(vs[1..], us[1..]); }
  }

  lemma {:induction false} StructTyped(fs: seq<Field>, vs: seq<Value>)
    requires FieldsTyped(fs, vs)
    ensures HasType(StructSchema(fs), Tuple(vs))
    ensures StructSize(fs, vs) == Size(StructSchema(fs), Tuple(vs))
  {
    if |fs| > 0 {
      StructTyped(fs[1..], vs[1..]);
      StructSizeCons(fs, vs);
    }
  }

  lemma {:induction false} StructSizeCons(fs: seq<Field>, vs: seq<Value>)
    requires FieldsTyped(fs, vs) && |fs| > 0
    ensures StructSize(fs, vs) == Size(CodecOf(fs[0]), vs[0]) + StructSize(fs[1..], vs[1..])
  {
    if |fs| > 1 {
      var n := |fs| - 1;
      StructSizeCons(fs[..n], vs[..n]);
      assert fs[..n][1..] == fs[1..][..n - 1] && vs[..n][1..] == vs[1..][..n - 1];
    }
  }

  lemma {:induction false} StructEncodeAgrees(fs: seq<Field>, vs: seq<Value>, how: Strategy)
    requires FieldsTyped(fs, vs)
    ensures HasType(StructSchema(fs), Tuple(vs))
    ensures StructEncode(fs, vs, how) == Encode(StructSchema(fs), Tuple(vs), how)
  {
    StructTyped(fs, vs);
    if |fs| > 0 { StructEncodeAgrees(fs[1..], vs[1..], how); }
  }

  lemma {:induction false} StructDecodeAgrees(fs: seq<Field>, d: ByteSeq)
    requires FieldsWellFormed(fs)
    ensures WellFormed(StructSchema(fs))
    ensures var p, q := StructDecode(fs, d), Decode(StructSchema(fs), d, false);
            && p.rest == q.rest
            && (p.result.Err? ==> q.result == Err(p.result.error))
            && (p.result.Ok? ==> q.result == Ok(Tuple(p.result.value)))
  {
    if |fs| > 0 {
      var x := Decode(CodecOf(fs[0]), d, false);
      StructDecodeAgrees(fs[1..], x.rest);
      var xs := StructDecode(fs[1..], x.rest);
      if x.result.Ok? && xs.result.Ok? {
        assert ([x.result.value] + xs.result.value)[1..] == xs.result.value;
      }
    }
  }

  /** Every derived struct: the three generated operations fit together. */
  lemma {:induction false} StructRoundTrip(fs: seq<Field>, vs: seq<Value>, t: ByteSeq, how: Strategy)
    requires FieldsWellFormed(fs) && FieldsTyped(fs, vs) && StructEncode(fs, vs, how).Ok?
    ensures |StructEncode(fs, vs, how).value| == StructSize(fs, vs)
    ensures StructDecode(fs, StructEncode(fs, vs, how).value + t) == Parsed(Ok(vs), t)
  {
    var s, v := StructSchema(fs), Tuple(vs);
    StructTyped(fs, vs);
    StructEncodeAgrees(fs, vs, how);
    EncodeLaw(s, v);
    var d := StructEncode(fs, vs, how).value + t;
    StructDecodeAgrees(fs, d);
    RoundTrip(s, v, t, false);
    TupleInjective(vs, StructDecode(fs, d).result.value);
  }

  // ----- The byte_vec annotation -----

  /** The same declaration with the annotations removed. */
  function Unannotated(fs: seq<Field>): (gs: seq<Field>)
    ensures |gs| == |fs|
    ensures forall i :: 0 <= i < |fs| ==> gs[i] == Field(if fs[i].byteVec then GENERIC_BYTES else fs[i].ty, false)
  {
    seq(|fs|, i requires 0 <= i < |fs| => Field(if fs[i].byteVec then GENERIC_BYTES else fs[i].ty, false))
  }

  function Generic(f: Field, v: Value): Value {
    if f.byteVec && v.VBytes? then VSeq(Elements(v.bytes)) else v
  }

  function GenericFields(fs: seq<Field>, vs: seq<Value>): (us: seq<Value>)
    requires |fs| == |vs|
    ensures |us| == |vs|
    ensures forall i :: 0 <= i < |fs| ==> us[i] == Generic(fs[i], vs[i])
  {
    seq(|fs|, i requires 0 <= i < |fs| => Generic(fs[i], vs[i]))
  }

  /** Adding or removing the annotation changes neither the bytes nor the errors of a derived encoder. */
  lemma {:induction false} AnnotationKeepsEncoding(fs: seq<Field>, vs: seq<Value>, how: Strategy)
    requires FieldsTyped(fs, vs)
    ensures FieldsTyped(Unannotated(fs), GenericFields(fs, vs))
    ensures StructEncode(Unannotated(fs), GenericFields(fs, vs), how) == StructEncode(fs, vs, how)
  {
    var gs, us := Unannotated(fs), GenericFields(fs, vs);
    if |fs| > 0 {
      AnnotationKeepsEncoding(fs[1..], vs[1..], how);
      assert gs[1..] == Unannotated(fs[1..]) && us[1..] == GenericFields(fs[1..], vs[1..]);
      if fs[0].byteVec { ByteVecEncodesAlike(vs[0].bytes, how); }
      assert forall i :: 1 <= i < |fs| ==> gs[i] == gs[1..][i - 1] && us[i] == us[1..][i - 1];
    }
  }

  /** Nor what a derived decoder reads, where it fails, and where it stops. */
  lemma {:induction false} AnnotationKeepsDecoding(fs: seq<Field>, d: ByteSeq)
    requires FieldsWellFormed(fs)
    ensures FieldsWellFormed(Unannotated(fs))
    ensures var p, q := StructDecode(fs, d), StructDecode(Unannotated(fs), d);
            && p.rest == q.rest
            && (p.result.Err? ==> q.result == p.result)
            && (p.result.Ok? ==> |p.result.value| == |fs| && q.result == Ok(GenericFields(fs, p.result.value)))
  {
    hide Decode, WellFormed, Unannotated, GenericFields, Generic;
    UnannotatedWellFormed(fs);
    if |fs| > 0 {
      var x := Decode(CodecOf(fs[0]), d, false);
      UnannotatedCons(fs);
      FieldDecodesAlike(fs[0], Unannotated(fs)[0], d);
      AnnotationKeepsDecoding(fs[1..], x.rest);
      var xs := StructDecode(fs[1..], x.rest);
      if x.result.Ok? && xs.result.Ok? { GenericCons(fs, x.result.value, xs.result.value); }
    } else {
      assert [] == GenericFields(fs, []);
    }
  }

  lemma UnannotatedCons(fs: seq<Field>)
    requires |fs| > 0
    ensures Unannotated(fs)[0] == Field(if fs[0].byteVec then GENERIC_BYTES else fs[0].ty, false)
    ensures Unannotated(fs)[1..] == Unannotated(fs[1..])
  {
  }

  lemma GenericCons(fs: seq<Field>, v: Value, vs: seq<Value>)
    requires |fs| == 1 + |vs|
    ensures GenericFields(fs, [v] + vs) == [Generic(fs[0], v)] + GenericFields(fs[1..], vs)
  {
    hide Generic;
  }

  lemma UnannotatedWellFormed(fs: seq<Field>)
    requires FieldsWellFormed(fs)
    ensures FieldsWellFormed(Unannotated(fs))
  {
    var gs := Unannotated(fs);
    forall i | 0 <= i < |gs| ensures WellFormed(CodecOf(gs[i])) {
      assert WellFormed(CodecOf(fs[i]));
      assert WellFormed(GENERIC_BYTES);
    }
  }

  lemma FieldDecodesAlike(f: Field, g: Field, d: ByteSeq)
    requires WellFormed(CodecOf(f)) && WellFormed(CodecOf(g))
    requires g == Field(if f.byteVec then GENERIC_BYTES else f.ty, false)
    ensures var p, q := Decode(CodecOf(f), d, false), Decode(CodecOf(g), d, false);
            && p.rest == q.rest
            && (p.result.Err? ==> q.result == p.result)
            && (p.result.Ok? ==> q.result == Ok(Generic(f, p.result.value)))
  {
    hide Decode;
    if f.byteVec { ByteVecDecodesAlike(d); }
  }

  // ----- enum_impl -----

  /** The expression after `=`: an integer literal with or without suffix, or another constant of a known width. */
  datatype Discriminant = Missing | Literal(value: nat, suffix: Option<nat>) | Constant(value: nat, width: nat)

  datatype Variant = Variant(discriminant: Discriminant, fields: seq<Field>)

  datatype EnumDecl = EnumDecl(repr: Option<nat>, variants: seq<Variant>)

  /** `discriminant_for_variant`: the value and the width it is written with; `None` where the macro panics. */
  function Resolved(d: Discriminant, repr: Option<nat>): Option<(nat, nat)> {
    match d
    case Missing => None
    case Constant(n, w) => Some((n, w))
    case Literal(n, Some(w)) => Some((n, w))
    case Literal(n, None) => if repr.Some? then Some((n, repr.value)) else None
  }

  /**
   The macro expands and the expansion type checks: every discriminant resolves, all of them to
   the one width `w`, no two are equal, and a variant has at most one field.
   */
  predicate Expands(decl: EnumDecl, w: nat) {
    && w in {1, 2, 4, 8, 16}
    && (forall i :: 0 <= i < |decl.variants| ==>
          && var v := decl.variants[i];
          && Resolved(v.discriminant, decl.repr).Some?
          && Resolved(v.discriminant, decl.repr).value.1 == w
          && Resolved(v.discriminant, decl.repr).value.0 < Pow256(w)
          && |v.fields| <= 1
          && FieldsWellFormed(v.fields))
    && (forall i, j :: 0 <= i < j < |decl.variants| ==> Tag(decl, i) != Tag(decl, j))
  }

  function Tag(decl: EnumDecl, i: nat): nat
    requires i < |decl.variants|
  {
    var r := Resolved(decl.variants[i].discriminant, decl.repr);
    if r.Some? then r.value.0 else 0
  }

  /** The arm of variant `i`: the discriminant, then the field if there is one. */
  function EnumEncode(decl: EnumDecl, w: nat, i: nat, vs: seq<Value>, how: Strategy): Encoded
    requires Expands(decl, w) && i < |decl.variants| && FieldsTyped(decl.variants[i].fields, vs)
  {
    var b :- StructEncode(decl.variants[i].fields, vs, how);
    Ok(ToBigEndian(Tag(decl, i), w) + b)
  }

  /** The index of the variant and its field. */
  function EnumDecode(decl: EnumDecl, w: nat, d: ByteSeq): Parsed<(nat, seq<Value>)>
    requires Expands(decl, w)
  {
    var t := DecodeUInt(w, d);
    if t.result.Err? then Parsed(Err(t.result.error), t.rest) else EnumMatch(decl, w, 0, t.result.value, t.rest)
  }

  function EnumMatch(decl: EnumDecl, w: nat, i: nat, tag: nat, d: ByteSeq): Parsed<(nat, seq<Value>)>
    requires Expands(decl, w) && i <= |decl.variants|
    decreases |decl.variants| - i
  {
    if i == |decl.variants| then Parsed(Err(UnsupportedEnumDiscriminant), d)
    else if Tag(decl, i) == tag then
      var p := StructDecode(decl.variants[i].fields, d);
      if p.result.Err? then Parsed(Err(p.result.error), p.rest) else Parsed(Ok((i, p.result.value)), p.rest)
    else EnumMatch(decl, w, i + 1, tag, d)
  }

  lemma {:induction false} EnumMatchFinds(decl: EnumDecl, w: nat, from: nat, i: nat, d: ByteSeq)
    requires Expands(decl, w) && from <= i < |decl.variants|
    ensures var p := StructDecode(decl.variants[i].fields, d);
            EnumMatch(decl, w, from, Tag(decl, i), d) ==
            if p.result.Err? then Parsed(Err(p.result.error), p.rest) else Parsed(Ok((i, p.result.value)), p.rest)
    decreases i - from
  {
    if from < i { EnumMatchFinds(decl, w, from + 1, i, d); }
  }

  lemma {:induction false} EnumMatchMisses(decl: EnumDecl, w: nat, from: nat, tag: nat, d: ByteSeq)
    requires Expands(decl, w) && from <= |decl.variants|
    requires forall i :: from <= i < |decl.variants| ==> Tag(decl, i) != tag
    ensures EnumMatch(decl, w, from, tag, d) == Parsed(Err(UnsupportedEnumDiscriminant), d)
    decreases |decl.variants| - from
  {
    if from < |decl.variants| { EnumMatchMisses(decl, w, from + 1, tag, d); }
  }

  /** Every enum whose derive expands: decoding gives back the variant and the field. */
  lemma {:induction false} EnumRoundTrip(decl: EnumDecl, w: nat, i: nat, vs: seq<Value>, t: ByteSeq, how: Strategy)
    requires Expands(decl, w) && i < |decl.variants| && FieldsTyped(decl.variants[i].fields, vs)
    requires EnumEncode(decl, w, i, vs, how).Ok?
    ensures EnumDecode(decl, w, EnumEncode(decl, w, i, vs, how).value + t) == Parsed(Ok((i, vs)), t)
  {
    hide ToBigEndian, FromBigEndian, Pow256, StructEncode, StructDecode, EnumMatch;
    var tag := ToBigEndian(Tag(decl, i), w);
    var b := StructEncode(decl.variants[i].fields, vs, how).value;
    var d := EnumEncode(decl, w, i, vs, how).value + t;
    assert d == tag + (b + t);
    assert d[..w] == tag && d[w..] == b + t;
    BigEndianInverse(Tag(decl, i), w);
    StructRoundTrip(decl.variants[i].fields, vs, t, how);
    EnumMatchFinds(decl, w, 0, i, b + t);
  }

  /** The decoder accepts the discriminants of the declaration and no other. */
  lemma {:induction false} EnumAcceptsDeclared(decl: EnumDecl, w: nat, d: ByteSeq)
    requires Expands(decl, w) && EnumDecode(decl, w, d).result.Ok?
    ensures |d| >= w
    ensures exists i :: 0 <= i < |decl.variants| && FromBigEndian(d[..w]) == Tag(decl, i)
  {
    var tag := FromBigEndian(d[..w]);
    if forall i :: 0 <= i < |decl.variants| ==> Tag(decl, i) != tag {
      EnumMatchMisses(decl, w, 0, tag, d[w..]);
    }
  }

  // ----- The schema of an enum -----

  function AlternativesFrom(decl: EnumDecl, i: nat): Alternatives
    requires i <= |decl.variants|
    decreases |decl.variants| - i
  {
    if i == |decl.variants| then NoMore
    else Alternative(Tag(decl, i), StructSchema(decl.variants[i].fields), AlternativesFrom(decl, i + 1))
  }

  function EnumSchema(decl: EnumDecl, w: nat): Schema {
    Enum(w, AlternativesFrom(decl, 0))
  }

  /** The generated size: the discriminant, then the field if there is one. */
  function EnumSize(decl: EnumDecl, w: nat, i: nat, vs: seq<Value>): nat
    requires Expands(decl, w) && i < |decl.variants| && FieldsTyped(decl.variants[i].fields, vs)
  {
    w + StructSize(decl.variants[i].fields, vs)
  }

  function EnumValue(decl: EnumDecl, i: nat, vs: seq<Value>): Value
    requires i < |decl.variants|
  {
    VEnum(Tag(decl, i), Tuple(vs))
  }

  lemma {:induction false} TaggedFrom(decl: EnumDecl, from: nat, t: nat)
    requires from <= |decl.variants| && Tagged(AlternativesFrom(decl, from), t)
    ensures exists i :: from <= i < |decl.variants| && Tag(decl, i) == t
    decreases |decl.variants| - from
  {
    hide Tag;
    if Tag(decl, from) != t { TaggedFrom(decl, from + 1, t); }
  }

  lemma {:induction false} AlternativesWellFormed(decl: EnumDecl, w: nat, from: nat)
    requires Expands(decl, w) && from <= |decl.variants|
    ensures WellFormedAlternatives(w, AlternativesFrom(decl, from))
    decreases |decl.variants| - from
  {
    hide StructDecode, Decode, StructSchema, WellFormed, Resolved, Tag, Expands;
    if from < |decl.variants| {
      AlternativesWellFormed(decl, w, from + 1);
      VariantExpands(decl, w, from);
      StructDecodeAgrees(decl.variants[from].fields, []);
      if Tagged(AlternativesFrom(decl, from + 1), Tag(decl, from)) { TaggedFrom(decl, from + 1, Tag(decl, from)); }
    }
  }

  lemma VariantExpands(decl: EnumDecl, w: nat, i: nat)
    requires Expands(decl, w) && i < |decl.variants|
    ensures FieldsWellFormed(decl.variants[i].fields) && Tag(decl, i) < Pow256(w)
    ensures forall j :: i < j < |decl.variants| ==> Tag(decl, j) != Tag(decl, i)
  {
  }

  lemma {:induction false} VariantAgrees(decl: EnumDecl, w: nat, from: nat, i: nat, vs: seq<Value>, how: Strategy)
    requires Expands(decl, w) && from <= i < |decl.variants| && FieldsTyped(decl.variants[i].fields, vs)
    ensures var alts := AlternativesFrom(decl, from);
            && HasTypeIn(alts, Tag(decl, i), Tuple(vs))
            && SizeIn(alts, Tag(decl, i), Tuple(vs)) == StructSize(decl.variants[i].fields, vs)
            && EncodeIn(alts, Tag(decl, i), Tuple(vs), how) == StructEncode(decl.variants[i].fields, vs, how)
    decreases i - from
  {
    hide StructSize, StructEncode, HasType, Size, Encode;
    if from == i {
      StructTyped(decl.variants[i].fields, vs);
      StructEncodeAgrees(decl.variants[i].fields, vs, how);
    } else {
      assert Tag(decl, from) != Tag(decl, i);
      VariantAgrees(decl, w, from + 1, i, vs, how);
    }
  }

  /** The generated size and encoder are those of the enum schema. */
  lemma {:induction false} EnumEncodeAgrees(decl: EnumDecl, w: nat, i: nat, vs: seq<Value>, how: Strategy)
    requires Expands(decl, w) && i < |decl.variants| && FieldsTyped(decl.variants[i].fields, vs)
    ensures var s, v := EnumSchema(decl, w), EnumValue(decl, i, vs);
            && WellFormed(s) && HasType(s, v)
            && EnumSize(decl, w, i, vs) == Size(s, v)
            && EnumEncode(decl, w, i, vs, how) == Encode(s, v, how)
  {
    hide StructSize, StructEncode;
    AlternativesWellFormed(decl, w, 0);
    VariantAgrees(decl, w, 0, i, vs, how);
  }

  lemma {:induction false} MatchAgrees(decl: EnumDecl, w: nat, from: nat, tag: nat, d: ByteSeq)
    requires Expands(decl, w) && from <= |decl.variants|
    ensures WellFormedAlternatives(w, AlternativesFrom(decl, from))
    ensures var p, q := EnumMatch(decl, w, from, tag, d), DecodeIn(w, AlternativesFrom(decl, from), tag, d, false);
            && p.rest == q.rest
            && (p.result.Err? ==> q.result == Err(p.result.error))
            && (p.result.Ok? ==>
                  && p.result.value.0 < |decl.variants| && Tag(decl, p.result.value.0) == tag
                  && q.result == Ok(Tuple(p.result.value.1)))
    decreases |decl.variants| - from
  {
    hide StructDecode, Decode, Tag;
    AlternativesWellFormed(decl, w, from);
    if from < |decl.variants| {
      if Tag(decl, from) == tag {
        StructDecodeAgrees(decl.variants[from].fields, d);
      } else {
        MatchAgrees(decl, w, from + 1, tag, d);
      }
    }
  }

  /** The generated decoder reads, fails and stops as the enum schema. */
  lemma {:induction false} EnumDecodeAgrees(decl: EnumDecl, w: nat, d: ByteSeq)
    requires Expands(decl, w)
    ensures WellFormed(EnumSchema(decl, w))
    ensures var p, q := EnumDecode(decl, w, d), Decode(EnumSchema(decl, w), d, false);
            && p.rest == q.rest
            && (p.result.Err? ==> q.result == Err(p.result.error))
            && (p.result.Ok? ==>
                  p.result.value.0 < |decl.variants|
                    && q.result == Ok(EnumValue(decl, p.result.value.0, p.result.value.1)))
  {
    hide EnumMatch, DecodeIn, DecodeUInt, Tag;
    AlternativesWellFormed(decl, w, 0);
    var t := DecodeUInt(w, d);
    if t.result.Ok? { MatchAgrees(decl, w, 0, t.result.value, t.rest); }
  }

  /** What a derived enum writes: exactly its size, the same bytes by either collection encoder. */
  lemma {:induction false} EnumSizeLaw(decl: EnumDecl, w: nat, i: nat, vs: seq<Value>)
    requires Expands(decl, w) && i < |decl.variants| && FieldsTyped(decl.variants[i].fields, vs)
    ensures EnumEncode(decl, w, i, vs, Preallocating) == EnumEncode(decl, w, i, vs, Buffering)
    ensures EnumEncode(decl, w, i, vs, Buffering).Ok? ==>
              |EnumEncode(decl, w, i, vs, Buffering).value| == EnumSize(decl, w, i, vs)
  {
    hide EnumEncode, EnumSize, Encode, Size;
    EnumEncodeAgrees(decl, w, i, vs, Buffering);
    EnumEncodeAgrees(decl, w, i, vs, Preallocating);
    EncodeLaw(EnumSchema(decl, w), EnumValue(decl, i, vs));
  }

  /** What it accepts is its encoding of the variant read exactly when the strict reading accepts it as well. */
  lemma {:induction false} EnumCanonicalExactly(decl: EnumDecl, w: nat, d: ByteSeq)
    requires Expands(decl, w) && EnumDecode(decl, w, d).result.Ok?
    ensures WellFormed(EnumSchema(decl, w))
    ensures var p := EnumDecode(decl, w, d);
            && var i, vs := p.result.value.0, p.result.value.1;
            && i < |decl.variants| && FieldsTyped(decl.variants[i].fields, vs)
            && EnumEncode(decl, w, i, vs, Buffering).Ok?
            && (d == EnumEncode(decl, w, i, vs, Buffering).value + p.rest <==>
                  Decode(EnumSchema(decl, w), d, true).result.Ok?)
  {
    hide EnumEncode, Encode, Size, Decode, Fits;
    EnumDecodeAgrees(decl, w, d);
    var (i, vs) := EnumDecode(decl, w, d).result.value;
    EnumDecodeTyped(decl, w, d);
    CanonicalExactly(EnumSchema(decl, w), d);
    EnumEncodeAgrees(decl, w, i, vs, Buffering);
    EncodeLaw(EnumSchema(decl, w), EnumValue(decl, i, vs));
  }

  lemma {:induction false} StructDecodeTyped(fs: seq<Field>, d: ByteSeq)
    requires FieldsWellFormed(fs) && StructDecode(fs, d).result.Ok?
    ensures FieldsTyped(fs, StructDecode(fs, d).result.value)
  {
    hide Decode, HasType;
    if |fs| > 0 {
      var x := Decode(CodecOf(fs[0]), d, false);
      DecodeLaw(CodecOf(fs[0]), d, false);
      StructDecodeTyped(fs[1..], x.rest);
    }
  }

  lemma {:induction false} EnumDecodeTyped(decl: EnumDecl, w: nat, d: ByteSeq)
    requires Expands(decl, w) && EnumDecode(decl, w, d).result.Ok?
    ensures var v := EnumDecode(decl, w, d).result.value;
            v.0 < |decl.variants| && FieldsTyped(decl.variants[v.0].fields, v.1)
  {
    hide FieldsTyped, DecodeUInt;
    MatchTyped(decl, w, 0, DecodeUInt(w, d).result.value, DecodeUInt(w, d).rest);
  }

  lemma {:induction false} MatchTyped(decl: EnumDecl, w: nat, from: nat, tag: nat, d: ByteSeq)
    requires Expands(decl, w) && from <= |decl.variants| && EnumMatch(decl, w, from, tag, d).result.Ok?
    ensures var v := EnumMatch(decl, w, from, tag, d).result.value;
            v.0 < |decl.variants| && FieldsTyped(decl.variants[v.0].fields, v.1)
    decreases |decl.variants| - from
  {
    hide FieldsTyped, StructDecode, Tag;
    if from < |decl.variants| {
      if Tag(decl, from) == tag {
        StructDecodeTyped(decl.variants[from].fields, d);
      } else {
        MatchTyped(decl, w, from + 1, tag, d);
      }
    }
  }

  /** No encoding of a derived enum is a proper prefix of another, and different values encode differently. */
  lemma {:induction false} EnumPrefixFree(decl: EnumDecl, w: nat, i: nat, vs: seq<Value>, j: nat, us: seq<Value>)
    requires Expands(decl, w) && i < |decl.variants| && FieldsTyped(decl.variants[i].fields, vs)
    requires j < |decl.variants| && FieldsTyped(decl.variants[j].fields, us)
    requires EnumEncode(decl, w, i, vs, Buffering).Ok? && EnumEncode(decl, w, j, us, Buffering).Ok?
    requires EnumEncode(decl, w, i, vs, Buffering).value <= EnumEncode(decl, w, j, us, Buffering).value
    ensures i == j && vs == us
  {
    hide EnumEncode, Encode, Size, Fits, HasType, WellFormed;
    EnumEncodeAgrees(decl, w, i, vs, Buffering);
    EnumEncodeAgrees(decl, w, j, us, Buffering);
    var s := EnumSchema(decl, w);
    EncodeLaw(s, EnumValue(decl, i, vs));
    EncodeLaw(s, EnumValue(decl, j, us));
    PrefixFree(s, EnumValue(decl, i, vs), EnumValue(decl, j, us));
    TupleInjective(vs, us);
  }
}
