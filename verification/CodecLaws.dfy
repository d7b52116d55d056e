/** Laws of the codec, proved once for all schemas. */
module CodecLaws {
  import opened Bytes
  import opened CodecErrors
  import opened VarInts
  import opened Schemas

  // ----- Size and the two collection encoders -----

  /** Every collection inside `v` has a body short enough for the length header. */
  predicate Fits(s: Schema, v: Value)
    requires HasType(s, v)
    decreases s, 0
  {
    match s
    case ByteVec => |v.bytes| <= MAX
    case Opt(t) => v.VSome? ==> Fits(t, v.some)
    case Pair(a, b) => Fits(a, v.first) && Fits(b, v.second)
    case Enum(w, alts) => FitsIn(alts, v.tag, v.payload)
    case Vec(e) => AllFit(e, v.items) && SizeAll(e, v.items) <= MAX
    case Map(e) => AllFit(e, v.entries) && SizeAll(e, v.entries) <= MAX
    case _ => true
  }

  predicate FitsIn(alts: Alternatives, tag: nat, v: Value)
    requires HasTypeIn(alts, tag, v)
    decreases alts, 0
  {
    match alts
    case Alternative(t, p, others) => if t == tag then Fits(p, v) else FitsIn(others, tag, v)
  }

  predicate AllFit(s: Schema, vs: seq<Value>)
    requires AllTyped(s, vs)
    decreases s, 1 + |vs|
  {
    |vs| == 0 || (Fits(s, vs[0]) && AllFit(s, vs[1..]))
  }

  /** What an encoder promises about its output on a value that does, or does not, fit. */
  ghost predicate Promised(out: Encoded, fits: bool, size: nat) {
    if fits then out.Ok? && |out.value| == size else out == Err(VarIntOutOfRange)
  }

  /**
   Encoding succeeds exactly on the values that fit, writes exactly `Size` bytes, and both
   collection encoders produce the same bytes or the same error.
   */
  lemma {:induction false} EncodeLaw(s: Schema, v: Value)
    requires HasType(s, v)
    ensures Promised(Encode(s, v, Buffering), Fits(s, v), Size(s, v))
    ensures Encode(s, v, Preallocating) == Encode(s, v, Buffering)
    decreases s, 0
  {
    match s {
      case Opt(t) => if v.VSome? { EncodeLaw(t, v.some); }
      case Pair(a, b) =>
        EncodeLaw(a, v.first);
        EncodeLaw(b, v.second);
      case Enum(w, alts) => EncodeInLaw(alts, v.tag, v.payload);
      case Vec(e) => EncodeItemsLaw(e, v.items);
      case Map(e) => EncodeItemsLaw(e, v.entries);
      case _ =>
    }
  }

  lemma {:induction false} EncodeInLaw(alts: Alternatives, tag: nat, v: Value)
    requires HasTypeIn(alts, tag, v)
    ensures Promised(EncodeIn(alts, tag, v, Buffering), FitsIn(alts, tag, v), SizeIn(alts, tag, v))
    ensures EncodeIn(alts, tag, v, Preallocating) == EncodeIn(alts, tag, v, Buffering)
    decreases alts, 0
  {
    if alts.tag == tag {
      EncodeLaw(alts.payload, v);
    } else {
      EncodeInLaw(alts.others, tag, v);
    }
  }

  lemma {:induction false} EncodeAllLaw(s: Schema, vs: seq<Value>)
    requires AllTyped(s, vs)
    ensures Promised(EncodeAll(s, vs, Buffering), AllFit(s, vs), SizeAll(s, vs))
    ensures EncodeAll(s, vs, Preallocating) == EncodeAll(s, vs, Buffering)
    decreases s, 1 + |vs|
  {
    if |vs| > 0 {
      EncodeLaw(s, vs[0]);
      EncodeAllLaw(s, vs[1..]);
    }
  }

  lemma {:induction false} EncodeItemsLaw(s: Schema, vs: seq<Value>)
    requires AllTyped(s, vs)
    ensures Promised(EncodeItems(s, vs, Buffering), AllFit(s, vs) && SizeAll(s, vs) <= MAX,
                     HeaderSize(SizeAll(s, vs)) + SizeAll(s, vs))
    ensures EncodeItems(s, vs, Preallocating) == EncodeItems(s, vs, Buffering)
    decreases s, 2 + |vs|
  {
    hide EncodeAll, AllFit, SizeAll, AllTyped;
    EncodeAllLaw(s, vs);
  }

  lemma ConsLaw(s: Schema, v: Value, vs: seq<Value>)
    requires HasType(s, v) && AllTyped(s, vs)
    ensures AllTyped(s, [v] + vs)
    ensures SizeAll(s, [v] + vs) == Size(s, v) + SizeAll(s, vs)
    ensures AllFit(s, [v] + vs) <==> Fits(s, v) && AllFit(s, vs)
    ensures var b, bs := Encode(s, v, Buffering), EncodeAll(s, vs, Buffering);
            b.Ok? && bs.Ok? ==> EncodeAll(s, [v] + vs, Buffering) == Ok(b.value + bs.value)
  {
    assert ([v] + vs)[1..] == vs;
  }

  /** The bytes of a value that fits. */
  function Wire(s: Schema, v: Value): (b: ByteSeq)
    requires HasType(s, v) && Fits(s, v)
    ensures |b| == Size(s, v)
  {
    EncodeLaw(s, v);
    Encode(s, v, Buffering).value
  }

  // ----- Round trip -----

  lemma SplitInverse(body: ByteSeq, t: ByteSeq)
    requires |body| <= MAX
    ensures SplitOnCollection(EncodeVarInt(|body|) + body + t) == Parsed(Ok(body), t)
  {
    VarIntRoundTrip(|body|, body + t);
    assert EncodeVarInt(|body|) + body + t == EncodeVarInt(|body|) + (body + t);
  }

  /** Decoding an encoding gives the value back and leaves exactly the bytes that follow it. */
  lemma {:induction false} RoundTrip(s: Schema, v: Value, t: ByteSeq, strict: bool)
    requires WellFormed(s) && HasType(s, v) && Encode(s, v, Buffering).Ok?
    ensures Decode(s, Encode(s, v, Buffering).value + t, strict) == Parsed(Ok(v), t)
    decreases s, 3
  {
    match s {
      case Opt(_) => RoundTripOpt(s, v, t, strict);
      case Pair(_, _) => RoundTripPair(s, v, t, strict);
      case Enum(_, _) => RoundTripEnum(s, v, t, strict);
      case Vec(e) => RoundTripItems(e, v.items, t, strict);
      case Map(e) =>
        RoundTripItems(e, v.entries, t, strict);
        InsertAllDistinct([], v.entries);
        assert [] + v.entries == v.entries;
      case _ => RoundTripFlat(s, v, t, strict);
    }
  }

  lemma RoundTripFlat(s: Schema, v: Value, t: ByteSeq, strict: bool)
    requires !s.Opt? && !s.Pair? && !s.Enum? && !s.Vec? && !s.Map?
    requires HasType(s, v) && Encode(s, v, Buffering).Ok?
    ensures DecodeFlat(s, Encode(s, v, Buffering).value + t, strict) == Parsed(Ok(v), t)
  {
    var b := Encode(s, v, Buffering).value;
    match s {
      case Unit => assert b + t == t;
      case UInt(w) =>
        BigEndianInverse(v.n, w);
        assert (b + t)[..w] == b && (b + t)[w..] == t;
      case Bool => assert (b + t)[1..] == t;
      case VarLen => VarIntRoundTrip(v.n, t);
      case Array(n) => assert (b + t)[..n] == b && (b + t)[n..] == t;
      case ByteVec => SplitInverse(v.bytes, t);
    }
  }

  lemma {:induction false} RoundTripOpt(s: Schema, v: Value, t: ByteSeq, strict: bool)
    requires s.Opt? && WellFormed(s) && HasType(s, v) && Encode(s, v, Buffering).Ok?
    ensures Decode(s, Encode(s, v, Buffering).value + t, strict) == Parsed(Ok(v), t)
    decreases s, 0
  {
    hide ToBigEndian, FromBigEndian, Pow256, EncodeVarInt, DecodeVarInt, Size;
    hide DecodePair, DecodeEnum, DecodeVec, DecodeMap, DecodeFlat;
    var d := Encode(s, v, Buffering).value + t;
    if v.VSome? {
      RoundTrip(s.inner, v.some, t, strict);
      assert d[1..] == Encode(s.inner, v.some, Buffering).value + t;
    } else {
      assert d[1..] == t;
    }
  }

  lemma {:induction false} RoundTripPair(s: Schema, v: Value, t: ByteSeq, strict: bool)
    requires s.Pair? && WellFormed(s) && HasType(s, v) && Encode(s, v, Buffering).Ok?
    ensures Decode(s, Encode(s, v, Buffering).value + t, strict) == Parsed(Ok(v), t)
    decreases s, 0
  {
    var hd, tl := Encode(s.first, v.first, Buffering).value, Encode(s.second, v.second, Buffering).value;
    assert Encode(s, v, Buffering).value + t == hd + (tl + t);
    RoundTrip(s.first, v.first, tl + t, strict);
    RoundTrip(s.second, v.second, t, strict);
  }

  lemma {:induction false} RoundTripEnum(s: Schema, v: Value, t: ByteSeq, strict: bool)
    requires s.Enum? && WellFormed(s) && HasType(s, v) && Encode(s, v, Buffering).Ok?
    ensures Decode(s, Encode(s, v, Buffering).value + t, strict) == Parsed(Ok(v), t)
    decreases s, 0
  {
    var Enum(w, alts) := s;
    var tag := ToBigEndian(v.tag, w);
    var payload := EncodeIn(alts, v.tag, v.payload, Buffering).value;
    var d := Encode(s, v, Buffering).value + t;
    assert d == tag + (payload + t);
    assert d[..w] == tag && d[w..] == payload + t;
    BigEndianInverse(v.tag, w);
    RoundTripIn(w, alts, v.tag, v.payload, t, strict);
  }

  lemma {:induction false} RoundTripIn(w: nat, alts: Alternatives, tag: nat, v: Value, t: ByteSeq, strict: bool)
    requires WellFormedAlternatives(w, alts) && HasTypeIn(alts, tag, v) && EncodeIn(alts, tag, v, Buffering).Ok?
    ensures DecodeIn(w, alts, tag, EncodeIn(alts, tag, v, Buffering).value + t, strict) == Parsed(Ok(v), t)
    decreases alts, 0
  {
    if alts.tag == tag {
      RoundTrip(alts.payload, v, t, strict);
    } else {
      RoundTripIn(w, alts.others, tag, v, t, strict);
    }
  }

  lemma {:induction false} RoundTripItems(s: Schema, vs: seq<Value>, t: ByteSeq, strict: bool)
    requires WellFormed(s) && MinSize(s) >= 1 && AllTyped(s, vs) && EncodeItems(s, vs, Buffering).Ok?
    ensures var d := EncodeItems(s, vs, Buffering).value + t;
            && SplitOnCollection(d).result.Ok? && SplitOnCollection(d).rest == t
            && DecodeAll(s, SplitOnCollection(d).result.value, strict) == Ok(vs)
    decreases s, 5 + |vs|
  {
    var body := EncodeAll(s, vs, Buffering).value;
    SplitInverse(body, t);
    RoundTripAll(s, vs, strict);
  }

  /** What a loop that already holds `items` returns, given what the rest of the body decodes to. */
  function Prepend(items: seq<Value>, tail: Result<seq<Value>, CodecError>): Result<seq<Value>, CodecError> {
    if tail.Ok? then Ok(items + tail.value) else tail
  }

  lemma PrependNothing(tail: Result<seq<Value>, CodecError>)
    ensures Prepend([], tail) == tail
  {
    assert tail.Ok? ==> [] + tail.value == tail.value;
  }

  lemma PrependOne(items: seq<Value>, v: Value, tail: Result<seq<Value>, CodecError>)
    ensures Prepend(items, Prepend([v], tail)) == Prepend(items + [v], tail)
  {
    assert tail.Ok? ==> items + ([v] + tail.value) == items + [v] + tail.value;
  }

  /** One turn of the loop over a body. */
  lemma DecodeAllUnfold(s: Schema, d: ByteSeq, strict: bool)
    requires WellFormed(s) && MinSize(s) >= 1 && |d| > 0
    ensures var x := Decode(s, d, strict);
            DecodeAll(s, d, strict) ==
            if x.result.Err? then Err(x.result.error) else Prepend([x.result.value], DecodeAll(s, x.rest, strict))
  {
  }

  lemma {:induction false} RoundTripAll(s: Schema, vs: seq<Value>, strict: bool)
    requires WellFormed(s) && MinSize(s) >= 1 && AllTyped(s, vs) && EncodeAll(s, vs, Buffering).Ok?
    ensures DecodeAll(s, EncodeAll(s, vs, Buffering).value, strict) == Ok(vs)
    decreases s, 4 + |vs|
  {
    hide Decode, Encode, HasType, Size, WellFormed, MinSize;
    if |vs| > 0 {
      var d := EncodeAll(s, vs, Buffering).value;
      var tail := EncodeAll(s, vs[1..], Buffering).value;
      assert d == Encode(s, vs[0], Buffering).value + tail;
      RoundTrip(s, vs[0], tail, strict);
      assert Decode(s, d, strict) == Parsed(Ok(vs[0]), tail);
      assert |d| > 0;
      RoundTripAll(s, vs[1..], strict);
      DecodeAllUnfold(s, d, strict);
      assert Prepend([vs[0]], Ok(vs[1..])) == Ok(vs) by { assert [vs[0]] + vs[1..] == vs; }
    }
  }

  // ----- Maps -----

  lemma {:induction false} InsertNew(es: seq<Value>, e: Value)
    requires forall i :: 0 <= i < |es| ==> Key(es[i]) != Key(e)
    ensures Insert(es, e) == es + [e]
  {
    if |es| > 0 { InsertNew(es[1..], e); }
  }

  lemma {:induction false} InsertAllDistinct(es: seq<Value>, more: seq<Value>)
    requires DistinctKeys(es + more)
    ensures InsertAll(es, more) == es + more
    decreases |more|
  {
    if |more| == 0 {
      assert es + more == es;
    } else {
      assert forall i :: 0 <= i < |es| ==> Key(es[i]) != Key(more[0]) by {
        assert forall i :: 0 <= i < |es| ==> (es + more)[i] == es[i] && (es + more)[|es|] == more[0];
      }
      InsertNew(es, more[0]);
      assert es + [more[0]] + more[1..] == es + more;
      InsertAllDistinct(es + [more[0]], more[1..]);
    }
  }

  predicate HasKey(es: seq<Value>, k: Value) {
    exists i :: 0 <= i < |es| && Key(es[i]) == k
  }

  lemma {:induction false} InsertKeepsDistinct(es: seq<Value>, e: Value)
    requires DistinctKeys(es)
    ensures DistinctKeys(Insert(es, e))
    ensures forall k :: HasKey(Insert(es, e), k) ==> HasKey(es, k) || k == Key(e)
  {
    if |es| > 0 {
      var r := Insert(es, e);
      if Key(es[0]) == Key(e) {
        assert forall i :: 0 <= i < |es| ==> Key(r[i]) == Key(es[i]);
      } else {
        var tail := Insert(es[1..], e);
        InsertKeepsDistinct(es[1..], e);
        assert r == [es[0]] + tail;
        forall i, j | 0 <= i < j < |r| ensures Key(r[i]) != Key(r[j]) {
          assert r[j] == tail[j - 1];
          if i == 0 {
            assert HasKey(tail, Key(r[j]));
          } else {
            assert r[i] == tail[i - 1];
          }
        }
        forall k | HasKey(r, k) ensures HasKey(es, k) || k == Key(e) {
          var i :| 0 <= i < |r| && Key(r[i]) == k;
          if i > 0 { assert HasKey(tail, k); }
        }
      }
    }
  }

  /** Inserting keeps the entries typed and fitting, and adds at most the size of the new entry. */
  lemma {:induction false} InsertKeepsSize(s: Schema, es: seq<Value>, e: Value)
    requires AllTyped(s, es) && HasType(s, e) && AllFit(s, es) && Fits(s, e)
    ensures AllTyped(s, Insert(es, e)) && AllFit(s, Insert(es, e))
    ensures SizeAll(s, Insert(es, e)) <= SizeAll(s, es) + Size(s, e)
  {
    if |es| == 0 || Key(es[0]) == Key(e) {
      assert Insert(es, e)[1..] == if |es| == 0 then [] else es[1..];
    } else {
      InsertKeepsSize(s, es[1..], e);
      assert Insert(es, e)[1..] == Insert(es[1..], e);
    }
  }

  lemma {:induction false} InsertAllLaw(s: Schema, es: seq<Value>, more: seq<Value>)
    requires AllTyped(s, es) && AllTyped(s, more) && AllFit(s, es) && AllFit(s, more) && DistinctKeys(es)
    ensures var r := InsertAll(es, more);
            && DistinctKeys(r) && AllTyped(s, r) && AllFit(s, r)
            && SizeAll(s, r) <= SizeAll(s, es) + SizeAll(s, more)
    decreases |more|
  {
    if |more| > 0 {
      InsertKeepsDistinct(es, more[0]);
      InsertKeepsSize(s, es, more[0]);
      InsertAllLaw(s, Insert(es, more[0]), more[1..]);
    }
  }

  // ----- What decoding accepts -----

  /** The value is typed, encodes in no more bytes than were read and, read strictly, in those bytes. */
  ghost predicate Faithful(s: Schema, v: Value, used: ByteSeq, strict: bool) {
    && HasType(s, v)
    && Fits(s, v)
    && Size(s, v) <= |used|
    && (strict ==> Encode(s, v, Buffering) == Ok(used))
  }

  ghost predicate FaithfulIn(alts: Alternatives, tag: nat, v: Value, used: ByteSeq, strict: bool) {
    && HasTypeIn(alts, tag, v)
    && FitsIn(alts, tag, v)
    && SizeIn(alts, tag, v) <= |used|
    && (strict ==> EncodeIn(alts, tag, v, Buffering) == Ok(used))
  }

  /** The bytes that a read took off the front of `d`. */
  function Used(d: ByteSeq, rest: ByteSeq): ByteSeq
    requires |rest| <= |d|
  {
    d[..|d| - |rest|]
  }

  lemma UsedSplit(d: ByteSeq, x: ByteSeq, y: ByteSeq)
    requires IsSuffix(x, d) && IsSuffix(y, x)
    ensures IsSuffix(y, d) && Used(d, y) == Used(d, x) + Used(x, y)
  {
  }

  lemma FaithfulSome(s: Schema, v: Value, used: ByteSeq, strict: bool)
    requires Faithful(s, v, used, strict)
    ensures Faithful(Opt(s), VSome(v), [1] + used, strict)
  {
  }

  lemma FaithfulPair(s: Schema, v: Value, used: ByteSeq, s': Schema, v': Value, used': ByteSeq, strict: bool)
    requires Faithful(s, v, used, strict) && Faithful(s', v', used', strict)
    ensures Faithful(Pair(s, s'), VPair(v, v'), used + used', strict)
  {
  }

  lemma FaithfulEnum(s: Schema, tag: nat, v: Value, used: ByteSeq, strict: bool)
    requires s.Enum? && tag < Pow256(s.discriminant)
    requires FaithfulIn(s.alternatives, tag, v, used, strict)
    ensures Faithful(s, VEnum(tag, v), ToBigEndian(tag, s.discriminant) + used, strict)
  {
  }

  lemma {:induction false} DecodeLaw(s: Schema, d: ByteSeq, strict: bool)
    requires WellFormed(s) && Decode(s, d, strict).result.Ok?
    ensures var p := Decode(s, d, strict); Faithful(s, p.result.value, Used(d, p.rest), strict)
    decreases |d|, s, 1
  {
    match s {
      case Opt(_) => DecodeOptLaw(s, d, strict);
      case Pair(_, _) => DecodePairLaw(s, d, strict);
      case Enum(_, _) => DecodeEnumLaw(s, d, strict);
      case Vec(_) => DecodeVecLaw(s, d, strict);
      case Map(_) => DecodeMapLaw(s, d, strict);
      case _ => DecodeFlatLaw(s, d, strict);
    }
  }

  lemma DecodeUIntLaw(w: nat, d: ByteSeq)
    requires DecodeUInt(w, d).result.Ok?
    ensures var p := DecodeUInt(w, d);
            p.result.value < Pow256(w) && ToBigEndian(p.result.value, w) == Used(d, p.rest)
  {
    FromBigEndianInverse(d[..w]);
  }

  lemma SplitLaw(d: ByteSeq)
    requires SplitOnCollection(d).result.Ok?
    ensures var p := SplitOnCollection(d);
            && |p.result.value| <= MAX
            && Used(d, p.rest) == EncodeVarInt(|p.result.value|) + p.result.value
  {
    VarIntCanonical(d);
  }

  lemma DecodeFlatLaw(s: Schema, d: ByteSeq, strict: bool)
    requires !s.Opt? && !s.Pair? && !s.Enum? && !s.Vec? && !s.Map?
    requires DecodeFlat(s, d, strict).result.Ok?
    ensures var p := DecodeFlat(s, d, strict); Faithful(s, p.result.value, Used(d, p.rest), strict)
  {
    hide Faithful, DecodeUInt, DecodeVarInt, DecodeBool, DecodeFixed, SplitOnCollection, Used;
    match s {
      case Unit => UnitLaw(d, strict);
      case UInt(w) => UIntLaw(w, d, strict);
      case VarLen => VarLenLaw(d, strict);
      case Bool => BoolLaw(d, strict);
      case Array(n) => ArrayLaw(n, d, strict);
      case ByteVec => ByteVecLaw(d, strict);
    }
  }

  lemma UnitLaw(d: ByteSeq, strict: bool)
    ensures Faithful(Unit, VUnit, Used(d, d), strict)
  {
    assert Used(d, d) == [];
  }

  lemma UIntLaw(w: nat, d: ByteSeq, strict: bool)
    requires DecodeUInt(w, d).result.Ok?
    ensures var p := DecodeUInt(w, d); Faithful(UInt(w), VNat(p.result.value), Used(d, p.rest), strict)
  {
    DecodeUIntLaw(w, d);
  }

  lemma VarLenLaw(d: ByteSeq, strict: bool)
    requires DecodeVarInt(d).result.Ok?
    ensures var p := DecodeVarInt(d); Faithful(VarLen, VNat(p.result.value), Used(d, p.rest), strict)
  {
    hide DecodeVarInt, EncodeVarInt;
    VarIntCanonical(d);
  }

  lemma BoolLaw(d: ByteSeq, strict: bool)
    requires DecodeBool(d, strict).result.Ok?
    ensures var p := DecodeBool(d, strict); Faithful(Bool, p.result.value, Used(d, p.rest), strict)
  {
    assert Used(d, d[1..]) == [d[0]];
  }

  lemma ArrayLaw(n: nat, d: ByteSeq, strict: bool)
    requires DecodeFixed(n, d).result.Ok?
    ensures var p := DecodeFixed(n, d); Faithful(Array(n), VBytes(p.result.value), Used(d, p.rest), strict)
  {
  }

  lemma ByteVecLaw(d: ByteSeq, strict: bool)
    requires SplitOnCollection(d).result.Ok?
    ensures var p := SplitOnCollection(d); Faithful(ByteVec, VBytes(p.result.value), Used(d, p.rest), strict)
  {
    hide SplitOnCollection, EncodeVarInt;
    SplitLaw(d);
  }

  lemma {:induction false} DecodeOptLaw(s: Schema, d: ByteSeq, strict: bool)
    requires WellFormed(s) && s.Opt? && DecodeOpt(s, d, strict).result.Ok?
    ensures var p := DecodeOpt(s, d, strict); Faithful(s, p.result.value, Used(d, p.rest), strict)
    decreases |d|, s, 0
  {
    var p := DecodeOpt(s, d, strict);
    UsedSplit(d, d[1..], p.rest);
    assert Used(d, d[1..]) == [d[0]];
    if d[0] == 1 {
      DecodeLaw(s.inner, d[1..], strict);
      FaithfulSome(s.inner, p.result.value.some, Used(d[1..], p.rest), strict);
    }
  }

  lemma {:induction false} DecodePairLaw(s: Schema, d: ByteSeq, strict: bool)
    requires WellFormed(s) && s.Pair? && DecodePair(s, d, strict).result.Ok?
    ensures var p := DecodePair(s, d, strict); Faithful(s, p.result.value, Used(d, p.rest), strict)
    decreases |d|, s, 0
  {
    var x := Decode(s.first, d, strict);
    var y := Decode(s.second, x.rest, strict);
    DecodeLaw(s.first, d, strict);
    DecodeLaw(s.second, x.rest, strict);
    UsedSplit(d, x.rest, y.rest);
    FaithfulPair(s.first, x.result.value, Used(d, x.rest), s.second, y.result.value, Used(x.rest, y.rest), strict);
  }

  lemma {:induction false} DecodeEnumLaw(s: Schema, d: ByteSeq, strict: bool)
    requires WellFormed(s) && s.Enum? && DecodeEnum(s, d, strict).result.Ok?
    ensures var p := DecodeEnum(s, d, strict); Faithful(s, p.result.value, Used(d, p.rest), strict)
    decreases |d|, s, 0
  {
    var t := DecodeUInt(s.discriminant, d);
    var y := DecodeIn(s.discriminant, s.alternatives, t.result.value, t.rest, strict);
    DecodeUIntLaw(s.discriminant, d);
    DecodeInLaw(s.discriminant, s.alternatives, t.result.value, t.rest, strict);
    UsedSplit(d, t.rest, y.rest);
    FaithfulEnum(s, t.result.value, y.result.value, Used(t.rest, y.rest), strict);
  }

  lemma {:induction false} DecodeInLaw(w: nat, alts: Alternatives, tag: nat, d: ByteSeq, strict: bool)
    requires WellFormedAlternatives(w, alts) && DecodeIn(w, alts, tag, d, strict).result.Ok?
    ensures var p := DecodeIn(w, alts, tag, d, strict);
            FaithfulIn(alts, tag, p.result.value, Used(d, p.rest), strict)
    decreases |d|, alts, 0
  {
    if alts.tag == tag {
      DecodeLaw(alts.payload, d, strict);
    } else {
      DecodeInLaw(w, alts.others, tag, d, strict);
    }
  }

  lemma {:induction false} DecodeAllLaw(s: Schema, d: ByteSeq, strict: bool)
    requires WellFormed(s) && MinSize(s) >= 1 && DecodeAll(s, d, strict).Ok?
    ensures var vs := DecodeAll(s, d, strict).value;
            && AllTyped(s, vs) && AllFit(s, vs) && SizeAll(s, vs) <= |d|
            && (strict ==> EncodeAll(s, vs, Buffering) == Ok(d))
    decreases |d|, s, 2
  {
    hide Decode, Encode, HasType, Size, Fits, WellFormed, MinSize;
    if |d| > 0 {
      var x := Decode(s, d, strict);
      DecodeAllUnfold(s, d, strict);
      DecodeLaw(s, d, strict);
      DecodeAllLaw(s, x.rest, strict);
      ConsLaw(s, x.result.value, DecodeAll(s, x.rest, strict).value);
      assert d == Used(d, x.rest) + x.rest;
    }
  }

  lemma HeaderSizeMonotone(m: nat, n: nat)
    requires m <= n <= MAX
    ensures HeaderSize(m) <= HeaderSize(n) == |EncodeVarInt(n)|
  {
  }

  lemma {:induction false} DecodeVecLaw(s: Schema, d: ByteSeq, strict: bool)
    requires WellFormed(s) && s.Vec? && DecodeVec(s, d, strict).result.Ok?
    ensures var p := DecodeVec(s, d, strict); Faithful(s, p.result.value, Used(d, p.rest), strict)
    decreases |d|, s, 0
  {
    var body := SplitOnCollection(d).result.value;
    SplitLaw(d);
    DecodeAllLaw(s.element, body, strict);
    HeaderSizeMonotone(SizeAll(s.element, DecodeAll(s.element, body, strict).value), |body|);
  }

  lemma {:induction false} DecodeMapLaw(s: Schema, d: ByteSeq, strict: bool)
    requires WellFormed(s) && s.Map? && DecodeMap(s, d, strict).result.Ok?
    ensures var p := DecodeMap(s, d, strict); Faithful(s, p.result.value, Used(d, p.rest), strict)
    decreases |d|, s, 0
  {
    var body := SplitOnCollection(d).result.value;
    SplitLaw(d);
    DecodeAllLaw(s.entry, body, strict);
    var vs := DecodeAll(s.entry, body, strict).value;
    InsertAllLaw(s.entry, [], vs);
    HeaderSizeMonotone(SizeAll(s.entry, InsertAll([], vs)), |body|);
    if strict {
      InsertAllDistinct([], vs);
      assert [] + vs == vs;
    }
  }

  // ----- Canonical encodings -----

  /** No boolean and no map anywhere inside. */
  predicate Plain(s: Schema)
    decreases s
  {
    match s
    case Bool => false
    case Map(_) => false
    case Opt(t) => Plain(t)
    case Pair(a, b) => Plain(a) && Plain(b)
    case Enum(_, alts) => PlainIn(alts)
    case Vec(e) => Plain(e)
    case _ => true
  }

  predicate PlainIn(alts: Alternatives)
    decreases alts
  {
    match alts
    case NoMore => true
    case Alternative(_, p, others) => Plain(p) && PlainIn(others)
  }

  /** The strict reading differs only where it says so, and nowhere on a plain schema. */
  lemma {:induction false} StrictAgrees(s: Schema, d: ByteSeq)
    requires WellFormed(s)
    requires Decode(s, d, true).result != Err(NotCanonical) || Plain(s)
    ensures Decode(s, d, false) == Decode(s, d, true)
    decreases |d|, s, 0
  {
    match s {
      case Opt(t) => if |d| > 0 && d[0] == 1 { StrictAgrees(t, d[1..]); }
      case Pair(a, b) =>
        StrictAgrees(a, d);
        var x := Decode(a, d, true);
        if x.result.Ok? { StrictAgrees(b, x.rest); }
      case Enum(w, alts) =>
        var t := DecodeUInt(w, d);
        if t.result.Ok? { StrictAgreesIn(w, alts, t.result.value, t.rest); }
      case Vec(e) =>
        if SplitOnCollection(d).result.Ok? { StrictAgreesAll(e, SplitOnCollection(d).result.value); }
      case Map(e) =>
        if SplitOnCollection(d).result.Ok? { StrictAgreesAll(e, SplitOnCollection(d).result.value); }
      case _ =>
    }
  }

  lemma {:induction false} StrictAgreesIn(w: nat, alts: Alternatives, tag: nat, d: ByteSeq)
    requires WellFormedAlternatives(w, alts)
    requires DecodeIn(w, alts, tag, d, true).result != Err(NotCanonical) || PlainIn(alts)
    ensures DecodeIn(w, alts, tag, d, false) == DecodeIn(w, alts, tag, d, true)
    decreases |d|, alts, 0
  {
    match alts
    case NoMore =>
    case Alternative(t, s, others) =>
      if t == tag { StrictAgrees(s, d); } else { StrictAgreesIn(w, others, tag, d); }
  }

  lemma {:induction false} StrictAgreesAll(s: Schema, d: ByteSeq)
    requires WellFormed(s) && MinSize(s) >= 1
    requires DecodeAll(s, d, true) != Err(NotCanonical) || Plain(s)
    ensures DecodeAll(s, d, false) == DecodeAll(s, d, true)
    decreases |d|, s, 1
  {
    if |d| > 0 {
      var x := Decode(s, d, true);
      assert x.result != Err(NotCanonical) || Plain(s) by { DecodeAllUnfold(s, d, true); }
      StrictAgrees(s, d);
      if x.result.Ok? {
        assert DecodeAll(s, x.rest, true) != Err(NotCanonical) || Plain(s) by { DecodeAllUnfold(s, d, true); }
        StrictAgreesAll(s, x.rest);
      }
      DecodeAllUnfold(s, d, true);
      DecodeAllUnfold(s, d, false);
    }
  }

  /**
   An accepted input is the encoding of the value read from it, hash maps listed in the order in which
   they were read, exactly when the strict reading accepts it as well: no boolean byte above 1 and no
   repeated map key. Maps that choose their own order are in TreeMap.dfy.
   */
  lemma {:induction false} CanonicalExactly(s: Schema, d: ByteSeq)
    requires WellFormed(s) && Decode(s, d, false).result.Ok?
    ensures var p := Decode(s, d, false);
            && HasType(s, p.result.value) && Fits(s, p.result.value)
            && (d == Wire(s, p.result.value) + p.rest <==> Decode(s, d, true).result.Ok?)
  {
    hide Decode, Encode, HasType, Size, Fits, WellFormed;
    var p := Decode(s, d, false);
    var v := p.result.value;
    DecodeLaw(s, d, false);
    if d == Wire(s, v) + p.rest {
      EncodeLaw(s, v);
      RoundTrip(s, v, p.rest, true);
    }
    if Decode(s, d, true).result.Ok? {
      StrictAgrees(s, d);
      DecodeLaw(s, d, true);
      assert d == Used(d, p.rest) + p.rest;
    }
  }

  /** A boolean byte above 1 is read as true and written back as 1. */
  lemma LooseBoolean()
    ensures Decode(Bool, [2], false) == Parsed(Ok(VBool(true)), [])
            && Decode(Bool, [2], true).result == Err(NotCanonical)
    ensures HasType(Bool, VBool(true)) && Fits(Bool, VBool(true)) && Wire(Bool, VBool(true)) == [1]
  {
    EncodeLaw(Bool, VBool(true));
    assert [2][1..] == [];
  }

  /** The same value with the entries of its maps listed in another order, at any depth. */
  ghost predicate Reordered(v: Value, v': Value)
    decreases v
  {
    match v
    case VSome(x) => v'.VSome? && Reordered(x, v'.some)
    case VPair(x, y) => v'.VPair? && Reordered(x, v'.first) && Reordered(y, v'.second)
    case VEnum(tag, x) => v'.VEnum? && tag == v'.tag && Reordered(x, v'.payload)
    case VSeq(xs) =>
      v'.VSeq? && |xs| == |v'.items| && forall i :: 0 <= i < |xs| ==> Reordered(xs[i], v'.items[i])
    case VMap(es) =>
      && v'.VMap? && |es| == |v'.entries|
      && (forall x :: x in es ==> exists y :: y in v'.entries && Reordered(x, y))
      && (forall y :: y in v'.entries ==> exists x :: x in es && Reordered(x, y))
    case _ => v == v'
  }

  lemma {:induction false} ReorderedSelf(v: Value)
    ensures Reordered(v, v)
    decreases v
  {
    match v {
      case VSome(x) => ReorderedSelf(x);
      case VPair(x, y) =>
        ReorderedSelf(x);
        ReorderedSelf(y);
      case VEnum(_, x) => ReorderedSelf(x);
      case VSeq(xs) => forall i | 0 <= i < |xs| ensures Reordered(xs[i], xs[i]) { ReorderedSelf(xs[i]); }
      case VMap(es) => forall x | x in es ensures Reordered(x, x) { ReorderedSelf(x); }
      case _ =>
    }
  }

  /**
   A hash map iterates as it likes. With hash maps at any depth, an accepted input is an encoding of the
   value read, its maps listed in some order, exactly when the strict reading accepts it as well.
   */
  lemma {:induction false} AnyOrderCanonicalExactly(s: Schema, d: ByteSeq)
    requires WellFormed(s) && Decode(s, d, false).result.Ok?
    ensures var p := Decode(s, d, false);
            Decode(s, d, true).result.Ok? <==>
              exists v :: Reordered(p.result.value, v) && HasType(s, v) && Fits(s, v) && d == Wire(s, v) + p.rest
  {
    hide Decode, Encode, HasType, Size, Fits, WellFormed, Reordered;
    var p := Decode(s, d, false);
    CanonicalExactly(s, d);
    if Decode(s, d, true).result.Ok? { ReorderedSelf(p.result.value); }
    if v :| Reordered(p.result.value, v) && HasType(s, v) && Fits(s, v) && d == Wire(s, v) + p.rest {
      EncodeLaw(s, v);
      RoundTrip(s, v, p.rest, true);
    }
  }

  /** Plain schemas: whatever decodes is the one encoding of what it decodes to. */
  lemma {:induction false} PlainCanonical(s: Schema, d: ByteSeq)
    requires WellFormed(s) && Plain(s) && Decode(s, d, false).result.Ok?
    ensures var p := Decode(s, d, false);
            && HasType(s, p.result.value) && Fits(s, p.result.value)
            && d == Wire(s, p.result.value) + p.rest
  {
    StrictAgrees(s, d);
    CanonicalExactly(s, d);
  }

  /** No encoding is a proper prefix of another, and different values have different encodings. */
  lemma {:induction false} PrefixFree(s: Schema, v: Value, v': Value)
    requires WellFormed(s) && HasType(s, v) && HasType(s, v') && Fits(s, v) && Fits(s, v')
    requires Wire(s, v) <= Wire(s, v')
    ensures v == v'
  {
    hide Decode, Encode, HasType, Size, Fits, WellFormed;
    var t := Wire(s, v')[|Wire(s, v)|..];
    EncodeLaw(s, v);
    EncodeLaw(s, v');
    RoundTrip(s, v, t, false);
    RoundTrip(s, v', [], false);
    assert Wire(s, v) + t == Wire(s, v') + [];
  }
}
