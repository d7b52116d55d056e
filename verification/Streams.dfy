/** The codec as the code runs it: a reader that moves along its input, a writer that grows, and loops. */
module Streams {
  import opened Bits
  import opened Bytes
  import opened CodecErrors
  import opened VarInts
  import opened Schemas
  import opened CodecLaws

  /** `&mut &[u8]`. */
  class Reader {
    var data: ByteSeq

    constructor (d: ByteSeq)
      ensures data == d
    {
      data := d;
    }
  }

  /** `&mut Vec<u8>`. */
  class Writer {
    var out: ByteSeq

    constructor ()
      ensures out == []
    {
      out := [];
    }
  }

  // ----- VarInt -----

  lemma PowersNearByte()
    ensures Pow2(6) == 0x40 && Pow2(7) == 0x80 && Pow2(8) == 0x100
  {
    Pow2Values();
    assert Pow2(7) == 2 * Pow2(6) && Pow2(8) == 2 * Pow2(7);
  }

  /** The mask of the code on one byte. */
  lemma LowBits(b: Byte)
    ensures And(b, 0x3f, 8) == b % 0x40
  {
    hide And, Pow2;
    PowersNearByte();
    AndMask(b / 0x40, 6, b % 0x40, 8);
  }

  /** Setting a prefix in a byte with room for it. */
  lemma SetPrefix(b: Byte)
    requires b < 0x40
    ensures Or(b, 0x40, 8) == b + 0x40 && Or(b, 0x80, 8) == b + 0x80
  {
    hide Or, Pow2;
    PowersNearByte();
    OrDisjoint(1, 6, b, 8);
    OrDisjoint(1, 7, b, 8);
  }

  /** One step of the fold over the bytes after the first. */
  lemma FoldStep(d: ByteSeq, low: Byte, i: nat)
    requires low < 0x40 && 1 <= i <= 3 && i < |d|
    ensures Or(FromBigEndian([low] + d[1..i]) * 256, d[i], 32) == FromBigEndian([low] + d[1..i + 1])
  {
    hide Or, Pow2;
    var n := FromBigEndian([low] + d[1..i]);
    SmallPrefix(low, d[1..i]);
    Pow2Values();
    PowersNearByte();
    OrDisjoint(n, 8, d[i], 32);
    assert ([low] + d[1..i + 1])[..i] == [low] + d[1..i];
  }

  method ReadByte(r: Reader) returns (res: Result<Byte, CodecError>)
    modifies r
    ensures old(r.data) == [] ==> res == Err(UnexpectedEOF) && r.data == []
    ensures old(r.data) != [] ==> res == Ok(old(r.data)[0]) && r.data == old(r.data)[1..]
  {
    if |r.data| == 0 { return Err(UnexpectedEOF); }
    res := Ok(r.data[0]);
    r.data := r.data[1..];
  }

  /** `VarInt::mls_decode` with its shifts and masks reads what the arithmetic definition reads. */
  method ReadVarInt(r: Reader) returns (res: Result<nat, CodecError>)
    modifies r
    ensures Parsed(res, r.data) == DecodeVarInt(old(r.data))
  {
    hide And, Or, FromBigEndian, CountBytes, ByteCount;
    ghost var d := r.data;
    var b := ReadByte(r);
    if b.Err? { return Err(b.error); }
    var first := b.value;
    LowBits(first);
    var prefix := first / 64;
    if prefix >= 3 { return Err(InvalidVarIntPrefix(prefix)); }
    var count := Pow2(prefix);
    assert Pow2(0) == 1 && Pow2(1) == 2 && Pow2(2) == 4;
    var n := And(first, 0x3f, 8);
    var i := 1;
    ghost var low: Byte := d[0] % 0x40;
    SmallPrefix(low, []);
    assert [low] + d[1..1] == [low] + [];
    while i < count
      invariant 1 <= i <= count && i <= |d| && r.data == d[i..]
      invariant n == FromBigEndian([low] + d[1..i])
    {
      b := ReadByte(r);
      if b.Err? { return Err(b.error); }
      FoldStep(d, low, i);
      n := Or(n * 256, b.value, 32);
      i := i + 1;
    }
    HeaderBound([low] + d[1..count]);
    CountBytesIsShortest(n);
    var len := CountBytes(n);
    if len == Some(count) {
      res := Ok(n);
    } else {
      res := Err(VarIntMinimumLengthEncoding);
    }
  }

  lemma SmallPrefix(low: Byte, tail: ByteSeq)
    requires low < 0x40 && |tail| <= 2
    ensures FromBigEndian([low] + tail) < 0x100_0000
    ensures |tail| == 0 ==> FromBigEndian([low] + tail) == low
  {
    PowersOf256();
    BigEndianSplit(low, tail);
    FromBigEndianInverse(tail);
    if |tail| == 0 {
      assert Pow256(0) == 1 && FromBigEndian(tail) == 0;
    } else if |tail| == 1 {
      assert low * Pow256(1) <= 0x3f * 256;
    } else {
      assert low * Pow256(2) <= 0x3f * 65536;
    }
  }

  /** `VarInt::mls_encode`: set the prefix bits in the big-endian bytes, then append the tail that counts. */
  method WriteVarInt(n: nat, w: Writer)
    requires n <= MAX
    modifies w
    ensures w.out == old(w.out) + EncodeVarInt(n)
  {
    PowersOf256();
    var be := ToBigEndian(n, 4);
    var bytes := new Byte[4](i requires 0 <= i < 4 => be[i]);
    assert bytes[..] == be;
    CountBytesIsShortest(n);
    var len := CountBytes(n);
    var start := 0;
    if len == Some(1) {
      start := 3;
    } else if len == Some(2) {
      TopByte(n, 2);
      SetPrefix(bytes[2]);
      bytes[2] := Or(bytes[2], 0x40, 8);
      start := 2;
    } else {
      TopByte(n, 4);
      SetPrefix(bytes[0]);
      bytes[0] := Or(bytes[0], 0x80, 8);
    }
    MarkedTail(n, bytes[start..]);
    w.out := w.out + bytes[start..];
  }

  /** Big-endian bytes of a short integer: zeros, then the bytes of the shorter width. */
  lemma {:induction false} ShortTail(n: nat, narrow: nat, wide: nat)
    requires narrow <= wide && n < Pow256(narrow) && n < Pow256(wide)
    ensures ToBigEndian(n, wide)[wide - narrow..] == ToBigEndian(n, narrow)
  {
    if narrow > 0 {
      ShortTail(n / 256, narrow - 1, wide - 1);
      assert ToBigEndian(n, wide)[wide - narrow..] == ToBigEndian(n / 256, wide - 1)[wide - narrow..] + [n % 256];
    }
  }

  /** The byte that receives the prefix bits has them clear. */
  lemma TopByte(n: nat, count: nat)
    requires count in {2, 4} && ByteCount(n) == count && n <= MAX
    ensures n < Pow256(4) && ToBigEndian(n, 4)[4 - count] < 0x40
    ensures count == 2 ==> n < Pow256(2)
  {
    PowersOf256();
    ShortTail(n, count, 4);
    var t := ToBigEndian(n, count);
    assert t == ToBigEndian(n, 4)[4 - count..];
    BigEndianInverse(n, count);
    assert t == [t[0]] + t[1..];
    BigEndianSplit(t[0], t[1..]);
    FromBigEndianInverse(t[1..]);
  }

  lemma MarkedTail(n: nat, tail: ByteSeq)
    requires n <= MAX && |tail| == ByteCount(n)
    requires Pow256(4) == 0x1_0000_0000
    requires tail[1..] == ToBigEndian(n, 4)[5 - |tail|..]
    requires tail[0] as int
             == ToBigEndian(n, 4)[4 - |tail|] as int + (if |tail| == 1 then 0 else if |tail| == 2 then 0x40 else 0x80)
    ensures tail == EncodeVarInt(n)
  {
    var count := |tail|;
    PowersOf256();
    ShortTail(n, count, 4);
    var t := ToBigEndian(n, count);
    assert t == [t[0]] + t[1..];
    assert tail == [tail[0]] + t[1..];
    BigEndianInverse(n, count);
    BigEndianSplit(t[0], t[1..]);
    BigEndianSplit(tail[0], t[1..]);
    FromBigEndianInverse(tail);
  }

  // ----- Decoding -----

  /** `mls_decode`: reads what `Decode` says and leaves the reader where `Decode` says, on failure too. */
  method Read(s: Schema, r: Reader) returns (res: Result<Value, CodecError>)
    requires WellFormed(s)
    modifies r
    ensures Parsed(res, r.data) == Decode(s, old(r.data), false)
    decreases |r.data|, s, 1
  {
    match s {
      case Opt(_) => res := ReadOption(s, r);
      case Pair(_, _) => res := ReadPair(s, r);
      case Enum(_, _) => res := ReadEnum(s, r);
      case Vec(_) => res := ReadVec(s, r);
      case Map(_) => res := ReadMap(s, r);
      case _ => res := ReadFlat(s, r);
    }
  }

  method ReadFlat(s: Schema, r: Reader) returns (res: Result<Value, CodecError>)
    requires !s.Opt? && !s.Pair? && !s.Enum? && !s.Vec? && !s.Map?
    modifies r
    ensures Parsed(res, r.data) == DecodeFlat(s, old(r.data), false)
  {
    match s {
      case Unit => res := Ok(VUnit);
      case Bool =>
        var b := ReadByte(r);
        res := if b.Err? then Err(b.error) else Ok(VBool(b.value != 0));
      case VarLen =>
        var n := ReadVarInt(r);
        res := if n.Err? then Err(n.error) else Ok(VNat(n.value));
      case UInt(w) =>
        var b := ReadFixed(w, r);
        res := if b.Err? then Err(b.error) else Ok(VNat(FromBigEndian(b.value)));
      case Array(n) =>
        var b := ReadFixed(n, r);
        res := if b.Err? then Err(b.error) else Ok(VBytes(b.value));
      case ByteVec =>
        var split := SplitBody(r);
        if split.Err? { return Err(split.error); }
        r.data := split.value.1;
        res := Ok(VBytes(split.value.0));
    }
  }

  method ReadFixed(n: nat, r: Reader) returns (res: Result<ByteSeq, CodecError>)
    modifies r
    ensures Parsed(res, r.data) == DecodeFixed(n, old(r.data))
  {
    if |r.data| < n { return Err(UnexpectedEOF); }
    res := Ok(r.data[..n]);
    r.data := r.data[n..];
  }

  /** `mls_decode_split_on_collection`: moves behind the header only; the two halves are returned. */
  method SplitBody(r: Reader) returns (res: Result<(ByteSeq, ByteSeq), CodecError>)
    modifies r
    ensures var split := SplitOnCollection(old(r.data));
            if split.result.Ok? then res == Ok((split.result.value, split.rest)) else res == Err(split.result.error)
    ensures r.data == DecodeVarInt(old(r.data)).rest
  {
    var len := ReadVarInt(r);
    if len.Err? { return Err(len.error); }
    if len.value > |r.data| { return Err(UnexpectedEOF); }
    res := Ok((r.data[..len.value], r.data[len.value..]));
  }

  method ReadOption(s: Schema, r: Reader) returns (res: Result<Value, CodecError>)
    requires WellFormed(s) && s.Opt?
    modifies r
    ensures Parsed(res, r.data) == DecodeOpt(s, old(r.data), false)
    decreases |r.data|, s, 0
  {
    var marker := ReadByte(r);
    if marker.Err? { return Err(marker.error); }
    if marker.value == 0 { return Ok(VNone); }
    if marker.value != 1 { return Err(OptionOutOfRange(marker.value)); }
    var v := Read(s.inner, r);
    res := if v.Err? then v else Ok(VSome(v.value));
  }

  method ReadPair(s: Schema, r: Reader) returns (res: Result<Value, CodecError>)
    requires WellFormed(s) && s.Pair?
    modifies r
    ensures Parsed(res, r.data) == DecodePair(s, old(r.data), false)
    decreases |r.data|, s, 0
  {
    var x := Read(s.first, r);
    if x.Err? { return x; }
    var y := Read(s.second, r);
    res := if y.Err? then y else Ok(VPair(x.value, y.value));
  }

  method ReadEnum(s: Schema, r: Reader) returns (res: Result<Value, CodecError>)
    requires WellFormed(s) && s.Enum?
    modifies r
    ensures Parsed(res, r.data) == DecodeEnum(s, old(r.data), false)
    decreases |r.data|, s, 0
  {
    var b := ReadFixed(s.discriminant, r);
    if b.Err? { return Err(b.error); }
    var tag := FromBigEndian(b.value);
    var payload := ReadIn(s.discriminant, s.alternatives, tag, r);
    res := if payload.Err? then payload else Ok(VEnum(tag, payload.value));
  }

  method ReadIn(ghost w: nat, alts: Alternatives, tag: nat, r: Reader) returns (res: Result<Value, CodecError>)
    requires WellFormedAlternatives(w, alts)
    modifies r
    ensures Parsed(res, r.data) == DecodeIn(w, alts, tag, old(r.data), false)
    decreases |r.data|, alts, 0
  {
    match alts {
      case NoMore => res := Err(UnsupportedEnumDiscriminant);
      case Alternative(t, p, others) =>
        if t == tag {
          res := Read(p, r);
        } else {
          res := ReadIn(w, others, tag, r);
        }
    }
  }

  method ReadVec(s: Schema, r: Reader) returns (res: Result<Value, CodecError>)
    requires WellFormed(s) && s.Vec?
    modifies r
    ensures Parsed(res, r.data) == DecodeVec(s, old(r.data), false)
    decreases |r.data|, s, 0
  {
    var split := SplitBody(r);
    if split.Err? { return Err(split.error); }
    var items := ReadItems(s.element, split.value.0);
    if items.Err? { return Err(items.error); }
    r.data := split.value.1;
    res := Ok(VSeq(items.value));
  }

  /** The `while !data.is_empty()` loop. */
  method ReadItems(s: Schema, body: ByteSeq) returns (res: Result<seq<Value>, CodecError>)
    requires WellFormed(s) && MinSize(s) >= 1
    ensures res == DecodeAll(s, body, false)
    decreases |body|, s, 2
  {
    var data := new Reader(body);
    var items: seq<Value> := [];
    PrependNothing(DecodeAll(s, body, false));
    while |data.data| > 0
      invariant |data.data| <= |body|
      invariant DecodeAll(s, body, false) == Prepend(items, DecodeAll(s, data.data, false))
      decreases |data.data|
    {
      DecodeAllUnfold(s, data.data, false);
      var x := Read(s, data);
      if x.Err? { return Err(x.error); }
      PrependOne(items, x.value, DecodeAll(s, data.data, false));
      items := items + [x.value];
    }
    assert items + [] == items;
    res := Ok(items);
  }

  method ReadMap(s: Schema, r: Reader) returns (res: Result<Value, CodecError>)
    requires WellFormed(s) && s.Map?
    modifies r
    ensures Parsed(res, r.data) == DecodeMap(s, old(r.data), false)
    decreases |r.data|, s, 0
  {
    var split := SplitBody(r);
    if split.Err? { return Err(split.error); }
    var entries := ReadEntries(s.entry, split.value.0);
    if entries.Err? { return Err(entries.error); }
    r.data := split.value.1;
    res := Ok(VMap(entries.value));
  }

  /** The same loop for a map: each key and value read is inserted, replacing an earlier entry. */
  method ReadEntries(s: Schema, body: ByteSeq) returns (res: Result<seq<Value>, CodecError>)
    requires WellFormed(s) && MinSize(s) >= 1 && s.Pair?
    ensures var all := DecodeAll(s, body, false);
            res == if all.Ok? then Ok(InsertAll([], all.value)) else all
    decreases |body|, s, 2
  {
    var data := new Reader(body);
    var entries: seq<Value> := [];
    ghost var seen: seq<Value> := [];
    PrependNothing(DecodeAll(s, body, false));
    while |data.data| > 0
      invariant |data.data| <= |body|
      invariant DecodeAll(s, body, false) == Prepend(seen, DecodeAll(s, data.data, false))
      invariant entries == InsertAll([], seen)
      decreases |data.data|
    {
      DecodeAllUnfold(s, data.data, false);
      var e := ReadPair(s, data);
      if e.Err? { return Err(e.error); }
      PrependOne(seen, e.value, DecodeAll(s, data.data, false));
      InsertAllAppend([], seen, e.value);
      entries := Insert(entries, e.value);
      seen := seen + [e.value];
    }
    assert seen + [] == seen;
    res := Ok(entries);
  }

  lemma {:induction false} InsertAllAppend(es: seq<Value>, more: seq<Value>, e: Value)
    ensures InsertAll(es, more + [e]) == Insert(InsertAll(es, more), e)
    decreases |more|
  {
    if |more| == 0 {
      assert more + [e] == [e];
      assert InsertAll(Insert(es, e), [e][1..]) == Insert(es, e);
    } else {
      InsertAllAppend(Insert(es, more[0]), more[1..], e);
      assert (more + [e])[1..] == more[1..] + [e];
    }
  }

  // ----- Encoding -----

  /** Appends the encoding, or fails as `Encode` fails; what was written before stays in either case. */
  ghost predicate Wrote(res: Result<(), CodecError>, before: ByteSeq, after: ByteSeq, expected: Encoded) {
    && before <= after
    && (res.Ok? <==> expected.Ok?)
    && (res.Ok? ==> after == before + expected.value)
    && (res.Err? ==> res.error == expected.error)
  }

  method Write(s: Schema, v: Value, w: Writer, how: Strategy) returns (res: Result<(), CodecError>)
    requires HasType(s, v)
    modifies w
    ensures Wrote(res, old(w.out), w.out, Encode(s, v, how))
    decreases s, 1
  {
    match s {
      case Opt(t) =>
        if v.VNone? {
          w.out := w.out + [0];
          res := Ok(());
        } else {
          w.out := w.out + [1];
          res := Write(t, v.some, w, how);
        }
      case Pair(a, b) =>
        res := Write(a, v.first, w, how);
        if res.Ok? { res := Write(b, v.second, w, how); }
      case Enum(d, alts) =>
        w.out := w.out + ToBigEndian(v.tag, d);
        res := WriteIn(alts, v.tag, v.payload, w, how);
      case Vec(e) => res := WriteItems(e, v.items, w, how);
      case Map(e) => res := WriteItems(e, v.entries, w, how);
      case _ => res := WriteFlat(s, v, w, how);
    }
  }

  method WriteFlat(s: Schema, v: Value, w: Writer, how: Strategy) returns (res: Result<(), CodecError>)
    requires !s.Opt? && !s.Pair? && !s.Enum? && !s.Vec? && !s.Map? && HasType(s, v)
    modifies w
    ensures Wrote(res, old(w.out), w.out, Encode(s, v, how))
  {
    res := Ok(());
    match s {
      case Unit =>
      case UInt(n) => w.out := w.out + ToBigEndian(v.n, n);
      case Bool => w.out := w.out + [if v.b then 1 else 0];
      case VarLen => WriteVarInt(v.n, w);
      case Array(_) => w.out := w.out + v.bytes;
      case ByteVec =>
        if |v.bytes| > MAX { return Err(VarIntOutOfRange); }
        WriteVarInt(|v.bytes|, w);
        w.out := w.out + v.bytes;
    }
  }

  method WriteIn(alts: Alternatives, tag: nat, v: Value, w: Writer, how: Strategy) returns (res: Result<(), CodecError>)
    requires HasTypeIn(alts, tag, v)
    modifies w
    ensures Wrote(res, old(w.out), w.out, EncodeIn(alts, tag, v, how))
    decreases alts, 0
  {
    match alts
    case Alternative(t, p, others) =>
      if t == tag {
        res := Write(p, v, w, how);
      } else {
        res := WriteIn(others, tag, v, w, how);
      }
  }

  /** `iter::mls_encode` in its two variants. */
  method WriteItems(s: Schema, vs: seq<Value>, w: Writer, how: Strategy) returns (res: Result<(), CodecError>)
    requires AllTyped(s, vs)
    modifies w
    ensures Wrote(res, old(w.out), w.out, EncodeItems(s, vs, how))
    decreases s, 3
  {
    if how.Preallocating? {
      var len := SizeAll(s, vs);
      if len > MAX { return Err(VarIntOutOfRange); }
      WriteVarInt(len, w);
      res := WriteEach(s, vs, w, how);
    } else {
      var buffer := new Writer();
      res := WriteEach(s, vs, buffer, how);
      if res.Err? { return; }
      if |buffer.out| > MAX { return Err(VarIntOutOfRange); }
      WriteVarInt(|buffer.out|, w);
      w.out := w.out + buffer.out;
    }
  }

  /** What is written so far and what is left make up the whole. */
  ghost predicate Leaves(total: Encoded, before: ByteSeq, out: ByteSeq, left: Encoded) {
    && (left.Err? ==> total == left)
    && (left.Ok? ==> total.Ok? && before + total.value == out + left.value)
  }

  lemma EachStep(s: Schema, vs: seq<Value>, how: Strategy, before: ByteSeq, out: ByteSeq, i: nat)
    requires i < |vs| && AllTyped(s, vs) && AllTyped(s, vs[i..])
    requires Leaves(EncodeAll(s, vs, how), before, out, EncodeAll(s, vs[i..], how))
    ensures HasType(s, vs[i]) && AllTyped(s, vs[i + 1..])
    ensures var first := Encode(s, vs[i], how);
            && (first.Err? ==> EncodeAll(s, vs, how) == first)
            && (first.Ok? ==> Leaves(EncodeAll(s, vs, how), before, out + first.value, EncodeAll(s, vs[i + 1..], how)))
  {
    hide Encode, HasType;
    assert vs[i..][1..] == vs[i + 1..];
    var first, rest := Encode(s, vs[i], how), EncodeAll(s, vs[i + 1..], how);
    if first.Ok? && rest.Ok? { assert out + first.value + rest.value == out + (first.value + rest.value); }
  }

  lemma EachEnds(s: Schema, how: Strategy)
    ensures EncodeAll(s, [], how) == Ok([])
  {
  }

  method WriteEach(s: Schema, vs: seq<Value>, w: Writer, how: Strategy) returns (res: Result<(), CodecError>)
    requires AllTyped(s, vs)
    modifies w
    ensures Wrote(res, old(w.out), w.out, EncodeAll(s, vs, how))
    decreases s, 2
  {
    hide Encode, HasType, EncodeAll;
    var i := 0;
    ghost var before := w.out;
    assert vs[0..] == vs;
    while i < |vs|
      invariant 0 <= i <= |vs| && AllTyped(s, vs[i..]) && before <= w.out
      invariant Leaves(EncodeAll(s, vs, how), before, w.out, EncodeAll(s, vs[i..], how))
    {
      EachStep(s, vs, how, before, w.out, i);
      res := Write(s, vs[i], w, how);
      if res.Err? { return; }
      i := i + 1;
    }
    EachEnds(s, how);
    res := Ok(());
  }

  /** `mls_encode_to_vec`, whichever collection encoder is compiled in. */
  method EncodeToVec(s: Schema, v: Value, how: Strategy) returns (res: Encoded)
    requires HasType(s, v)
    ensures res == Encode(s, v, Buffering)
  {
    var w := new Writer();
    var r := Write(s, v, w, how);
    EncodeLaw(s, v);
    assert r.Ok? ==> w.out == [] + Encode(s, v, how).value == Encode(s, v, how).value;
    res := if r.Ok? then Ok(w.out) else Err(r.error);
  }
}
