/**
 The MLS wire codec as a deep embedding. A `Schema` stands for a Rust type that implements
 `MlsSize`, `MlsEncode` and `MlsDecode`; the three traits are the functions `Size`, `Encode`
 and `Decode`.
 */
module Schemas {
  import opened Bytes
  import opened CodecErrors
  import opened VarInts

  datatype Schema =
    | Unit                                   // a struct without fields
    | UInt(width: nat)                       // u8, u16, u32, u64, u128
    | Bool
    | VarLen                                 // VarInt itself
    | Array(size: nat)                       // [u8; N]
    | ByteVec                                // Vec<u8> through the byte_vec module
    | Opt(inner: Schema)                     // Option<T>
    | Pair(first: Schema, second: Schema)    // (T, U), and a struct's first field with the others
    | Enum(discriminant: nat, alternatives: Alternatives)
    | Vec(element: Schema)                   // Vec<T>
    | Map(entry: Schema)                     // HashMap<K, V>, entry a pair; BTreeMap in TreeMap.dfy

  /** The variants of a derived enum, each with the schema of its payload. */
  datatype Alternatives = NoMore | Alternative(tag: nat, payload: Schema, others: Alternatives)

  datatype Value =
    | VUnit
    | VNat(n: nat)
    | VBool(b: bool)
    | VBytes(bytes: ByteSeq)
    | VNone
    | VSome(some: Value)
    | VPair(first: Value, second: Value)
    | VEnum(tag: nat, payload: Value)
    | VSeq(items: seq<Value>)
    | VMap(entries: seq<Value>)   // the entries in the order in which the map iterates over them

  // ----- Well-formed schemas and typed values -----

  /** A lower bound on the bytes any value of the schema occupies. */
  function MinSize(s: Schema): nat {
    match s
    case Unit => 0
    case UInt(w) => w
    case Array(n) => n
    case Pair(a, b) => MinSize(a) + MinSize(b)
    case Enum(w, _) => w
    case _ => 1
  }

  predicate Tagged(alts: Alternatives, tag: nat) {
    match alts
    case NoMore => false
    case Alternative(t, _, others) => t == tag || Tagged(others, tag)
  }

  /**
   Integers have a Rust width, discriminants are distinct and fit, and the elements of a
   collection occupy at least one byte, without which the loops over `!data.is_empty()` stand still.
   */
  predicate WellFormed(s: Schema)
    decreases s
  {
    match s
    case UInt(w) => w in {1, 2, 4, 8, 16}
    case Opt(t) => WellFormed(t)
    case Pair(a, b) => WellFormed(a) && WellFormed(b)
    case Enum(w, alts) => w in {1, 2, 4, 8, 16} && WellFormedAlternatives(w, alts)
    case Vec(e) => WellFormed(e) && MinSize(e) >= 1
    case Map(e) => e.Pair? && WellFormed(e) && MinSize(e) >= 1
    case _ => true
  }

  predicate WellFormedAlternatives(w: nat, alts: Alternatives)
    decreases alts
  {
    match alts
    case NoMore => true
    case Alternative(t, p, others) =>
      t < Pow256(w) && !Tagged(others, t) && WellFormed(p) && WellFormedAlternatives(w, others)
  }

  function Key(entry: Value): Value {
    if entry.VPair? then entry.first else entry
  }

  predicate DistinctKeys(es: seq<Value>) {
    forall i, j :: 0 <= i < j < |es| ==> Key(es[i]) != Key(es[j])
  }

  predicate HasType(s: Schema, v: Value)
    decreases s, 0
  {
    match s
    case Unit => v.VUnit?
    case UInt(w) => v.VNat? && v.n < Pow256(w)
    case Bool => v.VBool?
    case VarLen => v.VNat? && v.n <= MAX
    case Array(n) => v.VBytes? && |v.bytes| == n
    case ByteVec => v.VBytes?
    case Opt(t) => v.VNone? || (v.VSome? && HasType(t, v.some))
    case Pair(a, b) => v.VPair? && HasType(a, v.first) && HasType(b, v.second)
    case Enum(w, alts) => v.VEnum? && v.tag < Pow256(w) && HasTypeIn(alts, v.tag, v.payload)
    case Vec(e) => v.VSeq? && AllTyped(e, v.items)
    case Map(e) => v.VMap? && AllTyped(e, v.entries) && DistinctKeys(v.entries)
  }

  predicate HasTypeIn(alts: Alternatives, tag: nat, v: Value)
    decreases alts, 0
  {
    match alts
    case NoMore => false
    case Alternative(t, p, others) => if t == tag then HasType(p, v) else HasTypeIn(others, tag, v)
  }

  predicate AllTyped(s: Schema, vs: seq<Value>)
    decreases s, 1 + |vs|
  {
    |vs| == 0 || (HasType(s, vs[0]) && AllTyped(s, vs[1..]))
  }

  // ----- MlsSize -----

  /** Bytes of the length header; a length out of range counts as `VarInt(0)`. */
  function HeaderSize(len: nat): nat {
    ByteCount(if len <= MAX then len else 0)
  }

  function Size(s: Schema, v: Value): nat
    requires HasType(s, v)
    decreases s, 0
  {
    match s
    case Unit => 0
    case UInt(w) => w
    case Bool => 1
    case VarLen => ByteCount(v.n)
    case Array(n) => n
    case ByteVec => HeaderSize(|v.bytes|) + |v.bytes|
    case Opt(t) => 1 + (if v.VSome? then Size(t, v.some) else 0)
    case Pair(a, b) => Size(a, v.first) + Size(b, v.second)
    case Enum(w, alts) => w + SizeIn(alts, v.tag, v.payload)
    case Vec(e) => HeaderSize(SizeAll(e, v.items)) + SizeAll(e, v.items)
    case Map(e) => HeaderSize(SizeAll(e, v.entries)) + SizeAll(e, v.entries)
  }

  function SizeIn(alts: Alternatives, tag: nat, v: Value): nat
    requires HasTypeIn(alts, tag, v)
    decreases alts, 0
  {
    match alts
    case Alternative(t, p, others) => if t == tag then Size(p, v) else SizeIn(others, tag, v)
  }

  function SizeAll(s: Schema, vs: seq<Value>): nat
    requires AllTyped(s, vs)
    decreases s, 1 + |vs|
  {
    if |vs| == 0 then 0 else Size(s, vs[0]) + SizeAll(s, vs[1..])
  }

  // ----- MlsEncode -----

  /** The `preallocate` feature chooses between the two collection encoders. */
  datatype Strategy = Buffering | Preallocating

  type Encoded = Result<ByteSeq, CodecError>

  /** A collection body behind the header that announces `len` bytes. */
  function Framed(len: nat, body: ByteSeq): Encoded {
    if len > MAX then Err(VarIntOutOfRange) else Ok(EncodeVarInt(len) + body)
  }

  function Encode(s: Schema, v: Value, how: Strategy): Encoded
    requires HasType(s, v)
    decreases s, 0
  {
    match s
    case Unit => Ok([])
    case UInt(w) => Ok(ToBigEndian(v.n, w))
    case Bool => Ok([if v.b then 1 else 0])
    case VarLen => Ok(EncodeVarInt(v.n))
    case Array(_) => Ok(v.bytes)
    case ByteVec => Framed(|v.bytes|, v.bytes)
    case Opt(t) =>
      if v.VNone? then Ok([0])
      else
        var b :- Encode(t, v.some, how);
        Ok([1] + b)
    case Pair(a, b) =>
      var x :- Encode(a, v.first, how);
      var y :- Encode(b, v.second, how);
      Ok(x + y)
    case Enum(w, alts) =>
      var b :- EncodeIn(alts, v.tag, v.payload, how);
      Ok(ToBigEndian(v.tag, w) + b)
    case Vec(e) => EncodeItems(e, v.items, how)
    case Map(e) => EncodeItems(e, v.entries, how)
  }

  function EncodeIn(alts: Alternatives, tag: nat, v: Value, how: Strategy): Encoded
    requires HasTypeIn(alts, tag, v)
    decreases alts, 0
  {
    match alts
    case Alternative(t, p, others) =>
      if t == tag then Encode(p, v, how) else EncodeIn(others, tag, v, how)
  }

  /** `iter::mls_encode`: one variant sums the sizes first, the other measures a filled buffer. */
  function EncodeItems(s: Schema, vs: seq<Value>, how: Strategy): Encoded
    requires AllTyped(s, vs)
    decreases s, 2 + |vs|
  {
    match how
    case Preallocating =>
      if SizeAll(s, vs) > MAX then Err(VarIntOutOfRange)
      else
        var body :- EncodeAll(s, vs, how);
        Ok(EncodeVarInt(SizeAll(s, vs)) + body)
    case Buffering =>
      var body :- EncodeAll(s, vs, how);
      Framed(|body|, body)
  }

  function EncodeAll(s: Schema, vs: seq<Value>, how: Strategy): Encoded
    requires AllTyped(s, vs)
    decreases s, 1 + |vs|
  {
    if |vs| == 0 then Ok([])
    else
      var b :- Encode(s, vs[0], how);
      var bs :- EncodeAll(s, vs[1..], how);
      Ok(b + bs)
  }

  // ----- MlsDecode -----

  /** Replaces the entry with the same key, or adds a new one: `insert` of a map. */
  function Insert(es: seq<Value>, e: Value): seq<Value> {
    if |es| == 0 then [e]
    else if Key(es[0]) == Key(e) then [e] + es[1..]
    else [es[0]] + Insert(es[1..], e)
  }

  function InsertAll(es: seq<Value>, more: seq<Value>): seq<Value>
    decreases |more|
  {
    if |more| == 0 then es else InsertAll(Insert(es, more[0]), more[1..])
  }

  function DecodeFixed(n: nat, d: ByteSeq): (p: Parsed<ByteSeq>)
    ensures IsSuffix(p.rest, d)
    ensures p.result.Ok? ==> d == p.result.value + p.rest && |p.result.value| == n
  {
    if |d| < n then Parsed(Err(UnexpectedEOF), d) else Parsed(Ok(d[..n]), d[n..])
  }

  function DecodeUInt(w: nat, d: ByteSeq): (p: Parsed<nat>)
    ensures IsSuffix(p.rest, d)
    ensures p.result.Ok? ==> |d| == w + |p.rest|
  {
    var b := DecodeFixed(w, d);
    if b.result.Err? then Parsed(Err(b.result.error), b.rest)
    else Parsed(Ok(FromBigEndian(b.result.value)), b.rest)
  }

  function DecodeBool(d: ByteSeq, strict: bool): (p: Parsed<Value>)
    ensures IsSuffix(p.rest, d)
    ensures p.result.Ok? ==> |d| == 1 + |p.rest|
  {
    if |d| == 0 then Parsed(Err(UnexpectedEOF), d)
    else if strict && d[0] > 1 then Parsed(Err(NotCanonical), d[1..])
    else Parsed(Ok(VBool(d[0] != 0)), d[1..])
  }

  /** The integer, array, optional, pair or enum built from what was just read. */
  function AsNat(p: Parsed<nat>): Parsed<Value> {
    if p.result.Err? then Parsed(Err(p.result.error), p.rest) else Parsed(Ok(VNat(p.result.value)), p.rest)
  }

  function AsBytes(p: Parsed<ByteSeq>): Parsed<Value> {
    if p.result.Err? then Parsed(Err(p.result.error), p.rest) else Parsed(Ok(VBytes(p.result.value)), p.rest)
  }

  function AsSome(p: Parsed<Value>): Parsed<Value> {
    if p.result.Err? then p else Parsed(Ok(VSome(p.result.value)), p.rest)
  }

  function AsPair(x: Value, p: Parsed<Value>): Parsed<Value> {
    if p.result.Err? then p else Parsed(Ok(VPair(x, p.result.value)), p.rest)
  }

  function AsEnum(tag: nat, p: Parsed<Value>): Parsed<Value> {
    if p.result.Err? then p else Parsed(Ok(VEnum(tag, p.result.value)), p.rest)
  }

  /**
   `mls_decode_split_on_collection`: the body of a collection. On failure the reader stays
   behind the header; afterwards it moves behind the body.
   */
  function SplitOnCollection(d: ByteSeq): (p: Parsed<ByteSeq>)
    ensures IsSuffix(p.rest, d)
    ensures p.result.Ok? ==> |p.result.value| + |p.rest| < |d|
  {
    var len := DecodeVarInt(d);
    if len.result.Err? then Parsed(Err(len.result.error), len.rest)
    else if len.result.value > |len.rest| then Parsed(Err(UnexpectedEOF), len.rest)
    else Parsed(Ok(len.rest[..len.result.value]), len.rest[len.result.value..])
  }

  /** `mls_decode_collection`: where the reader ends up once the body has been looked at. */
  function FinishCollection(d: ByteSeq, body: Result<Value, CodecError>): (p: Parsed<Value>)
    requires SplitOnCollection(d).result.Ok?
    ensures IsSuffix(p.rest, d)
    ensures p.result == body
    ensures p.result.Ok? ==> |p.rest| < |d|
  {
    Parsed(body, if body.Ok? then SplitOnCollection(d).rest else DecodeVarInt(d).rest)
  }

  function AsSeq(vs: Result<seq<Value>, CodecError>): Result<Value, CodecError> {
    if vs.Err? then Err(vs.error) else Ok(VSeq(vs.value))
  }

  function AsMap(vs: Result<seq<Value>, CodecError>, strict: bool): Result<Value, CodecError> {
    if vs.Err? then Err(vs.error)
    else if strict && !DistinctKeys(vs.value) then Err(NotCanonical)
    else Ok(VMap(InsertAll([], vs.value)))
  }

  /**
   `strict == false` is the code. The strict reading also refuses a boolean byte above 1 and a
   repeated map key; it serves as the reference for canonical input.
   */
  function Decode(s: Schema, d: ByteSeq, strict: bool): (p: Parsed<Value>)
    requires WellFormed(s)
    ensures IsSuffix(p.rest, d)
    ensures p.result.Ok? ==> |p.rest| + MinSize(s) <= |d|
    decreases |d|, s, 1
  {
    match s
    case Opt(_) => DecodeOpt(s, d, strict)
    case Pair(_, _) => DecodePair(s, d, strict)
    case Enum(_, _) => DecodeEnum(s, d, strict)
    case Vec(_) => DecodeVec(s, d, strict)
    case Map(_) => DecodeMap(s, d, strict)
    case _ => DecodeFlat(s, d, strict)
  }

  /** The schemas without parts. */
  function DecodeFlat(s: Schema, d: ByteSeq, strict: bool): (p: Parsed<Value>)
    requires !s.Opt? && !s.Pair? && !s.Enum? && !s.Vec? && !s.Map?
    ensures IsSuffix(p.rest, d)
    ensures p.result.Ok? ==> |p.rest| + MinSize(s) <= |d|
  {
    match s
    case Unit => Parsed(Ok(VUnit), d)
    case UInt(w) => AsNat(DecodeUInt(w, d))
    case Bool => DecodeBool(d, strict)
    case VarLen => AsNat(DecodeVarInt(d))
    case Array(n) => AsBytes(DecodeFixed(n, d))
    case ByteVec => AsBytes(SplitOnCollection(d))
  }

  function DecodeOpt(s: Schema, d: ByteSeq, strict: bool): (p: Parsed<Value>)
    requires WellFormed(s) && s.Opt?
    ensures IsSuffix(p.rest, d)
    ensures p.result.Ok? ==> |p.rest| < |d|
    decreases |d|, s, 0
  {
    if |d| == 0 then Parsed(Err(UnexpectedEOF), d)
    else if d[0] == 0 then Parsed(Ok(VNone), d[1..])
    else if d[0] == 1 then AsSome(Decode(s.inner, d[1..], strict))
    else Parsed(Err(OptionOutOfRange(d[0])), d[1..])
  }

  function DecodePair(s: Schema, d: ByteSeq, strict: bool): (p: Parsed<Value>)
    requires WellFormed(s) && s.Pair?
    ensures IsSuffix(p.rest, d)
    ensures p.result.Ok? ==> |p.rest| + MinSize(s) <= |d|
    decreases |d|, s, 0
  {
    var x := Decode(s.first, d, strict);
    if x.result.Err? then x
    else
      var y := Decode(s.second, x.rest, strict);
      SuffixTransitive(y.rest, x.rest, d);
      AsPair(x.result.value, y)
  }

  function DecodeEnum(s: Schema, d: ByteSeq, strict: bool): (p: Parsed<Value>)
    requires WellFormed(s) && s.Enum?
    ensures IsSuffix(p.rest, d)
    ensures p.result.Ok? ==> |p.rest| + MinSize(s) <= |d|
    decreases |d|, s, 0
  {
    var t := DecodeUInt(s.discriminant, d);
    if t.result.Err? then AsNat(t)
    else
      var y := DecodeIn(s.discriminant, s.alternatives, t.result.value, t.rest, strict);
      SuffixTransitive(y.rest, t.rest, d);
      AsEnum(t.result.value, y)
  }

  function DecodeVec(s: Schema, d: ByteSeq, strict: bool): (p: Parsed<Value>)
    requires WellFormed(s) && s.Vec?
    ensures IsSuffix(p.rest, d)
    ensures p.result.Ok? ==> |p.rest| < |d|
    decreases |d|, s, 0
  {
    var body := SplitOnCollection(d);
    if body.result.Err? then AsBytes(body)
    else FinishCollection(d, AsSeq(DecodeAll(s.element, body.result.value, strict)))
  }

  function DecodeMap(s: Schema, d: ByteSeq, strict: bool): (p: Parsed<Value>)
    requires WellFormed(s) && s.Map?
    ensures IsSuffix(p.rest, d)
    ensures p.result.Ok? ==> |p.rest| < |d|
    decreases |d|, s, 0
  {
    var body := SplitOnCollection(d);
    if body.result.Err? then AsBytes(body)
    else FinishCollection(d, AsMap(DecodeAll(s.entry, body.result.value, strict), strict))
  }

  /** The match on the discriminant: the first arm with the tag, or an error. */
  function DecodeIn(ghost w: nat, alts: Alternatives, tag: nat, d: ByteSeq, strict: bool): (p: Parsed<Value>)
    requires WellFormedAlternatives(w, alts)
    ensures IsSuffix(p.rest, d)
    decreases |d|, alts, 0
  {
    match alts
    case NoMore => Parsed(Err(UnsupportedEnumDiscriminant), d)
    case Alternative(t, s, others) =>
      if t == tag then Decode(s, d, strict) else DecodeIn(w, others, tag, d, strict)
  }

  /** The loop `while !data.is_empty()` over a collection body. */
  function DecodeAll(s: Schema, d: ByteSeq, strict: bool): Result<seq<Value>, CodecError>
    requires WellFormed(s) && MinSize(s) >= 1
    decreases |d|, s, 2
  {
    if |d| == 0 then Ok([])
    else
      var x := Decode(s, d, strict);
      if x.result.Err? then Err(x.result.error)
      else
        var xs :- DecodeAll(s, x.rest, strict);
        Ok([x.result.value] + xs)
  }
}
