/**
 `BTreeMap` (mls-rs-codec/src/map.rs): a map that iterates, and therefore encodes, in the order of its
 keys, whatever order its entries arrived in.
 */
module TreeMaps {
  import opened Bytes
  import opened CodecErrors
  import opened VarInts
  import opened Schemas
  import opened CodecLaws
  import opened Collections
  import opened SmallMaps
  import opened Streams

  /** `Ord` on the keys. */
  type Order = (Value, Value) -> bool

  /** A strict order, total on the keys of the type. */
  ghost predicate StrictTotal(less: Order, keys: Schema) {
    && (forall a :: !less(a, a))
    && (forall a, b, c :: less(a, b) && less(b, c) ==> less(a, c))
    && (forall a, b :: HasType(keys, a) && HasType(keys, b) ==> a == b || less(a, b) || less(b, a))
  }

  predicate KeysTyped(keys: Schema, es: seq<Value>) {
    forall i :: 0 <= i < |es| ==> HasType(keys, Key(es[i]))
  }

  lemma {:induction false} TypedKeys(s: Schema, es: seq<Value>)
    requires s.Pair? && AllTyped(s, es)
    ensures KeysTyped(s.first, es)
  {
    if |es| > 0 {
      TypedKeys(s, es[1..]);
      forall i | 0 <= i < |es| ensures HasType(s.first, Key(es[i])) {
        if i > 0 { assert es[i] == es[1..][i - 1]; }
      }
    }
  }

  predicate Ascending(less: Order, es: seq<Value>) {
    forall i, j :: 0 <= i < j < |es| ==> less(Key(es[i]), Key(es[j]))
  }

  /** `BTreeMap::insert` on the entries in order. */
  function TreeInsert(less: Order, es: seq<Value>, e: Value): seq<Value> {
    if |es| == 0 || less(Key(e), Key(es[0])) then [e] + es
    else if Key(es[0]) == Key(e) then [e] + es[1..]
    else [es[0]] + TreeInsert(less, es[1..], e)
  }

  function TreeInsertAll(less: Order, es: seq<Value>, more: seq<Value>): seq<Value>
    decreases |more|
  {
    if |more| == 0 then es else TreeInsertAll(less, TreeInsert(less, es, more[0]), more[1..])
  }

  /** `mls_decode`: the entries as they are read, inserted one by one. */
  function DecodeTreeMap(e: Schema, less: Order, d: ByteSeq): Parsed<seq<Value>>
    requires WellFormed(Map(e))
  {
    var p := Decode(Vec(e), d, false);
    if p.result.Err? then Parsed(Err(p.result.error), p.rest)
    else
      DecodeLaw(Vec(e), d, false);
      Parsed(Ok(TreeInsertAll(less, [], p.result.value.items)), p.rest)
  }

  // ----- The entries of a tree map -----

  predicate Above(less: Order, k: Value, es: seq<Value>) {
    forall i :: 0 <= i < |es| ==> less(k, Key(es[i]))
  }

  lemma AscendingCons(less: Order, e: Value, es: seq<Value>)
    ensures Ascending(less, [e] + es) <==> Above(less, Key(e), es) && Ascending(less, es)
  {
    hide Above, Ascending;
    if Ascending(less, [e] + es) { AscendingSplits(less, e, es); }
    if Above(less, Key(e), es) && Ascending(less, es) { AscendingJoins(less, e, es); }
  }

  lemma AscendingSplits(less: Order, e: Value, es: seq<Value>)
    requires Ascending(less, [e] + es)
    ensures Above(less, Key(e), es) && Ascending(less, es)
  {
    hide Key;
    var r := [e] + es;
    forall i | 0 <= i < |es| ensures less(Key(e), Key(es[i])) { assert less(Key(r[0]), Key(r[i + 1])); }
    forall i, j | 0 <= i < j < |es| ensures less(Key(es[i]), Key(es[j])) { assert less(Key(r[i + 1]), Key(r[j + 1])); }
  }

  lemma AscendingJoins(less: Order, e: Value, es: seq<Value>)
    requires Above(less, Key(e), es) && Ascending(less, es)
    ensures Ascending(less, [e] + es)
  {
    hide Key;
    var r := [e] + es;
    forall i, j | 0 <= i < j < |r| ensures less(Key(r[i]), Key(r[j])) {
      assert r[j] == es[j - 1];
      if i > 0 { assert r[i] == es[i - 1]; }
    }
  }

  lemma AboveCons(less: Order, k: Value, e: Value, es: seq<Value>)
    ensures Above(less, k, [e] + es) <==> less(k, Key(e)) && Above(less, k, es)
  {
    var r := [e] + es;
    assert r[0] == e && forall i :: 0 <= i < |es| ==> r[i + 1] == es[i];
    if Above(less, k, r) {
      forall i | 0 <= i < |es| ensures less(k, Key(es[i])) { assert less(k, Key(r[i + 1])); }
    }
  }

  lemma {:induction false} TreeInsertAbove(less: Order, k: Value, es: seq<Value>, e: Value)
    requires Above(less, k, es) && less(k, Key(e))
    ensures Above(less, k, TreeInsert(less, es, e))
  {
    hide Above;
    if |es| == 0 || less(Key(e), Key(es[0])) {
      AboveCons(less, k, e, es);
    } else {
      assert es == [es[0]] + es[1..];
      AboveCons(less, k, es[0], es[1..]);
      if Key(es[0]) == Key(e) {
        AboveCons(less, k, e, es[1..]);
      } else {
        TreeInsertAbove(less, k, es[1..], e);
        AboveCons(less, k, es[0], TreeInsert(less, es[1..], e));
      }
    }
  }

  lemma AboveLess(keys: Schema, less: Order, k: Value, l: Value, es: seq<Value>)
    requires StrictTotal(less, keys) && less(k, l) && Above(less, l, es)
    ensures Above(less, k, es)
  {
  }

  lemma {:induction false} TreeInsertAscends(keys: Schema, less: Order, es: seq<Value>, e: Value)
    requires StrictTotal(less, keys) && Ascending(less, es) && KeysTyped(keys, es) && HasType(keys, Key(e))
    ensures Ascending(less, TreeInsert(less, es, e))
  {
    hide Above, Ascending;
    if |es| == 0 {
      AscendingCons(less, e, es);
      AboveNothing(less, Key(e));
    } else {
      assert es == [es[0]] + es[1..];
      AscendingCons(less, es[0], es[1..]);
      if less(Key(e), Key(es[0])) {
        AboveLess(keys, less, Key(e), Key(es[0]), es[1..]);
        AboveCons(less, Key(e), es[0], es[1..]);
        AscendingCons(less, e, es);
      } else if Key(es[0]) == Key(e) {
        AscendingCons(less, e, es[1..]);
      } else {
        TreeInsertAscends(keys, less, es[1..], e);
        TreeInsertAbove(less, Key(es[0]), es[1..], e);
        AscendingCons(less, es[0], TreeInsert(less, es[1..], e));
      }
    }
  }

  lemma AboveNothing(less: Order, k: Value)
    ensures Above(less, k, [])
  {
  }

  lemma Uncons(s: Schema, vs: seq<Value>)
    requires AllTyped(s, vs) && |vs| > 0
    ensures HasType(s, vs[0]) && AllTyped(s, vs[1..]) && SizeAll(s, vs) == Size(s, vs[0]) + SizeAll(s, vs[1..])
    ensures AllFit(s, vs) ==> Fits(s, vs[0]) && AllFit(s, vs[1..])
  {
    hide HasType, Fits, Size;
  }

  lemma {:induction false} TreeInsertKeepsSize(s: Schema, less: Order, es: seq<Value>, e: Value)
    requires AllTyped(s, es) && HasType(s, e) && AllFit(s, es) && Fits(s, e)
    ensures var r := TreeInsert(less, es, e);
            AllTyped(s, r) && AllFit(s, r) && SizeAll(s, r) <= SizeAll(s, es) + Size(s, e)
  {
    hide HasType, Fits, Size, AllTyped, AllFit, SizeAll, Encode, EncodeAll;
    if |es| == 0 || less(Key(e), Key(es[0])) {
      ConsLaw(s, e, es);
    } else {
      Uncons(s, es);
      if Key(es[0]) == Key(e) {
        ConsLaw(s, e, es[1..]);
      } else {
        TreeInsertKeepsSize(s, less, es[1..], e);
        ConsLaw(s, es[0], TreeInsert(less, es[1..], e));
      }
    }
  }

  /** A tree map is always in order, and encodes if the entries it was made of do. */
  lemma {:induction false} TreeInsertAllLaw(s: Schema, less: Order, es: seq<Value>, more: seq<Value>)
    requires s.Pair? && StrictTotal(less, s.first) && Ascending(less, es)
    requires AllTyped(s, es) && AllTyped(s, more) && AllFit(s, es) && AllFit(s, more)
    ensures var r := TreeInsertAll(less, es, more);
            && Ascending(less, r) && AllTyped(s, r) && AllFit(s, r)
            && SizeAll(s, r) <= SizeAll(s, es) + SizeAll(s, more)
    decreases |more|
  {
    hide StrictTotal, Ascending, TreeInsert, Fits, Size;
    if |more| > 0 {
      TypedKeys(s, es);
      TypedKeys(s, more);
      TreeInsertAscends(s.first, less, es, more[0]);
      TreeInsertKeepsSize(s, less, es, more[0]);
      TreeInsertAllLaw(s, less, TreeInsert(less, es, more[0]), more[1..]);
    }
  }

  lemma AscendingIsDistinct(keys: Schema, less: Order, es: seq<Value>)
    requires StrictTotal(less, keys) && Ascending(less, es)
    ensures DistinctKeys(es)
  {
  }

  /** Entries that arrive in order stay as they are. */
  lemma {:induction false} InOrderStays(keys: Schema, less: Order, es: seq<Value>, more: seq<Value>)
    requires StrictTotal(less, keys) && Ascending(less, es + more)
    ensures TreeInsertAll(less, es, more) == es + more
    decreases |more|
  {
    if |more| == 0 {
      assert es + more == es;
    } else {
      forall i | 0 <= i < |es| ensures less(Key(es[i]), Key(more[0])) {
        assert (es + more)[i] == es[i] && (es + more)[|es|] == more[0];
      }
      InsertLast(keys, less, es, more[0]);
      assert es + [more[0]] + more[1..] == es + more;
      InOrderStays(keys, less, es + [more[0]], more[1..]);
    }
  }

  lemma {:induction false} InsertLast(keys: Schema, less: Order, es: seq<Value>, e: Value)
    requires StrictTotal(less, keys) && forall i :: 0 <= i < |es| ==> less(Key(es[i]), Key(e))
    ensures TreeInsert(less, es, e) == es + [e]
  {
    if |es| > 0 {
      assert less(Key(es[0]), Key(e));
      InsertLast(keys, less, es[1..], e);
    }
  }

  // ----- It is the map of its entries -----

  lemma {:induction false} TreeInsertLookup(keys: Schema, less: Order, es: seq<Value>, e: Value, k: Value)
    requires StrictTotal(less, keys) && Ascending(less, es)
    ensures First(TreeInsert(less, es, e), k) == if k == Key(e) then Some(e) else First(es, k)
  {
    var r := TreeInsert(less, es, e);
    if |es| == 0 || less(Key(e), Key(es[0])) {
      assert r[1..] == es;
    } else if Key(es[0]) == Key(e) {
      assert r[1..] == es[1..];
    } else {
      assert r[1..] == TreeInsert(less, es[1..], e);
      TreeInsertLookup(keys, less, es[1..], e, k);
    }
  }

  /** The entry found first under a key. */
  function First(es: seq<Value>, k: Value): Option<Value> {
    if |es| == 0 then None else if Key(es[0]) == k then Some(es[0]) else First(es[1..], k)
  }

  /** Each key has the value written last. */
  lemma {:induction false} TreeLookup(s: Schema, less: Order, es: seq<Value>, more: seq<Value>, k: Value)
    requires s.Pair? && StrictTotal(less, s.first) && Ascending(less, es)
    requires AllTyped(s, es) && AllTyped(s, more) && AllFit(s, es) && AllFit(s, more)
    ensures First(TreeInsertAll(less, es, more), k) == if Latest(more, k).Some? then Latest(more, k) else First(es, k)
    decreases |more|
  {
    hide StrictTotal, Ascending, TreeInsert, Latest, First;
    LatestOfNothing(k);
    if |more| > 0 {
      TypedKeys(s, es);
      TypedKeys(s, more);
      TreeInsertAscends(s.first, less, es, more[0]);
      TreeInsertKeepsSize(s, less, es, more[0]);
      TreeInsertLookup(s.first, less, es, more[0], k);
      LatestCons(more, k);
      TreeLookup(s, less, TreeInsert(less, es, more[0]), more[1..], k);
    }
  }

  lemma LatestOfNothing(k: Value)
    ensures Latest([], k) == None
  {
  }

  // ----- The decoder as it runs -----

  lemma {:induction false} TreeInsertAllAppend(less: Order, es: seq<Value>, more: seq<Value>, e: Value)
    ensures TreeInsertAll(less, es, more + [e]) == TreeInsert(less, TreeInsertAll(less, es, more), e)
    decreases |more|
  {
    if |more| == 0 {
      assert more + [e] == [e];
      assert TreeInsertAll(less, TreeInsert(less, es, e), [e][1..]) == TreeInsert(less, es, e);
    } else {
      TreeInsertAllAppend(less, TreeInsert(less, es, more[0]), more[1..], e);
      assert (more + [e])[1..] == more[1..] + [e];
    }
  }

  method ReadTreeEntries(e: Schema, less: Order, body: ByteSeq) returns (res: Result<seq<Value>, CodecError>)
    requires WellFormed(Map(e))
    ensures var all := DecodeAll(e, body, false);
            res == if all.Ok? then Ok(TreeInsertAll(less, [], all.value)) else all
  {
    hide TreeInsert, TreeInsertAll;
    var data := new Reader(body);
    var entries: seq<Value> := [];
    ghost var seen: seq<Value> := [];
    PrependNothing(DecodeAll(e, body, false));
    NothingInserted(less);
    while |data.data| > 0
      invariant |data.data| <= |body|
      invariant DecodeAll(e, body, false) == Prepend(seen, DecodeAll(e, data.data, false))
      invariant entries == TreeInsertAll(less, [], seen)
      decreases |data.data|
    {
      DecodeAllUnfold(e, data.data, false);
      var x := Read(e, data);
      if x.Err? { return Err(x.error); }
      PrependOne(seen, x.value, DecodeAll(e, data.data, false));
      TreeInsertAllAppend(less, [], seen, x.value);
      entries := TreeInsert(less, entries, x.value);
      seen := seen + [x.value];
    }
    assert seen + [] == seen;
    res := Ok(entries);
  }

  lemma NothingInserted(less: Order)
    ensures TreeInsertAll(less, [], []) == []
  {
  }

  method ReadTreeMap(e: Schema, less: Order, r: Reader) returns (res: Result<seq<Value>, CodecError>)
    requires WellFormed(Map(e))
    modifies r
    ensures Parsed(res, r.data) == DecodeTreeMap(e, less, old(r.data))
  {
    ghost var d := r.data;
    var split := SplitBody(r);
    assert Decode(Vec(e), d, false) == DecodeVec(Vec(e), d, false);
    assert SplitOnCollection(d).result.Err? ==> SplitOnCollection(d).rest == DecodeVarInt(d).rest;
    if split.Err? { return Err(split.error); }
    var entries := ReadTreeEntries(e, less, split.value.0);
    if entries.Err? { return Err(entries.error); }
    r.data := split.value.1;
    res := Ok(entries.value);
  }

  // ----- Canonical input -----

  /** The entries read, and the tree map made of them, can be written. */
  lemma {:induction false} TreeMapFits(e: Schema, less: Order, d: ByteSeq)
    requires WellFormed(Map(e)) && StrictTotal(less, e.first) && DecodeTreeMap(e, less, d).result.Ok?
    ensures var es := DecodeTreeMap(e, less, d).result.value;
            Ascending(less, es) && HasType(Map(e), VMap(es)) && Fits(Map(e), VMap(es))
  {
    hide StrictTotal, Ascending, TreeInsertAll, Decode;
    DecodeLaw(Vec(e), d, false);
    var raw := Decode(Vec(e), d, false).result.value.items;
    AscendsTrivially(less);
    TreeInsertAllLaw(e, less, [], raw);
    AscendingIsDistinct(e.first, less, TreeInsertAll(less, [], raw));
  }

  lemma AscendsTrivially(less: Order)
    ensures Ascending(less, [])
  {
  }

  /**
   For any order on the keys: accepted input is the encoding of the tree map read from it exactly when
   the strict reading accepts it as well and the entries arrive in ascending order.
   */
  lemma {:induction false} TreeMapCanonicalExactly(e: Schema, less: Order, d: ByteSeq)
    requires WellFormed(Map(e)) && StrictTotal(less, e.first) && DecodeTreeMap(e, less, d).result.Ok?
    ensures Decode(Vec(e), d, false).result.Ok? && Decode(Vec(e), d, false).result.value.VSeq?
    ensures var p := DecodeTreeMap(e, less, d);
            && HasType(Map(e), VMap(p.result.value)) && Fits(Map(e), VMap(p.result.value))
            && (d == Wire(Map(e), VMap(p.result.value)) + p.rest <==>
                  Decode(Map(e), d, true).result.Ok? && Ascending(less, Decode(Vec(e), d, false).result.value.items))
  {
    hide Encode, HasType, Size, Fits, StrictTotal, Ascending, TreeInsertAll, Decode, InsertAll, WellFormed;
    MapElements(e);
    TreeMapFits(e, less, d);
    DecodeLaw(Vec(e), d, false);
    AsVec(e, d);
    var tree, rest := DecodeTreeMap(e, less, d).result.value, DecodeTreeMap(e, less, d).rest;
    var raw := Decode(Vec(e), d, false).result.value.items;
    if d == Wire(Map(e), VMap(tree)) + rest {
      EncodeLaw(Map(e), VMap(tree));
      RoundTrip(Map(e), VMap(tree), rest, true);
      MapEncodesAsVec(e, tree);
      RoundTrip(Vec(e), VSeq(tree), rest, false);
    }
    if Decode(Map(e), d, true).result.Ok? && Ascending(less, raw) {
      assert [] + raw == raw;
      AscendingIsDistinct(e.first, less, raw);
      InsertAllDistinct([], raw);
      InOrderStays(e.first, less, [], raw);
      CanonicalExactly(Map(e), d);
    }
  }

  lemma MapElements(e: Schema)
    requires WellFormed(Map(e))
    ensures e.Pair? && WellFormed(Vec(e))
  {
  }

  /** The two readings of a body. */
  lemma AsVec(e: Schema, d: ByteSeq)
    requires WellFormed(Map(e)) && Decode(Vec(e), d, false).result.Ok?
    ensures Decode(Vec(e), d, false).result.value.VSeq? && WellFormed(Vec(e))
    ensures Decode(Map(e), d, false)
            == Parsed(Ok(VMap(InsertAll([], Decode(Vec(e), d, false).result.value.items))),
                      Decode(Vec(e), d, false).rest)
  {
  }

  /** Some way of listing the entries of the same map, as a hash map may iterate. */
  ghost predicate Lists(e: Schema, entries: seq<Value>, es: seq<Value>) {
    && HasType(Map(e), VMap(es)) && Fits(Map(e), VMap(es))
    && ToMap(Pairs(es)) == ToMap(Pairs(entries))
  }

  /** A hash map has no order: accepted input is one of its encodings exactly when the strict reading accepts it. */
  lemma {:induction false} HashMapCanonicalExactly(e: Schema, d: ByteSeq)
    requires WellFormed(Map(e)) && Decode(Map(e), d, false).result.Ok?
    ensures var p := Decode(Map(e), d, false);
            && p.result.value.VMap?
            && (Decode(Map(e), d, true).result.Ok? <==>
                  exists es :: Lists(e, p.result.value.entries, es) && d == Wire(Map(e), VMap(es)) + p.rest)
  {
    hide Encode, Size, Decode, WellFormed, ToMap;
    var p := Decode(Map(e), d, false);
    DecodeLaw(Map(e), d, false);
    CanonicalExactly(Map(e), d);
    if Decode(Map(e), d, true).result.Ok? { assert Lists(e, p.result.value.entries, p.result.value.entries); }
    if es :| Lists(e, p.result.value.entries, es) && d == Wire(Map(e), VMap(es)) + p.rest {
      EncodeLaw(Map(e), VMap(es));
      RoundTrip(Map(e), VMap(es), p.rest, true);
    }
  }

  // ----- The input that tells them apart -----

  const BYTES_TO_BYTES: Schema := Pair(UInt(1), UInt(1))

  function ByNumber(a: Value, b: Value): bool {
    a.VNat? && b.VNat? && a.n < b.n
  }

  lemma OneByteEach(k: Byte, v: Byte)
    ensures HasType(BYTES_TO_BYTES, VPair(VNat(k), VNat(v))) && Fits(BYTES_TO_BYTES, VPair(VNat(k), VNat(v)))
    ensures Encode(BYTES_TO_BYTES, VPair(VNat(k), VNat(v)), Buffering) == Ok([k, v])
    ensures Size(BYTES_TO_BYTES, VPair(VNat(k), VNat(v))) == 2
  {
    OneByte(k, []);
    OneByte(v, []);
    assert [k] + [v] == [k, v];
  }

  function Entry(k: Byte, v: Byte): Value {
    VPair(VNat(k), VNat(v))
  }

  /** The bytes of two entries. */
  lemma {:induction false} TwoEntries(a: Byte, b: Byte)
    requires a != b
    ensures var v := VMap([Entry(a, 0), Entry(b, 0)]);
            HasType(Map(BYTES_TO_BYTES), v) && Fits(Map(BYTES_TO_BYTES), v)
              && Wire(Map(BYTES_TO_BYTES), v) == [4, a, 0, b, 0]
  {
    hide Encode, Size, HasType, Fits;
    var x, y := Entry(a, 0), Entry(b, 0);
    OneByteEach(a, 0);
    OneByteEach(b, 0);
    var s := BYTES_TO_BYTES;
    EmptyEnd(s);
    ConsLaw(s, y, []);
    ConsLaw(s, x, [y]);
    assert [x] + [y] == [x, y] && [y] + [] == [y];
    assert [a, 0] + ([b, 0] + []) == [a, 0, b, 0];
    MapWire(s, [x, y], [a, 0, b, 0]);
    assert EncodeVarInt(4) + [a, 0, b, 0] == [4, a, 0, b, 0] by { ShortHeader(4); }
  }

  lemma EmptyEnd(s: Schema)
    ensures AllTyped(s, []) && AllFit(s, []) && SizeAll(s, []) == 0 && EncodeAll(s, [], Buffering) == Ok([])
  {
  }

  lemma ShortHeader(n: Byte)
    requires n < 0x40
    ensures EncodeVarInt(n) == [n]
  {
    OneByte(n, []);
  }

  lemma MapWire(s: Schema, es: seq<Value>, body: ByteSeq)
    requires AllTyped(s, es) && AllFit(s, es) && DistinctKeys(es) && SizeAll(s, es) <= MAX && |body| <= MAX
    requires EncodeAll(s, es, Buffering) == Ok(body)
    ensures HasType(Map(s), VMap(es)) && Fits(Map(s), VMap(es))
    ensures Wire(Map(s), VMap(es)) == EncodeVarInt(|body|) + body
  {
    EncodeLaw(Map(s), VMap(es));
  }

  /** Two entries out of order: read without complaint, strictly too, but written back the other way round. */
  lemma {:induction false} OutOfOrderInput()
    ensures var d, s := [4, 2, 0, 1, 0], BYTES_TO_BYTES;
            && WellFormed(Map(s)) && StrictTotal(ByNumber, s.first)
            && Decode(Map(s), d, true).result.Ok?
            && DecodeTreeMap(s, ByNumber, d) == Parsed(Ok([Entry(1, 0), Entry(2, 0)]), [])
            && HasType(Map(s), VMap([Entry(1, 0), Entry(2, 0)])) && Fits(Map(s), VMap([Entry(1, 0), Entry(2, 0)]))
            && Wire(Map(s), VMap([Entry(1, 0), Entry(2, 0)])) == [4, 1, 0, 2, 0]
  {
    hide Encode, Size, HasType, Fits, Decode;
    var d: ByteSeq, s := [4, 2, 0, 1, 0], BYTES_TO_BYTES;
    NumbersOrdered();
    TwoEntries(2, 1);
    TwoEntries(1, 2);
    var raw := [Entry(2, 0), Entry(1, 0)];
    assert d + [] == d;
    EncodeLaw(Map(s), VMap(raw));
    RoundTrip(Map(s), VMap(raw), [], true);
    MapEncodesAsVec(s, raw);
    RoundTrip(Vec(s), VSeq(raw), [], false);
    assert raw[1..] == [Entry(1, 0)] && [Entry(1, 0)][1..] == [];
    assert TreeInsert(ByNumber, [], raw[0]) == [Entry(2, 0)];
    assert TreeInsert(ByNumber, [Entry(2, 0)], Entry(1, 0)) == [Entry(1, 0), Entry(2, 0)];
  }

  /** A repeated key: the last value is kept, and one entry is written back. */
  lemma {:induction false} RepeatedKeyInput()
    ensures var d, s := [4, 1, 0, 1, 1], BYTES_TO_BYTES;
            && WellFormed(Map(s))
            && Decode(Map(s), d, false) == Parsed(Ok(VMap([Entry(1, 1)])), [])
            && Decode(Map(s), d, true).result.Err?
            && HasType(Map(s), VMap([Entry(1, 1)])) && Fits(Map(s), VMap([Entry(1, 1)]))
            && Wire(Map(s), VMap([Entry(1, 1)])) == [2, 1, 1]
  {
    hide Encode, Size, HasType, Fits, Decode, EncodeVarInt;
    var d: ByteSeq, s := [4, 1, 0, 1, 1], BYTES_TO_BYTES;
    var raw := [Entry(1, 0), Entry(1, 1)];
    RepeatedBytes();
    MapDecodes(s, raw, []);
    assert d + [] == d && raw[1..] == [Entry(1, 1)] && [Entry(1, 1)][1..] == [];
    assert Insert([], raw[0]) == [Entry(1, 0)] && Insert([Entry(1, 0)], Entry(1, 1)) == [Entry(1, 1)];
    OneEntry();
    assert d != [2, 1, 1] + [];
    CanonicalExactly(Map(s), d);
  }

  lemma {:induction false} RepeatedBytes()
    ensures var raw := [Entry(1, 0), Entry(1, 1)];
            AllTyped(BYTES_TO_BYTES, raw) && EncodeItems(BYTES_TO_BYTES, raw, Buffering) == Ok([4, 1, 0, 1, 1])
  {
    hide Encode, Size, HasType, Fits, EncodeVarInt;
    var s, x, y := BYTES_TO_BYTES, Entry(1, 0), Entry(1, 1);
    OneByteEach(1, 0);
    OneByteEach(1, 1);
    EmptyEnd(s);
    ConsLaw(s, y, []);
    ConsLaw(s, x, [y]);
    assert [x] + [y] == [x, y] && [y] + [] == [y];
    assert [1, 0] + ([1, 1] + []) == [1, 0, 1, 1];
    ShortHeader(4);
    assert [4] + [1, 0, 1, 1] == [4, 1, 0, 1, 1];
  }

  lemma {:induction false} OneEntry()
    ensures var v := VMap([Entry(1, 1)]);
            HasType(Map(BYTES_TO_BYTES), v) && Fits(Map(BYTES_TO_BYTES), v) && Wire(Map(BYTES_TO_BYTES), v) == [2, 1, 1]
  {
    hide Encode, Size, HasType, Fits, EncodeVarInt;
    var s, x := BYTES_TO_BYTES, Entry(1, 1);
    OneByteEach(1, 1);
    EmptyEnd(s);
    ConsLaw(s, x, []);
    assert [x] + [] == [x] && [1, 1] + [] == [1, 1];
    MapWire(s, [x], [1, 1]);
    ShortHeader(2);
    assert [2] + [1, 1] == [2, 1, 1];
  }

  lemma NumbersOrdered()
    ensures StrictTotal(ByNumber, UInt(1))
  {
  }
}
