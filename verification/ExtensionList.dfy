/** A map from extension type to extension data kept in a vector, mls-rs-core/src/extension/list.rs. */
module ExtensionLists {
  import opened Bytes
  import opened CodecErrors
  import opened VarInts
  import opened Schemas
  import opened CodecLaws
  import opened Streams
  import opened SmallMaps

  datatype Extension = Extension(extensionType: nat, data: ByteSeq)

  function AsPairs(es: seq<Extension>): (ps: seq<(nat, ByteSeq)>)
    ensures |ps| == |es|
    ensures forall i :: 0 <= i < |es| ==> ps[i] == (es[i].extensionType, es[i].data)
  {
    seq(|es|, i requires 0 <= i < |es| => (es[i].extensionType, es[i].data))
  }

  /** At most one entry per type. */
  predicate Unique(es: seq<Extension>) {
    forall i, j :: 0 <= i < j < |es| ==> es[i].extensionType != es[j].extensionType
  }

  predicate Has(es: seq<Extension>, t: nat) {
    exists i :: 0 <= i < |es| && es[i].extensionType == t
  }

  /** Type to data. */
  function Meaning(es: seq<Extension>): map<nat, ByteSeq> {
    ToMap(AsPairs(es))
  }

  lemma {:induction false} MeaningKeys(es: seq<Extension>, t: nat)
    ensures t in Meaning(es) <==> Has(es, t)
  {
    ToMapKeys(AsPairs(es), t);
    if i :| 0 <= i < |es| && es[i].extensionType == t { assert AsPairs(es)[i].0 == t; }
  }

  lemma {:induction false} MeaningAt(es: seq<Extension>, i: nat)
    requires Unique(es) && i < |es|
    ensures es[i].extensionType in Meaning(es) && Meaning(es)[es[i].extensionType] == es[i].data
  {
    ToMapAt(AsPairs(es), i);
  }

  /** `set` on values: replace the entry of the type where it stands, or add one at the end. */
  function SetIn(es: seq<Extension>, e: Extension): seq<Extension> {
    if |es| == 0 then [e]
    else if es[0].extensionType == e.extensionType then [e] + es[1..]
    else [es[0]] + SetIn(es[1..], e)
  }

  lemma {:induction false} SetInAt(es: seq<Extension>, e: Extension, i: nat)
    requires i < |es| && es[i].extensionType == e.extensionType
    requires forall j :: 0 <= j < i ==> es[j].extensionType != e.extensionType
    ensures SetIn(es, e) == es[i := e]
  {
    if i > 0 { SetInAt(es[1..], e, i - 1); }
  }

  lemma {:induction false} SetInNew(es: seq<Extension>, e: Extension)
    requires !Has(es, e.extensionType)
    ensures SetIn(es, e) == es + [e]
  {
    if |es| > 0 {
      assert es[0].extensionType != e.extensionType;
      forall i | 0 <= i < |es[1..]| ensures es[1..][i].extensionType != e.extensionType {
        assert es[1..][i] == es[i + 1];
      }
      SetInNew(es[1..], e);
    }
  }

  /** Setting keeps the types unique and overwrites one entry of the map. */
  lemma {:induction false} SetInLaw(es: seq<Extension>, e: Extension)
    requires Unique(es)
    ensures Unique(SetIn(es, e))
    ensures Meaning(SetIn(es, e)) == Meaning(es)[e.extensionType := e.data]
  {
    hide SetIn;
    if Has(es, e.extensionType) {
      var i :| 0 <= i < |es| && es[i].extensionType == e.extensionType;
      SetInAt(es, e, i);
      ReplaceLaw(es, e, i);
    } else {
      SetInNew(es, e);
      AppendLaw(es, e);
    }
  }

  lemma ReplaceLaw(es: seq<Extension>, e: Extension, i: nat)
    requires Unique(es) && i < |es| && es[i].extensionType == e.extensionType
    ensures Unique(es[i := e]) && Meaning(es[i := e]) == Meaning(es)[e.extensionType := e.data]
  {
    ToMapReplace(AsPairs(es), i, e.data);
    assert AsPairs(es[i := e]) == AsPairs(es)[i := (e.extensionType, e.data)];
  }

  lemma AppendLaw(es: seq<Extension>, e: Extension)
    requires Unique(es) && !Has(es, e.extensionType)
    ensures Unique(es + [e]) && Meaning(es + [e]) == Meaning(es)[e.extensionType := e.data]
  {
    assert AsPairs(es + [e])[..|es|] == AsPairs(es);
  }

  function SetAll(es: seq<Extension>, more: seq<Extension>): seq<Extension>
    decreases |more|
  {
    if |more| == 0 then es else SetAll(SetIn(es, more[0]), more[1..])
  }

  /** A map overwritten by a run of extensions: the last one of each type wins. */
  function Overwrite(m: map<nat, ByteSeq>, more: seq<Extension>): map<nat, ByteSeq>
    decreases |more|
  {
    if |more| == 0 then m else Overwrite(m[more[0].extensionType := more[0].data], more[1..])
  }

  lemma {:induction false} SetAllLaw(es: seq<Extension>, more: seq<Extension>)
    requires Unique(es)
    ensures Unique(SetAll(es, more))
    ensures Meaning(SetAll(es, more)) == Overwrite(Meaning(es), more)
    decreases |more|
  {
    if |more| > 0 {
      SetInLaw(es, more[0]);
      SetAllLaw(SetIn(es, more[0]), more[1..]);
    }
  }

  /** `retain(|e| e.extension_type != t)`. */
  function Without(es: seq<Extension>, t: nat): seq<Extension> {
    if |es| == 0 then []
    else if es[0].extensionType == t then Without(es[1..], t)
    else [es[0]] + Without(es[1..], t)
  }

  lemma {:induction false} WithoutAbsent(es: seq<Extension>, t: nat)
    requires !Has(es, t)
    ensures Without(es, t) == es
  {
    if |es| > 0 {
      forall i | 0 <= i < |es[1..]| ensures es[1..][i].extensionType != t { assert es[1..][i] == es[i + 1]; }
      assert es[0].extensionType != t;
      WithoutAbsent(es[1..], t);
    }
  }

  lemma {:induction false} WithoutAt(es: seq<Extension>, i: nat)
    requires Unique(es) && i < |es|
    ensures Without(es, es[i].extensionType) == es[..i] + es[i + 1..]
  {
    var t := es[i].extensionType;
    if i == 0 {
      forall j | 0 <= j < |es[1..]| ensures es[1..][j].extensionType != t { assert es[1..][j] == es[j + 1]; }
      WithoutAbsent(es[1..], t);
    } else {
      WithoutAt(es[1..], i - 1);
      assert es[..i] + es[i + 1..] == [es[0]] + (es[1..][..i - 1] + es[1..][i..]);
    }
  }

  lemma {:induction false} WithoutLaw(es: seq<Extension>, t: nat)
    requires Unique(es)
    ensures Unique(Without(es, t))
    ensures Meaning(Without(es, t)) == Meaning(es) - {t}
  {
    hide ToMap, Without;
    MeaningKeys(es, t);
    if Has(es, t) {
      var i :| 0 <= i < |es| && es[i].extensionType == t;
      WithoutAt(es, i);
      ToMapRemove(AsPairs(es), i);
      assert AsPairs(es[..i] + es[i + 1..]) == AsPairs(es)[..i] + AsPairs(es)[i + 1..];
    } else {
      WithoutAbsent(es, t);
      assert Meaning(es) - {t} == Meaning(es);
    }
  }

  // ----- The class -----

  class ExtensionList {
    var list: seq<Extension>

    ghost predicate Valid()
      reads this
    {
      Unique(list)
    }

    ghost function Contents(): map<nat, ByteSeq>
      reads this
    {
      Meaning(list)
    }

    constructor ()
      ensures list == [] && Valid() && Contents() == map[]
    {
      list := [];
    }

    /** The position of the first entry of a type. */
    method Position(t: nat) returns (at: Option<nat>)
      ensures at.Some? ==> at.value < |list| && list[at.value].extensionType == t
      ensures at.Some? ==> forall i :: 0 <= i < at.value ==> list[i].extensionType != t
      ensures at.None? ==> !Has(list, t)
    {
      var i := 0;
      while i < |list|
        invariant i <= |list|
        invariant forall j :: 0 <= j < i ==> list[j].extensionType != t
      {
        if list[i].extensionType == t { return Some(i); }
        i := i + 1;
      }
      at := None;
    }

    method Set(e: Extension)
      modifies this
      ensures list == SetIn(old(list), e)
      ensures old(Valid()) ==> Valid() && Contents() == old(Contents())[e.extensionType := e.data]
    {
      var at := Position(e.extensionType);
      if old(Valid()) { SetInLaw(list, e); }
      if at.Some? {
        SetInAt(list, e, at.value);
        list := list[at.value := e];
      } else {
        SetInNew(list, e);
        list := list + [e];
      }
    }

    method Extend(es: seq<Extension>)
      modifies this
      ensures list == SetAll(old(list), es)
      ensures old(Valid()) ==> Valid() && Contents() == Overwrite(old(Contents()), es)
    {
      if Unique(list) { SetAllLaw(list, es); }
      var i := 0;
      assert es[0..] == es;
      while i < |es|
        invariant i <= |es| && SetAll(list, es[i..]) == SetAll(old(list), es)
      {
        assert es[i..][1..] == es[i + 1..];
        Set(es[i]);
        i := i + 1;
      }
    }

    method Get(t: nat) returns (e: Option<Extension>)
      ensures e.Some? <==> Has(list, t)
      ensures e.Some? ==> e.value in list && e.value.extensionType == t
      ensures Valid() ==> (e.Some? <==> t in Contents())
      ensures Valid() && e.Some? ==> e.value.data == Contents()[t]
    {
      var at := Position(t);
      MeaningKeys(list, t);
      if at.Some? {
        if Unique(list) { MeaningAt(list, at.value); }
        e := Some(list[at.value]);
      } else {
        e := None;
      }
    }

    method Remove(t: nat)
      modifies this
      ensures list == Without(old(list), t)
      ensures old(Valid()) ==> Valid() && Contents() == old(Contents()) - {t}
    {
      if Unique(list) { WithoutLaw(list, t); }
      list := Without(list, t);
    }

    /** Only concatenates: the result has unique types exactly when both lists do and share none. */
    method Append(others: seq<Extension>)
      modifies this
      ensures list == old(list) + others
      ensures Valid() <==> old(Valid()) && Unique(others) && forall t :: !(Has(old(list), t) && Has(others, t))
    {
      AppendUnique(list, others);
      list := list + others;
    }
  }

  lemma {:induction false} AppendUnique(a: seq<Extension>, b: seq<Extension>)
    ensures Unique(a + b) <==> Unique(a) && Unique(b) && forall t :: !(Has(a, t) && Has(b, t))
  {
    var r := a + b;
    assert forall i :: 0 <= i < |a| ==> r[i] == a[i];
    assert forall j :: 0 <= j < |b| ==> r[|a| + j] == b[j];
    if t :| Has(a, t) && Has(b, t) {
      var i :| 0 <= i < |a| && a[i].extensionType == t;
      var j :| 0 <= j < |b| && b[j].extensionType == t;
      assert r[i].extensionType == r[|a| + j].extensionType;
    } else if Unique(a) && Unique(b) {
      forall i, j | 0 <= i < j < |r| ensures r[i].extensionType != r[j].extensionType {
        if i < |a| <= j {
          assert Has(a, r[i].extensionType);
          assert b[j - |a|] == r[j];
          assert !Has(b, r[i].extensionType);
        }
      }
    } else if !Unique(a) {
      var i, j :| 0 <= i < j < |a| && a[i].extensionType == a[j].extensionType;
      assert r[i].extensionType == r[j].extensionType;
    } else {
      var i, j :| 0 <= i < j < |b| && b[i].extensionType == b[j].extensionType;
      assert r[|a| + i].extensionType == r[|a| + j].extensionType;
    }
  }

  lemma {:induction false} LookupAppended(a: seq<Extension>, b: seq<Extension>, t: nat)
    ensures Lookup(a + b, t) == if Has(a, t) then Lookup(a, t) else Lookup(b, t)
  {
    if |a| == 0 {
      assert a + b == b;
    } else {
      assert (a + b)[1..] == a[1..] + b;
      LookupAppended(a[1..], b, t);
      if a[0].extensionType != t && Has(a, t) {
        var i :| 0 <= i < |a| && a[i].extensionType == t;
        assert a[1..][i - 1].extensionType == t;
      }
    }
  }

  /** The replacement that is documented: exactly when the lists agree on every type they share. */
  lemma {:induction false} AppendReplacesExactly(a: seq<Extension>, b: seq<Extension>)
    ensures (forall t :: Has(b, t) ==> Lookup(a + b, t) == Lookup(b, t))
            <==> forall t :: Has(a, t) && Has(b, t) ==> Lookup(a, t) == Lookup(b, t)
  {
    forall t ensures Lookup(a + b, t) == if Has(a, t) then Lookup(a, t) else Lookup(b, t) { LookupAppended(a, b, t); }
  }

  /** Where it fails: the old value is found. */
  lemma AppendKeepsOld()
    ensures var old', new' := Extension(1, [0]), Extension(1, [1]);
            Lookup([old'] + [new'], 1) == Some(old') && !Unique([old'] + [new'])
  {
    var r := [Extension(1, [0])] + [Extension(1, [1])];
    assert r[0].extensionType == r[1].extensionType;
  }

  // ----- Any run of operations -----

  datatype Op =
    | SetOne(e: Extension)
    | SetMany(es: seq<Extension>)        // extend
    | Collect(es: seq<Extension>)        // start over from an iterator
    | Drop(t: nat)
    | Receive(d: ByteSeq)                // start over from bytes, unless they are refused

  function RunMap(m: map<nat, ByteSeq>, ops: seq<Op>): map<nat, ByteSeq>
    decreases |ops|
  {
    if |ops| == 0 then m
    else
      match ops[0]
      case SetOne(e) => RunMap(m[e.extensionType := e.data], ops[1..])
      case SetMany(es) => RunMap(Overwrite(m, es), ops[1..])
      case Collect(es) => RunMap(Overwrite(map[], es), ops[1..])
      case Drop(t) => RunMap(m - {t}, ops[1..])
      case Receive(d) => RunMap(if DecodeList(d).result.Ok? then Meaning(DecodeList(d).result.value) else m, ops[1..])
  }

  /** Every run keeps one entry per type and does to the map what it does to the list. */
  method Run(l: ExtensionList, ops: seq<Op>)
    requires l.Valid()
    modifies l
    ensures l.Valid() && l.Contents() == RunMap(old(l.Contents()), ops)
  {
    hide DecodeList, Meaning, Overwrite;
    var i := 0;
    assert ops[0..] == ops;
    while i < |ops|
      invariant i <= |ops| && l.Valid()
      invariant RunMap(l.Contents(), ops[i..]) == RunMap(old(l.Contents()), ops)
    {
      assert ops[i..][1..] == ops[i + 1..];
      match ops[i] {
        case SetOne(e) => l.Set(e);
        case SetMany(es) => l.Extend(es);
        case Collect(es) =>
          var c := new ExtensionList();
          c.Extend(es);
          l.list := c.list;
        case Drop(t) => l.Remove(t);
        case Receive(d) =>
          var r := new Reader(d);
          var es := ReadList(r);
          if es.Ok? {
            DecodeListCanonical(d);
            l.list := es.value;
          }
      }
      i := i + 1;
    }
  }

  // ----- Equality -----

  function Lookup(es: seq<Extension>, t: nat): Option<Extension> {
    if |es| == 0 then None else if es[0].extensionType == t then Some(es[0]) else Lookup(es[1..], t)
  }

  /** `PartialEq`: same length, and every entry of the left list is found in the right one. */
  predicate Equal(a: seq<Extension>, b: seq<Extension>) {
    |a| == |b| && forall i :: 0 <= i < |a| ==> Lookup(b, a[i].extensionType) == Some(a[i])
  }

  lemma {:induction false} LookupMeaning(es: seq<Extension>, t: nat)
    requires Unique(es)
    ensures Lookup(es, t) == if t in Meaning(es) then Some(Extension(t, Meaning(es)[t])) else None
  {
    MeaningKeys(es, t);
    LookupFinds(es, t);
    if Has(es, t) {
      var i :| 0 <= i < |es| && es[i].extensionType == t;
      MeaningAt(es, i);
    }
  }

  lemma {:induction false} LookupFinds(es: seq<Extension>, t: nat)
    ensures Lookup(es, t).Some? <==> Has(es, t)
    ensures Lookup(es, t).Some? ==> Lookup(es, t).value in es && Lookup(es, t).value.extensionType == t
    ensures Unique(es) ==> forall i :: 0 <= i < |es| && es[i].extensionType == t ==> Lookup(es, t) == Some(es[i])
  {
    if |es| > 0 {
      LookupFinds(es[1..], t);
      if Has(es, t) && es[0].extensionType != t {
        var i :| 0 <= i < |es| && es[i].extensionType == t;
        assert es[1..][i - 1].extensionType == t;
      }
      if Has(es[1..], t) {
        var i :| 0 <= i < |es[1..]| && es[1..][i].extensionType == t;
        assert es[i + 1].extensionType == t;
      }
      forall i | Unique(es) && 0 <= i < |es| && es[i].extensionType == t ensures Lookup(es, t) == Some(es[i]) {
        if i > 0 { assert es[1..][i - 1] == es[i]; }
      }
    }
  }

  lemma {:induction false} MeaningSize(es: seq<Extension>)
    requires Unique(es)
    ensures |Meaning(es)| == |es|
  {
    if |es| > 0 {
      var n := |es| - 1;
      MeaningSize(es[..n]);
      assert AsPairs(es)[..n] == AsPairs(es[..n]);
      MeaningKeys(es[..n], es[n].extensionType);
      var m := Meaning(es[..n]);
      assert Meaning(es).Keys == m.Keys + {es[n].extensionType};
    }
  }

  lemma {:induction false} SubsetOfSameSize(a: set<nat>, b: set<nat>)
    requires a <= b && |a| == |b|
    ensures a == b
  {
    if x :| x in b && x !in a {
      assert a <= b - {x};
      SubsetSize(a, b - {x});
    }
  }

  lemma {:induction false} SubsetSize(a: set<nat>, b: set<nat>)
    requires a <= b
    ensures |a| <= |b|
  {
    if x :| x in a { SubsetSize(a - {x}, b - {x}); }
  }

  /** On lists with unique types the one-sided test is equality of the maps, in whatever order the entries stand. */
  lemma {:induction false} EqualIsMapEquality(a: seq<Extension>, b: seq<Extension>)
    requires Unique(a) && Unique(b)
    ensures Equal(a, b) <==> Meaning(a) == Meaning(b)
  {
    MeaningSize(a);
    MeaningSize(b);
    forall i | 0 <= i < |a|
      ensures Lookup(b, a[i].extensionType) == Some(a[i]) <==>
              a[i].extensionType in Meaning(b) && Meaning(b)[a[i].extensionType] == a[i].data
    {
      LookupMeaning(b, a[i].extensionType);
    }
    forall i | 0 <= i < |a| ensures a[i].extensionType in Meaning(a) && Meaning(a)[a[i].extensionType] == a[i].data {
      MeaningAt(a, i);
    }
    if Equal(a, b) {
      forall t | t in Meaning(a) ensures t in Meaning(b) && Meaning(b)[t] == Meaning(a)[t] {
        MeaningKeys(a, t);
        var i :| 0 <= i < |a| && a[i].extensionType == t;
      }
      SubsetOfSameSize(Meaning(a).Keys, Meaning(b).Keys);
    }
  }

  /** Without uniqueness the test is not even symmetric. */
  lemma RepeatedTypesBreakEquality()
    ensures var x, y := Extension(1, []), Extension(2, []);
            Equal([x, x], [x, y]) && !Equal([x, y], [x, x])
  {
    var x, y := Extension(1, []), Extension(2, []);
    assert Lookup([x, y], 1) == Some(x);
    LookupFinds([x, x], 2);
    assert [x, y][1] == y;
  }

  // ----- Decoding -----

  const EXTENSION: Schema := Pair(UInt(2), ByteVec)

  function FromValue(v: Value): Extension {
    if v.VPair? && v.first.VNat? && v.second.VBytes? then Extension(v.first.n, v.second.bytes) else Extension(0, [])
  }

  function ToValue(e: Extension): Value {
    VPair(VNat(e.extensionType), VBytes(e.data))
  }

  function FromValues(vs: seq<Value>): (es: seq<Extension>)
    ensures |es| == |vs|
    ensures forall i :: 0 <= i < |vs| ==> es[i] == FromValue(vs[i])
  {
    seq(|vs|, i requires 0 <= i < |vs| => FromValue(vs[i]))
  }

  /** The loop of the decoder: stop at the first malformed or repeated extension. */
  function DecodeBody(d: ByteSeq, seen: seq<Extension>): Result<seq<Extension>, CodecError>
    decreases |d|
  {
    if |d| == 0 then Ok(seen)
    else
      var x := Decode(EXTENSION, d, false);
      if x.result.Err? then Err(x.result.error)
      else if Has(seen, FromValue(x.result.value).extensionType) then Err(Custom(1))
      else DecodeBody(x.rest, seen + [FromValue(x.result.value)])
  }

  function DecodeList(d: ByteSeq): Parsed<seq<Extension>> {
    var body := SplitOnCollection(d);
    if body.result.Err? then Parsed(Err(body.result.error), body.rest)
    else
      var es := DecodeBody(body.result.value, []);
      Parsed(es, if es.Ok? then body.rest else DecodeVarInt(d).rest)
  }

  lemma {:induction false} DecodeBodyExactly(d: ByteSeq, seen: seq<Extension>)
    requires Unique(seen)
    ensures var all, r := DecodeAll(EXTENSION, d, false), DecodeBody(d, seen);
            && (r.Ok? <==> all.Ok? && Unique(seen + FromValues(all.value)))
            && (r.Ok? ==> r.value == seen + FromValues(all.value))
    decreases |d|
  {
    hide Decode;
    if |d| == 0 {
      assert seen + FromValues([]) == seen;
    } else {
      var x := Decode(EXTENSION, d, false);
      DecodeAllUnfold(EXTENSION, d, false);
      if x.result.Ok? {
        var e := FromValue(x.result.value);
        var tail := DecodeAll(EXTENSION, x.rest, false);
        if tail.Ok? {
          assert FromValues([x.result.value] + tail.value) == [e] + FromValues(tail.value);
          assert seen + ([e] + FromValues(tail.value)) == seen + [e] + FromValues(tail.value);
        }
        if Has(seen, e.extensionType) {
          if tail.Ok? { RepeatedType(seen, e, FromValues(tail.value)); }
        } else {
          DecodeBodyExactly(x.rest, seen + [e]);
        }
      }
    }
  }

  lemma RepeatedType(seen: seq<Extension>, e: Extension, tail: seq<Extension>)
    requires Has(seen, e.extensionType)
    ensures !Unique(seen + [e] + tail)
  {
    var i :| 0 <= i < |seen| && seen[i].extensionType == e.extensionType;
    var r := seen + [e] + tail;
    assert r[i] == seen[i] && r[|seen|] == e;
  }

  /** The decoder accepts what the plain vector decoder accepts, less the lists with a repeated type. */
  lemma {:induction false} DecodeListExactly(d: ByteSeq)
    ensures var p, q := DecodeList(d), Decode(Vec(EXTENSION), d, false);
            && (p.result.Ok? <==> q.result.Ok? && q.result.value.VSeq? && Unique(FromValues(q.result.value.items)))
            && (p.result.Ok? ==> p.result.value == FromValues(q.result.value.items) && p.rest == q.rest)
  {
    hide DecodeAll, DecodeBody;
    var body := SplitOnCollection(d);
    if body.result.Ok? {
      DecodeBodyExactly(body.result.value, []);
      var all := DecodeAll(EXTENSION, body.result.value, false);
      if all.Ok? { assert [] + FromValues(all.value) == FromValues(all.value); }
    }
  }

  function ToValues(es: seq<Extension>): (vs: seq<Value>)
    ensures |vs| == |es|
    ensures forall i :: 0 <= i < |es| ==> vs[i] == ToValue(es[i])
  {
    seq(|es|, i requires 0 <= i < |es| => ToValue(es[i]))
  }

  lemma {:induction false} ValuesInverse(vs: seq<Value>)
    requires AllTyped(EXTENSION, vs)
    ensures ToValues(FromValues(vs)) == vs
    ensures forall i :: 0 <= i < |vs| ==> FromValues(vs)[i].extensionType < 0x1_0000
  {
    PowersOf256();
    if |vs| > 0 {
      ValuesInverse(vs[1..]);
      assert FromValues(vs)[1..] == FromValues(vs[1..]);
      assert ToValues(FromValues(vs)) == [vs[0]] + ToValues(FromValues(vs[1..]));
      assert forall i :: 1 <= i < |vs| ==> FromValues(vs)[i] == FromValues(vs[1..])[i - 1];
    }
  }

  lemma {:induction false} ToValuesTyped(es: seq<Extension>)
    requires forall i :: 0 <= i < |es| ==> es[i].extensionType < 0x1_0000
    ensures AllTyped(EXTENSION, ToValues(es))
    ensures FromValues(ToValues(es)) == es
  {
    PowersOf256();
    if |es| > 0 {
      ToValuesTyped(es[1..]);
      assert ToValues(es)[1..] == ToValues(es[1..]);
    }
  }

  /** Accepted input is the encoding of a list with unique types, and nothing else. */
  lemma {:induction false} DecodeListCanonical(d: ByteSeq)
    requires DecodeList(d).result.Ok?
    ensures var es := DecodeList(d).result.value;
            && Unique(es)
            && var v := VSeq(ToValues(es));
            && HasType(Vec(EXTENSION), v) && Fits(Vec(EXTENSION), v)
            && d == Wire(Vec(EXTENSION), v) + DecodeList(d).rest
  {
    hide Decode, DecodeList, Wire, FromValues, ToValues, Fits;
    DecodeListExactly(d);
    PlainCanonical(Vec(EXTENSION), d);
    ValuesInverse(Decode(Vec(EXTENSION), d, false).result.value.items);
  }

  lemma {:induction false} DecodeListRoundTrip(es: seq<Extension>, t: ByteSeq)
    requires Unique(es) && forall i :: 0 <= i < |es| ==> es[i].extensionType < 0x1_0000
    ensures AllTyped(EXTENSION, ToValues(es))
    ensures var b := Encode(Vec(EXTENSION), VSeq(ToValues(es)), Buffering);
            b.Ok? ==> DecodeList(b.value + t) == Parsed(Ok(es), t)
  {
    hide Decode, DecodeList, FromValues, ToValues;
    ToValuesTyped(es);
    var v := VSeq(ToValues(es));
    var b := Encode(Vec(EXTENSION), v, Buffering);
    if b.Ok? {
      RoundTrip(Vec(EXTENSION), v, t, false);
      DecodeListExactly(b.value + t);
    }
  }

  /** The decoder as it runs. */
  method ReadList(r: Reader) returns (res: Result<seq<Extension>, CodecError>)
    modifies r
    ensures Parsed(res, r.data) == DecodeList(old(r.data))
  {
    var split := SplitBody(r);
    if split.Err? { return Err(split.error); }
    var data := new Reader(split.value.0);
    var list: seq<Extension> := [];
    while |data.data| > 0
      invariant DecodeBody(split.value.0, []) == DecodeBody(data.data, list)
      invariant r.data == DecodeVarInt(old(r.data)).rest
      decreases |data.data|
    {
      var x := Read(EXTENSION, data);
      if x.Err? { return Err(x.error); }
      var e := FromValue(x.value);
      if Has(list, e.extensionType) { return Err(Custom(1)); }
      list := list + [e];
    }
    r.data := split.value.1;
    res := Ok(list);
  }
}
