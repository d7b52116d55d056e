/**
 The map kept in a vector that `no_std` builds use (mls-rs/src/map.rs), against finite maps, and the
 map codecs (mls-rs-codec/src/map.rs) against both.
 */
module SmallMaps {
  import opened Bytes
  import opened CodecErrors
  import opened Schemas
  import opened CodecLaws
  import opened Collections
  import opened Streams

  // ----- A vector of pairs as a map -----

  predicate UniqueKeys<K(==), V>(es: seq<(K, V)>) {
    forall i, j :: 0 <= i < j < |es| ==> es[i].0 != es[j].0
  }

  /** The map a vector of pairs stands for; a later pair replaces an earlier one. */
  function ToMap<K(==), V>(es: seq<(K, V)>): map<K, V> {
    if |es| == 0 then map[] else ToMap(es[..|es| - 1])[es[|es| - 1].0 := es[|es| - 1].1]
  }

  lemma {:induction false} ToMapKeys<K, V>(es: seq<(K, V)>, k: K)
    ensures k in ToMap(es) <==> exists i :: 0 <= i < |es| && es[i].0 == k
  {
    if |es| > 0 {
      ToMapKeys(es[..|es| - 1], k);
      if es[|es| - 1].0 != k && k in ToMap(es) {
        var i :| 0 <= i < |es| - 1 && es[..|es| - 1][i].0 == k;
        assert es[i].0 == k;
      }
      if i :| 0 <= i < |es| && es[i].0 == k {
        if i < |es| - 1 { assert es[..|es| - 1][i].0 == k; }
      }
    }
  }

  lemma {:induction false} ToMapAt<K, V>(es: seq<(K, V)>, i: nat)
    requires UniqueKeys(es) && i < |es|
    ensures es[i].0 in ToMap(es) && ToMap(es)[es[i].0] == es[i].1
  {
    if i < |es| - 1 {
      ToMapAt(es[..|es| - 1], i);
    }
  }

  lemma {:induction false} ToMapRemove<K, V>(es: seq<(K, V)>, i: nat)
    requires UniqueKeys(es) && i < |es|
    ensures UniqueKeys(es[..i] + es[i + 1..])
    ensures ToMap(es[..i] + es[i + 1..]) == ToMap(es) - {es[i].0}
  {
    var n := |es| - 1;
    var init := es[..n];
    if i == n {
      assert es[..i] + es[i + 1..] == init;
      forall j | 0 <= j < n ensures init[j].0 != es[n].0 {}
      ToMapKeys(init, es[n].0);
    } else {
      ToMapRemove(init, i);
      var r := es[..i] + es[i + 1..];
      assert r[..n - 1] == init[..i] + init[i + 1..];
      assert r[n - 1] == es[n];
    }
  }

  lemma {:induction false} ToMapReplace<K, V>(es: seq<(K, V)>, i: nat, v: V)
    requires UniqueKeys(es) && i < |es|
    ensures UniqueKeys(es[i := (es[i].0, v)])
    ensures ToMap(es[i := (es[i].0, v)]) == ToMap(es)[es[i].0 := v]
  {
    var n := |es| - 1;
    var r := es[i := (es[i].0, v)];
    if i == n {
      assert r[..n] == es[..n];
    } else {
      ToMapReplace(es[..n], i, v);
      assert r[..n] == es[..n][i := (es[i].0, v)];
    }
  }

  // ----- The vector -----

  /** The first position with the key. */
  function Position<K(==), V>(es: seq<(K, V)>, k: K): (at: Option<nat>)
    ensures at.Some? ==> at.value < |es| && es[at.value].0 == k
    ensures at.Some? ==> forall i :: 0 <= i < at.value ==> es[i].0 != k
    ensures at.None? ==> forall i :: 0 <= i < |es| ==> es[i].0 != k
  {
    if |es| == 0 then None
    else if es[0].0 == k then Some(0)
    else
      var at := Position(es[1..], k);
      assert forall i :: 0 < i < |es| ==> es[i] == es[1..][i - 1];
      if at.Some? then Some(at.value + 1) else None
  }

  function VecGet<K(==), V>(es: seq<(K, V)>, k: K): Option<V> {
    var at := Position(es, k);
    if at.Some? then Some(es[at.value].1) else None
  }

  function VecInsert<K(==), V>(es: seq<(K, V)>, k: K, v: V): seq<(K, V)> {
    var at := Position(es, k);
    if at.Some? then es[at.value := (k, v)] else es + [(k, v)]
  }

  function VecRemove<K(==), V>(es: seq<(K, V)>, k: K): seq<(K, V)> {
    var at := Position(es, k);
    if at.Some? then es[..at.value] + es[at.value + 1..] else es
  }

  /** Operations on whatever vector there is; decoding does not ask for unique keys. */
  class SmallMap<K(==), V> {
    var entries: seq<(K, V)>

    constructor ()
      ensures entries == []
    {
      entries := [];
    }

    constructor FromVec(es: seq<(K, V)>)
      ensures entries == es
    {
      entries := es;
    }

    method Find(k: K) returns (at: Option<nat>)
      ensures at == Position(entries, k)
    {
      var i := 0;
      while i < |entries|
        invariant i <= |entries|
        invariant forall j :: 0 <= j < i ==> entries[j].0 != k
      {
        if entries[i].0 == k { return Some(i); }
        i := i + 1;
      }
      at := None;
    }

    method Get(k: K) returns (v: Option<V>)
      ensures v == VecGet(entries, k)
    {
      var at := Find(k);
      v := if at.Some? then Some(entries[at.value].1) else None;
    }

    method Insert(k: K, v: V)
      modifies this
      ensures entries == VecInsert(old(entries), k, v)
    {
      var at := Find(k);
      if at.Some? {
        entries := entries[at.value := (k, v)];
      } else {
        entries := entries + [(k, v)];
      }
    }

    method Remove(k: K) returns (v: Option<V>)
      modifies this
      ensures entries == VecRemove(old(entries), k) && v == VecGet(old(entries), k)
    {
      var at := Find(k);
      if at.None? { return None; }
      v := Some(entries[at.value].1);
      entries := entries[..at.value] + entries[at.value + 1..];
    }
  }

  // ----- One operation on unique keys -----

  function MapGet<K, V>(m: map<K, V>, k: K): Option<V> {
    if k in m then Some(m[k]) else None
  }

  lemma {:induction false} GetAgrees<K, V>(es: seq<(K, V)>, k: K)
    requires UniqueKeys(es)
    ensures VecGet(es, k) == MapGet(ToMap(es), k)
  {
    ToMapKeys(es, k);
    var at := Position(es, k);
    if at.Some? { ToMapAt(es, at.value); }
  }

  lemma {:induction false} InsertAgrees<K, V>(es: seq<(K, V)>, k: K, v: V)
    requires UniqueKeys(es)
    ensures UniqueKeys(VecInsert(es, k, v)) && ToMap(VecInsert(es, k, v)) == ToMap(es)[k := v]
  {
    var at := Position(es, k);
    if at.Some? {
      ToMapReplace(es, at.value, v);
    } else {
      assert (es + [(k, v)])[..|es|] == es;
    }
  }

  lemma {:induction false} RemoveAgrees<K, V>(es: seq<(K, V)>, k: K)
    requires UniqueKeys(es)
    ensures UniqueKeys(VecRemove(es, k)) && ToMap(VecRemove(es, k)) == ToMap(es) - {k}
  {
    var at := Position(es, k);
    ToMapKeys(es, k);
    if at.Some? {
      ToMapRemove(es, at.value);
    } else {
      assert ToMap(es) - {k} == ToMap(es);
    }
  }

  // ----- Any run of operations -----

  datatype Op<K, V> = Put(key: K, value: V) | Take(key: K) | Look(key: K)

  function VecStep<K(==), V>(es: seq<(K, V)>, op: Op<K, V>): (seq<(K, V)>, Option<V>) {
    match op
    case Put(k, v) => (VecInsert(es, k, v), None)
    case Take(k) => (VecRemove(es, k), VecGet(es, k))
    case Look(k) => (es, VecGet(es, k))
  }

  /** What a finite map becomes and answers. */
  function MapStep<K, V>(m: map<K, V>, op: Op<K, V>): (map<K, V>, Option<V>) {
    match op
    case Put(k, v) => (m[k := v], None)
    case Take(k) => (m - {k}, MapGet(m, k))
    case Look(k) => (m, MapGet(m, k))
  }

  function VecAnswers<K(==), V>(es: seq<(K, V)>, ops: seq<Op<K, V>>): seq<Option<V>>
    decreases |ops|
  {
    if |ops| == 0 then [] else [VecStep(es, ops[0]).1] + VecAnswers(VecStep(es, ops[0]).0, ops[1..])
  }

  function MapAnswers<K, V>(m: map<K, V>, ops: seq<Op<K, V>>): seq<Option<V>>
    decreases |ops|
  {
    if |ops| == 0 then [] else [MapStep(m, ops[0]).1] + MapAnswers(MapStep(m, ops[0]).0, ops[1..])
  }

  method Apply<K, V>(m: SmallMap<K, V>, op: Op<K, V>) returns (answer: Option<V>)
    modifies m
    ensures (m.entries, answer) == VecStep(old(m.entries), op)
  {
    match op {
      case Put(k, v) =>
        m.Insert(k, v);
        answer := None;
      case Take(k) => answer := m.Remove(k);
      case Look(k) => answer := m.Get(k);
    }
  }

  /** The answers of a run on the object. */
  method Run<K, V>(m: SmallMap<K, V>, ops: seq<Op<K, V>>) returns (answers: seq<Option<V>>)
    modifies m
    ensures answers == VecAnswers(old(m.entries), ops)
    ensures UniqueKeys(old(m.entries)) ==> answers == MapAnswers(ToMap(old(m.entries)), ops)
  {
    hide VecStep, MapStep, ToMap, MapAnswers;
    if UniqueKeys(m.entries) { RunAgrees(m.entries, ops); }
    answers := [];
    var i := 0;
    assert ops[0..] == ops && [] + VecAnswers(m.entries, ops) == VecAnswers(m.entries, ops);
    while i < |ops|
      invariant 0 <= i <= |ops|
      invariant answers + VecAnswers(m.entries, ops[i..]) == VecAnswers(old(m.entries), ops)
    {
      VecAnswersStep(answers, m.entries, ops, i);
      var answer := Apply(m, ops[i]);
      answers, i := answers + [answer], i + 1;
    }
  }

  lemma VecAnswersStep<K, V>(answers: seq<Option<V>>, es: seq<(K, V)>, ops: seq<Op<K, V>>, i: nat)
    requires i < |ops|
    ensures answers + VecAnswers(es, ops[i..]) ==
            answers + [VecStep(es, ops[i]).1] + VecAnswers(VecStep(es, ops[i]).0, ops[i + 1..])
  {
    hide VecStep;
    assert ops[i..][1..] == ops[i + 1..];
  }

  lemma {:induction false} StepAgrees<K, V>(es: seq<(K, V)>, op: Op<K, V>)
    requires UniqueKeys(es)
    ensures UniqueKeys(VecStep(es, op).0)
    ensures (ToMap(VecStep(es, op).0), VecStep(es, op).1) == MapStep(ToMap(es), op)
  {
    hide VecGet, VecInsert, VecRemove, MapGet, ToMap;
    match op {
      case Put(k, v) => InsertAgrees(es, k, v);
      case Take(k) =>
        GetAgrees(es, k);
        RemoveAgrees(es, k);
      case Look(k) => GetAgrees(es, k);
    }
  }

  lemma {:induction false} RunAgrees<K, V>(es: seq<(K, V)>, ops: seq<Op<K, V>>)
    requires UniqueKeys(es)
    ensures VecAnswers(es, ops) == MapAnswers(ToMap(es), ops)
    decreases |ops|
  {
    hide VecStep, MapStep, ToMap;
    if |ops| > 0 {
      StepAgrees(es, ops[0]);
      RunAgrees(VecStep(es, ops[0]).0, ops[1..]);
    }
  }

  /** A vector answers every run as its map does exactly when its keys are unique. */
  lemma {:induction false} RunsAgreeExactly<K(!new), V(!new)>(es: seq<(K, V)>)
    ensures UniqueKeys(es) <==> forall ops :: VecAnswers(es, ops) == MapAnswers(ToMap(es), ops)
  {
    if UniqueKeys(es) {
      forall ops ensures VecAnswers(es, ops) == MapAnswers(ToMap(es), ops) { RunAgrees(es, ops); }
    } else {
      var i, j :| 0 <= i < j < |es| && es[i].0 == es[j].0;
      RepeatShows(es, i, j);
      var told := [Take(es[i].0), Look(es[i].0)];
      assert VecAnswers(es, told) != MapAnswers(ToMap(es), told);
    }
  }

  /** A repeated key shows: after one removal the vector still finds it. */
  lemma {:induction false} RepeatShows<K, V>(es: seq<(K, V)>, i: nat, j: nat)
    requires i < j < |es| && es[i].0 == es[j].0
    ensures var told := [Take(es[i].0), Look(es[i].0)];
            VecAnswers(es, told) != MapAnswers(ToMap(es), told)
  {
    var k := es[i].0;
    var left := VecRemove(es, k);
    assert left[j - 1] == es[j];
    assert VecGet(left, k).Some?;
    TwoAnswers(es, ToMap(es), Take(k), Look(k));
  }

  lemma TwoAnswers<K, V>(es: seq<(K, V)>, m: map<K, V>, a: Op<K, V>, b: Op<K, V>)
    ensures VecAnswers(es, [a, b]) == [VecStep(es, a).1, VecStep(VecStep(es, a).0, b).1]
    ensures MapAnswers(m, [a, b]) == [MapStep(m, a).1, MapStep(MapStep(m, a).0, b).1]
  {
    hide VecStep, MapStep;
    assert [a, b][1..] == [b] && [b][1..] == [];
    assert VecAnswers(VecStep(es, a).0, [b]) == [VecStep(VecStep(es, a).0, b).1];
    assert MapAnswers(MapStep(m, a).0, [b]) == [MapStep(MapStep(m, a).0, b).1];
  }

  // ----- The codec of maps -----

  function Second(entry: Value): Value {
    if entry.VPair? then entry.second else entry
  }

  /** The entries of a decoded vector or map as pairs. */
  function Pairs(es: seq<Value>): (ps: seq<(Value, Value)>)
    ensures |ps| == |es|
    ensures forall i :: 0 <= i < |es| ==> ps[i] == (Key(es[i]), Second(es[i]))
  {
    seq(|es|, i requires 0 <= i < |es| => (Key(es[i]), Second(es[i])))
  }

  /** `es` lists the entries of `m` in some order. */
  ghost predicate Enumerates(es: seq<Value>, m: map<Value, Value>) {
    && DistinctKeys(es)
    && (forall i :: 0 <= i < |es| ==> es[i].VPair? && es[i].first in m && m[es[i].first] == es[i].second)
    && (forall k :: k in m ==> exists i :: 0 <= i < |es| && Key(es[i]) == k)
  }

  lemma {:induction false} EnumerationMeaning(es: seq<Value>, m: map<Value, Value>)
    requires Enumerates(es, m)
    ensures ToMap(Pairs(es)) == m
  {
    var ps := Pairs(es);
    assert UniqueKeys(ps);
    forall k ensures k in ToMap(ps) <==> k in m {
      ToMapKeys(ps, k);
      if k in m {
        var i :| 0 <= i < |es| && Key(es[i]) == k;
        assert ps[i].0 == k;
      }
    }
    forall k | k in m ensures ToMap(ps)[k] == m[k] {
      var i :| 0 <= i < |es| && Key(es[i]) == k;
      ToMapAt(ps, i);
    }
  }

  /**
   For every map and every order in which it lists its entries, decoding the encoding gives the
   same map, as a hash or tree map and as a vector of pairs.
   */
  lemma {:induction false} MapRoundTrip(e: Schema, m: map<Value, Value>, es: seq<Value>, t: ByteSeq)
    requires WellFormed(Map(e)) && Enumerates(es, m) && HasType(Map(e), VMap(es))
    requires Encode(Map(e), VMap(es), Buffering).Ok?
    ensures var d := Encode(Map(e), VMap(es), Buffering).value + t;
            && var p, q := Decode(Map(e), d, false), Decode(Vec(e), d, false);
            && p.result.Ok? && p.result.value.VMap? && p.rest == t
            && ToMap(Pairs(p.result.value.entries)) == m
            && q.result.Ok? && q.result.value.VSeq? && q.rest == t
            && UniqueKeys(Pairs(q.result.value.items)) && ToMap(Pairs(q.result.value.items)) == m
  {
    hide Decode, Encode, Pairs, ToMap;
    RoundTrip(Map(e), VMap(es), t, false);
    MapEncodesAsVec(e, es);
    RoundTrip(Vec(e), VSeq(es), t, false);
    EnumerationMeaning(es, m);
  }

  lemma MapEncodesAsVec(e: Schema, es: seq<Value>)
    requires HasType(Map(e), VMap(es))
    ensures HasType(Vec(e), VSeq(es))
    ensures Encode(Vec(e), VSeq(es), Buffering) == Encode(Map(e), VMap(es), Buffering)
  {
  }

  // ----- Decoded maps -----

  /** `SmallMap::mls_decode`: the vector as it was read. */
  method DecodeSmallMap(e: Schema, r: Reader) returns (res: Result<SmallMap<Value, Value>, CodecError>)
    requires WellFormed(Vec(e))
    modifies r
    ensures var p := Decode(Vec(e), old(r.data), false);
            && r.data == p.rest
            && (res.Err? <==> p.result.Err?) && (res.Err? ==> res.error == p.result.error)
            && (res.Ok? ==>
                  p.result.value.VSeq? && fresh(res.value) && res.value.entries == Pairs(p.result.value.items))
  {
    ghost var d := r.data;
    var v := Read(Vec(e), r);
    if v.Err? { return Err(v.error); }
    DecodeLaw(Vec(e), d, false);
    var m := new SmallMap.FromVec(Pairs(v.value.items));
    return Ok(m);
  }

  lemma {:induction false} LatestInMap(es: seq<Value>, k: Value)
    ensures MapGet(ToMap(Pairs(es)), k) == if Latest(es, k).Some? then Some(Second(Latest(es, k).value)) else None
  {
    if |es| > 0 {
      LatestInMap(es[..|es| - 1], k);
      assert Pairs(es)[..|es| - 1] == Pairs(es[..|es| - 1]);
    }
  }

  /** The map decoded from a run of entries is the map of the vector decoded from it. */
  lemma {:induction false} SameMap(es: seq<Value>)
    ensures ToMap(Pairs(InsertAll([], es))) == ToMap(Pairs(es))
  {
    var m, n := ToMap(Pairs(InsertAll([], es))), ToMap(Pairs(es));
    forall k ensures MapGet(m, k) == MapGet(n, k) {
      InsertAllLookup([], es, k);
      LatestInMap(InsertAll([], es), k);
      LatestInMap(es, k);
    }
    assert forall k :: k in m <==> MapGet(m, k).Some?;
    assert forall k :: k in n <==> MapGet(n, k).Some?;
    assert forall k :: k in m ==> m[k] == MapGet(m, k).value;
  }

  /**
   Any accepted bytes, read as a vector of pairs and as a map: every run answers the same exactly
   when no key is repeated in what was read.
   */
  lemma {:induction false} DecodedRunsAgreeExactly(e: Schema, d: ByteSeq)
    requires WellFormed(Map(e)) && Decode(Vec(e), d, false).result.Ok?
    ensures Decode(Vec(e), d, false).result.value.VSeq?
    ensures var es := Decode(Vec(e), d, false).result.value.items;
            && Decode(Map(e), d, false) == Parsed(Ok(VMap(InsertAll([], es))), Decode(Vec(e), d, false).rest)
            && (DistinctKeys(es) <==>
                  forall ops :: VecAnswers(Pairs(es), ops) == MapAnswers(ToMap(Pairs(InsertAll([], es))), ops))
  {
    var es := Decode(Vec(e), d, false).result.value.items;
    SameMap(es);
    PairsKeepKeys(es);
    RunsAgreeExactly(Pairs(es));
  }

  lemma PairsKeepKeys(es: seq<Value>)
    ensures UniqueKeys(Pairs(es)) <==> DistinctKeys(es)
  {
    assert forall i :: 0 <= i < |es| ==> Pairs(es)[i].0 == Key(es[i]);
  }

  /** From any map through its bytes, in any order of its entries, to any run on the decoded vector. */
  lemma {:induction false} DecodedMapRuns(e: Schema, m: map<Value, Value>, es: seq<Value>, t: ByteSeq,
                                          ops: seq<Op<Value, Value>>)
    requires WellFormed(Map(e)) && Enumerates(es, m) && HasType(Map(e), VMap(es))
    requires Encode(Map(e), VMap(es), Buffering).Ok?
    ensures var q := Decode(Vec(e), Encode(Map(e), VMap(es), Buffering).value + t, false);
            q.result.Ok? && q.result.value.VSeq? && VecAnswers(Pairs(q.result.value.items), ops) == MapAnswers(m, ops)
  {
    hide Decode, Encode, VecAnswers, MapAnswers;
    MapRoundTrip(e, m, es, t);
    var q := Decode(Vec(e), Encode(Map(e), VMap(es), Buffering).value + t, false);
    RunAgrees(Pairs(q.result.value.items), ops);
  }
}
