/** The byte-vector fast path, maps, and when the collection loops make progress. */
module Collections {
  import opened Bytes
  import opened CodecErrors
  import opened VarInts
  import opened Schemas
  import opened CodecLaws

  // ----- byte_vec against the generic Vec<u8> -----

  const GENERIC_BYTES: Schema := Vec(UInt(1))

  /** A byte string as the elements of a generic vector. */
  function Elements(bs: ByteSeq): (vs: seq<Value>)
    ensures |vs| == |bs|
    ensures forall i :: 0 <= i < |bs| ==> vs[i] == VNat(bs[i])
  {
    seq(|bs|, i requires 0 <= i < |bs| => VNat(bs[i]))
  }

  lemma OneByte(n: Byte, d: ByteSeq)
    ensures Pow256(1) == 256
    ensures ToBigEndian(n, 1) == [n]
    ensures FromBigEndian([n]) == n
    ensures |d| > 0 ==> Decode(UInt(1), d, false) == Parsed(Ok(VNat(d[0])), d[1..])
  {
    PowersOf256();
    assert ToBigEndian(n, 1) == ToBigEndian(n / 256, 0) + [n % 256];
    assert FromBigEndian([n]) == FromBigEndian([]) * 256 + n by { assert [n][..0] == []; }
    if |d| > 0 {
      assert d[..1] == [d[0]];
      assert FromBigEndian([d[0]]) == FromBigEndian([]) * 256 + d[0] by { assert [d[0]][..0] == []; }
    }
  }

  lemma {:induction false} ElementsEncode(bs: ByteSeq)
    ensures AllTyped(UInt(1), Elements(bs))
    ensures SizeAll(UInt(1), Elements(bs)) == |bs|
    ensures EncodeAll(UInt(1), Elements(bs), Buffering) == Ok(bs)
  {
    hide FromBigEndian, Pow256;
    if |bs| > 0 {
      OneByte(bs[0], []);
      ElementsEncode(bs[1..]);
      ElementsCons(bs);
      ConsLaw(UInt(1), VNat(bs[0]), Elements(bs[1..]));
      assert bs == [bs[0]] + bs[1..];
    }
  }

  lemma ElementsCons(bs: ByteSeq)
    requires |bs| > 0
    ensures Elements(bs) == [VNat(bs[0])] + Elements(bs[1..])
    ensures Prepend([VNat(bs[0])], Ok(Elements(bs[1..]))) == Ok(Elements(bs))
  {
  }

  lemma {:induction false} ElementsDecode(bs: ByteSeq)
    ensures DecodeAll(UInt(1), bs, false) == Ok(Elements(bs))
  {
    hide Decode, Elements, Prepend;
    if |bs| > 0 {
      OneByte(0, bs);
      DecodeAllUnfold(UInt(1), bs, false);
      ElementsDecode(bs[1..]);
      ElementsCons(bs);
    }
  }

  /** The fast path has the length, the bytes and the failures of the generic codec. */
  lemma {:induction false} ByteVecEncodesAlike(bs: ByteSeq, how: Strategy)
    ensures HasType(GENERIC_BYTES, VSeq(Elements(bs)))
    ensures Size(ByteVec, VBytes(bs)) == Size(GENERIC_BYTES, VSeq(Elements(bs)))
    ensures Encode(ByteVec, VBytes(bs), how) == Encode(GENERIC_BYTES, VSeq(Elements(bs)), how)
  {
    ElementsEncode(bs);
    EncodeItemsLaw(UInt(1), Elements(bs));
  }

  /** On every input the fast path and the generic codec read the same, fail the same and stop at the same place. */
  lemma {:induction false} ByteVecDecodesAlike(d: ByteSeq)
    ensures var p, q := Decode(ByteVec, d, false), Decode(GENERIC_BYTES, d, false);
            && p.rest == q.rest
            && (p.result.Err? ==> q.result == p.result)
            && (p.result.Ok? ==> p.result.value.VBytes? && q.result == Ok(VSeq(Elements(p.result.value.bytes))))
  {
    hide SplitOnCollection, DecodeAll, DecodeVarInt;
    if SplitOnCollection(d).result.Ok? { ElementsDecode(SplitOnCollection(d).result.value); }
  }

  // ----- Progress of the loops over a body -----

  /** A schema that can occupy no byte at all reads the same value off every input, without moving. */
  lemma {:induction false} EmptySchema(s: Schema, d: ByteSeq)
    requires WellFormed(s) && MinSize(s) == 0
    ensures Decode(s, d, false).result.Ok? && Decode(s, d, false).rest == d
  {
    if s.Pair? {
      EmptySchema(s.first, d);
      EmptySchema(s.second, d);
    }
  }

  /** A collection loop advances on every input it accepts exactly when its elements occupy a byte. */
  lemma {:induction false} ProgressExactly(s: Schema)
    requires WellFormed(s)
    ensures MinSize(s) >= 1 <==>
            forall d :: Decode(s, d, false).result.Ok? ==> |Decode(s, d, false).rest| < |d|
  {
    if MinSize(s) == 0 { EmptySchema(s, []); }
  }

  // ----- Maps -----

  /** The value under `k` that comes last. */
  function Latest(es: seq<Value>, k: Value): Option<Value> {
    if |es| == 0 then None
    else if Key(es[|es| - 1]) == k then Some(es[|es| - 1])
    else Latest(es[..|es| - 1], k)
  }

  lemma {:induction false} InsertLookup(es: seq<Value>, e: Value, k: Value)
    requires DistinctKeys(es)
    ensures Latest(Insert(es, e), k) == if k == Key(e) then Some(e) else Latest(es, k)
  {
    InsertKeepsDistinct(es, e);
    InsertElements(es, e);
    var r := Insert(es, e);
    LatestElement(r, k);
    LatestElement(es, k);
  }

  /** Which entries an insert leaves: the new one, and the old ones with another key. */
  lemma {:induction false} InsertElements(es: seq<Value>, e: Value)
    requires DistinctKeys(es)
    ensures forall x :: x in Insert(es, e) <==> x == e || (x in es && Key(x) != Key(e))
  {
    if |es| > 0 {
      if Key(es[0]) == Key(e) {
        forall x | x in es[1..] ensures Key(x) != Key(e) {
          var i :| 0 <= i < |es| - 1 && es[1..][i] == x;
          assert es[i + 1] == x;
        }
      } else {
        InsertElements(es[1..], e);
      }
    }
  }

  lemma {:induction false} LatestElement(es: seq<Value>, k: Value)
    requires DistinctKeys(es)
    ensures forall x :: x in es && Key(x) == k ==> Latest(es, k) == Some(x)
    ensures (forall x :: x in es ==> Key(x) != k) <==> Latest(es, k).None?
    ensures Latest(es, k).Some? ==> Latest(es, k).value in es && Key(Latest(es, k).value) == k
  {
    if |es| > 0 { LatestElement(es[..|es| - 1], k); }
  }

  lemma {:induction false} InsertAllLookup(es: seq<Value>, more: seq<Value>, k: Value)
    requires DistinctKeys(es)
    ensures Latest(InsertAll(es, more), k) == if Latest(more, k).Some? then Latest(more, k) else Latest(es, k)
    decreases |more|
  {
    if |more| > 0 {
      InsertKeepsDistinct(es, more[0]);
      InsertLookup(es, more[0], k);
      InsertAllLookup(Insert(es, more[0]), more[1..], k);
      LatestCons(more, k);
    }
  }

  lemma {:induction false} LatestCons(es: seq<Value>, k: Value)
    requires |es| > 0
    ensures Latest(es, k) == if Latest(es[1..], k).Some? then Latest(es[1..], k)
                             else if Key(es[0]) == k then Some(es[0]) else None
  {
    if |es| == 1 {
      assert es[..0] == [];
    } else {
      LatestCons(es[..|es| - 1], k);
      assert es[1..][..|es| - 2] == es[..|es| - 1][1..];
    }
  }

  /**
   Any run of entries, repeated keys included, decodes to a map in which each key has the value
   that was written last.
   */
  lemma {:induction false} MapDecodes(e: Schema, es: seq<Value>, t: ByteSeq)
    requires WellFormed(Map(e)) && AllTyped(e, es) && EncodeItems(e, es, Buffering).Ok?
    ensures Decode(Map(e), EncodeItems(e, es, Buffering).value + t, false) == Parsed(Ok(VMap(InsertAll([], es))), t)
    ensures forall k :: Latest(InsertAll([], es), k) == Latest(es, k)
  {
    RoundTripItems(e, es, t, false);
    forall k ensures Latest(InsertAll([], es), k) == Latest(es, k) {
      InsertAllLookup([], es, k);
    }
  }
}
