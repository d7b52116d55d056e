/** The stored form of a ratchet: of the history only the values are written, and reading keys them by generation. */
module RatchetCodec {
  import opened Bytes
  import opened CodecErrors
  import opened Schemas
  import opened CodecLaws
  import opened MlsKdfs
  import opened SecretRatchets

  const KEY_DATA: Schema := Pair(ByteVec, Pair(ByteVec, UInt(4)))
  const RATCHET: Schema := Pair(ByteVec, Pair(UInt(4), Vec(KEY_DATA)))

  function KeyDataValue(k: MessageKeyData): Value {
    VPair(VBytes(k.nonce), VPair(VBytes(k.key), VNat(k.generation)))
  }

  function KeyDataFrom(v: Value): MessageKeyData
    requires HasType(KEY_DATA, v)
  {
    MessageKeyData(v.first.bytes, v.second.first.bytes, v.second.second.n)
  }

  /** The Rust types: generations are 32-bit numbers. */
  predicate Words(r: Ratchet) {
    r.generation < U32 && forall g :: g in r.history ==> r.history[g].generation < U32
  }

  /** An order in which the map may be iterated over. */
  ghost predicate Enumerates(order: seq<nat>, history: map<nat, MessageKeyData>) {
    && (forall i, j :: 0 <= i < j < |order| ==> order[i] != order[j])
    && (forall g :: g in order <==> g in history)
  }

  function Items(history: map<nat, MessageKeyData>, order: seq<nat>): seq<Value>
    requires forall i :: 0 <= i < |order| ==> order[i] in history
  {
    seq(|order|, i requires 0 <= i < |order| => KeyDataValue(history[order[i]]))
  }

  function RatchetValue(r: Ratchet, order: seq<nat>): Value
    requires forall i :: 0 <= i < |order| ==> order[i] in r.history
  {
    VPair(VBytes(r.secret), VPair(VNat(r.generation), VSeq(Items(r.history, order))))
  }

  /** The loop of `mls_decode`: each item goes under its own generation. */
  function Rebuild(items: seq<Value>): map<nat, MessageKeyData>
    requires AllTyped(KEY_DATA, items)
  {
    if |items| == 0 then map[]
    else
      TypedPrefix(items, |items| - 1);
      var k := KeyDataFrom(items[|items| - 1]);
      Rebuild(items[..|items| - 1])[k.generation := k]
  }

  lemma {:induction false} TypedPrefix(items: seq<Value>, n: nat)
    requires AllTyped(KEY_DATA, items) && n <= |items|
    ensures AllTyped(KEY_DATA, items[..n])
    ensures n < |items| ==> HasType(KEY_DATA, items[n])
    decreases n
  {
    if n > 0 {
      TypedPrefix(items[1..], n - 1);
      assert items[..n][1..] == items[1..][..n - 1];
    }
  }

  function DecodeRatchet(d: ByteSeq): Parsed<Ratchet> {
    var got := Decode(RATCHET, d, false);
    if got.result.Err? then Parsed(Err(got.result.error), got.rest)
    else
      DecodeLaw(RATCHET, d, false);
      var v := got.result.value;
      Parsed(Ok(Ratchet(v.first.bytes, v.second.first.n, Rebuild(v.second.second.items))), got.rest)
  }

  lemma {:induction false} ItemsTyped(history: map<nat, MessageKeyData>, order: seq<nat>)
    requires forall i :: 0 <= i < |order| ==> order[i] in history && history[order[i]].generation < U32
    ensures AllTyped(KEY_DATA, Items(history, order))
  {
    if |order| > 0 {
      U32IsPow256();
      ItemsTyped(history, order[1..]);
      assert Items(history, order)[1..] == Items(history, order[1..]);
    }
  }

  /** Each key of the history is filed under its own generation. */
  predicate WellKeyed(history: map<nat, MessageKeyData>) {
    forall g :: g in history ==> history[g].generation == g
  }

  /** What reading the items back gives: the history filed by generation. */
  lemma {:induction false} RebuildLaw(history: map<nat, MessageKeyData>, order: seq<nat>)
    requires forall i :: 0 <= i < |order| ==> order[i] in history && history[order[i]].generation < U32
    requires WellKeyed(history)
    ensures AllTyped(KEY_DATA, Items(history, order))
    ensures Rebuild(Items(history, order)) == map g | g in order :: history[g]
  {
    ItemsTyped(history, order);
    var n := |order|;
    if n > 0 {
      RebuildLaw(history, order[..n - 1]);
      assert Items(history, order)[..n - 1] == Items(history, order[..n - 1]);
      assert order == order[..n - 1] + [order[n - 1]];
    }
  }

  /** A rebuilt history is always well keyed. */
  lemma {:induction false} RebuildIsWellKeyed(items: seq<Value>)
    requires AllTyped(KEY_DATA, items)
    ensures WellKeyed(Rebuild(items))
  {
    if |items| > 0 {
      TypedPrefix(items, |items| - 1);
      RebuildIsWellKeyed(items[..|items| - 1]);
    }
  }

  /** Storing and reading gives the ratchet back, in every iteration order, exactly when its history is well keyed. */
  lemma {:induction false} RatchetRoundTrip(r: Ratchet, order: seq<nat>, t: ByteSeq)
    requires Words(r) && Enumerates(order, r.history)
    ensures HasType(RATCHET, RatchetValue(r, order))
    ensures var b := Encode(RATCHET, RatchetValue(r, order), Buffering);
            b.Ok? ==> (DecodeRatchet(b.value + t) == Parsed(Ok(r), t) <==> WellKeyed(r.history))
  {
    hide Decode, Encode, AllTyped;
    ItemsTyped(r.history, order);
    U32IsPow256();
    var v := RatchetValue(r, order);
    assert HasType(RATCHET, v);
    var b := Encode(RATCHET, v, Buffering);
    if b.Ok? {
      RoundTrip(RATCHET, v, t, false);
      RebuildIsWellKeyed(Items(r.history, order));
      if WellKeyed(r.history) {
        RebuildLaw(r.history, order);
        assert (map g | g in order :: r.history[g]) == r.history;
      }
    }
  }

  /** Ratchets reached by requests are, so they survive being stored. */
  lemma {:induction false} GoodIsStored(p: Provider, root: ByteSeq, r: Ratchet, used: set<nat>, order: seq<nat>,
                                        t: ByteSeq)
    requires Good(p, root, r, used) && Enumerates(order, r.history)
    ensures HasType(RATCHET, RatchetValue(r, order))
    ensures var b := Encode(RATCHET, RatchetValue(r, order), Buffering);
            b.Ok? ==> DecodeRatchet(b.value + t) == Parsed(Ok(r), t)
  {
    hide Chain, KeyAt, DecodeRatchet, Encode;
    forall g | g in r.history ensures r.history[g].generation == g { MessageKeyGeneration(p, root, g); }
    RatchetRoundTrip(r, order, t);
  }
}
