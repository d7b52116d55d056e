/** GREASE values in leaf nodes (section 13.5 of RFC 9420), mls-rs/src/grease.rs with the `grease` feature. */
module Grease {
  import opened Bytes
  import opened ExtensionLists

  const GREASE_VALUES: seq<nat> := [
    0x0A0A, 0x1A1A, 0x2A2A, 0x3A3A, 0x4A4A, 0x5A5A, 0x6A6A, 0x7A7A, 0x8A8A, 0x9A9A, 0xAAAA,
    0xBABA, 0xCACA, 0xDADA, 0xEAEA
  ]

  /** `random_grease_value`, given the random byte. */
  function GreaseValue(random: Byte): (v: nat)
    ensures v in GREASE_VALUES
  {
    GREASE_VALUES[random % |GREASE_VALUES|]
  }

  datatype Capabilities = Capabilities(
    protocolVersions: seq<nat>,
    cipherSuites: seq<nat>,
    extensions: seq<nat>,
    proposals: seq<nat>,
    credentials: seq<nat>)

  /** What `retain` keeps of a capability list. */
  function Ungreased(xs: seq<nat>): seq<nat> {
    if |xs| == 0 then []
    else if xs[0] in GREASE_VALUES then Ungreased(xs[1..])
    else [xs[0]] + Ungreased(xs[1..])
  }

  function UngreasedCapabilities(c: Capabilities): Capabilities {
    Capabilities(c.protocolVersions, Ungreased(c.cipherSuites), Ungreased(c.extensions),
                 Ungreased(c.proposals), Ungreased(c.credentials))
  }

  /** The extensions whose type is not among `values`, in order. */
  function Sifted(es: seq<Extension>, values: seq<nat>): seq<Extension> {
    if |es| == 0 then []
    else if es[0].extensionType in values then Sifted(es[1..], values)
    else [es[0]] + Sifted(es[1..], values)
  }

  function UngreasedExtensions(es: seq<Extension>): seq<Extension> {
    Sifted(es, GREASE_VALUES)
  }

  // ----- Greasing is invisible after ungreasing -----

  lemma {:induction false} UngreasedPush(xs: seq<nat>, v: nat)
    requires v in GREASE_VALUES
    ensures Ungreased(xs + [v]) == Ungreased(xs)
  {
    if |xs| > 0 {
      UngreasedPush(xs[1..], v);
      assert (xs + [v])[1..] == xs[1..] + [v];
    } else {
      assert (xs + [v])[1..] == [];
    }
  }

  lemma {:induction false} SiftedSet(es: seq<Extension>, e: Extension)
    requires e.extensionType in GREASE_VALUES
    ensures UngreasedExtensions(SetIn(es, e)) == UngreasedExtensions(es)
  {
    if |es| == 0 {
      assert SetIn(es, e)[1..] == [];
    } else if es[0].extensionType == e.extensionType {
      assert SetIn(es, e)[1..] == es[1..];
    } else {
      SiftedSet(es[1..], e);
      assert SetIn(es, e)[1..] == SetIn(es[1..], e);
    }
  }

  lemma {:induction false} UngreasedKeeps(xs: seq<nat>)
    requires forall i :: 0 <= i < |xs| ==> xs[i] !in GREASE_VALUES
    ensures Ungreased(xs) == xs
  {
    if |xs| > 0 {
      forall i | 0 <= i < |xs[1..]| ensures xs[1..][i] !in GREASE_VALUES { assert xs[1..][i] == xs[i + 1]; }
      UngreasedKeeps(xs[1..]);
    }
  }

  lemma {:induction false} SiftedKeeps(es: seq<Extension>, values: seq<nat>)
    requires forall i :: 0 <= i < |es| ==> es[i].extensionType !in values
    ensures Sifted(es, values) == es
  {
    if |es| > 0 {
      forall i | 0 <= i < |es[1..]| ensures es[1..][i].extensionType !in values { assert es[1..][i] == es[i + 1]; }
      SiftedKeeps(es[1..], values);
    }
  }

  /** Removing one more value from a sifted list sifts by one more value. */
  lemma {:induction false} SiftedWithout(es: seq<Extension>, values: seq<nat>, v: nat)
    ensures Without(Sifted(es, values), v) == Sifted(es, values + [v])
  {
    if |es| > 0 {
      SiftedWithout(es[1..], values, v);
      if es[0].extensionType !in values {
        assert Sifted(es, values)[1..] == Sifted(es[1..], values);
      }
    }
  }

  // ----- The leaf node -----

  datatype CryptoError = CryptoProviderError

  /** Every extension type present is declared in the capabilities. */
  predicate Covered(c: Capabilities, es: seq<Extension>) {
    forall i :: 0 <= i < |es| ==> es[i].extensionType in c.extensions
  }

  lemma {:induction false} SetInTypes(es: seq<Extension>, e: Extension, xs: seq<nat>)
    requires forall i :: 0 <= i < |es| ==> es[i].extensionType in xs
    requires e.extensionType in xs
    ensures forall i :: 0 <= i < |SetIn(es, e)| ==> SetIn(es, e)[i].extensionType in xs
  {
    if |es| > 0 && es[0].extensionType != e.extensionType {
      forall i | 0 <= i < |es[1..]| ensures es[1..][i].extensionType in xs { assert es[1..][i] == es[i + 1]; }
      SetInTypes(es[1..], e, xs);
    }
  }

  datatype Leaf = Leaf(capabilities: Capabilities, extensions: seq<Extension>)

  /** What greasing must not change. */
  function View(l: Leaf): Leaf {
    Leaf(UngreasedCapabilities(l.capabilities), UngreasedExtensions(l.extensions))
  }

  /** The leaf after one call: each list gains a value until a request for a random byte fails. */
  function Greased(l: Leaf, random: seq<Option<Byte>>): Leaf
    requires |random| == 4
  {
    var c := l.capabilities;
    if random[0].None? then l
    else
      var c1 := c.(cipherSuites := c.cipherSuites + [GreaseValue(random[0].value)]);
      if random[1].None? then l.(capabilities := c1)
      else
        var c2 := c1.(proposals := c1.proposals + [GreaseValue(random[1].value)]);
        if random[2].None? then l.(capabilities := c2)
        else
          var c3 := c2.(credentials := c2.credentials + [GreaseValue(random[2].value)]);
          if random[3].None? then l.(capabilities := c3)
          else
            var v := GreaseValue(random[3].value);
            Leaf(c3.(extensions := c3.extensions + [v]), SetIn(l.extensions, Extension(v, [])))
  }

  /** One call, failed or not, of any leaf: invisible after ungreasing, types stay unique and covered. */
  lemma {:induction false} GreasedLaw(l: Leaf, random: seq<Option<Byte>>)
    requires |random| == 4
    ensures View(Greased(l, random)) == View(l)
    ensures Unique(l.extensions) ==> Unique(Greased(l, random).extensions)
    ensures Covered(l.capabilities, l.extensions) ==>
            Covered(Greased(l, random).capabilities, Greased(l, random).extensions)
  {
    hide Ungreased, Sifted, SetIn, GreaseValue;
    var c := l.capabilities;
    if random[0].Some? { UngreasedPush(c.cipherSuites, GreaseValue(random[0].value)); }
    if random[1].Some? { UngreasedPush(c.proposals, GreaseValue(random[1].value)); }
    if random[2].Some? { UngreasedPush(c.credentials, GreaseValue(random[2].value)); }
    if random[3].Some? {
      var v := GreaseValue(random[3].value);
      var e := Extension(v, []);
      UngreasedPush(c.extensions, v);
      SiftedSet(l.extensions, e);
      if Unique(l.extensions) { SetInLaw(l.extensions, e); }
      if Covered(c, l.extensions) { SetInTypes(l.extensions, e, c.extensions + [v]); }
    }
  }

  predicate IsGreased(xs: seq<nat>) {
    exists i :: 0 <= i < |xs| && xs[i] in GREASE_VALUES
  }

  /** A call that does not fail leaves a GREASE value in each of the four capability lists and among the extensions. */
  lemma {:induction false} GreasedShows(l: Leaf, random: seq<Option<Byte>>)
    requires |random| == 4 && forall i :: 0 <= i < 4 ==> random[i].Some?
    ensures var c := Greased(l, random).capabilities;
            && IsGreased(c.cipherSuites) && IsGreased(c.extensions) && IsGreased(c.proposals)
               && IsGreased(c.credentials)
            && c.protocolVersions == l.capabilities.protocolVersions
    ensures exists e :: e in Greased(l, random).extensions && e.extensionType in GREASE_VALUES
  {
    var c, c' := l.capabilities, Greased(l, random).capabilities;
    assert c'.cipherSuites[|c.cipherSuites|] in GREASE_VALUES;
    assert c'.extensions[|c.extensions|] in GREASE_VALUES;
    assert c'.proposals[|c.proposals|] in GREASE_VALUES;
    assert c'.credentials[|c.credentials|] in GREASE_VALUES;
    SetInHas(l.extensions, Extension(GreaseValue(random[3].value), []));
  }

  lemma {:induction false} SetInHas(es: seq<Extension>, e: Extension)
    ensures e in SetIn(es, e)
  {
    if |es| > 0 && es[0].extensionType != e.extensionType { SetInHas(es[1..], e); }
  }

  class LeafNode {
    var capabilities: Capabilities
    var extensions: seq<Extension>

    ghost function Value(): Leaf
      reads this
    {
      Leaf(capabilities, extensions)
    }

    /** `grease`; `random[i]` is the answer to the i-th request for a random byte. */
    method Grease(random: seq<Option<Byte>>) returns (res: Result<(), CryptoError>)
      requires |random| == 4
      modifies this
      ensures res.Ok? <==> forall i :: 0 <= i < 4 ==> random[i].Some?
      ensures Value() == Greased(old(Value()), random)
    {
      hide SetIn, GreaseValue;
      if random[0].None? { return Err(CryptoProviderError); }
      capabilities := capabilities.(cipherSuites := capabilities.cipherSuites + [GreaseValue(random[0].value)]);
      if random[1].None? { return Err(CryptoProviderError); }
      capabilities := capabilities.(proposals := capabilities.proposals + [GreaseValue(random[1].value)]);
      if random[2].None? { return Err(CryptoProviderError); }
      capabilities := capabilities.(credentials := capabilities.credentials + [GreaseValue(random[2].value)]);
      if random[3].None? { return Err(CryptoProviderError); }
      var v := GreaseValue(random[3].value);
      extensions := SetIn(extensions, Extension(v, []));
      capabilities := capabilities.(extensions := capabilities.extensions + [v]);
      res := Ok(());
    }

    /** `ungreased_extensions`: remove each value in turn from a copy. */
    method UngreaseExtensions() returns (es: seq<Extension>)
      ensures es == UngreasedExtensions(extensions)
    {
      es := extensions;
      SiftedKeeps(extensions, []);
      var i := 0;
      while i < |GREASE_VALUES|
        invariant 0 <= i <= |GREASE_VALUES|
        invariant es == Sifted(extensions, GREASE_VALUES[..i])
      {
        SiftedWithout(extensions, GREASE_VALUES[..i], GREASE_VALUES[i]);
        assert GREASE_VALUES[..i] + [GREASE_VALUES[i]] == GREASE_VALUES[..i + 1];
        es := Without(es, GREASE_VALUES[i]);
        i := i + 1;
      }
      assert GREASE_VALUES[..i] == GREASE_VALUES;
    }
  }

  /** No value of the lists that get greased is a GREASE value. */
  predicate GreaseFree(l: Leaf) {
    var c := l.capabilities;
    && (forall i :: 0 <= i < |c.cipherSuites| ==> c.cipherSuites[i] !in GREASE_VALUES)
    && (forall i :: 0 <= i < |c.extensions| ==> c.extensions[i] !in GREASE_VALUES)
    && (forall i :: 0 <= i < |c.proposals| ==> c.proposals[i] !in GREASE_VALUES)
    && (forall i :: 0 <= i < |c.credentials| ==> c.credentials[i] !in GREASE_VALUES)
    && (forall i :: 0 <= i < |l.extensions| ==> l.extensions[i].extensionType !in GREASE_VALUES)
  }

  lemma {:induction false} GreaseFreeView(l: Leaf)
    requires GreaseFree(l)
    ensures View(l) == l
  {
    UngreasedKeeps(l.capabilities.cipherSuites);
    UngreasedKeeps(l.capabilities.extensions);
    UngreasedKeeps(l.capabilities.proposals);
    UngreasedKeeps(l.capabilities.credentials);
    SiftedKeeps(l.extensions, GREASE_VALUES);
  }

  function GreasedRepeatedly(l: Leaf, draws: seq<seq<Option<Byte>>>): Leaf
    requires forall i :: 0 <= i < |draws| ==> |draws[i]| == 4
    decreases |draws|
  {
    if |draws| == 0 then l else GreasedRepeatedly(Greased(l, draws[0]), draws[1..])
  }

  /** After any number of calls, failed ones included, ungreasing a leaf that was free of GREASE gives it back. */
  lemma {:induction false} GreaseIsInvisible(l: Leaf, l': Leaf, draws: seq<seq<Option<Byte>>>)
    requires forall i :: 0 <= i < |draws| ==> |draws[i]| == 4
    requires l' == GreasedRepeatedly(l, draws)
    ensures View(l') == View(l)
    ensures GreaseFree(l) ==> View(l') == l
    ensures Unique(l.extensions) ==> Unique(l'.extensions)
    ensures Covered(l.capabilities, l.extensions) ==> Covered(l'.capabilities, l'.extensions)
    decreases |draws|
  {
    hide Greased, View, Unique, Covered;
    if GreaseFree(l) { GreaseFreeView(l); }
    if |draws| > 0 {
      GreasedLaw(l, draws[0]);
      GreaseIsInvisible(Greased(l, draws[0]), l', draws[1..]);
    }
  }
}
