/** The per-sender key ratchet with its out-of-order history, `SecretKeyRatchet` of mls-rs/src/group/secret_tree.rs. */
module SecretRatchets {
  import opened Bytes
  import opened HpkeKdfs
  import opened MlsKdfs

  const MAX_RATCHET_BACK_HISTORY: nat := 1024

  datatype MlsError =
    | CryptoProviderError(error: ProviderError)
    | KeyMissing(generation: nat)
    | InvalidFutureGeneration(generation: nat)
    | LeafNodeNoChildren
    | InvalidLeafConsumption
    | Overflow                                    // a panic: u32 arithmetic left its range

  datatype MessageKeyData = MessageKeyData(nonce: ByteSeq, key: ByteSeq, generation: nat)

  datatype Ratchet = Ratchet(secret: ByteSeq, generation: nat, history: map<nat, MessageKeyData>)

  /** Failures of the provider: `fault(n)` is what the n-th step of a request runs into, if anything. */
  type Faults = nat -> Option<ProviderError>

  function KeyAt(p: Provider, secret: ByteSeq, g: nat): MessageKeyData
    requires g < U32
  {
    MessageKeyData(Derive(p, secret, NonceOf(g)), Derive(p, secret, KeyOf(g)), g)
  }

  // ----- One request -----

  /**
   `next_message_key`: the three derivations come before anything is written. The step past the last
   generation panics, with the new secret in place.
   */
  function NextKey(p: Provider, r: Ratchet, fault: Option<ProviderError>): (Ratchet, Result<MessageKeyData, MlsError>)
    requires r.generation < U32
  {
    if fault.Some? then (r, Err(CryptoProviderError(fault.value)))
    else if r.generation + 1 == U32 then (r.(secret := Derive(p, r.secret, SecretAfter(r.generation))), Err(Overflow))
    else (r.(secret := Derive(p, r.secret, SecretAfter(r.generation)), generation := r.generation + 1),
          Ok(KeyAt(p, r.secret, r.generation)))
  }

  function Remember(r: Ratchet, k: MessageKeyData): Ratchet {
    r.(history := r.history[k.generation := k])
  }

  /** The loop of `get_message_key`, from its n-th round on. */
  function Advance(p: Provider, r: Ratchet, g: nat, faults: Faults, n: nat): (Ratchet, Option<MlsError>)
    requires r.generation < U32
    decreases g - r.generation
  {
    if r.generation >= g then (r, None)
    else
      var (r', k) := NextKey(p, r, faults(n));
      if k.Err? then (r', Some(k.error)) else Advance(p, Remember(r', k.value), g, faults, n + 1)
  }

  /** `get_message_key`. */
  function GetKey(p: Provider, r: Ratchet, g: nat, faults: Faults): (Ratchet, Result<MessageKeyData, MlsError>)
    requires r.generation < U32
  {
    if g < r.generation then
      if g in r.history then (r.(history := r.history - {g}), Ok(r.history[g])) else (r, Err(KeyMissing(g)))
    else if r.generation + MAX_RATCHET_BACK_HISTORY >= U32 then (r, Err(Overflow))
    else if g > r.generation + MAX_RATCHET_BACK_HISTORY then (r, Err(InvalidFutureGeneration(g)))
    else
      AdvanceStaysInRange(p, r, g, faults, 0);
      var (r', e) := Advance(p, r, g, faults, 0);
      if e.Some? then (r', Err(e.value)) else NextKey(p, r', faults(g - r.generation))
  }

  lemma {:induction false} AdvanceStaysInRange(p: Provider, r: Ratchet, g: nat, faults: Faults, n: nat)
    requires r.generation < U32
    ensures Advance(p, r, g, faults, n).0.generation < U32
    decreases g - r.generation
  {
    if r.generation < g {
      var (r', k) := NextKey(p, r, faults(n));
      if k.Ok? { AdvanceStaysInRange(p, Remember(r', k.value), g, faults, n + 1); }
    }
  }

  class SecretKeyRatchet {
    var secret: ByteSeq
    var generation: nat
    var history: map<nat, MessageKeyData>

    ghost function Value(): Ratchet
      reads this
    {
      Ratchet(secret, generation, history)
    }

    constructor (r: Ratchet)
      ensures Value() == r
    {
      secret, generation, history := r.secret, r.generation, r.history;
    }

    method NextMessageKey(p: Provider, fault: Option<ProviderError>) returns (res: Result<MessageKeyData, MlsError>)
      requires generation < U32
      modifies this
      ensures (Value(), res) == NextKey(p, old(Value()), fault)
    {
      if fault.Some? { return Err(CryptoProviderError(fault.value)); }
      var g := generation;
      var nonce := Derive(p, secret, NonceOf(g));
      var key := Derive(p, secret, KeyOf(g));
      secret := Derive(p, secret, SecretAfter(g));
      if g + 1 == U32 { return Err(Overflow); }
      generation := g + 1;
      return Ok(MessageKeyData(nonce, key, g));
    }

    method GetMessageKey(p: Provider, g: nat, faults: Faults) returns (res: Result<MessageKeyData, MlsError>)
      requires generation < U32
      modifies this
      ensures (Value(), res) == GetKey(p, old(Value()), g, faults)
    {
      hide NextKey;
      if g < generation {
        if g !in history { return Err(KeyMissing(g)); }
        res := Ok(history[g]);
        history := history - {g};
        return;
      }
      if generation + MAX_RATCHET_BACK_HISTORY >= U32 { return Err(Overflow); }
      if g > generation + MAX_RATCHET_BACK_HISTORY { return Err(InvalidFutureGeneration(g)); }
      ghost var start := Value();
      AdvanceStaysInRange(p, start, g, faults, 0);
      var n := 0;
      while generation < g
        invariant start.generation <= generation <= g && generation == start.generation + n && generation < U32
        invariant Advance(p, start, g, faults, 0) == Advance(p, Value(), g, faults, n)
        decreases g - generation
      {
        NextKeyShape(p, Value(), faults(n));
        var k := NextMessageKey(p, faults(n));
        if k.Err? { return Err(k.error); }
        history := history[k.value.generation := k.value];
        n := n + 1;
      }
      res := NextMessageKey(p, faults(n));
    }
  }

  lemma NextKeyShape(p: Provider, r: Ratchet, fault: Option<ProviderError>)
    requires r.generation < U32
    ensures var (r', k) := NextKey(p, r, fault);
            && r'.generation < U32
            && r'.generation == r.generation + (if k.Ok? then 1 else 0)
            && (k.Err? && k.error != Overflow ==> r' == r)
  {
  }

  // ----- The keys a ratchet stands for -----

  /** The secret of generation `g`. */
  function Chain(p: Provider, root: ByteSeq, g: nat): ByteSeq
    requires g < U32
  {
    if g == 0 then root else Derive(p, Chain(p, root, g - 1), SecretAfter(g - 1))
  }

  /** The key of generation `g`, computed from the root of the ratchet alone. */
  function MessageKey(p: Provider, root: ByteSeq, g: nat): MessageKeyData
    requires g < U32
  {
    KeyAt(p, Chain(p, root, g), g)
  }

  /** A ratchet from `root` that has given out exactly the generations `used`. */
  ghost predicate Good(p: Provider, root: ByteSeq, r: Ratchet, used: set<nat>) {
    && r.generation < U32
    && r.secret == Chain(p, root, r.generation)
    && (forall g: nat :: g in r.history <==> g < r.generation && g !in used)
    && (forall g :: g in r.history ==> r.history[g] == MessageKey(p, root, g))
    && (forall g :: g in used ==> g < r.generation)
  }

  lemma {:induction false} NextKeeps(p: Provider, root: ByteSeq, r: Ratchet, used: set<nat>,
                                     fault: Option<ProviderError>)
    requires Good(p, root, r, used)
    ensures var (r', k) := NextKey(p, r, fault);
            && (k.Ok? ==> k.value == MessageKey(p, root, r.generation) && Good(p, root, r', used + {r.generation}))
            && (k.Err? && k.error != Overflow ==> r' == r)
  {
    hide Derive;
  }

  lemma {:induction false} AdvanceKeeps(p: Provider, root: ByteSeq, r: Ratchet, used: set<nat>, g: nat, faults: Faults,
                                        n: nat)
    requires Good(p, root, r, used) && r.generation <= g < U32
    ensures var (r', e) := Advance(p, r, g, faults, n);
            && Good(p, root, r', used) && r.generation <= r'.generation <= g
            && (e.None? ==> r'.generation == g)
            && (e.Some? <==> exists m :: n <= m < n + (g - r.generation) && faults(m).Some?) && e != Some(Overflow)
    decreases g - r.generation
  {
    hide NextKey, Chain, KeyAt;
    if r.generation < g {
      NextKeeps(p, root, r, used, faults(n));
      NextSucceeds(p, r, faults(n));
      var (r', k) := NextKey(p, r, faults(n));
      if k.Ok? {
        RememberKeeps(p, root, r', used, r.generation);
        AdvanceKeeps(p, root, Remember(r', k.value), used, g, faults, n + 1);
      }
    }
  }

  lemma NextSucceeds(p: Provider, r: Ratchet, fault: Option<ProviderError>)
    requires r.generation < U32
    ensures NextKey(p, r, fault).1.Ok? <==> fault.None? && r.generation + 1 < U32
    ensures NextKey(p, r, fault).1.Ok? ==> NextKey(p, r, fault).0.generation == r.generation + 1
    ensures NextKey(p, r, fault).1 == Err(Overflow) <==> fault.None? && r.generation + 1 == U32
  {
  }

  /** Putting a key just derived into the history takes it back. */
  lemma RememberKeeps(p: Provider, root: ByteSeq, r: Ratchet, used: set<nat>, g: nat)
    requires g < U32 && g !in used && r.generation == g + 1 && Good(p, root, r, used + {g})
    ensures Good(p, root, Remember(r, MessageKey(p, root, g)), used)
  {
    hide Chain, KeyAt;
    assert MessageKey(p, root, g).generation == g by { MessageKeyGeneration(p, root, g); }
  }

  lemma MessageKeyGeneration(p: Provider, root: ByteSeq, g: nat)
    requires g < U32
    ensures MessageKey(p, root, g).generation == g
  {
  }

  /**
   Whatever the provider does, a request for a generation gives the key of that generation, gives it
   only once, and loses no other key.
   */
  lemma {:induction false} GetKeeps(p: Provider, root: ByteSeq, r: Ratchet, used: set<nat>, g: nat, faults: Faults)
    requires Good(p, root, r, used)
    ensures var (r', k) := GetKey(p, r, g, faults);
            && (k.Ok? ==> g !in used && g < U32 && k.value == MessageKey(p, root, g) && Good(p, root, r', used + {g}))
            && (k.Err? && k.error != Overflow ==> Good(p, root, r', used))
  {
    hide NextKey, Chain, KeyAt, Advance;
    if g >= r.generation && g <= r.generation + MAX_RATCHET_BACK_HISTORY < U32 {
      AdvanceStaysInRange(p, r, g, faults, 0);
      AdvanceKeeps(p, root, r, used, g, faults, 0);
      NextKeeps(p, root, Advance(p, r, g, faults, 0).0, used, faults(g - r.generation));
    }
  }

  ghost predicate NoFaults(faults: Faults) {
    forall n :: faults(n).None?
  }

  /** The generation is the least above all that were given out. */
  ghost predicate Tight(r: Ratchet, used: set<nat>) {
    r.generation == 0 || r.generation - 1 in used
  }

  /** Where requests succeed: not given out, and no more than 1024 generations ahead of all that were. */
  ghost predicate Available(used: set<nat>, g: nat) {
    && g !in used
    && ((exists u :: u in used && g < u) || WithinReach(used, g))
  }

  ghost predicate WithinReach(used: set<nat>, g: nat) {
    && g + 1 < U32
    && (forall u :: u in used ==> u + 1 + MAX_RATCHET_BACK_HISTORY < U32)
    && (g <= MAX_RATCHET_BACK_HISTORY || exists u :: u in used && g <= u + 1 + MAX_RATCHET_BACK_HISTORY)
  }

  /** With a provider that does not fail, the answer depends on the keys given out and nothing else. */
  lemma {:induction false} GetExactly(p: Provider, root: ByteSeq, r: Ratchet, used: set<nat>, g: nat, faults: Faults)
    requires Good(p, root, r, used) && Tight(r, used) && NoFaults(faults)
    ensures var (r', k) := GetKey(p, r, g, faults);
            && (k.Ok? <==> Available(used, g))
            && (k.Ok? ==> Tight(r', used + {g}))
            && (k.Err? && g + 1 < U32 ==> r' == r)
            && (g in used ==> k == Err(KeyMissing(g)))
  {
    hide NextKey, Chain, KeyAt, Advance;
    if r.generation > 0 { assert r.generation - 1 in used; }
    if g < r.generation {
      assert g !in used ==> g < r.generation - 1;
    } else if r.generation + MAX_RATCHET_BACK_HISTORY < U32 && g <= r.generation + MAX_RATCHET_BACK_HISTORY {
      AdvanceStaysInRange(p, r, g, faults, 0);
      AdvanceKeeps(p, root, r, used, g, faults, 0);
      var a := Advance(p, r, g, faults, 0);
      NextSucceeds(p, a.0, faults(g - r.generation));
    }
  }

  /** The requests that panic, in terms of the ratchet and the faults. */
  predicate Panics(r: Ratchet, g: nat, faults: Faults) {
    && g >= r.generation
    && (|| r.generation + MAX_RATCHET_BACK_HISTORY >= U32
        || (g + 1 == U32 && g <= r.generation + MAX_RATCHET_BACK_HISTORY
            && forall m :: 0 <= m <= g - r.generation ==> faults(m).None?))
  }

  lemma {:induction false} PanicsExactly(p: Provider, root: ByteSeq, r: Ratchet, used: set<nat>, g: nat, faults: Faults)
    requires Good(p, root, r, used)
    ensures GetKey(p, r, g, faults).1 == Err(Overflow) <==> Panics(r, g, faults)
  {
    hide NextKey, Chain, KeyAt, Advance;
    if g >= r.generation && g <= r.generation + MAX_RATCHET_BACK_HISTORY < U32 {
      AdvanceStaysInRange(p, r, g, faults, 0);
      AdvanceKeeps(p, root, r, used, g, faults, 0);
      NextSucceeds(p, Advance(p, r, g, faults, 0).0, faults(g - r.generation));
    }
  }
}
