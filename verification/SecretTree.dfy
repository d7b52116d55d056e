/**
 The secret tree of an epoch (mls-rs/src/group/secret_tree.rs): the encryption secret at the root is
 pushed down to the leaves on demand, a node being erased when its children are derived.
 */
module SecretTrees {
  import opened Bits
  import opened Bytes
  import opened TreeMath
  import opened HpkeKdfs
  import opened MlsKdfs
  import opened SecretRatchets

  datatype TreeNode = TreeSecret(secret: ByteSeq) | Ratchets(application: Ratchet, handshake: Ratchet)

  type Known = map<nat, TreeNode>

  /** What the provider runs into at each part of a request: level of the path, new ratchets, ratchet steps. */
  datatype Trouble = Trouble(path: Faults, opening: Option<ProviderError>, step: Faults)

  predicate Uses32(known: Known) {
    forall x :: x in known && known[x].Ratchets? ==>
      known[x].application.generation < U32 && known[x].handshake.generation < U32
  }

  // ----- The operations -----

  /** `consume_node`: the node goes first, the children come once both are derived. */
  function ConsumeNode(p: Provider, known: Known, x: nat, fault: Option<ProviderError>): (Known, Option<MlsError>) {
    if x !in known then (known, None)
    else if known[x].Ratchets? then (known - {x}, None)
    else if IsLeaf(x) then (known - {x}, Some(LeafNodeNoChildren))
    else if fault.Some? then (known - {x}, Some(CryptoProviderError(fault.value)))
    else
      var s := known[x].secret;
      ((known - {x})[LeftUnchecked(x) := TreeSecret(Derive(p, s, LeftChild))]
       [RightUnchecked(x) := TreeSecret(Derive(p, s, RightChild))], None)
  }

  /** The loop of `take_leaf_ratchet` over the nodes above leaf `i`, from level `k` down. */
  function ConsumePath(p: Provider, known: Known, i: nat, k: nat, faults: Faults): (Known, Option<MlsError>)
    decreases k
  {
    if k == 0 then (known, None)
    else
      var (rest, e) := ConsumeNode(p, known, Above(i, k), faults(k));
      if e.Some? then (rest, e) else ConsumePath(p, rest, i, k - 1, faults)
  }

  function NewRatchet(p: Provider, secret: ByteSeq, t: KeyType): Ratchet {
    Ratchet(Derive(p, secret, RatchetRoot(t)), 0, map[])
  }

  /** The last part of `take_leaf_ratchet`: a secret at the leaf becomes two ratchets. */
  function OpenLeaf(p: Provider, n: TreeNode, opening: Option<ProviderError>): Result<TreeNode, MlsError> {
    if n.Ratchets? then Ok(n)
    else if opening.Some? then Err(CryptoProviderError(opening.value))
    else Ok(Ratchets(NewRatchet(p, n.secret, Application), NewRatchet(p, n.secret, Handshake)))
  }

  /** `take_leaf_ratchet` for leaf `i` of a tree of height `h`. */
  function TakeLeaf(p: Provider, known: Known, h: nat, i: nat, t: Trouble): (Known, Result<TreeNode, MlsError>) {
    var x := 2 * i;
    if x in known then (known - {x}, OpenLeaf(p, known[x], t.opening))
    else
      var (rest, e) := if IsInTree(x, Pow2(h) - 1) then ConsumePath(p, known, i, h, t.path) else (known, None);
      if e.Some? then (rest, Err(e.value))
      else if x !in rest then (rest, Err(InvalidLeafConsumption))
      else (rest - {x}, OpenLeaf(p, rest[x], t.opening))
  }

  function Pick(n: TreeNode, t: KeyType): Ratchet
    requires n.Ratchets?
  {
    match t case Handshake => n.handshake case Application => n.application
  }

  function Put(n: TreeNode, t: KeyType, r: Ratchet): TreeNode
    requires n.Ratchets?
  {
    match t case Handshake => n.(handshake := r) case Application => n.(application := r)
  }

  datatype Request =
    | Next(leaf: nat, keyType: KeyType)
    | Get(leaf: nat, keyType: KeyType, generation: nat)

  /** After a failure `next_message_key` has dropped the ratchets, `message_key_generation` only after a panic. */
  predicate PutsBack(q: Request, k: Result<MessageKeyData, MlsError>) {
    k.Ok? || (q.Get? && k.error != Overflow)
  }

  function Answer(p: Provider, known: Known, h: nat, q: Request, t: Trouble): (Known, Result<MessageKeyData, MlsError>)
    requires Uses32(known)
  {
    var (rest, taken) := TakeLeaf(p, known, h, q.leaf, t);
    if taken.Err? then (rest, Err(taken.error))
    else
      TakenUses32(p, known, h, q.leaf, t);
      var n := taken.value;
      var (r, k) := if q.Next? then NextKey(p, Pick(n, q.keyType), t.step(0))
                    else GetKey(p, Pick(n, q.keyType), q.generation, t.step);
      (if PutsBack(q, k) then rest[2 * q.leaf := Put(n, q.keyType, r)] else rest, k)
  }

  lemma {:induction false} ConsumeUses32(p: Provider, known: Known, i: nat, k: nat, faults: Faults)
    requires Uses32(known)
    ensures Uses32(ConsumePath(p, known, i, k, faults).0)
    decreases k
  {
    hide Derive, Above, LeftUnchecked, RightUnchecked;
    if k > 0 {
      var (rest, e) := ConsumeNode(p, known, Above(i, k), faults(k));
      assert Uses32(rest);
      ConsumeUses32(p, rest, i, k - 1, faults);
    }
  }

  lemma TakenUses32(p: Provider, known: Known, h: nat, i: nat, t: Trouble)
    requires Uses32(known)
    ensures var (rest, n) := TakeLeaf(p, known, h, i, t);
            && Uses32(rest)
            && (n.Ok? ==>
                  n.value.Ratchets? && n.value.application.generation < U32 && n.value.handshake.generation < U32)
  {
    hide Derive, ConsumePath;
    ConsumeUses32(p, known, i, h, t.path);
  }

  class SecretTree {
    var known: Known
    const leafCount: nat
    ghost const height: nat

    ghost predicate Valid()
      reads this
    {
      leafCount == Pow2(height) && height <= MAX_HEIGHT && Uses32(known)
    }

    constructor (leafCount: nat, encryptionSecret: ByteSeq, ghost height: nat)
      requires leafCount == Pow2(height) && height <= MAX_HEIGHT
      ensures Valid() && this.height == height && known == Start(height, encryptionSecret)
    {
      RootIndex(height);
      this.leafCount, this.height := leafCount, height;
      known := map[leafCount - 1 := TreeSecret(encryptionSecret)];
    }

    method Consume(p: Provider, x: nat, fault: Option<ProviderError>) returns (e: Option<MlsError>)
      modifies this
      ensures (known, e) == ConsumeNode(p, old(known), x, fault)
    {
      if x !in known { return None; }
      var node := known[x];
      known := known - {x};
      if node.Ratchets? { return None; }
      var left, right := Left(x), Right(x);
      if left.None? { return Some(LeafNodeNoChildren); }
      if fault.Some? { return Some(CryptoProviderError(fault.value)); }
      known := known[left.value := TreeSecret(Derive(p, node.secret, LeftChild))];
      known := known[right.value := TreeSecret(Derive(p, node.secret, RightChild))];
      return None;
    }

    /** Walks the direct path from the root down. */
    method ConsumeAbove(p: Provider, x: nat, faults: Faults) returns (e: Option<MlsError>)
      requires Valid() && IsLeaf(x)
      modifies this
      ensures (known, e) == if IsInTree(x, leafCount - 1) then ConsumePath(p, old(known), x / 2, height, faults)
              else (old(known), None)
    {
      hide ConsumeNode, Copath, Above, Node;
      var path := DirectCopath(x, leafCount, height);
      ghost var i := x / 2;
      if !IsInTree(x, leafCount - 1) { return None; }
      LeafPlace(i, height);
      CopathOfLeaf(i, 0, height);
      var k: nat := |path|;
      while k > 0
        invariant k <= |path| == height
        invariant ConsumePath(p, known, i, k, faults) == ConsumePath(p, old(known), i, height, faults)
      {
        e := Consume(p, path[k - 1].path, faults(k));
        if e.Some? { return; }
        k := k - 1;
      }
      return None;
    }

    method TakeLeafRatchet(p: Provider, x: nat, t: Trouble) returns (n: Result<TreeNode, MlsError>)
      requires Valid() && IsLeaf(x)
      modifies this
      ensures (known, n) == TakeLeaf(p, old(known), height, x / 2, t)
    {
      hide ConsumePath, Derive;
      if x !in known {
        var e := ConsumeAbove(p, x, t.path);
        if e.Some? { return Err(e.value); }
        if x !in known { return Err(InvalidLeafConsumption); }
      }
      var node := known[x];
      known := known - {x};
      n := OpenLeaf(p, node, t.opening);
    }

    method NextMessageKey(p: Provider, x: nat, keyType: KeyType, t: Trouble)
      returns (res: Result<MessageKeyData, MlsError>)
      requires Valid() && IsLeaf(x)
      modifies this
      ensures Valid() && (known, res) == Answer(p, old(known), height, Next(x / 2, keyType), t)
    {
      hide TakeLeaf, NextKey, GetKey;
      TakenUses32(p, known, height, x / 2, t);
      var n := TakeLeafRatchet(p, x, t);
      if n.Err? { return Err(n.error); }
      var r := new SecretKeyRatchet(Pick(n.value, keyType));
      NextKeyShape(p, r.Value(), t.step(0));
      res := r.NextMessageKey(p, t.step(0));
      if res.Err? { return; }
      known := known[x := Put(n.value, keyType, Ratchet(r.secret, r.generation, r.history))];
    }

    method MessageKeyGeneration(p: Provider, x: nat, keyType: KeyType, generation: nat, t: Trouble)
      returns (res: Result<MessageKeyData, MlsError>)
      requires Valid() && IsLeaf(x)
      modifies this
      ensures Valid() && (known, res) == Answer(p, old(known), height, Get(x / 2, keyType, generation), t)
    {
      hide TakeLeaf, NextKey, GetKey;
      TakenUses32(p, known, height, x / 2, t);
      var n := TakeLeafRatchet(p, x, t);
      if n.Err? { return Err(n.error); }
      var r := new SecretKeyRatchet(Pick(n.value, keyType));
      GetStaysInRange(p, r.Value(), generation, t.step);
      res := r.GetMessageKey(p, generation, t.step);
      if res == Err(Overflow) { return; }
      known := known[x := Put(n.value, keyType, Ratchet(r.secret, r.generation, r.history))];
    }
  }

  lemma GetStaysInRange(p: Provider, r: Ratchet, g: nat, faults: Faults)
    requires r.generation < U32
    ensures GetKey(p, r, g, faults).0.generation < U32
  {
    hide Advance, NextKey;
    if g >= r.generation {
      AdvanceStaysInRange(p, r, g, faults, 0);
      NextKeyShape(p, Advance(p, r, g, faults, 0).0, faults(g - r.generation));
    }
  }

  function Start(h: nat, encryptionSecret: ByteSeq): Known {
    map[Node(h, 0) := TreeSecret(encryptionSecret)]
  }
}
