/** Every run of a secret tree: which keys come out, that each comes out once, and when requests succeed. */
module SecretTreeLaws {
  import opened Bits
  import opened Bytes
  import opened TreeMath
  import opened HpkeKdfs
  import opened MlsKdfs
  import opened SecretRatchets
  import opened SecretTrees

  // ----- The keys the tree stands for -----

  /** The secret of the `j`-th node of level `k`, computed from the root. */
  function NodeSecret(p: Provider, enc: ByteSeq, h: nat, k: nat, j: nat): ByteSeq
    requires k <= h
    decreases h - k
  {
    if k == h then enc
    else Derive(p, NodeSecret(p, enc, h, k + 1, j / 2), if j % 2 == 0 then LeftChild else RightChild)
  }

  function RootOf(p: Provider, enc: ByteSeq, h: nat, i: nat, t: KeyType): ByteSeq {
    Derive(p, NodeSecret(p, enc, h, 0, i), RatchetRoot(t))
  }

  /** The key of a generation of a leaf, by section 9 of RFC 9420. */
  function ExpectedKey(p: Provider, enc: ByteSeq, h: nat, i: nat, t: KeyType, g: nat): MessageKeyData
    requires g < U32
  {
    MessageKey(p, RootOf(p, enc, h, i, t), g)
  }

  // ----- The invariant -----

  datatype Use = Use(leaf: nat, keyType: KeyType, generation: nat)

  /** The keys given out so far, and whether the provider has worked throughout. */
  datatype Log = Log(uses: set<Use>, steady: bool)

  /** Generations of a leaf that a log of keys given out contains. */
  ghost function Used(log: Log, i: nat, t: KeyType): set<nat> {
    set u | u in log.uses && u.leaf == i && u.keyType == t :: u.generation
  }

  ghost predicate Untouched(log: Log, i: nat) {
    Used(log, i, Handshake) == {} && Used(log, i, Application) == {}
  }

  ghost predicate RatchetsOk(p: Provider, enc: ByteSeq, h: nat, n: TreeNode, log: Log, i: nat) {
    && n.Ratchets?
    && Good(p, RootOf(p, enc, h, i, Application), n.application, Used(log, i, Application))
    && Good(p, RootOf(p, enc, h, i, Handshake), n.handshake, Used(log, i, Handshake))
    && (log.steady ==> Tight(n.application, Used(log, i, Application)) && Tight(n.handshake, Used(log, i, Handshake)))
  }

  /** What a node above leaf `i` at level `k` may hold; a secret only while no key of the leaf is out. */
  ghost predicate NodeOk(p: Provider, enc: ByteSeq, h: nat, n: TreeNode, log: Log, i: nat, k: nat)
    requires k <= h
  {
    if n.TreeSecret? then n.secret == NodeSecret(p, enc, h, k, Shift(i, k)) && Untouched(log, i)
    else k == 0 && RatchetsOk(p, enc, h, n, log, i)
  }

  /** At most one node is known on the way from a leaf to the root. */
  ghost predicate Alone(known: Known, h: nat, i: nat) {
    forall k: nat, m: nat :: k <= h && m <= h && Above(i, k) in known && Above(i, m) in known ==> k == m
  }

  ghost predicate LeafOk(p: Provider, enc: ByteSeq, h: nat, known: Known, log: Log, i: nat) {
    && (forall k: nat :: k <= h && Above(i, k) in known ==> NodeOk(p, enc, h, known[Above(i, k)], log, i, k))
    && Alone(known, h, i)
  }

  ghost predicate Inv(p: Provider, enc: ByteSeq, h: nat, known: Known, log: Log) {
    && (forall i: nat :: i < Pow2(h) ==> LeafOk(p, enc, h, known, log, i))
    && (forall x :: x in known ==> IsInTree(x, Pow2(h) - 1))
    && (forall u :: u in log.uses ==> u.leaf < Pow2(h))
    && Uses32(known)
  }

  /** Some node on the way from the leaf to the root is still known. */
  ghost predicate Alive(known: Known, h: nat, i: nat) {
    exists k: nat :: k <= h && Above(i, k) in known
  }

  lemma OnPath(i: nat, m: nat, k: nat, j: nat)
    ensures Above(i, m) == Node(k, j) <==> m == k && Shift(i, k) == j
  {
    if Above(i, m) == Node(k, j) { NodeInjective(m, Shift(i, m), k, j); }
  }

  // ----- Consuming -----

  /** How consuming the node above leaf `a` at level `k` changes the way up from leaf `i`. */
  lemma {:induction false} PathAfterConsume(p: Provider, known: Known, h: nat, a: nat, k: nat,
                                            fault: Option<ProviderError>, i: nat, m: nat)
    requires 0 < k <= h <= MAX_HEIGHT && a < Pow2(h) && m <= h && Alone(known, h, i)
    requires Above(a, k) in known ==> known[Above(a, k)].TreeSecret?
    ensures var after := ConsumeNode(p, known, Above(a, k), fault).0;
            if Shift(i, k) == Shift(a, k) && Above(a, k) in known
            then Above(i, m) in after <==> m == k - 1 && fault.None?
            else (Above(i, m) in after <==> Above(i, m) in known)
                 && (Above(i, m) in known ==> after[Above(i, m)] == known[Above(i, m)])
  {
    hide Node, Pow2, LeftUnchecked, RightUnchecked, Derive;
    var j := Shift(a, k);
    AboveInTree(a, k, h);
    ChildrenLaw(k, j, h);
    LevelOfNode(k, j);
    OnPath(i, m, k, j);
    OnPath(i, m, k - 1, 2 * j);
    OnPath(i, m, k - 1, 2 * j + 1);
    assert Shift(i, k) == Shift(i, k - 1) / 2;
    if Shift(i, k) == j { assert Above(i, k) == Above(a, k); }
  }

  /** The secret a child receives. */
  lemma ChildValue(p: Provider, enc: ByteSeq, h: nat, known: Known, a: nat, k: nat, i: nat)
    requires 0 < k <= h <= MAX_HEIGHT && a < Pow2(h) && Shift(i, k) == Shift(a, k)
    requires Above(a, k) in known && known[Above(a, k)] == TreeSecret(NodeSecret(p, enc, h, k, Shift(a, k)))
    ensures var after := ConsumeNode(p, known, Above(a, k), None).0;
            Above(i, k - 1) in after
              && after[Above(i, k - 1)] == TreeSecret(NodeSecret(p, enc, h, k - 1, Shift(i, k - 1)))
  {
    hide Node, Pow2, LeftUnchecked, RightUnchecked, Derive;
    var j := Shift(a, k);
    AboveInTree(a, k, h);
    ChildrenLaw(k, j, h);
    LevelOfNode(k, j);
    OnPath(i, k - 1, k - 1, 2 * j);
    OnPath(i, k - 1, k - 1, 2 * j + 1);
    assert Shift(i, k) == Shift(i, k - 1) / 2;
  }

  lemma {:induction false} ConsumeKeepsLeaf(p: Provider, enc: ByteSeq, h: nat, known: Known, log: Log, a: nat, k: nat,
                                            fault: Option<ProviderError>, i: nat)
    requires 0 < k <= h <= MAX_HEIGHT && a < Pow2(h) && i < Pow2(h)
    requires LeafOk(p, enc, h, known, log, a) && LeafOk(p, enc, h, known, log, i)
    ensures var after := ConsumeNode(p, known, Above(a, k), fault).0;
            && LeafOk(p, enc, h, after, log, i)
            && (Alive(after, h, i) ==> Alive(known, h, i))
            && (fault.None? && Alive(known, h, i) ==> Alive(after, h, i))
  {
    hide ConsumeNode, Above, NodeSecret, Pow2, Untouched, RatchetsOk;
    var after := ConsumeNode(p, known, Above(a, k), fault).0;
    forall m: nat | m <= h
      ensures if Shift(i, k) == Shift(a, k) && Above(a, k) in known
              then Above(i, m) in after <==> m == k - 1 && fault.None?
              else (Above(i, m) in after <==> Above(i, m) in known)
                   && (Above(i, m) in known ==> after[Above(i, m)] == known[Above(i, m)])
    {
      PathAfterConsume(p, known, h, a, k, fault, i, m);
    }
    if Shift(i, k) == Shift(a, k) && Above(a, k) in known {
      SameAbove(i, a, k);
      assert Alive(known, h, i);
      if fault.None? { ChildValue(p, enc, h, known, a, k, i); }
    }
  }

  lemma ConsumeStaysInTree(p: Provider, h: nat, known: Known, a: nat, k: nat, fault: Option<ProviderError>)
    requires 0 < k <= h <= MAX_HEIGHT && a < Pow2(h) && Uses32(known)
    requires forall x :: x in known ==> IsInTree(x, Pow2(h) - 1)
    ensures var after := ConsumeNode(p, known, Above(a, k), fault).0;
            (forall x :: x in after ==> IsInTree(x, Pow2(h) - 1)) && Uses32(after)
  {
    hide Node, Pow2, LeftUnchecked, RightUnchecked, Derive;
    var j := Shift(a, k);
    AboveInTree(a, k, h);
    ChildrenLaw(k, j, h);
    LevelOfNode(k, j);
    NodeBound(k - 1, 2 * j, h);
    NodeBound(k - 1, 2 * j + 1, h);
  }

  lemma {:induction false} ConsumeKeeps(p: Provider, enc: ByteSeq, h: nat, known: Known, log: Log, a: nat, k: nat,
                                        fault: Option<ProviderError>)
    requires 0 < k <= h <= MAX_HEIGHT && a < Pow2(h) && Inv(p, enc, h, known, log)
    ensures var after := ConsumeNode(p, known, Above(a, k), fault).0;
            && Inv(p, enc, h, after, log)
            && (forall i: nat :: i < Pow2(h) && Alive(after, h, i) ==> Alive(known, h, i))
            && (fault.None? ==> forall i: nat :: i < Pow2(h) && Alive(known, h, i) ==> Alive(after, h, i))
  {
    hide ConsumeNode, LeafOk, Alive, Above, Pow2, Uses32;
    var after := ConsumeNode(p, known, Above(a, k), fault).0;
    ConsumeStaysInTree(p, h, known, a, k, fault);
    forall i: nat | i < Pow2(h)
      ensures LeafOk(p, enc, h, after, log, i) && (Alive(after, h, i) ==> Alive(known, h, i))
      ensures fault.None? && Alive(known, h, i) ==> Alive(after, h, i)
    {
      assert LeafOk(p, enc, h, known, log, a) && LeafOk(p, enc, h, known, log, i);
      ConsumeKeepsLeaf(p, enc, h, known, log, a, k, fault, i);
    }
  }

  /** Consuming on the leaf's own path moves its secret one level down, or loses it on a failure. */
  lemma {:induction false} ConsumeOwn(p: Provider, enc: ByteSeq, h: nat, known: Known, log: Log, a: nat, k: nat,
                                      fault: Option<ProviderError>)
    requires 0 < k <= h <= MAX_HEIGHT && a < Pow2(h) && LeafOk(p, enc, h, known, log, a)
    ensures var (after, e) := ConsumeNode(p, known, Above(a, k), fault);
            && (e.Some? <==> Above(a, k) in known && fault.Some?)
            && (e.Some? ==> !Alive(after, h, a))
            && (forall m: nat :: m <= h && Above(a, m) in after <==>
                  m <= h && if Above(a, k) in known then m == k - 1 && fault.None? else Above(a, m) in known)
            && (Above(a, k) !in known ==> after == known)
  {
    hide Above, NodeSecret, Pow2, Untouched, RatchetsOk, Derive, LeftUnchecked, RightUnchecked;
    NotALeaf(a, k);
    var (after, e) := ConsumeNode(p, known, Above(a, k), fault);
    forall m: nat | m <= h
      ensures Above(a, m) in after <==> if Above(a, k) in known then m == k - 1 && fault.None? else Above(a, m) in known
    {
      PathAfterConsume(p, known, h, a, k, fault, a, m);
    }
  }

  lemma NotALeaf(a: nat, k: nat)
    ensures IsLeaf(Above(a, k)) <==> k == 0
  {
    LevelOfNode(k, Shift(a, k));
  }

  /** Walking down the path of leaf `a`: the leaf is reached unless the provider fails, and then it is lost. */
  lemma {:induction false} ConsumePathKeeps(p: Provider, enc: ByteSeq, h: nat, known: Known, log: Log, a: nat, k: nat,
                                            faults: Faults)
    requires k <= h <= MAX_HEIGHT && a < Pow2(h) && Inv(p, enc, h, known, log)
    requires forall m: nat :: k < m <= h ==> Above(a, m) !in known
    ensures var (after, e) := ConsumePath(p, known, a, k, faults);
            && Inv(p, enc, h, after, log)
            && (forall i: nat :: i < Pow2(h) && Alive(after, h, i) ==> Alive(known, h, i))
            && (e.None? ==> forall m: nat :: 0 < m <= h ==> Above(a, m) !in after)
            && (e.None? && Alive(known, h, a) ==> Above(a, 0) in after)
            && (e.Some? ==> !Alive(after, h, a))
            && (!Alive(known, h, a) ==> e.None? && after == known)
            && (NoFaults(faults) ==> e.None? && forall i: nat :: i < Pow2(h) && Alive(known, h, i) ==>
                  Alive(after, h, i))
    decreases k
  {
    hide ConsumeNode, LeafOk, Above, Pow2, Uses32;
    if k > 0 {
      assert LeafOk(p, enc, h, known, log, a);
      ConsumeKeeps(p, enc, h, known, log, a, k, faults(k));
      ConsumeOwn(p, enc, h, known, log, a, k, faults(k));
      var (rest, e) := ConsumeNode(p, known, Above(a, k), faults(k));
      if e.None? {
        KeepsOwnAlive(known, rest, h, a, k);
        ConsumePathKeeps(p, enc, h, rest, log, a, k - 1, faults);
      }
    }
  }

  lemma KeepsOwnAlive(known: Known, rest: Known, h: nat, a: nat, k: nat)
    requires 0 < k <= h
    requires Above(a, k) in known ==> Above(a, k - 1) in rest
    requires Above(a, k) !in known ==> rest == known
    ensures Alive(known, h, a) ==> Alive(rest, h, a)
  {
    hide Above;
  }

  // ----- Taking a leaf out and putting it back -----

  lemma LeafIndex(i: nat)
    ensures Above(i, 0) == 2 * i
  {
  }

  /** Removing the node of leaf `a` concerns no other leaf. */
  lemma {:induction false} RemoveLeaf(p: Provider, enc: ByteSeq, h: nat, known: Known, log: Log, a: nat)
    requires Inv(p, enc, h, known, log) && a < Pow2(h) && Above(a, 0) in known
    ensures var rest := known - {2 * a};
            && Inv(p, enc, h, rest, log) && !Alive(rest, h, a)
            && (forall i: nat :: i < Pow2(h) && i != a ==> (Alive(rest, h, i) <==> Alive(known, h, i)))
  {
    hide Above, Pow2, NodeOk;
    LeafIndex(a);
    var rest := known - {2 * a};
    assert Uses32(rest);
    forall i: nat | i < Pow2(h)
      ensures LeafOk(p, enc, h, rest, log, i)
      ensures i == a ==> !Alive(rest, h, i)
      ensures i != a ==> (Alive(rest, h, i) <==> Alive(known, h, i))
    {
      assert LeafOk(p, enc, h, known, log, i);
      OthersApart(a, i, h);
    }
  }

  lemma OthersApart(a: nat, i: nat, h: nat)
    ensures forall m: nat :: m <= h && Above(i, m) == Above(a, 0) ==> m == 0 && i == a
  {
    hide Node;
    forall m: nat | m <= h && Above(i, m) == Above(a, 0) ensures m == 0 && i == a { OnPath(i, m, 0, a); }
  }

  ghost predicate SameElsewhere(log: Log, log': Log, a: nat) {
    && (log'.steady ==> log.steady)
    && forall i: nat, t: KeyType :: i != a ==> Used(log, i, t) == Used(log', i, t)
  }

  /** Putting ratchets back at a leaf taken out. */
  lemma {:induction false} PutLeaf(p: Provider, enc: ByteSeq, h: nat, rest: Known, log: Log, a: nat, n: TreeNode,
                                   log': Log)
    requires Inv(p, enc, h, rest, log) && a < Pow2(h) && !Alive(rest, h, a)
    requires RatchetsOk(p, enc, h, n, log', a) && SameElsewhere(log, log', a)
    requires forall u :: u in log'.uses ==> u.leaf < Pow2(h)
    ensures var known := rest[2 * a := n];
            && Inv(p, enc, h, known, log') && Alive(known, h, a) && Above(a, 0) in known
            && (forall i: nat :: i < Pow2(h) && i != a ==> (Alive(known, h, i) <==> Alive(rest, h, i)))
  {
    hide Above, Pow2, Good, NodeSecret, RootOf, Used;
    LeafIndex(a);
    LeafPlace(a, h);
    var known := rest[2 * a := n];
    RatchetsIn32(p, enc, h, n, log', a);
    assert Uses32(known);
    forall i: nat | i < Pow2(h)
      ensures LeafOk(p, enc, h, known, log', i)
      ensures i == a ==> Alive(known, h, i)
      ensures i != a ==> (Alive(known, h, i) <==> Alive(rest, h, i))
    {
      assert LeafOk(p, enc, h, rest, log, i);
      OthersApart(a, i, h);
      assert i == a ==> Above(i, 0) in known;
    }
  }

  lemma RatchetsIn32(p: Provider, enc: ByteSeq, h: nat, n: TreeNode, log: Log, i: nat)
    requires RatchetsOk(p, enc, h, n, log, i)
    ensures n.application.generation < U32 && n.handshake.generation < U32
  {
  }

  /** A secret at the leaf opens into ratchets that have given out nothing. */
  lemma {:induction false} OpenLeafOk(p: Provider, enc: ByteSeq, h: nat, n: TreeNode, log: Log, i: nat,
                                      opening: Option<ProviderError>)
    requires NodeOk(p, enc, h, n, log, i, 0)
    ensures var r := OpenLeaf(p, n, opening);
            && (r.Ok? ==> RatchetsOk(p, enc, h, r.value, log, i))
            && (opening.None? ==> r.Ok?)
  {
    hide Derive, NodeSecret;
  }

  lemma {:induction false} TakeKeeps(p: Provider, enc: ByteSeq, h: nat, known: Known, log: Log, a: nat, t: Trouble)
    requires h <= MAX_HEIGHT && Inv(p, enc, h, known, log)
    ensures var (rest, n) := TakeLeaf(p, known, h, a, t);
            && Inv(p, enc, h, rest, log)
            && (a < Pow2(h) ==> !Alive(rest, h, a))
            && (forall i: nat :: i < Pow2(h) && Alive(rest, h, i) ==> Alive(known, h, i))
            && (n.Ok? ==> a < Pow2(h) && Alive(known, h, a) && RatchetsOk(p, enc, h, n.value, log, a))
            && (!(a < Pow2(h) && Alive(known, h, a)) ==> n == Err(InvalidLeafConsumption) && rest == known)
            && (NoFaults(t.path) ==> forall i: nat :: i < Pow2(h) && i != a && Alive(known, h, i) ==> Alive(rest, h, i))
            && (NoFaults(t.path) && t.opening.None? && a < Pow2(h) && Alive(known, h, a) ==> n.Ok?)
  {
    hide ConsumePath, OpenLeaf, Pow2, Above, Uses32;
    LeafIndex(a);
    LeafPlace(a, h);
    if a < Pow2(h) {
      if 2 * a in known {
        TakeKnown(p, enc, h, known, log, a, t);
        assert Alive(known, h, a);
      } else {
        ConsumePathKeeps(p, enc, h, known, log, a, h, t.path);
        var (rest, e) := ConsumePath(p, known, a, h, t.path);
        if e.None? && 2 * a in rest {
          TakeKnown(p, enc, h, rest, log, a, t);
          assert Alive(rest, h, a);
        }
      }
    }
  }

  lemma TakeKnown(p: Provider, enc: ByteSeq, h: nat, known: Known, log: Log, a: nat, t: Trouble)
    requires Inv(p, enc, h, known, log) && a < Pow2(h) && 2 * a in known && Above(a, 0) == 2 * a
    ensures var rest, n := known - {2 * a}, OpenLeaf(p, known[2 * a], t.opening);
            && Inv(p, enc, h, rest, log) && !Alive(rest, h, a)
            && (forall i: nat :: i < Pow2(h) && i != a ==> (Alive(rest, h, i) <==> Alive(known, h, i)))
            && (n.Ok? ==> RatchetsOk(p, enc, h, n.value, log, a))
            && (t.opening.None? ==> n.Ok?)
  {
    hide OpenLeaf, Pow2, Above, Uses32, NodeOk;
    RemoveLeaf(p, enc, h, known, log, a);
    assert LeafOk(p, enc, h, known, log, a);
    OpenLeafOk(p, enc, h, known[2 * a], log, a, t.opening);
  }

  // ----- One request -----

  function UseOf(q: Request, k: MessageKeyData): Use {
    Use(q.leaf, q.keyType, k.generation)
  }

  ghost predicate NoTrouble(t: Trouble) {
    NoFaults(t.path) && t.opening.None? && NoFaults(t.step)
  }

  /** The log after a request; only what the provider does can end its steadiness. */
  ghost function LogAfter(log: Log, q: Request, t: Trouble, k: Result<MessageKeyData, MlsError>): Log {
    Log(if k.Ok? then log.uses + {UseOf(q, k.value)} else log.uses,
        log.steady && NoTrouble(t) && (q.Get? ==> q.generation + 1 < U32))
  }

  lemma UsedAfter(log: Log, q: Request, t: Trouble, k: Result<MessageKeyData, MlsError>)
    ensures SameElsewhere(log, LogAfter(log, q, t, k), q.leaf)
    ensures forall u: KeyType :: u != q.keyType ==> Used(LogAfter(log, q, t, k), q.leaf, u) == Used(log, q.leaf, u)
    ensures Used(LogAfter(log, q, t, k), q.leaf, q.keyType)
            == Used(log, q.leaf, q.keyType) + (if k.Ok? then {k.value.generation} else {})
  {
    var after := LogAfter(log, q, t, k);
    forall i: nat, u: KeyType
      ensures Used(after, i, u)
              == Used(log, i, u) + (if k.Ok? && i == q.leaf && u == q.keyType then {k.value.generation} else {})
    {
      forall g | g in Used(after, i, u)
        ensures g in Used(log, i, u) + (if k.Ok? && i == q.leaf && u == q.keyType then {k.value.generation} else {})
      {
        assert Use(i, u, g) in after.uses;
      }
      forall g | g in Used(log, i, u) + (if k.Ok? && i == q.leaf && u == q.keyType then {k.value.generation} else {})
        ensures g in Used(after, i, u)
      {
        assert Use(i, u, g) in after.uses;
      }
    }
  }

  lemma UsedHas(log: Log, u: Use)
    ensures u in log.uses <==> u.generation in Used(log, u.leaf, u.keyType)
  {
  }

  /** The answer of the ratchet that a request reaches. */
  function RatchetAnswer(p: Provider, r: Ratchet, q: Request, step: Faults): (Ratchet, Result<MessageKeyData, MlsError>)
    requires r.generation < U32
  {
    if q.Next? then NextKey(p, r, step(0)) else GetKey(p, r, q.generation, step)
  }

  /** What a request does to a ratchet and to the generations it has given out. */
  lemma {:induction false} RatchetStep(p: Provider, root: ByteSeq, r: Ratchet, used: set<nat>, q: Request, step: Faults)
    requires Good(p, root, r, used)
    ensures var (r', k) := RatchetAnswer(p, r, q, step);
            && (k.Ok? ==>
                  k.value.generation < U32 && k.value.generation !in used
                  && k.value == MessageKey(p, root, k.value.generation))
            && (k.Ok? && q.Get? ==> k.value.generation == q.generation)
            && (k != Err(Overflow) ==> Good(p, root, r', used + (if k.Ok? then {k.value.generation} else {})))
            && (Tight(r, used) && NoFaults(step) && (q.Get? ==> q.generation + 1 < U32) && k != Err(Overflow) ==>
                  Tight(r', used + (if k.Ok? then {k.value.generation} else {})))
  {
    hide NextKey, GetKey, Chain, KeyAt;
    var (r', k) := RatchetAnswer(p, r, q, step);
    if k.Err? { assert used + {} == used; }
    if q.Next? {
      NextKeeps(p, root, r, used, step(0));
      NextSucceeds(p, r, step(0));
      MessageKeyGeneration(p, root, r.generation);
    } else {
      GetKeeps(p, root, r, used, q.generation, step);
      if k.Ok? { MessageKeyGeneration(p, root, q.generation); }
      if Tight(r, used) && NoFaults(step) { GetExactly(p, root, r, used, q.generation, step); }
    }
  }

  /** The ratchets of a leaf after a request for one of them. */
  lemma {:induction false} LeafStep(p: Provider, enc: ByteSeq, h: nat, n: TreeNode, log: Log, q: Request, t: Trouble)
    requires RatchetsOk(p, enc, h, n, log, q.leaf)
    ensures Pick(n, q.keyType).generation < U32
    ensures var (r, k) := RatchetAnswer(p, Pick(n, q.keyType), q, t.step);
            && (k != Err(Overflow) ==> RatchetsOk(p, enc, h, Put(n, q.keyType, r), LogAfter(log, q, t, k), q.leaf))
            && (k.Ok? ==> k.value.generation < U32 && UseOf(q, k.value) !in log.uses)
            && (k.Ok? ==> k.value == ExpectedKey(p, enc, h, q.leaf, q.keyType, k.value.generation))
            && (k.Ok? && q.Get? ==> k.value.generation == q.generation)
  {
    hide RatchetAnswer, Good, Tight, RootOf, MessageKey;
    RatchetsIn32(p, enc, h, n, log, q.leaf);
    var (r, k) := RatchetAnswer(p, Pick(n, q.keyType), q, t.step);
    RatchetStep(p, RootOf(p, enc, h, q.leaf, q.keyType), Pick(n, q.keyType), Used(log, q.leaf, q.keyType), q, t.step);
    UsedAfter(log, q, t, k);
    if k.Ok? { UsedHas(log, UseOf(q, k.value)); }
  }

  lemma AnswerBySteps(p: Provider, known: Known, h: nat, q: Request, t: Trouble)
    requires Uses32(known)
    ensures var (rest, taken) := TakeLeaf(p, known, h, q.leaf, t);
            if taken.Err? then Answer(p, known, h, q, t) == (rest, Err(taken.error))
            else
              taken.value.Ratchets? && Pick(taken.value, q.keyType).generation < U32
              && var (r, k) := RatchetAnswer(p, Pick(taken.value, q.keyType), q, t.step);
              Answer(p, known, h, q, t) ==
                (if PutsBack(q, k) then rest[2 * q.leaf := Put(taken.value, q.keyType, r)] else rest, k)
  {
    hide TakeLeaf, NextKey, GetKey;
    TakenUses32(p, known, h, q.leaf, t);
    var taken := TakeLeaf(p, known, h, q.leaf, t).1;
    assert taken.Ok? ==> taken.value.Ratchets?;
  }

  /** The invariant survives every request, whatever the provider does, and a key is right and new. */
  lemma {:induction false} AnswerKeeps(p: Provider, enc: ByteSeq, h: nat, known: Known, log: Log, q: Request,
                                       t: Trouble)
    requires h <= MAX_HEIGHT && Inv(p, enc, h, known, log)
    ensures var (after, k) := Answer(p, known, h, q, t);
            && Inv(p, enc, h, after, LogAfter(log, q, t, k))
            && (k.Ok? ==> q.leaf < Pow2(h) && k.value.generation < U32 && UseOf(q, k.value) !in log.uses)
            && (k.Ok? ==> k.value == ExpectedKey(p, enc, h, q.leaf, q.keyType, k.value.generation))
            && (k.Ok? && q.Get? ==> k.value.generation == q.generation)
  {
    hide Answer, TakeLeaf, RatchetAnswer, Alive, Uses32, ExpectedKey, RatchetsOk, Above, Pow2, NoFaults;
    AnswerBySteps(p, known, h, q, t);
    TakeKeeps(p, enc, h, known, log, q.leaf, t);
    var (rest, taken) := TakeLeaf(p, known, h, q.leaf, t);
    var (after, k) := Answer(p, known, h, q, t);
    UsedAfter(log, q, t, k);
    WeakerLog(p, enc, h, rest, log, LogAfter(log, q, t, Err(Overflow)));
    if taken.Ok? {
      LeafStep(p, enc, h, taken.value, log, q, t);
      var r := RatchetAnswer(p, Pick(taken.value, q.keyType), q, t.step).0;
      if PutsBack(q, k) {
        PutLeaf(p, enc, h, rest, log, q.leaf, Put(taken.value, q.keyType, r), LogAfter(log, q, t, k));
      }
    }
  }

  /** A log that only stopped being steady. */
  lemma {:induction false} WeakerLog(p: Provider, enc: ByteSeq, h: nat, known: Known, log: Log, log': Log)
    requires Inv(p, enc, h, known, log) && log.uses == log'.uses && (log'.steady ==> log.steady)
    ensures Inv(p, enc, h, known, log')
  {
    hide Above, Pow2, Uses32, Good, Tight, Used;
    forall i: nat, t: KeyType ensures Used(log, i, t) == Used(log', i, t) { SameUsed(log, log', i, t); }
    forall i: nat | i < Pow2(h) ensures LeafOk(p, enc, h, known, log', i) {
      assert LeafOk(p, enc, h, known, log, i);
    }
  }

  lemma SameUsed(log: Log, log': Log, i: nat, t: KeyType)
    requires log.uses == log'.uses
    ensures Used(log, i, t) == Used(log', i, t)
  {
  }

  // ----- Every run -----

  datatype Call = Call(request: Request, trouble: Trouble)

  lemma AnswerUses32(p: Provider, known: Known, h: nat, q: Request, t: Trouble)
    requires Uses32(known)
    ensures Uses32(Answer(p, known, h, q, t).0)
  {
    hide TakeLeaf, NextKey, GetKey;
    TakenUses32(p, known, h, q.leaf, t);
    var taken := TakeLeaf(p, known, h, q.leaf, t).1;
    if taken.Ok? {
      NextKeyShape(p, Pick(taken.value, q.keyType), t.step(0));
      if q.Get? { GetStaysInRange(p, Pick(taken.value, q.keyType), q.generation, t.step); }
    }
  }

  /** The tree after the first `n` calls. */
  function After(p: Provider, enc: ByteSeq, h: nat, calls: seq<Call>, n: nat): (known: Known)
    requires n <= |calls|
    ensures Uses32(known)
  {
    if n == 0 then Start(h, enc)
    else
      var before := After(p, enc, h, calls, n - 1);
      AnswerUses32(p, before, h, calls[n - 1].request, calls[n - 1].trouble);
      Answer(p, before, h, calls[n - 1].request, calls[n - 1].trouble).0
  }

  function ResultAt(p: Provider, enc: ByteSeq, h: nat, calls: seq<Call>, n: nat): Result<MessageKeyData, MlsError>
    requires n < |calls|
  {
    Answer(p, After(p, enc, h, calls, n), h, calls[n].request, calls[n].trouble).1
  }

  ghost function LogAt(p: Provider, enc: ByteSeq, h: nat, calls: seq<Call>, n: nat): Log
    requires n <= |calls|
  {
    if n == 0 then Log({}, true)
    else LogAfter(LogAt(p, enc, h, calls, n - 1), calls[n - 1].request, calls[n - 1].trouble,
                  ResultAt(p, enc, h, calls, n - 1))
  }

  lemma {:induction false} StartKeeps(p: Provider, enc: ByteSeq, h: nat)
    ensures Inv(p, enc, h, Start(h, enc), Log({}, true))
    ensures forall i: nat :: i < Pow2(h) ==> Alive(Start(h, enc), h, i)
  {
    hide Node, Pow2;
    NodeBoundOfRoot(h);
    forall i: nat | i < Pow2(h)
      ensures LeafOk(p, enc, h, Start(h, enc), Log({}, true), i) && Alive(Start(h, enc), h, i)
    {
      RootAbove(i, h);
      forall k: nat | k <= h ensures Above(i, k) in Start(h, enc) <==> k == h { OnPath(i, k, h, 0); }
      assert Above(i, h) in Start(h, enc);
    }
  }

  lemma NodeBoundOfRoot(h: nat)
    ensures IsInTree(Node(h, 0), Pow2(h) - 1)
  {
    NodeBound(h, 0, h);
  }

  lemma RootAbove(i: nat, h: nat)
    requires i < Pow2(h)
    ensures Shift(i, h) == 0
  {
    ShiftBound(i, h, h);
  }

  lemma {:induction false} RunKeeps(p: Provider, enc: ByteSeq, h: nat, calls: seq<Call>, n: nat)
    requires h <= MAX_HEIGHT && n <= |calls|
    ensures Inv(p, enc, h, After(p, enc, h, calls, n), LogAt(p, enc, h, calls, n))
  {
    hide Inv, Answer, LogAfter;
    if n == 0 {
      StartKeeps(p, enc, h);
    } else {
      RunKeeps(p, enc, h, calls, n - 1);
      AnswerKeeps(p, enc, h, After(p, enc, h, calls, n - 1), LogAt(p, enc, h, calls, n - 1), calls[n - 1].request,
                  calls[n - 1].trouble);
    }
  }

  /** Every key that ever comes out is the one its leaf, type and generation prescribe. */
  lemma {:induction false} KeysAreRight(p: Provider, enc: ByteSeq, h: nat, calls: seq<Call>, n: nat)
    requires h <= MAX_HEIGHT && n < |calls| && ResultAt(p, enc, h, calls, n).Ok?
    ensures var q, k := calls[n].request, ResultAt(p, enc, h, calls, n).value;
            && q.leaf < Pow2(h) && k.generation < U32
            && k == ExpectedKey(p, enc, h, q.leaf, q.keyType, k.generation)
            && (q.Get? ==> k.generation == q.generation)
  {
    hide Inv, Answer, LogAfter, ExpectedKey;
    RunKeeps(p, enc, h, calls, n);
    AnswerKeeps(p, enc, h, After(p, enc, h, calls, n), LogAt(p, enc, h, calls, n), calls[n].request, calls[n].trouble);
  }

  lemma {:induction false} LogHolds(p: Provider, enc: ByteSeq, h: nat, calls: seq<Call>, m: nat, n: nat)
    requires m < n <= |calls| && ResultAt(p, enc, h, calls, m).Ok?
    ensures UseOf(calls[m].request, ResultAt(p, enc, h, calls, m).value) in LogAt(p, enc, h, calls, n).uses
    decreases n
  {
    hide ResultAt;
    if m + 1 < n { LogHolds(p, enc, h, calls, m, n - 1); }
  }

  /** No key comes out twice. */
  lemma {:induction false} KeysComeOnce(p: Provider, enc: ByteSeq, h: nat, calls: seq<Call>, m: nat, n: nat)
    requires h <= MAX_HEIGHT && m < n < |calls|
    requires ResultAt(p, enc, h, calls, m).Ok? && ResultAt(p, enc, h, calls, n).Ok?
    ensures UseOf(calls[m].request, ResultAt(p, enc, h, calls, m).value)
            != UseOf(calls[n].request, ResultAt(p, enc, h, calls, n).value)
  {
    hide Inv, Answer, LogAfter, ExpectedKey;
    RunKeeps(p, enc, h, calls, n);
    AnswerKeeps(p, enc, h, After(p, enc, h, calls, n), LogAt(p, enc, h, calls, n), calls[n].request, calls[n].trouble);
    LogHolds(p, enc, h, calls, m, n);
  }

  /** Two members of an epoch agree on every key, whatever each of them asked before and in what order. */
  lemma {:induction false} MembersAgree(p: Provider, enc: ByteSeq, h: nat, mine: seq<Call>, m: nat, yours: seq<Call>,
                                        n: nat)
    requires h <= MAX_HEIGHT && m < |mine| && n < |yours|
    requires ResultAt(p, enc, h, mine, m).Ok? && ResultAt(p, enc, h, yours, n).Ok?
    requires UseOf(mine[m].request, ResultAt(p, enc, h, mine, m).value)
             == UseOf(yours[n].request, ResultAt(p, enc, h, yours, n).value)
    ensures ResultAt(p, enc, h, mine, m) == ResultAt(p, enc, h, yours, n)
  {
    hide ResultAt, ExpectedKey;
    KeysAreRight(p, enc, h, mine, m);
    KeysAreRight(p, enc, h, yours, n);
  }

  // ----- When requests succeed -----

  /** No derivation fails at levels 1 to `k`. */
  ghost predicate Clear(path: Faults, k: nat) {
    forall m: nat :: 1 <= m <= k ==> path(m).None?
  }

  /** The provider lets the request get from the node known for the leaf down to its ratchets. */
  ghost predicate Reaches(known: Known, h: nat, i: nat, t: Trouble) {
    forall k: nat :: k <= h && Above(i, k) in known ==>
      && Clear(t.path, k)
      && (k > 0 || known[Above(i, 0)].TreeSecret? ==> t.opening.None?)
  }

  /** The leaf has its ratchets, and the one asked for panics. */
  ghost predicate LeafPanics(known: Known, q: Request, t: Trouble)
    requires q.Get?
  {
    && 2 * q.leaf in known && known[2 * q.leaf].Ratchets?
    && Panics(Pick(known[2 * q.leaf], q.keyType), q.generation, t.step)
  }

  /** Walking down fails exactly at a fault at or below the level of the node known. */
  lemma {:induction false} ConsumePathExactly(p: Provider, enc: ByteSeq, h: nat, known: Known, log: Log, a: nat, k: nat,
                                              j: nat, faults: Faults)
    requires j <= k <= h <= MAX_HEIGHT && a < Pow2(h) && Inv(p, enc, h, known, log) && Above(a, j) in known
    ensures var (after, e) := ConsumePath(p, known, a, k, faults);
            && (e.None? <==> Clear(faults, j))
            && (e.None? && j > 0 ==> Above(a, 0) in after && after[Above(a, 0)].TreeSecret?)
            && (j == 0 ==> after == known)
    decreases k
  {
    hide ConsumeNode, Above, Pow2, Uses32, Derive, NodeSecret, RatchetsOk, Untouched;
    if k > 0 {
      assert LeafOk(p, enc, h, known, log, a);
      ConsumeKeeps(p, enc, h, known, log, a, k, faults(k));
      ConsumeOwn(p, enc, h, known, log, a, k, faults(k));
      var (rest, e) := ConsumeNode(p, known, Above(a, k), faults(k));
      if j == k {
        assert known[Above(a, k)].TreeSecret?;
        if e.None? {
          ChildValue(p, enc, h, known, a, k, a);
          assert faults(k).None?;
          ConsumePathExactly(p, enc, h, rest, log, a, k - 1, k - 1, faults);
        }
      } else {
        ConsumePathExactly(p, enc, h, rest, log, a, k - 1, j, faults);
      }
    }
  }

  /** Taking the ratchets of a usable leaf succeeds exactly if the provider lets the request reach them. */
  lemma {:induction false} TakeExactly(p: Provider, enc: ByteSeq, h: nat, known: Known, log: Log, a: nat, t: Trouble)
    requires h <= MAX_HEIGHT && Inv(p, enc, h, known, log) && a < Pow2(h) && Alive(known, h, a)
    ensures var n := TakeLeaf(p, known, h, a, t).1;
            && (n.Ok? <==> Reaches(known, h, a, t))
            && (n.Ok? && 2 * a in known && known[2 * a].Ratchets? ==> n.value == known[2 * a])
            && (n.Ok? && !(2 * a in known && known[2 * a].Ratchets?) ==>
                  n.value.Ratchets? && n.value.application.generation == 0 && n.value.handshake.generation == 0)
  {
    hide Above, Pow2, Uses32, Derive, ConsumePath, Reaches, Clear;
    LeafIndex(a);
    LeafPlace(a, h);
    assert LeafOk(p, enc, h, known, log, a);
    var j: nat :| j <= h && Above(a, j) in known;
    ReachesFrom(known, h, a, t, j);
    if j > 0 {
      assert 2 * a !in known;
      ConsumePathExactly(p, enc, h, known, log, a, h, j, t.path);
      var (rest, e) := ConsumePath(p, known, a, h, t.path);
      if e.None? {
        assert rest[2 * a].TreeSecret?;
      } else {
        assert TakeLeaf(p, known, h, a, t).1 == Err(e.value);
      }
    }
  }

  /** Only one node is known for a leaf, so it decides. */
  lemma ReachesFrom(known: Known, h: nat, a: nat, t: Trouble, j: nat)
    requires j <= h && Above(a, j) in known && Alone(known, h, a)
    ensures Reaches(known, h, a, t) <==>
              && (j > 0 ==> Clear(t.path, j))
              && (j > 0 || known[Above(a, 0)].TreeSecret? ==> t.opening.None?)
  {
    hide Above;
    assert forall k: nat :: k <= h && Above(a, k) in known ==> k == j;
  }

  /**
   A failed request leaves its leaf usable exactly if it is a receiver's request that reached the
   ratchets and did not panic there.
   */
  lemma {:induction false} FailureKeepsLeafExactly(p: Provider, enc: ByteSeq, h: nat, known: Known, log: Log,
                                                   q: Request, t: Trouble)
    requires h <= MAX_HEIGHT && Inv(p, enc, h, known, log) && q.leaf < Pow2(h) && Alive(known, h, q.leaf)
    requires Answer(p, known, h, q, t).1.Err?
    ensures Alive(Answer(p, known, h, q, t).0, h, q.leaf) <==>
              q.Get? && Reaches(known, h, q.leaf, t) && !LeafPanics(known, q, t)
  {
    hide Answer, TakeLeaf, Uses32, RatchetsOk, NoFaults, Above, Pow2, Inv, Reaches, GetKey, NextKey, Panics;
    InvGives(p, enc, h, known, log);
    AnswerBySteps(p, known, h, q, t);
    TakeKeeps(p, enc, h, known, log, q.leaf, t);
    TakeExactly(p, enc, h, known, log, q.leaf, t);
    LeafIndex(q.leaf);
    var n := TakeLeaf(p, known, h, q.leaf, t).1;
    if n.Ok? && q.Get? {
      PanicsAtLeaf(p, enc, h, n.value, log, q, t);
      FreshNeverPanics(Pick(n.value, q.keyType), q.generation, t.step);
    }
  }

  lemma PanicsAtLeaf(p: Provider, enc: ByteSeq, h: nat, n: TreeNode, log: Log, q: Request, t: Trouble)
    requires RatchetsOk(p, enc, h, n, log, q.leaf) && q.Get?
    ensures Pick(n, q.keyType).generation < U32
    ensures GetKey(p, Pick(n, q.keyType), q.generation, t.step).1 == Err(Overflow) <==>
              Panics(Pick(n, q.keyType), q.generation, t.step)
  {
    hide GetKey, Panics, RootOf, Chain;
    PanicsExactly(p, RootOf(p, enc, h, q.leaf, q.keyType), Pick(n, q.keyType), Used(log, q.leaf, q.keyType),
                  q.generation, t.step);
  }

  lemma FreshNeverPanics(r: Ratchet, g: nat, faults: Faults)
    ensures r.generation == 0 ==> !Panics(r, g, faults)
  {
  }

  /** Other requests cannot bring a leaf back. */
  lemma {:induction false} DeadStaysDead(p: Provider, enc: ByteSeq, h: nat, known: Known, log: Log, q: Request,
                                         t: Trouble, i: nat)
    requires h <= MAX_HEIGHT && Inv(p, enc, h, known, log) && i < Pow2(h) && !Alive(known, h, i)
    ensures !Alive(Answer(p, known, h, q, t).0, h, i)
    ensures q.leaf == i ==> Answer(p, known, h, q, t).1 == Err(InvalidLeafConsumption)
  {
    hide Answer, TakeLeaf, RatchetAnswer, Uses32, RatchetsOk, NoFaults, Above, Pow2, Inv;
    InvGives(p, enc, h, known, log);
    AnswerBySteps(p, known, h, q, t);
    TakeKeeps(p, enc, h, known, log, q.leaf, t);
    LeafIndex(q.leaf);
    OthersApart(q.leaf, i, h);
  }

  lemma InvGives(p: Provider, enc: ByteSeq, h: nat, known: Known, log: Log)
    requires Inv(p, enc, h, known, log)
    ensures Uses32(known)
  {
  }

  /** Once lost, always lost: every later request for the leaf is refused. */
  lemma {:induction false} LostForever(p: Provider, enc: ByteSeq, h: nat, calls: seq<Call>, m: nat, n: nat, i: nat)
    requires h <= MAX_HEIGHT && i < Pow2(h) && m <= n < |calls| && calls[n].request.leaf == i
    requires !Alive(After(p, enc, h, calls, m), h, i)
    ensures ResultAt(p, enc, h, calls, n) == Err(InvalidLeafConsumption)
  {
    hide Alive, Answer, Inv, LogAt;
    StaysLost(p, enc, h, calls, m, n, i);
    RunKeeps(p, enc, h, calls, n);
    DeadStaysDead(p, enc, h, After(p, enc, h, calls, n), LogAt(p, enc, h, calls, n), calls[n].request, calls[n].trouble,
                  i);
  }

  lemma {:induction false} StaysLost(p: Provider, enc: ByteSeq, h: nat, calls: seq<Call>, m: nat, n: nat, i: nat)
    requires h <= MAX_HEIGHT && i < Pow2(h) && m <= n <= |calls| && !Alive(After(p, enc, h, calls, m), h, i)
    ensures !Alive(After(p, enc, h, calls, n), h, i)
    decreases n
  {
    hide Alive, Answer, Inv, LogAt;
    if m < n {
      StaysLost(p, enc, h, calls, m, n - 1, i);
      RunKeeps(p, enc, h, calls, n - 1);
      DeadStaysDead(p, enc, h, After(p, enc, h, calls, n - 1), LogAt(p, enc, h, calls, n - 1), calls[n - 1].request,
                    calls[n - 1].trouble, i);
    }
  }

  /** A `Next` that fails, for whatever reason, ends the leaf: the sender can send no more in this epoch. */
  lemma {:induction false} FailedNextIsFinal(p: Provider, enc: ByteSeq, h: nat, calls: seq<Call>, m: nat, n: nat)
    requires h <= MAX_HEIGHT && m < n < |calls| && calls[m].request.Next? && calls[m].request.leaf < Pow2(h)
    requires ResultAt(p, enc, h, calls, m).Err? && calls[n].request.leaf == calls[m].request.leaf
    ensures ResultAt(p, enc, h, calls, n) == Err(InvalidLeafConsumption)
  {
    hide Alive, Answer, Inv, LogAt;
    var i, known, log := calls[m].request.leaf, After(p, enc, h, calls, m), LogAt(p, enc, h, calls, m);
    RunKeeps(p, enc, h, calls, m);
    if Alive(known, h, i) {
      FailureKeepsLeafExactly(p, enc, h, known, log, calls[m].request, calls[m].trouble);
    } else {
      DeadStaysDead(p, enc, h, known, log, calls[m].request, calls[m].trouble, i);
    }
    LostForever(p, enc, h, calls, m + 1, n, i);
  }

  /** The generation that follows all that were given out. */
  ghost predicate IsNext(used: set<nat>, g: nat) {
    (forall u :: u in used ==> u < g) && (g == 0 || g - 1 in used)
  }

  ghost predicate AllAlive(known: Known, h: nat) {
    forall i: nat :: i < Pow2(h) ==> Alive(known, h, i)
  }

  /** One request with a working provider: when it succeeds, in terms of the keys given out. */
  lemma {:induction false} AnswerExactly(p: Provider, enc: ByteSeq, h: nat, known: Known, log: Log, q: Request,
                                         t: Trouble)
    requires h <= MAX_HEIGHT && Inv(p, enc, h, known, log) && AllAlive(known, h) && log.steady && NoTrouble(t)
    ensures var (after, k) := Answer(p, known, h, q, t);
            var used := Used(log, q.leaf, q.keyType);
            && (q.leaf >= Pow2(h) ==> k == Err(InvalidLeafConsumption))
            && (q.leaf < Pow2(h) && q.Get? ==> (k.Ok? <==> Available(used, q.generation)))
            && (q.leaf < Pow2(h) && q.Next? ==> (k.Err? <==> U32 - 2 in used))
            && (k.Ok? && q.Next? ==> IsNext(used, k.value.generation))
            && (k != Err(Overflow) ==> AllAlive(after, h))
  {
    hide Answer, TakeLeaf, RatchetAnswer, Uses32, Pow2, Alive, Inv, RatchetsOk, Available, Used;
    InvGives(p, enc, h, known, log);
    AnswerBySteps(p, known, h, q, t);
    TakeKeeps(p, enc, h, known, log, q.leaf, t);
    if q.leaf < Pow2(h) {
      var (rest, taken) := TakeLeaf(p, known, h, q.leaf, t);
      LeafExactly(p, enc, h, taken.value, log, q, t);
      var (r, k) := RatchetAnswer(p, Pick(taken.value, q.keyType), q, t.step);
      if PutsBack(q, k) {
        UsedAfter(log, q, t, k);
        LeafStep(p, enc, h, taken.value, log, q, t);
        LogInRange(p, enc, h, rest, log, q, t, k);
        PutLeaf(p, enc, h, rest, log, q.leaf, Put(taken.value, q.keyType, r), LogAfter(log, q, t, k));
      }
    }
  }

  lemma LogInRange(p: Provider, enc: ByteSeq, h: nat, known: Known, log: Log, q: Request, t: Trouble,
                   k: Result<MessageKeyData, MlsError>)
    requires Inv(p, enc, h, known, log) && q.leaf < Pow2(h)
    ensures forall u :: u in LogAfter(log, q, t, k).uses ==> u.leaf < Pow2(h)
  {
  }

  lemma {:induction false} LeafExactly(p: Provider, enc: ByteSeq, h: nat, n: TreeNode, log: Log, q: Request, t: Trouble)
    requires RatchetsOk(p, enc, h, n, log, q.leaf) && log.steady && NoTrouble(t)
    ensures Pick(n, q.keyType).generation < U32
    ensures var (r, k) := RatchetAnswer(p, Pick(n, q.keyType), q, t.step);
            var used := Used(log, q.leaf, q.keyType);
            && (q.Get? ==> (k.Ok? <==> Available(used, q.generation)))
            && (q.Next? ==> (k.Err? <==> U32 - 2 in used) && (k.Err? ==> k == Err(Overflow)))
            && (q.Next? && k.Ok? ==> IsNext(used, k.value.generation))
  {
    hide RootOf, Available, Good, Tight, NextKey, GetKey, IsNext, Used;
    RatchetsIn32(p, enc, h, n, log, q.leaf);
    var root, r, used := RootOf(p, enc, h, q.leaf, q.keyType), Pick(n, q.keyType), Used(log, q.leaf, q.keyType);
    if q.Next? {
      NextExactly(p, root, r, used, t.step(0));
    } else {
      GetExactly(p, root, r, used, q.generation, t.step);
    }
  }

  lemma NextExactly(p: Provider, root: ByteSeq, r: Ratchet, used: set<nat>, fault: Option<ProviderError>)
    requires Good(p, root, r, used) && Tight(r, used) && fault.None?
    ensures var k := NextKey(p, r, fault).1;
            && (k.Err? <==> U32 - 2 in used) && (k.Err? ==> k == Err(Overflow))
            && (k.Ok? ==> IsNext(used, k.value.generation))
  {
    hide Derive, Chain;
  }

  /** Calls with a working provider that do not reach for the last generation of all. */
  ghost predicate Smooth(calls: seq<Call>) {
    forall n :: 0 <= n < |calls| ==>
      NoTrouble(calls[n].trouble) && (calls[n].request.Get? ==> calls[n].request.generation + 1 < U32)
  }

  ghost predicate NeverOverflows(p: Provider, enc: ByteSeq, h: nat, calls: seq<Call>, n: nat)
    requires n <= |calls|
  {
    forall m :: 0 <= m < n ==> ResultAt(p, enc, h, calls, m) != Err(Overflow)
  }

  lemma {:induction false} SmoothRunKeeps(p: Provider, enc: ByteSeq, h: nat, calls: seq<Call>, n: nat)
    requires h <= MAX_HEIGHT && n <= |calls| && Smooth(calls) && NeverOverflows(p, enc, h, calls, n)
    ensures LogAt(p, enc, h, calls, n).steady && AllAlive(After(p, enc, h, calls, n), h)
  {
    hide Inv, Answer, AllAlive, NoTrouble, Used, Available, IsNext;
    if n == 0 {
      StartKeeps(p, enc, h);
      StartAlive(h, enc);
    } else {
      SmoothRunKeeps(p, enc, h, calls, n - 1);
      RunKeeps(p, enc, h, calls, n - 1);
      assert ResultAt(p, enc, h, calls, n - 1) != Err(Overflow);
      AnswerExactly(p, enc, h, After(p, enc, h, calls, n - 1), LogAt(p, enc, h, calls, n - 1), calls[n - 1].request,
                    calls[n - 1].trouble);
    }
  }

  lemma StartAlive(h: nat, enc: ByteSeq)
    requires forall i: nat :: i < Pow2(h) ==> Alive(Start(h, enc), h, i)
    ensures AllAlive(Start(h, enc), h)
  {
  }

  /**
   With a working provider the answers depend only on what was given out before: a `Get` succeeds
   exactly for a generation not given out and at most 1024 ahead, a `Next` gives the generation after
   all that were.
   */
  lemma {:induction false} AnswersExactly(p: Provider, enc: ByteSeq, h: nat, calls: seq<Call>, n: nat)
    requires h <= MAX_HEIGHT && n < |calls| && Smooth(calls) && NeverOverflows(p, enc, h, calls, n)
    ensures var q, k := calls[n].request, ResultAt(p, enc, h, calls, n);
            var used := Used(LogAt(p, enc, h, calls, n), q.leaf, q.keyType);
            && (q.leaf >= Pow2(h) ==> k == Err(InvalidLeafConsumption))
            && (q.leaf < Pow2(h) && q.Get? ==> (k.Ok? <==> Available(used, q.generation)))
            && (q.leaf < Pow2(h) && q.Next? ==> (k.Err? <==> U32 - 2 in used))
            && (k.Ok? && q.Next? ==> IsNext(used, k.value.generation))
  {
    hide Inv, Answer, AllAlive, NoTrouble, Used, Available, IsNext, LogAt;
    SmoothRunKeeps(p, enc, h, calls, n);
    RunKeeps(p, enc, h, calls, n);
    AnswerExactly(p, enc, h, After(p, enc, h, calls, n), LogAt(p, enc, h, calls, n), calls[n].request,
                  calls[n].trouble);
  }
}
