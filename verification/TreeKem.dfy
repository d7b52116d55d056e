/** Committing to a path: encapsulation and decapsulation over the ratchet tree (mls-rs/src/tree_kem/kem.rs). */
module TreeKems {
  import opened Bits
  import opened Bytes
  import opened TreeMath
  import opened HpkeKdfs
  import opened MlsKdfs
  import opened Kems
  import opened Hpkes
  import opened RatchetTrees

  datatype CommitError =
    | CryptoFailed(error: ProviderError)
    | UnexpectedEmptyNode
    | WrongPathLen
    | LcaNotFoundInDirectPath
    | UpdateErrorNoSecretKey
    | PubKeyMismatch
    | ExpectedNode
    | StepFailed(code: nat)    // hashing, signing, the identity provider or the tree index

  /** What a member makes of a path: a value, an error, or the panic of an index out of range. */
  datatype Received<T> = Done(value: T) | Refused(error: CommitError) | Panicked {
    predicate IsFailure() { !Done? }

    function PropagateFailure<U>(): Received<U>
      requires IsFailure()
    {
      if Refused? then Refused(error) else Panicked
    }

    function Extract(): T
      requires !IsFailure()
    {
      value
    }
  }

  function Answer<T>(r: Result<T, CommitError>): Received<T> {
    if r.Ok? then Done(r.value) else Refused(r.error)
  }

  datatype CipherSuite = CipherSuite(
    kdf: Provider,
    refuses: (ByteSeq, Purpose) -> Option<ProviderError>,   // when deriving from a secret fails
    derivePair: ByteSeq -> Result<KeyPair, ProviderError>,
    // public key, info, text
    seal: (ByteSeq, ByteSeq, ByteSeq, Coins) -> Result<HpkeCiphertext, ProviderError>,
    // ciphertext, secret key, public key, info
    open: (HpkeCiphertext, ByteSeq, ByteSeq, ByteSeq) -> Result<ByteSeq, ProviderError>)

  /** Private keys along the path of a member, its leaf first. */
  type Keys = seq<Option<ByteSeq>>

  /** The secret key opens everything that is sealed to the public key. */
  ghost predicate Opens(e: CipherSuite, secret: ByteSeq, public: ByteSeq) {
    forall info, text, c :: e.seal(public, info, text, c).Ok? ==>
      e.open(e.seal(public, info, text, c).value, secret, public, info) == Ok(text)
  }

  ghost predicate Works(e: CipherSuite) {
    forall seed :: e.derivePair(seed).Ok? ==> Opens(e, e.derivePair(seed).value.secret, e.derivePair(seed).value.public)
  }

  function Crypto<T>(r: Result<T, ProviderError>): Result<T, CommitError> {
    if r.Ok? then Ok(r.value) else Err(CryptoFailed(r.error))
  }

  // ----- Path secrets -----

  /** `kdf_derive_secret`. */
  function Derived(e: CipherSuite, secret: ByteSeq, purpose: Purpose): Result<ByteSeq, CommitError>
    requires ValidPurpose(purpose)
  {
    var refusal := e.refuses(secret, purpose);
    if refusal.Some? then Err(CryptoFailed(refusal.value)) else Ok(MlsKdfs.Derive(e.kdf, secret, purpose))
  }

  function NextPathSecret(e: CipherSuite, secret: ByteSeq): Result<ByteSeq, CommitError> {
    Derived(e, secret, PathSecret)
  }

  /** `to_hpke_key_pair`. */
  function NodePair(e: CipherSuite, secret: ByteSeq): Result<KeyPair, CommitError> {
    var seed :- Derived(e, secret, NodeSeed);
    Crypto(e.derivePair(seed))
  }

  /** mls-rs/src/tree_kem/path_secret.rs; `random` is what drawing a secret would give. */
  class PathSecretGenerator {
    const suite: CipherSuite
    const random: Result<ByteSeq, ProviderError>
    var last: Option<ByteSeq>
    var startingWith: Option<ByteSeq>

    /** What the next call returns. */
    ghost function Upcoming(): Result<ByteSeq, CommitError>
      reads this
    {
      if startingWith.Some? then Ok(startingWith.value)
      else if last.Some? then NextPathSecret(suite, last.value)
      else Crypto(random)
    }

    constructor (suite: CipherSuite, random: Result<ByteSeq, ProviderError>)
      ensures Upcoming() == Crypto(random) && this.suite == suite
    {
      this.suite, this.random, last, startingWith := suite, random, None, None;
    }

    constructor StartingWith(suite: CipherSuite, secret: ByteSeq)
      ensures Upcoming() == Ok(secret) && this.suite == suite
    {
      this.suite, random, last, startingWith := suite, Ok([]), None, Some(secret);
    }

    /** A failure uses up the secret it started from. */
    method NextSecret() returns (r: Result<ByteSeq, CommitError>)
      modifies this
      ensures r == old(Upcoming())
      ensures if r.Ok? then Upcoming() == NextPathSecret(suite, r.value) else startingWith.None? && last.None?
    {
      if startingWith.Some? {
        r := Ok(startingWith.value);
        startingWith := None;
      } else if last.Some? {
        r := NextPathSecret(suite, last.value);
        last := None;
      } else {
        r := Crypto(random);
      }
      if r.Ok? { last := Some(r.value); }
    }
  }

  // ----- The committer -----

  /** Everything a commit depends on; `tree` is the tree after the proposals, before the path. */
  datatype Commit = Commit(
    suite: CipherSuite,
    tree: Nodes,
    height: nat,
    sender: nat,
    seed: Result<ByteSeq, ProviderError>,
    leaf: KeyPair,
    added: set<nat>,
    info: ByteSeq,
    coins: (nat, nat) -> Coins)

  datatype UpdatePathNode = UpdatePathNode(key: ByteSeq, encrypted: seq<HpkeCiphertext>)

  /** `EncapGeneration`. */
  datatype Encapped = Encapped(nodes: seq<UpdatePathNode>, pathSecrets: Keys, commitSecret: ByteSeq)

  /** What asking for the path secret of position `i` gives; a filtered node uses none up. */
  function Upcoming(x: Commit, i: nat): Result<ByteSeq, CommitError> {
    if i == 0 then Crypto(x.seed)
    else
      var before := Upcoming(x, i - 1);
      if Filtered(x.tree, x.sender, i - 1) then before
      else
        var secret :- before;
        NextPathSecret(x.suite, secret)
  }

  function SecretAt(x: Commit, i: nat): ByteSeq {
    if Upcoming(x, i).Ok? then Upcoming(x, i).value else []
  }

  function PairAt(x: Commit, i: nat): Result<KeyPair, CommitError> {
    var secret :- Upcoming(x, i);
    NodePair(x.suite, secret)
  }

  /** The key pairs of the first `n` positions can be derived. */
  predicate PairsExist(x: Commit, n: nat) {
    forall i: nat :: i < n && !Filtered(x.tree, x.sender, i) ==> PairAt(x, i).Ok?
  }

  /** All derivations succeed, that of the commit secret included. */
  predicate Renewable(x: Commit) {
    PairsExist(x, x.height) && Upcoming(x, x.height).Ok?
  }

  /** The tree with the first `n` positions of the path replaced. */
  function Installed(x: Commit, n: nat): Nodes
    requires PairsExist(x, n)
  {
    if n == 0 then x.tree
    else if Filtered(x.tree, x.sender, n - 1) then Installed(x, n - 1)
    else Installed(x, n - 1)[Above(x.sender, n) := Parent(PairAt(x, n - 1).value.public, [])]
  }

  function Resize(keys: Keys, n: nat): (r: Keys)
    ensures |r| == n && forall i :: 0 <= i < n ==> r[i] == KeyOn(keys, i)
  {
    seq(n, i requires 0 <= i < n => KeyOn(keys, i))
  }

  function KeyOn(keys: Keys, k: nat): Option<ByteSeq> {
    if k < |keys| then keys[k] else None
  }

  /** The committer's keys after the first `n` positions. */
  function CommitterKeys(x: Commit, keys: Keys, n: nat): (r: Keys)
    requires n <= x.height && PairsExist(x, n)
    ensures |r| == x.height + 1
  {
    if n == 0 then Resize(keys, x.height + 1)
    else CommitterKeys(x, keys, n - 1)[n := if Filtered(x.tree, x.sender, n - 1) then None
                                       else Some(PairAt(x, n - 1).value.secret)]
  }

  function PathSecrets(x: Commit, n: nat): (r: Keys)
    ensures |r| == n && forall i :: 0 <= i < n ==>
              r[i] == if Filtered(x.tree, x.sender, i) then None else Some(SecretAt(x, i))
  {
    seq(n, i requires 0 <= i < n => if Filtered(x.tree, x.sender, i) then None else Some(SecretAt(x, i)))
  }

  /** The tree all members hold afterwards. */
  function NewTree(x: Commit): Nodes
    requires PairsExist(x, x.height)
  {
    Installed(x, x.height)[2 * x.sender := Leaf(x.leaf.public)]
  }

  /** The path carries the new keys except where it is filtered, and nothing else changes. */
  lemma {:induction false} InstalledLaw(x: Commit, n: nat, k: nat, j: nat)
    requires PairsExist(x, n)
    ensures if 1 <= k <= n && j == Shift(x.sender, k) && !Filtered(x.tree, x.sender, k - 1)
            then Node(k, j) in Installed(x, n)
              && Installed(x, n)[Node(k, j)] == Parent(PairAt(x, k - 1).value.public, [])
            else Same(x.tree, Installed(x, n), Node(k, j))
    decreases n
  {
    hide Node, Filtered, PairAt;
    if n > 0 {
      InstalledLaw(x, n - 1, k, j);
      if Above(x.sender, n) == Node(k, j) { NodeInjective(n, Shift(x.sender, n), k, j); }
    }
  }

  /** The committer drops the indices of the new leaves. */
  function KeepNodes(xs: seq<nat>, excluded: set<nat>): seq<nat> {
    if |xs| == 0 then []
    else (if xs[0] !in excluded then [xs[0]] else []) + KeepNodes(xs[1..], excluded)
  }

  function NodesOf(leaves: set<nat>): set<nat> {
    set a | a in leaves :: 2 * a
  }

  function SealAll(x: Commit, t: Nodes, to: seq<nat>, secret: ByteSeq, i: nat)
    : (r: Result<seq<HpkeCiphertext>, CommitError>)
    ensures r.Ok? ==> |r.value| == |to|
    ensures r.Ok? ==> forall n :: 0 <= n < |to| ==>
              to[n] in t && x.suite.seal(t[to[n]].key, x.info, secret, x.coins(i, n)) == Ok(r.value[n])
  {
    if |to| == 0 then Ok([])
    else
      var n := |to| - 1;
      var before :- SealAll(x, t, to[..n], secret, i);
      if to[n] !in t then Err(UnexpectedEmptyNode)
      else
        var ct :- Crypto(x.suite.seal(t[to[n]].key, x.info, secret, x.coins(i, n)));
        Ok(before + [ct])
  }

  /** `encrypt_copath_node_resolution` for position `i`. */
  function PathNode(x: Commit, i: nat): Result<UpdatePathNode, CommitError>
    requires PairsExist(x, x.height) && i < x.height && !Filtered(x.tree, x.sender, i)
  {
    var t := NewTree(x);
    var to := KeepNodes(Resolution(t, i, Sibling(Shift(x.sender, i))), NodesOf(x.added));
    var cts :- SealAll(x, t, to, SecretAt(x, i), i);
    Ok(UpdatePathNode(PairAt(x, i).value.public, cts))
  }

  /** `encrypt_path_secrets` from position `i` on. */
  function PathNodes(x: Commit, i: nat): Result<seq<UpdatePathNode>, CommitError>
    requires PairsExist(x, x.height) && i <= x.height
    decreases x.height - i
  {
    if i == x.height then Ok([])
    else if Filtered(x.tree, x.sender, i) then PathNodes(x, i + 1)
    else
      var n :- PathNode(x, i);
      var rest :- PathNodes(x, i + 1);
      Ok([n] + rest)
  }

  // ----- The receiver -----

  /** `validate_update_path` puts the nodes back next to their places; trailing filtered ones stay out. */
  function Unfilter<T>(filtered: seq<bool>, i: nat, nodes: seq<T>): Option<seq<Option<T>>>
    requires i <= |filtered|
    decreases |filtered| - i
  {
    if |nodes| == 0 then Some([])
    else if i == |filtered| then None
    else
      var rest := Unfilter(filtered, i + 1, if filtered[i] then nodes else nodes[1..]);
      if rest.None? then None
      else Some([if filtered[i] then None else Some(nodes[0])] + rest.value)
  }

  type Path = seq<Option<UpdatePathNode>>

  /** `apply_update_path`. */
  function Applied(t: Nodes, sender: nat, path: Path, n: nat): Nodes
    requires n <= |path|
  {
    if n == 0 then t
    else
      var before := Applied(t, sender, path, n - 1);
      if path[n - 1].None? then before else before[Above(sender, n) := Parent(path[n - 1].value.key, [])]
  }

  /** The tree with the new leaf and the nodes of the path. */
  function ReceivedTree(t: Nodes, c: nat, leafKey: ByteSeq, path: Path): Nodes {
    Applied(t[2 * c := Leaf(leafKey)], c, path, |path|)
  }

  /**
   What validation, the identity provider, the tree index and hashing answer when a path is received,
   in the order in which they are asked; `hashing` is the parent hash of each position.
   */
  datatype Checks = Checks(
    leaf: Option<CommitError>,        // the new leaf by itself
    successor: Option<CommitError>,   // the new leaf against the old one
    identity: Option<CommitError>,
    index: Option<CommitError>,
    hashing: nat -> Option<CommitError>,
    agreement: Option<CommitError>)   // the parent hash in the leaf, and the hashes of the tree

  const PASSING: Checks := Checks(None, None, None, None, (i: nat) => None, None)

  /** `parent_hash_for_leaf`, from position `n` down: unfiltered positions must not be blank. */
  function ParentHashes(t: Nodes, c: nat, n: nat, hashing: nat -> Option<CommitError>): Option<CommitError> {
    if n == 0 then None
    else if Filtered(t, c, n - 1) then ParentHashes(t, c, n - 1, hashing)
    else if Above(c, n) !in t then Some(ExpectedNode)
    else if hashing(n - 1).Some? then hashing(n - 1)
    else ParentHashes(t, c, n - 1, hashing)
  }

  /** How `apply_update_path` ends, and with which tree. */
  function AppliedPath(t: Nodes, h: nat, c: nat, leafKey: ByteSeq, path: Path, checks: Checks)
    : (Nodes, Result<(), CommitError>)
  {
    if 2 * c !in t then (t, Err(ExpectedNode))
    else if checks.identity.Some? then (t, Err(checks.identity.value))
    else
      var t' := ReceivedTree(t, c, leafKey, path);
      var hashes := ParentHashes(t', c, h, checks.hashing);
      (t', if checks.index.Some? then Err(checks.index.value)
           else if hashes.Some? then Err(hashes.value)
           else if checks.agreement.Some? then Err(checks.agreement.value)
           else Ok(()))
  }

  /** The lowest level from `k` down where the path of leaf `m` is not blank. */
  function LowestOccupied(t: Nodes, m: nat, k: nat): (r: nat)
    requires 2 * m in t
    ensures r <= k && Above(m, r) in t
  {
    if Above(m, k) in t then k else
      assert Above(m, 0) == 2 * m;
      LowestOccupied(t, m, k - 1)
  }

  /** `find_resolved_pos`. */
  function ResolvedPos(t: Nodes, m: nat, keys: Keys, k: nat): (r: nat)
    requires 2 * m in t
    ensures r <= k
  {
    var r := LowestOccupied(t, m, k);
    if KeyOn(keys, r).None? then 0 else r
  }

  /** The receiver drops the new leaves. */
  function KeepLeaves(xs: seq<nat>, added: set<nat>): seq<nat> {
    if |xs| == 0 then []
    else (if xs[0] % 2 == 1 || xs[0] / 2 !in added then [xs[0]] else []) + KeepLeaves(xs[1..], added)
  }

  function Position(xs: seq<nat>, x: nat): (r: Option<nat>)
    ensures r.Some? ==> r.value < |xs| && xs[r.value] == x
    ensures r.None? ==> x !in xs
  {
    if |xs| == 0 then None
    else if xs[0] == x then Some(0)
    else
      var r := Position(xs[1..], x);
      if r.Some? then Some(r.value + 1) else None
  }

  /** The last loop of `decap`, from position `i` with the path secret that comes next. */
  function Climb(e: CipherSuite, path: Path, i: nat, next: Result<ByteSeq, CommitError>, keys: Keys)
    : Result<(Keys, ByteSeq), CommitError>
    requires |path| < |keys|
    decreases |path| - i
  {
    if i < |path| && path[i].None? then Climb(e, path, i + 1, next, keys[i + 1 := None])
    else
      var secret :- next;
      if i >= |path| then Ok((keys, secret))
      else
        var pair :- NodePair(e, secret);
        if pair.public != path[i].value.key then Err(PubKeyMismatch)
        else Climb(e, path, i + 1, NextPathSecret(e, secret), keys[i + 1 := Some(pair.secret)])
  }

  /** Where member `m` finds its ciphertext among those of position `lca`. */
  function CiphertextPos(t: Nodes, m: nat, keys: Keys, lca: nat, added: set<nat>): Option<nat>
    requires 2 * m in t
  {
    Position(KeepLeaves(Resolution(t, lca, Shift(m, lca)), added), Above(m, ResolvedPos(t, m, keys, lca)))
  }

  /** The path secret that member `m` finds below level `lca` + 1 of the path, which is indexed without a test. */
  function OpenedSecret(e: CipherSuite, t: Nodes, m: nat, keys: Keys, lca: nat, path: Path, added: set<nat>,
                        info: ByteSeq): Received<ByteSeq>
    requires 2 * m in t
  {
    var at := ResolvedPos(t, m, keys, lca);
    var pos := CiphertextPos(t, m, keys, lca, added);
    if pos.None? then Refused(UpdateErrorNoSecretKey)
    else if lca >= |path| then Panicked
    else if path[lca].None? || pos.value >= |path[lca].value.encrypted| then Refused(LcaNotFoundInDirectPath)
    else if KeyOn(keys, at).None? || Above(m, at) !in t then Refused(UpdateErrorNoSecretKey)
    else Answer(Crypto(e.open(path[lca].value.encrypted[pos.value], KeyOn(keys, at).value, t[Above(m, at)].key, info)))
  }

  /** `decap` by member `m`, with the tree after the path is applied. */
  function Decap(e: CipherSuite, t: Nodes, h: nat, m: nat, keys: Keys, sender: nat, path: Path, added: set<nat>,
                 info: ByteSeq): Received<(Keys, ByteSeq)>
    requires 2 * m in t && m != sender && |path| <= h
  {
    assert LcaLevel(2 * m, 2 * sender) >= 2;
    var lca := LcaLevel(2 * m, 2 * sender) - 2;
    var secret :- OpenedSecret(e, t, m, keys, lca, path, added, info);
    Answer(Climb(e, path, lca, Ok(secret), Resize(keys, h + 2)))
  }

  /** `provisional_private_tree`: one key per level, none where the tree is blank. */
  function Provisional(t: Nodes, h: nat, m: nat, keys: Keys): (r: Keys)
    ensures |r| == h + 1
    ensures forall k :: 0 <= k <= h ==> r[k] == if k > 0 && Above(m, k) !in t then None else KeyOn(keys, k)
  {
    seq(h + 1, k requires 0 <= k <= h => if k > 0 && Above(m, k) !in t then None else KeyOn(keys, k))
  }

  // ----- A member joining by this commit -----

  /** The loop of `update_secrets`, from position `i` with the path secret that comes next. */
  function JoinFrom(e: CipherSuite, t: Nodes, h: nat, m: nat, i: nat, next: Result<ByteSeq, CommitError>, keys: Keys)
    : Result<Keys, CommitError>
    requires |keys| == h + 1
    decreases h - i
  {
    if i >= h then Ok(keys)
    else if Filtered(t, m, i) then JoinFrom(e, t, h, m, i + 1, next, keys)
    else
      var secret :- next;
      if Above(m, i + 1) !in t then Err(PubKeyMismatch)
      else
        var pair :- NodePair(e, secret);
        if pair.public != t[Above(m, i + 1)].key then Err(PubKeyMismatch)
        else JoinFrom(e, t, h, m, i + 1, NextPathSecret(e, secret), keys[i + 1 := Some(pair.secret)])
  }

  /** `update_secrets` (mls-rs/src/tree_kem/private.rs) by a member that a commit of `signer` added. */
  function Join(e: CipherSuite, t: Nodes, h: nat, m: nat, signer: nat, secret: ByteSeq, keys: Keys)
    : Result<Keys, CommitError>
    requires m != signer
  {
    assert LcaLevel(2 * m, 2 * signer) >= 2;
    JoinFrom(e, t, h, m, LcaLevel(2 * m, 2 * signer) - 2, Ok(secret), Resize(keys, h + 1))
  }

  // ----- The code -----

  class TreeKemPrivate {
    var selfIndex: nat
    var secretKeys: Keys

    constructor (selfIndex: nat, secretKeys: Keys)
      ensures this.selfIndex == selfIndex && this.secretKeys == secretKeys
    {
      this.selfIndex, this.secretKeys := selfIndex, secretKeys;
    }
  }

  class TreeKem {
    const public: NodeVec
    const own: TreeKemPrivate

    constructor (public: NodeVec, own: TreeKemPrivate)
      ensures this.public == public && this.own == own
    {
      this.public, this.own := public, own;
    }

    /** The ciphertexts of one position, in the order of the resolution. */
    method EncryptNode(x: Commit, index: nat, secret: ByteSeq, i: nat, ghost j: nat)
      returns (r: Result<seq<HpkeCiphertext>, CommitError>)
      requires public.Valid() && InTree(i, j, public.height) && index == Node(i, j)
      ensures r == SealAll(x, public.nodes, KeepNodes(Resolution(public.nodes, i, j), NodesOf(x.added)), secret, i)
    {
      hide Resolution, Node, KeepNodes;
      var resolution := public.GetResolutionIndex(index, i, j);
      var to := KeepNodes(resolution, NodesOf(x.added));
      var cts := [];
      var n := 0;
      while n < |to|
        invariant n <= |to|
        invariant SealAll(x, public.nodes, to[..n], secret, i) == Ok(cts)
        invariant SealAll(x, public.nodes, to, secret, i).Ok? ==> SealAll(x, public.nodes, to[..n], secret, i).Ok?
      {
        assert to[..n + 1][..n] == to[..n];
        if to[n] !in public.nodes { SealFails(x, public.nodes, to, secret, i, n); return Err(UnexpectedEmptyNode); }
        var ct := Crypto(x.suite.seal(public.nodes[to[n]].key, x.info, secret, x.coins(i, n)));
        if ct.Err? { SealFails(x, public.nodes, to, secret, i, n); return Err(ct.error); }
        cts := cts + [ct.value];
        n := n + 1;
      }
      assert to[..n] == to;
      return Ok(cts);
    }

    /** The first half of `encap`: new secrets and keys along the path. */
    method RenewPath(ghost x: Commit, suite: CipherSuite, generator: PathSecretGenerator)
      returns (r: Result<Keys, CommitError>)
      requires public.Valid() && own.selfIndex < public.leafCount
      requires x.suite == suite == generator.suite && x.tree == public.nodes && x.height == public.height
      requires x.sender == own.selfIndex && generator.Upcoming() == Upcoming(x, 0)
      modifies public, own, generator
      ensures r.Ok? <==> PairsExist(x, x.height)
      ensures r.Ok? ==> public.nodes == Installed(x, x.height) && r.value == PathSecrets(x, x.height)
      ensures r.Ok? ==> own.secretKeys == CommitterKeys(x, old(own.secretKeys), x.height)
      ensures r.Ok? ==> generator.Upcoming() == Upcoming(x, x.height)
      ensures own.selfIndex == old(own.selfIndex)
    {
      hide Filtered, Node, Pow2, InTree, NodePair, NextPathSecret, Above, Installed, CommitterKeys, PairsExist, Copath;
      hide Upcoming;
      var c := own.selfIndex;
      LeafPlace(c, public.height);
      var path := DirectCopath(2 * c, public.leafCount, public.height);
      CopathOfLeaf(c, 0, public.height);
      RenewStart(x, own.secretKeys);
      var filtered := public.FilteredPath(c);
      own.secretKeys := Resize(own.secretKeys, |path| + 1);
      var secrets: Keys := [];
      var i := 0;
      while i < |path|
        invariant 0 <= i <= |path| == x.height && own.selfIndex == c
        invariant PairsExist(x, i) && public.nodes == Installed(x, i)
        invariant own.secretKeys == CommitterKeys(x, old(own.secretKeys), i)
        invariant generator.Upcoming() == Upcoming(x, i)
        invariant secrets == PathSecrets(x, i)
      {
        RenewStep(x, old(own.secretKeys), i);
        if !filtered[i] {
          var secret := generator.NextSecret();
          if secret.Err? { return Err(secret.error); }
          var pair := NodePair(suite, secret.value);
          if pair.Err? { return Err(pair.error); }
          own.secretKeys := own.secretKeys[i + 1 := Some(pair.value.secret)];
          public.nodes := public.nodes[path[i].path := Parent(pair.value.public, [])];
          secrets := secrets + [Some(secret.value)];
        } else {
          own.secretKeys := own.secretKeys[i + 1 := None];
          secrets := secrets + [None];
        }
        i := i + 1;
      }
      return Ok(secrets);
    }

    /**
     `encap`; `leaf` is the key pair of the committer's new leaf, or the failure of the parent hashes, of
     signing the leaf or of the tree hash.
     */
    method EncapPath(suite: CipherSuite, seed: Result<ByteSeq, ProviderError>, leaf: Result<KeyPair, CommitError>,
                     added: set<nat>, info: ByteSeq, coins: (nat, nat) -> Coins)
      returns (r: Result<Encapped, CommitError>)
      requires public.Valid() && own.selfIndex < public.leafCount
      modifies public, own
      ensures leaf.Err? ==> r.Err?
      ensures leaf.Ok? ==>
                var x := Commit(suite, old(public.nodes), public.height, old(own.selfIndex), seed, leaf.value, added,
                                info, coins);
                && (r.Ok? <==> Renewable(x) && PathNodes(x, 0).Ok?)
                && (r.Ok? ==>
                      r.value == Encapped(PathNodes(x, 0).value, PathSecrets(x, x.height), SecretAt(x, x.height)))
                && (r.Ok? ==> public.nodes == NewTree(x))
                && (r.Ok? ==>
                      own.secretKeys == CommitterKeys(x, old(own.secretKeys), x.height)[0 := Some(leaf.value.secret)])
    {
      hide Filtered, Node, Pow2, InTree, Above, Installed, PairAt, CommitterKeys, PathNodes, PairsExist, Copath;
      hide Upcoming;
      var c := own.selfIndex;
      LeafPlace(c, public.height);
      var path := DirectCopath(2 * c, public.leafCount, public.height);
      CopathOfLeaf(c, 0, public.height);
      var pair := if leaf.Ok? then leaf.value else KeyPair([], []);
      var x := Commit(suite, public.nodes, |path|, c, seed, pair, added, info, coins);
      FirstSecret(x);
      var generator := new PathSecretGenerator(suite, seed);
      var renewed := RenewPath(x, suite, generator);
      if renewed.Err? { return Err(renewed.error); }
      if leaf.Err? { return Err(leaf.error); }
      public.nodes := public.nodes[2 * c := Leaf(leaf.value.public)];
      own.secretKeys := own.secretKeys[0 := Some(leaf.value.secret)];
      var nodes := EncryptPath(x, path, renewed.value);
      if nodes.Err? { return Err(nodes.error); }
      var commitSecret := generator.NextSecret();
      if commitSecret.Err? { return Err(commitSecret.error); }
      return Ok(Encapped(nodes.value, renewed.value, commitSecret.value));
    }

    /** `encrypt_path_secrets`. */
    method EncryptPath(x: Commit, path: seq<CopathNode>, secrets: Keys)
      returns (r: Result<seq<UpdatePathNode>, CommitError>)
      requires public.Valid() && x.height == public.height && x.sender < public.leafCount
      requires PairsExist(x, x.height) && public.nodes == NewTree(x)
      requires path == Copath(0, x.sender, x.height) && secrets == PathSecrets(x, x.height)
      ensures r == PathNodes(x, 0)
    {
      hide Filtered, Node, Pow2, InTree, Above, NewTree, SecretAt;
      hide PairAt, PathNodes, Copath, PairsExist, KeepNodes, Resolution;
      CopathOfLeaf(x.sender, 0, x.height);
      var nodes := [];
      var i := 0;
      ExtendNothing(PathNodes(x, 0));
      while i < x.height
        invariant 0 <= i <= x.height && PathNodes(x, 0) == Extend(nodes, PathNodes(x, i))
      {
        PathNodesStep(x, i, nodes);
        if secrets[i].Some? {
          NeighboursOfPath(x.sender, i, public.height);
          NewKeyOnPath(x, i + 1);
          var cts := EncryptNode(x, path[i].copath, secrets[i].value, i, Sibling(Shift(x.sender, i)));
          if cts.Err? { return Err(cts.error); }
          nodes := nodes + [UpdatePathNode(public.nodes[path[i].path].key, cts.value)];
        }
        i := i + 1;
      }
      PathNodesEnd(x);
      return Ok(nodes);
    }

    /** `find_resolved_pos`. */
    method FindResolvedPos(k: nat) returns (r: nat)
      requires 2 * own.selfIndex in public.nodes && k < |own.secretKeys|
      ensures r == ResolvedPos(public.nodes, own.selfIndex, own.secretKeys, k)
    {
      hide Node;
      LeafPlace(own.selfIndex, 0);
      r := k;
      while Above(own.selfIndex, r) !in public.nodes
        decreases r
        invariant r <= k && LowestOccupied(public.nodes, own.selfIndex, r)
                  == LowestOccupied(public.nodes, own.selfIndex, k)
      {
        r := r - 1;
      }
      if own.secretKeys[r].None? { r := 0; }
    }

    /** `decap`. */
    method DecapPath(suite: CipherSuite, sender: nat, path: Path, added: set<nat>, info: ByteSeq)
      returns (r: Received<ByteSeq>)
      requires public.Valid() && own.selfIndex < public.leafCount && sender < public.leafCount
               && own.selfIndex != sender
      requires 2 * own.selfIndex in public.nodes && |path| <= public.height < |own.secretKeys|
      modifies own
      ensures own.selfIndex == old(own.selfIndex)
      ensures var d := Decap(suite, public.nodes, public.height, own.selfIndex, old(own.secretKeys), sender, path,
                             added, info);
              match d
              case Done(v) => own.secretKeys == v.0 && r == Done(v.1)
              case Refused(error) => r == Refused(error)
              case Panicked => r == Panicked
    {
      hide Node, Pow2, InTree, OpenedSecret, Climb, LcaLevel;
      var level := LeafLcaLevel(2 * own.selfIndex, 2 * sender);
      LcaOfLeaves(own.selfIndex, sender, public.height);
      LeafPlace(own.selfIndex, public.height);
      var above := DirectCopath(2 * own.selfIndex, public.leafCount, public.height);
      CopathOfLeaf(own.selfIndex, 0, public.height);
      var nodeOf := [2 * own.selfIndex] + Paths(above);
      var secret := FindSecret(suite, nodeOf, level - 2, path, added, info);
      if !secret.Done? { return secret; }
      own.secretKeys := Resize(own.secretKeys, |nodeOf| + 1);
      var last := ClimbPath(suite, path, level - 2, secret.value);
      return Answer(last);
    }

    /** The part of `decap` that finds and opens its ciphertext; `nodeOf` is the path with the leaf in front. */
    method FindSecret(suite: CipherSuite, nodeOf: seq<nat>, lca: nat, path: Path, added: set<nat>, info: ByteSeq)
      returns (r: Received<ByteSeq>)
      requires public.Valid() && own.selfIndex < public.leafCount && 2 * own.selfIndex in public.nodes
      requires lca <= public.height < |own.secretKeys|
      requires |nodeOf| == public.height + 1 && forall k :: 0 <= k < |nodeOf| ==> nodeOf[k] == Above(own.selfIndex, k)
      ensures r == OpenedSecret(suite, public.nodes, own.selfIndex, own.secretKeys, lca, path, added, info)
    {
      hide Node, Pow2, InTree, KeepLeaves, Resolution, ResolvedPos, Shift;
      var m := own.selfIndex;
      var at := FindResolvedPos(lca);
      AboveInTree(m, lca, public.height);
      var resolution := public.GetResolutionIndex(nodeOf[lca], lca, Shift(m, lca));
      var pos := Position(KeepLeaves(resolution, added), nodeOf[at]);
      if pos.None? { return Refused(UpdateErrorNoSecretKey); }
      if lca >= |path| { return Panicked; }
      if path[lca].None? || pos.value >= |path[lca].value.encrypted| { return Refused(LcaNotFoundInDirectPath); }
      if own.secretKeys[at].None? || nodeOf[at] !in public.nodes { return Refused(UpdateErrorNoSecretKey); }
      var ct := path[lca].value.encrypted[pos.value];
      return Answer(Crypto(suite.open(ct, own.secretKeys[at].value, public.nodes[nodeOf[at]].key, info)));
    }

    /** The last loop of `decap`. */
    method ClimbPath(suite: CipherSuite, path: Path, from: nat, secret: ByteSeq)
      returns (r: Result<ByteSeq, CommitError>)
      requires |path| < |own.secretKeys|
      modifies own
      ensures own.selfIndex == old(own.selfIndex)
      ensures var d := Climb(suite, path, from, Ok(secret), old(own.secretKeys));
              if d.Ok? then (own.secretKeys, r) == (d.value.0, Ok(d.value.1)) else r == Err(d.error)
    {
      hide NodePair, NextPathSecret;
      var generator := new PathSecretGenerator.StartingWith(suite, secret);
      var i := from;
      while i < |path|
        invariant generator.suite == suite && own.selfIndex == old(own.selfIndex)
        invariant |own.secretKeys| == |old(own.secretKeys)|
        invariant Climb(suite, path, i, generator.Upcoming(), own.secretKeys)
                  == Climb(suite, path, from, Ok(secret), old(own.secretKeys))
      {
        if path[i].Some? {
          var next := generator.NextSecret();
          if next.Err? { return Err(next.error); }
          var pair := NodePair(suite, next.value);
          if pair.Err? { return Err(pair.error); }
          if pair.value.public != path[i].value.key { return Err(PubKeyMismatch); }
          own.secretKeys := own.secretKeys[i + 1 := Some(pair.value.secret)];
        } else {
          own.secretKeys := own.secretKeys[i + 1 := None];
        }
        i := i + 1;
      }
      r := generator.NextSecret();
    }
  }

  function Paths(path: seq<CopathNode>): (r: seq<nat>)
    ensures |r| == |path| && forall i :: 0 <= i < |r| ==> r[i] == path[i].path
  {
    seq(|path|, i requires 0 <= i < |path| => path[i].path)
  }

  function Extend(nodes: seq<UpdatePathNode>, rest: Result<seq<UpdatePathNode>, CommitError>)
    : Result<seq<UpdatePathNode>, CommitError>
  {
    if rest.Err? then rest else Ok(nodes + rest.value)
  }

  lemma ExtendNothing(rest: Result<seq<UpdatePathNode>, CommitError>)
    ensures Extend([], rest) == rest
  {
    if rest.Ok? { assert [] + rest.value == rest.value; }
  }

  lemma PathNodesStep(x: Commit, i: nat, nodes: seq<UpdatePathNode>)
    requires PairsExist(x, x.height) && i < x.height
    ensures Extend(nodes, PathNodes(x, i)) ==
              if Filtered(x.tree, x.sender, i) then Extend(nodes, PathNodes(x, i + 1))
              else if PathNode(x, i).Err? then Err(PathNode(x, i).error)
              else Extend(nodes + [PathNode(x, i).value], PathNodes(x, i + 1))
  {
    hide PathNode, Filtered;
    if !Filtered(x.tree, x.sender, i) && PathNode(x, i).Ok? && PathNodes(x, i + 1).Ok? {
      var n, rest := PathNode(x, i).value, PathNodes(x, i + 1).value;
      assert nodes + ([n] + rest) == nodes + [n] + rest;
    }
  }

  lemma PathNodesEnd(x: Commit)
    requires PairsExist(x, x.height)
    ensures forall nodes :: Extend(nodes, PathNodes(x, x.height)) == Ok(nodes)
  {
    forall nodes: seq<UpdatePathNode> ensures nodes + [] == nodes {}
  }

  lemma RenewStart(x: Commit, keys: Keys)
    ensures PairsExist(x, 0) && Installed(x, 0) == x.tree && CommitterKeys(x, keys, 0) == Resize(keys, x.height + 1)
  {
  }

  lemma FirstSecret(x: Commit)
    ensures Upcoming(x, 0) == Crypto(x.seed)
  {
  }

  /** One round of the loop over the path. */
  lemma RenewStep(x: Commit, keys: Keys, i: nat)
    requires i < x.height && PairsExist(x, i)
    ensures Filtered(x.tree, x.sender, i) ==>
              && PairsExist(x, i + 1) && Upcoming(x, i + 1) == Upcoming(x, i)
              && Installed(x, i + 1) == Installed(x, i)
              && CommitterKeys(x, keys, i + 1) == CommitterKeys(x, keys, i)[i + 1 := None]
    ensures !Filtered(x.tree, x.sender, i) && PairAt(x, i).Err? ==> !PairsExist(x, x.height)
    ensures !Filtered(x.tree, x.sender, i) && PairAt(x, i).Ok? ==>
              var pair := PairAt(x, i).value;
              && PairsExist(x, i + 1) && Upcoming(x, i + 1) == NextPathSecret(x.suite, SecretAt(x, i))
              && Installed(x, i + 1) == Installed(x, i)[Above(x.sender, i + 1) := Parent(pair.public, [])]
              && CommitterKeys(x, keys, i + 1) == CommitterKeys(x, keys, i)[i + 1 := Some(pair.secret)]
  {
    hide Filtered, NodePair, NextPathSecret, Above;
    if !Filtered(x.tree, x.sender, i) && PairAt(x, i).Ok? { assert PairsExist(x, i + 1); }
  }

  lemma NeighboursOfPath(c: nat, i: nat, h: nat)
    requires c < Pow2(h) && i < h
    ensures InTree(i, Sibling(Shift(c, i)), h)
  {
    ShiftBound(c, i, h);
    NeighboursInTree(i, Shift(c, i), h);
  }

  lemma LcaOfLeaves(m: nat, c: nat, h: nat)
    requires m != c && m < Pow2(h) && c < Pow2(h)
    ensures 2 <= LcaLevel(2 * m, 2 * c) <= h + 1
  {
    assert 2 * m / 2 == m && 2 * c / 2 == c;
    ShiftBound(m, h, h);
    ShiftBound(c, h, h);
    LcaLaw(m, c, h);
  }

  /** The committer finds its own new key on the path. */
  lemma NewKeyOnPath(x: Commit, k: nat)
    requires PairsExist(x, x.height) && 1 <= k <= x.height && !Filtered(x.tree, x.sender, k - 1)
    ensures Above(x.sender, k) in NewTree(x) && NewTree(x)[Above(x.sender, k)].key == PairAt(x, k - 1).value.public
  {
    hide Node, Installed, PairAt, Filtered;
    InstalledLaw(x, x.height, k, Shift(x.sender, k));
    AboveIsOdd(x.sender, k);
  }

  lemma {:induction false} SealFails(x: Commit, t: Nodes, to: seq<nat>, secret: ByteSeq, i: nat, n: nat)
    requires n < |to| && SealAll(x, t, to[..n], secret, i).Ok?
    requires to[n] !in t || Crypto(x.suite.seal(t[to[n]].key, x.info, secret, x.coins(i, n))).Err?
    ensures SealAll(x, t, to, secret, i)
            == Err(if to[n] !in t then UnexpectedEmptyNode
                   else Crypto(x.suite.seal(t[to[n]].key, x.info, secret, x.coins(i, n))).error)
    decreases |to|
  {
    var last := |to| - 1;
    if n < last {
      assert to[..last][..n] == to[..n];
      SealFails(x, t, to[..last], secret, i, n);
    }
  }

  // ----- Receiving a path -----

  function Prepend<T>(front: seq<Option<T>>, rest: Option<seq<Option<T>>>): Option<seq<Option<T>>> {
    if rest.None? then None else Some(front + rest.value)
  }

  /** The loops of `validate_update_path`. */
  method UnfilterNodes<T>(filtered: seq<bool>, nodes: seq<T>) returns (r: Result<seq<Option<T>>, CommitError>)
    ensures r == (var path := Unfilter(filtered, 0, nodes); if path.None? then Err(WrongPathLen) else Ok(path.value))
  {
    var path: seq<Option<T>> := [];
    var i, n := 0, 0;
    assert nodes[0..] == nodes;
    PrependNothing(Unfilter(filtered, 0, nodes));
    while n < |nodes|
      invariant 0 <= n <= |nodes| && 0 <= i <= |filtered|
      invariant Unfilter(filtered, 0, nodes) == Prepend(path, Unfilter(filtered, i, nodes[n..]))
    {
      while i < |filtered| && filtered[i]
        invariant 0 <= i <= |filtered|
        invariant Unfilter(filtered, 0, nodes) == Prepend(path, Unfilter(filtered, i, nodes[n..]))
      {
        UnfilterStep(path, filtered, i, nodes[n..]);
        path, i := path + [None], i + 1;
      }
      if i == |filtered| { return Err(WrongPathLen); }
      UnfilterStep(path, filtered, i, nodes[n..]);
      assert nodes[n..][1..] == nodes[n + 1..];
      path, i := path + [Some(nodes[n])], i + 1;
      n := n + 1;
    }
    assert path + [] == path;
    return Ok(path);
  }

  lemma PrependNothing<T>(rest: Option<seq<Option<T>>>)
    ensures Prepend([], rest) == rest
  {
    if rest.Some? { assert [] + rest.value == rest.value; }
  }

  lemma UnfilterStep<T>(path: seq<Option<T>>, filtered: seq<bool>, i: nat, nodes: seq<T>)
    requires i < |filtered| && |nodes| > 0
    ensures Prepend(path, Unfilter(filtered, i, nodes)) ==
              Prepend(path + [if filtered[i] then None else Some(nodes[0])],
                      Unfilter(filtered, i + 1, if filtered[i] then nodes else nodes[1..]))
  {
    var rest := Unfilter(filtered, i + 1, if filtered[i] then nodes else nodes[1..]);
    if rest.Some? {
      var p := [if filtered[i] then None else Some(nodes[0])];
      assert path + (p + rest.value) == path + p + rest.value;
    }
  }

  /** The loop of `parent_hash_for_leaf`, from the root down. */
  method HashParents(public: NodeVec, c: nat, hashing: nat -> Option<CommitError>) returns (r: Option<CommitError>)
    requires public.Valid() && c < public.leafCount
    ensures r == ParentHashes(public.nodes, c, public.height, hashing)
  {
    hide Node, Pow2, InTree, Above, Copath, Shift, Resolution;
    LeafPlace(c, public.height);
    var above := DirectCopath(2 * c, public.leafCount, public.height);
    CopathOfLeaf(c, 0, public.height);
    var i := |above|;
    while i > 0
      invariant 0 <= i <= |above|
      invariant ParentHashes(public.nodes, c, i, hashing) == ParentHashes(public.nodes, c, public.height, hashing)
    {
      i := i - 1;
      AboveInTree(c, i, public.height);
      NeighboursInTree(i, Shift(c, i), public.height);
      var empty := public.IsResolutionEmpty(above[i].copath, i, Sibling(Shift(c, i)));
      if !empty {
        if above[i].path !in public.nodes { return Some(ExpectedNode); }
        if hashing(i).Some? { return hashing(i); }
      }
    }
    return None;
  }

  /** `apply_update_path`: the new leaf, the nodes along the path, the index, and the parent hashes. */
  method ApplyUpdatePath(public: NodeVec, c: nat, leafKey: ByteSeq, path: Path, checks: Checks)
    returns (r: Result<(), CommitError>)
    requires public.Valid() && c < public.leafCount && |path| <= public.height
    modifies public
    ensures (public.nodes, r) == AppliedPath(old(public.nodes), public.height, c, leafKey, path, checks)
  {
    hide Node, Pow2, InTree, Above, Copath, ParentHashes;
    LeafPlace(c, public.height);
    if 2 * c !in public.nodes { return Err(ExpectedNode); }
    if checks.identity.Some? { return Err(checks.identity.value); }
    public.nodes := public.nodes[2 * c := Leaf(leafKey)];
    ghost var start := public.nodes;
    var above := DirectCopath(2 * c, public.leafCount, public.height);
    CopathOfLeaf(c, 0, public.height);
    var i := 0;
    while i < |path|
      invariant 0 <= i <= |path| && public.nodes == Applied(start, c, path, i)
    {
      if path[i].Some? { public.nodes := public.nodes[above[i].path := Parent(path[i].value.key, [])]; }
      i := i + 1;
    }
    if checks.index.Some? { return Err(checks.index.value); }
    var hashes := HashParents(public, c, checks.hashing);
    if hashes.Some? { return Err(hashes.value); }
    return if checks.agreement.Some? then Err(checks.agreement.value) else Ok(());
  }

  /** `update_secrets` by a new member. */
  method UpdateSecrets(suite: CipherSuite, public: NodeVec, own: TreeKemPrivate, signer: nat, secret: ByteSeq)
    returns (r: Result<(), CommitError>)
    requires public.Valid() && own.selfIndex < public.leafCount && signer < public.leafCount && own.selfIndex != signer
    modifies own
    ensures own.selfIndex == old(own.selfIndex)
    ensures var d := Join(suite, public.nodes, public.height, own.selfIndex, signer, secret, old(own.secretKeys));
            if d.Ok? then r == Ok(()) && own.secretKeys == d.value else r == Err(d.error)
  {
    hide Node, Pow2, InTree, Above, Copath, NodePair, NextPathSecret, LcaLevel, Filtered;
    var m := own.selfIndex;
    var level := LeafLcaLevel(2 * m, 2 * signer);
    LcaOfLeaves(m, signer, public.height);
    LeafPlace(m, public.height);
    var path := DirectCopath(2 * m, public.leafCount, public.height);
    CopathOfLeaf(m, 0, public.height);
    var filtered := public.FilteredPath(m);
    own.secretKeys := Resize(own.secretKeys, |path| + 1);
    ghost var start := own.secretKeys;
    var generator := new PathSecretGenerator.StartingWith(suite, secret);
    var i := level - 2;
    while i < |path|
      invariant level - 2 <= i <= |path| && own.selfIndex == m && |own.secretKeys| == public.height + 1
                && generator.suite == suite
      invariant JoinFrom(suite, public.nodes, public.height, m, i, generator.Upcoming(), own.secretKeys)
                == JoinFrom(suite, public.nodes, public.height, m, level - 2, Ok(secret), start)
    {
      if !filtered[i] {
        var next := generator.NextSecret();
        if next.Err? { return Err(next.error); }
        if path[i].path !in public.nodes { return Err(PubKeyMismatch); }
        var pair := NodePair(suite, next.value);
        if pair.Err? { return Err(pair.error); }
        if pair.value.public != public.nodes[path[i].path].key { return Err(PubKeyMismatch); }
        own.secretKeys := own.secretKeys[i + 1 := Some(pair.value.secret)];
      }
      i := i + 1;
    }
    return Ok(());
  }
}
