/**
 Groups over time: whatever members join, leave, update and commit, in whatever order, everyone keeps
 the keys it needs and every commit gives all of its receivers the same secret.
 */
module GroupRuns {
  import opened Bits
  import opened Bytes
  import opened TreeMath
  import MlsKdfs
  import opened Kems
  import opened Hpkes
  import opened RatchetTrees
  import opened TreeKems
  import opened TreeKemLaws

  /** The public tree, which all members share, and the private keys of each. */
  datatype Group = Group(tree: Nodes, height: nat, members: map<nat, Keys>)

  /** The steps of commits: the edits of their proposals, and their path. */
  datatype Event =
    | Remove(leaf: nat)
    | Update(leaf: nat, pair: KeyPair)
    | Add(leaf: nat, pair: KeyPair)
    | Grow
    | Shrink
    | Path(sender: nat, seed: ByteSeq, pair: KeyPair, added: set<nat>, info: ByteSeq, coins: (nat, nat) -> Coins)

  function CommitOf(e: CipherSuite, g: Group, ev: Event): Commit
    requires ev.Path?
  {
    Commit(e, g.tree, g.height, ev.sender, Ok(ev.seed), ev.pair, ev.added, ev.info, ev.coins)
  }

  // ----- What each member does with a path -----

  /** The committer, the members it adds, and everyone else. */
  function MemberOutcome(x: Commit, m: nat, keys: Keys): Received<Outcome>
    requires Renewable(x) && PathNodes(x, 0).Ok?
  {
    if m == x.sender then
      Done(Outcome(NewTree(x),
                   CommitterKeys(x, Provisional(x.tree, x.height, m, keys), x.height)[0 := Some(x.leaf.secret)],
                   Some(SecretAt(x, x.height))))
    else if m in x.added then
      var l := LcaLevel(m, x.sender);
      assert l >= 1;
      if l > x.height || PathSecrets(x, x.height)[l - 1].None? then Refused(UpdateErrorNoSecretKey)
      else
        var keys' :- Answer(Join(x.suite, NewTree(x), x.height, m, x.sender, PathSecrets(x, x.height)[l - 1].value,
                                 keys));
        Done(Outcome(NewTree(x), keys', None))
    else
      ReceivePath(x.suite, x.tree, x.height, m, keys, x.sender, x.leaf.public, PathNodes(x, 0).value, x.added, x.info,
                  PASSING)
  }

  // ----- Steps -----

  /** What the protocol asks of an event; leaf keys come from key generation, which `Opens` stands for. */
  ghost predicate Possible(e: CipherSuite, g: Group, ev: Event) {
    match ev
    case Remove(i) => i in g.members
    case Update(i, pair) => i in g.members && Opens(e, pair.secret, pair.public)
    case Add(i, pair) => i < Pow2(g.height) && i !in g.members && Opens(e, pair.secret, pair.public)
    case Grow => g.height < MAX_HEIGHT
    case Shrink => g.height > 0 && Resolution(g.tree, g.height - 1, 1) == []
    case Path(c, _, pair, added, _, _) =>
      && c in g.members && c !in added && added <= g.members.Keys && Opens(e, pair.secret, pair.public)
      && Renewable(CommitOf(e, g, ev)) && PathNodes(CommitOf(e, g, ev), 0).Ok?
  }

  ghost function Apply(e: CipherSuite, g: Group, ev: Event): Group
    requires Possible(e, g, ev)
  {
    match ev
    case Remove(i) => Group(RemoveMember(g.tree, g.height, i), g.height, g.members - {i})
    case Update(i, pair) =>
      Group(UpdateMember(g.tree, g.height, i, pair.public), g.height, g.members[i := [Some(pair.secret)]])
    case Add(i, pair) =>
      Group(AddMember(g.tree, g.height, i, pair.public), g.height, g.members[i := [Some(pair.secret)]])
    case Grow => g.(height := g.height + 1)
    case Shrink => g.(height := g.height - 1)
    case Path(_, _, _, _, _, _) =>
      var x := CommitOf(e, g, ev);
      Group(NewTree(x), g.height, map m | m in g.members :: AfterPath(x, m, g.members[m]))
  }

  function AfterPath(x: Commit, m: nat, keys: Keys): Keys
    requires Renewable(x) && PathNodes(x, 0).Ok?
  {
    var out := MemberOutcome(x, m, keys);
    if out.Done? then out.value.keys else keys
  }

  // ----- The invariant -----

  /** The members are the leaves in use, and each holds the keys of the nodes above it that it should. */
  ghost predicate GroupOk(e: CipherSuite, g: Group) {
    && g.height <= MAX_HEIGHT && WellFormedTree(g.tree, g.height)
    && (forall m: nat :: m in g.members <==> 2 * m in g.tree)
    && (forall m: nat :: m in g.members ==> Consistent(e, g.tree, g.height, m, g.members[m]))
  }

  /** The node says the same to member `m` in both trees. */
  ghost predicate SameFor(n: Entry, n': Entry, m: nat) {
    n.key == n'.key && (m in UnmergedOf(n) <==> m in UnmergedOf(n'))
  }

  /** Keys stay right in a tree that has nothing new for their owner. */
  lemma CarryOver(e: CipherSuite, t: Nodes, h: nat, t': Nodes, h': nat, m: nat, keys: Keys)
    requires Consistent(e, t, h, m, keys) && m < Pow2(h') && Same(t, t', 2 * m)
    requires forall k: nat :: 1 <= k <= h' && Above(m, k) in t' ==>
               k <= h && Above(m, k) in t && SameFor(t[Above(m, k)], t'[Above(m, k)], m)
    ensures Consistent(e, t', h', m, keys)
  {
    hide Opens, Above, Pow2;
  }

  lemma {:induction false} RemoveKeeps(e: CipherSuite, g: Group, i: nat)
    requires GroupOk(e, g) && i in g.members
    ensures GroupOk(e, Group(RemoveMember(g.tree, g.height, i), g.height, g.members - {i}))
  {
    hide WellFormedTree, RemoveMember, Pow2, Opens, Above, Consistent;
    var t := RemoveMember(g.tree, g.height, i);
    MemberInRange(e, g.tree, g.height, i, g.members[i]);
    RemoveKeepsTree(g.tree, g.height, i);
    RemoveAgrees(g.tree, g.height, i);
    forall m: nat | m != i
      ensures 2 * m in t <==> m in g.members
      ensures m in g.members ==> Consistent(e, t, g.height, m, g.members[m])
    {
      OtherLeaf(g.tree, t, g.height, i, m);
      if m in g.members {
        MemberInRange(e, g.tree, g.height, m, g.members[m]);
        CarryOver(e, g.tree, g.height, t, g.height, m, g.members[m]);
      }
    }
  }

  /** Leaves other than the one edited are as before. */
  lemma OtherLeaf(t: Nodes, t': Nodes, h: nat, i: nat, m: nat)
    requires AgreeOff(t, t', h, i) && m != i
    requires forall x :: x in t' && x !in t ==> x == 2 * i
    requires WellFormedTree(t, h)
    ensures Same(t, t', 2 * m)
  {
    LeafPlace(m, h);
    LeafPlace(i, h);
    if m < Pow2(h) { assert Same(t, t', Node(0, m)); }
  }

  lemma {:induction false} UpdateKeeps(e: CipherSuite, g: Group, i: nat, pair: KeyPair)
    requires GroupOk(e, g) && i in g.members && Opens(e, pair.secret, pair.public)
    ensures GroupOk(e, Group(UpdateMember(g.tree, g.height, i, pair.public), g.height,
                             g.members[i := [Some(pair.secret)]]))
  {
    hide WellFormedTree, UpdateMember, Pow2, Opens, Above, Consistent;
    var t := UpdateMember(g.tree, g.height, i, pair.public);
    MemberInRange(e, g.tree, g.height, i, g.members[i]);
    UpdateKeepsTree(g.tree, g.height, i, pair.public);
    UpdateAgrees(g.tree, g.height, i, pair.public);
    FreshConsistent(e, t, g.height, i, pair);
    forall m: nat | m != i
      ensures 2 * m in t <==> m in g.members
      ensures m in g.members ==> Consistent(e, t, g.height, m, g.members[m])
    {
      OtherLeaf(g.tree, t, g.height, i, m);
      if m in g.members {
        MemberInRange(e, g.tree, g.height, m, g.members[m]);
        forall k: nat | 1 <= k <= g.height && Above(m, k) in t
          ensures Above(m, k) in g.tree && SameFor(g.tree[Above(m, k)], t[Above(m, k)], m)
        {
          AboveIsOdd(m, k);
        }
        CarryOver(e, g.tree, g.height, t, g.height, m, g.members[m]);
      }
    }
  }

  lemma {:induction false} AddKeeps(e: CipherSuite, g: Group, i: nat, pair: KeyPair)
    requires GroupOk(e, g) && i < Pow2(g.height) && i !in g.members && Opens(e, pair.secret, pair.public)
    ensures GroupOk(e, Group(AddMember(g.tree, g.height, i, pair.public), g.height,
                             g.members[i := [Some(pair.secret)]]))
  {
    hide WellFormedTree, AddMember, Pow2, Opens, Above, Consistent;
    var t := AddMember(g.tree, g.height, i, pair.public);
    AddKeepsTree(g.tree, g.height, i, pair.public);
    AddKeys(g.tree, g.height, i, pair.public);
    AddedConsistent(e, g, i, pair);
    forall m: nat | m in g.members ensures Consistent(e, t, g.height, m, g.members[m]) {
      AddKeepsMember(e, g.tree, g.height, i, pair.public, m, g.members[m]);
    }
  }

  lemma AddKeys(t: Nodes, h: nat, i: nat, key: ByteSeq)
    ensures AddMember(t, h, i, key).Keys == t.Keys + {2 * i}
  {
    AddAgrees(t, h, i, key);
  }

  lemma {:induction false} AddKeepsMember(e: CipherSuite, t: Nodes, h: nat, i: nat, key: ByteSeq, m: nat, keys: Keys)
    requires WellFormedTree(t, h) && Consistent(e, t, h, m, keys) && m != i
    ensures Consistent(e, AddMember(t, h, i, key), h, m, keys)
  {
    hide WellFormedTree, AddMember, Pow2, Above, Consistent, SameFor;
    var t' := AddMember(t, h, i, key);
    MemberInRange(e, t, h, m, keys);
    assert AgreeOff(t, t', h, i) && forall x :: x in t' && x !in t ==> x == 2 * i by { AddAgrees(t, h, i, key); }
    OtherLeaf(t, t', h, i, m);
    forall k: nat | 1 <= k <= h && Above(m, k) in t'
      ensures Above(m, k) in t && SameFor(t[Above(m, k)], t'[Above(m, k)], m)
    {
      AddKeepsNode(t, h, i, key, m, k);
    }
    CarryOver(e, t, h, t', h, m, keys);
  }

  lemma AddKeepsNode(t: Nodes, h: nat, i: nat, key: ByteSeq, m: nat, k: nat)
    requires m != i && 1 <= k && Above(m, k) in AddMember(t, h, i, key)
    ensures Above(m, k) in t && SameFor(t[Above(m, k)], AddMember(t, h, i, key)[Above(m, k)], m)
  {
    hide AddMember, Above, AgreeOff;
    AddAgrees(t, h, i, key);
    AboveIsOdd(m, k);
  }

  /** The new member is noted as unmerged wherever it lacks a key. */
  lemma {:induction false} AddedConsistent(e: CipherSuite, g: Group, i: nat, pair: KeyPair)
    requires GroupOk(e, g) && i < Pow2(g.height) && i !in g.members && Opens(e, pair.secret, pair.public)
    ensures Consistent(e, AddMember(g.tree, g.height, i, pair.public), g.height, i, [Some(pair.secret)])
  {
    hide AddMember, Pow2, Opens, Above, WellFormedTree, Consistent, HoldsKey, AgreeOff;
    var t := AddMember(g.tree, g.height, i, pair.public);
    forall k: nat | 1 <= k <= g.height && Above(i, k) in t
      ensures HoldsKey(e, t[Above(i, k)], i, KeyOn([Some(pair.secret)], k))
    {
      AddedNode(e, g.tree, g.height, i, pair, k);
    }
    assert 2 * i in t && t[2 * i] == Leaf(pair.public) by { AddAgrees(g.tree, g.height, i, pair.public); }
    FreshConsistent(e, t, g.height, i, pair);
  }

  lemma AddedNode(e: CipherSuite, t: Nodes, h: nat, i: nat, pair: KeyPair, k: nat)
    requires WellFormedTree(t, h) && 1 <= k <= h && Above(i, k) in AddMember(t, h, i, pair.public)
    ensures HoldsKey(e, AddMember(t, h, i, pair.public)[Above(i, k)], i, KeyOn([Some(pair.secret)], k))
  {
    hide AddMember, Above, AgreeOff, NodeFine, InTree, Opens, Pow2;
    AddAgrees(t, h, i, pair.public);
    AboveIsOdd(i, k);
    var x := Above(i, k);
    assert x in t && t[x].Parent?;
    assert AddMember(t, h, i, pair.public)[x].unmerged == t[x].unmerged + [i];
  }

  lemma FreshConsistent(e: CipherSuite, t: Nodes, h: nat, i: nat, pair: KeyPair)
    requires i < Pow2(h) && 2 * i in t && t[2 * i] == Leaf(pair.public) && Opens(e, pair.secret, pair.public)
    requires forall k: nat :: 1 <= k <= h && Above(i, k) in t ==>
               HoldsKey(e, t[Above(i, k)], i, KeyOn([Some(pair.secret)], k))
    ensures Consistent(e, t, h, i, [Some(pair.secret)])
  {
    hide Opens, Above, Pow2, HoldsKey;
  }

  lemma {:induction false} GrowKeeps(e: CipherSuite, g: Group)
    requires GroupOk(e, g) && g.height < MAX_HEIGHT
    ensures GroupOk(e, g.(height := g.height + 1))
  {
    hide WellFormedTree, Opens, Above, Consistent, Pow2, Node;
    GrowKeepsTree(g.tree, g.height);
    Pow2Less(g.height, g.height + 1);
    forall m: nat | m in g.members ensures Consistent(e, g.tree, g.height + 1, m, g.members[m]) {
      MemberInRange(e, g.tree, g.height, m, g.members[m]);
      AboveTop(m, g.height + 1);
      CarryOver(e, g.tree, g.height, g.tree, g.height + 1, m, g.members[m]);
    }
  }

  lemma AboveTop(m: nat, h: nat)
    requires m < Pow2(h)
    ensures Above(m, h) == Node(h, 0)
  {
    ShiftBound(m, h, h);
  }

  lemma {:induction false} ShrinkKeeps(e: CipherSuite, g: Group)
    requires GroupOk(e, g) && g.height > 0 && Resolution(g.tree, g.height - 1, 1) == []
    ensures GroupOk(e, g.(height := g.height - 1))
  {
    hide Opens, Above, Consistent, NodeFine, InTree, Resolution;
    ShrinkKeepsTree(g.tree, g.height - 1);
    forall m: nat | m in g.members ensures Consistent(e, g.tree, g.height - 1, m, g.members[m]) {
      LeafPlace(m, g.height - 1);
      CarryOver(e, g.tree, g.height, g.tree, g.height - 1, m, g.members[m]);
    }
  }

  // ----- Paths -----

  /** Everyone succeeds, has the committer's tree, holds its keys, and gets the commit secret unless it is new. */
  ghost predicate Agrees(x: Commit, m: nat, keys: Keys)
    requires Renewable(x) && PathNodes(x, 0).Ok?
  {
    var out := MemberOutcome(x, m, keys);
    && out.Done? && out.value.tree == NewTree(x)
    && Consistent(x.suite, NewTree(x), x.height, m, out.value.keys)
    && out.value.secret == if m in x.added && m != x.sender then None else Some(SecretAt(x, x.height))
  }

  lemma {:induction false} ReceiverAgrees(x: Commit, m: nat, keys: Keys)
    requires ValidCommit(x) && Renewable(x) && PathNodes(x, 0).Ok?
    requires m != x.sender && m !in x.added && Consistent(x.suite, x.tree, x.height, m, keys)
    ensures Agrees(x, m, keys)
  {
    hide Consistent, ValidCommit, PathNodes, Decap, Upcoming, Installed;
    hide Applied, Unfilter, HonestAt, Above, Filtered, PairsExist, ParentHashes;
    ProvisionalConsistent(x.suite, x.tree, x.height, m, keys);
    assert 2 * x.sender in x.tree by { CommitterInTree(x); }
    HonestHashes(x);
    var path := UnfilterHonest(x, FilteredSeq(x.tree, x.height, x.sender), 0);
    AppliedIsInstalled(x, path, |path|);
    InstalledTail(x, |path|);
    var keys' := DecapAgrees(x, m, Provisional(x.tree, x.height, m, keys), path);
  }

  lemma CommitterInTree(x: Commit)
    requires ValidCommit(x)
    ensures x.sender < Pow2(x.height) && 2 * x.sender in x.tree
  {
    hide WellFormedTree, Works, Opens, Pow2;
  }

  /** After an honest path no unfiltered position is blank. */
  lemma {:induction false} HonestHashes(x: Commit)
    requires ValidCommit(x) && PairsExist(x, x.height)
    ensures ParentHashes(NewTree(x), x.sender, x.height, PASSING.hashing).None?
  {
    hide Filtered, Above, NewTree, WellFormedTree, Works, Opens, Pow2, PairsExist, AgreeOff, ParentHashes;
    NewTreeLaw(x);
    forall i: nat | i < x.height && !Filtered(NewTree(x), x.sender, i) ensures Above(x.sender, i + 1) in NewTree(x) {
      CopathUnchanged(x.tree, NewTree(x), x.height, x.sender, i);
      NewTreeOnPath(x, i + 1);
    }
    ParentHashesExactly(NewTree(x), x.sender, x.height, PASSING.hashing);
  }

  lemma {:induction false} MemberAgrees(x: Commit, m: nat, keys: Keys)
    requires ValidCommit(x) && Renewable(x) && PathNodes(x, 0).Ok?
    requires Consistent(x.suite, x.tree, x.height, m, keys)
    ensures Agrees(x, m, keys)
  {
    hide Consistent, ValidCommit, PathNodes, ReceivePath, Upcoming, NewTree;
    hide Join, PathSecrets, PairsExist, CommitterKeys, LcaLevel;
    if m == x.sender {
      CommitterConsistent(x, Provisional(x.tree, x.height, m, keys));
    } else if m in x.added {
      var keys' := JoinAgrees(x, m, keys);
    } else {
      ReceiverAgrees(x, m, keys);
    }
  }

  lemma GroupIsValidCommit(e: CipherSuite, g: Group, ev: Event)
    requires Works(e) && GroupOk(e, g) && ev.Path? && Possible(e, g, ev)
    ensures ValidCommit(CommitOf(e, g, ev))
  {
    hide WellFormedTree, Opens, Pow2, Works, PairsExist, PathNodes;
    assert Consistent(e, g.tree, g.height, ev.sender, g.members[ev.sender]);
  }

  /** A commit with a path: all members agree. */
  lemma {:induction false} CommitAgrees(e: CipherSuite, g: Group, ev: Event)
    requires Works(e) && GroupOk(e, g) && ev.Path? && Possible(e, g, ev)
    ensures forall m: nat :: m in g.members ==> Agrees(CommitOf(e, g, ev), m, g.members[m])
    ensures GroupOk(e, Apply(e, g, ev))
  {
    hide Agrees, Consistent, ValidCommit, PairsExist, PathNodes, NewTree, WellFormedTree, Works, Opens;
    var x := CommitOf(e, g, ev);
    GroupIsValidCommit(e, g, ev);
    NewTreeWellFormed(x);
    forall m: nat | m in g.members
      ensures Agrees(x, m, g.members[m]) && Consistent(e, NewTree(x), g.height, m, AfterPath(x, m, g.members[m]))
    {
      MemberAgrees(x, m, g.members[m]);
      AgreesGives(x, m, g.members[m]);
    }
    forall m: nat ensures 2 * m in NewTree(x) <==> m in g.members { SameLeaves(x, m); }
  }

  lemma AgreesGives(x: Commit, m: nat, keys: Keys)
    requires Renewable(x) && PathNodes(x, 0).Ok? && Agrees(x, m, keys)
    ensures Consistent(x.suite, NewTree(x), x.height, m, AfterPath(x, m, keys))
  {
    hide Consistent, NewTree, PathNodes, PairsExist, MemberOutcome;
  }

  lemma {:induction false} SameLeaves(x: Commit, m: nat)
    requires ValidCommit(x) && PairsExist(x, x.height)
    ensures 2 * m in NewTree(x) <==> 2 * m in x.tree
  {
    hide Above, Filtered, WellFormedTree, Works, Opens;
    InstalledLeaves(x, x.height, m);
  }

  lemma {:induction false} InstalledLeaves(x: Commit, n: nat, m: nat)
    requires PairsExist(x, n)
    ensures 2 * m in Installed(x, n) <==> 2 * m in x.tree
  {
    hide Above, Filtered, PairAt;
    if n > 0 {
      InstalledLeaves(x, n - 1, m);
      AboveIsOdd(x.sender, n);
    }
  }

  // ----- Every run -----

  lemma {:induction false} EventKeeps(e: CipherSuite, g: Group, ev: Event)
    requires Works(e) && GroupOk(e, g) && Possible(e, g, ev)
    ensures GroupOk(e, Apply(e, g, ev))
  {
    hide GroupOk, Works, Opens, PairsExist, PathNodes, Resolution, Pow2;
    match ev {
      case Remove(i) => RemoveKeeps(e, g, i);
      case Update(i, pair) => UpdateKeeps(e, g, i, pair);
      case Add(i, pair) => AddKeeps(e, g, i, pair);
      case Grow => GrowKeeps(e, g);
      case Shrink => ShrinkKeeps(e, g);
      case Path(_, _, _, _, _, _) => CommitAgrees(e, g, ev);
    }
  }

  /** A run: each event is possible where it happens. */
  ghost predicate Run(e: CipherSuite, g: Group, events: seq<Event>)
    decreases |events|
  {
    |events| == 0 || (Possible(e, g, events[0]) && Run(e, Apply(e, g, events[0]), events[1..]))
  }

  ghost function After(e: CipherSuite, g: Group, events: seq<Event>, n: nat): Group
    requires n <= |events| && Run(e, g, events)
    decreases n
  {
    if n == 0 then g else After(e, Apply(e, g, events[0]), events[1..], n - 1)
  }

  /** The group its founder starts. */
  function Founded(pair: KeyPair): Group {
    Group(map[0 := Leaf(pair.public)], 0, map[0 := [Some(pair.secret)]])
  }

  lemma {:induction false} FoundedKeeps(e: CipherSuite, pair: KeyPair)
    requires Opens(e, pair.secret, pair.public)
    ensures GroupOk(e, Founded(pair))
  {
    hide Opens;
    var g := Founded(pair);
    forall k: nat, j: nat | InTree(k, j, 0) && Node(k, j) in g.tree ensures NodeFine(g.tree, 0, k, j) {}
  }

  lemma {:induction false} RunKeeps(e: CipherSuite, g: Group, events: seq<Event>, n: nat)
    requires Works(e) && GroupOk(e, g) && Run(e, g, events) && n <= |events|
    ensures GroupOk(e, After(e, g, events, n))
    ensures n < |events| ==> Possible(e, After(e, g, events, n), events[n])
    decreases n
  {
    hide GroupOk, Works, Possible, Apply;
    if n > 0 {
      EventKeeps(e, g, events[0]);
      RunKeeps(e, Apply(e, g, events[0]), events[1..], n - 1);
    }
  }

  /** The event is a commit with a path, and all members agree on it. */
  ghost predicate AgreesAt(e: CipherSuite, g: Group, events: seq<Event>, n: nat)
    requires Run(e, g, events) && n < |events| && events[n].Path?
  {
    var now := After(e, g, events, n);
    Possible(e, now, events[n]) && forall m: nat :: m in now.members ==>
        Agrees(CommitOf(e, now, events[n]), m, now.members[m])
  }

  /** In every run of a group from its founding, every commit with a path has all members agree. */
  lemma {:induction false} GroupAgrees(e: CipherSuite, founder: KeyPair, events: seq<Event>, n: nat)
    requires Works(e) && Opens(e, founder.secret, founder.public)
    requires Run(e, Founded(founder), events) && n < |events| && events[n].Path?
    ensures AgreesAt(e, Founded(founder), events, n)
  {
    hide GroupOk, Works, Possible, Opens, Agrees, Founded, Run, After;
    FoundedKeeps(e, founder);
    RunKeeps(e, Founded(founder), events, n);
    CommitAgrees(e, After(e, Founded(founder), events, n), events[n]);
  }

  // ----- Any path, at any time -----

  /**
   What member `m` makes of any path at all from `c`: its keys fit the tree it ends up with, and it
   panics exactly if the path passes the checks, is too short for their common ancestor, and stops below
   positions that are all in use.
   */
  ghost predicate TakesAnyPath(e: CipherSuite, g: Group, m: nat, c: nat, leafKey: ByteSeq, nodes: seq<UpdatePathNode>,
                               added: set<nat>, info: ByteSeq, checks: Checks)
    requires m in g.members && m != c
  {
    var t, h, keys, lca := g.tree, g.height, g.members[m], LcaLevel(m, c) - 1;
    var r := ReceivePath(e, t, h, m, keys, c, leafKey, nodes, added, info, checks);
    && 0 <= lca < h && 2 * m in t
    && (r.Done? ==> Consistent(e, r.value.tree, h, m, r.value.keys))
    && (r.Panicked? <==>
          && Passes(t, h, c, checks)
          && (m !in added || ResolvedPos(t, m, keys, lca) > 0)
          && |nodes| <= Unfiltered(FilteredSeq(t, h, c), 0, lca)
          && UnreachedInUse(t, h, c, |nodes|))
  }

  lemma {:induction false} AnyPath(e: CipherSuite, g: Group, m: nat, c: nat, leafKey: ByteSeq,
                                   nodes: seq<UpdatePathNode>, added: set<nat>, info: ByteSeq, checks: Checks)
    requires Works(e) && GroupOk(e, g) && m in g.members && c in g.members && m != c
    ensures TakesAnyPath(e, g, m, c, leafKey, nodes, added, info, checks)
  {
    hide WellFormedTree, Consistent, Decap, Unfilter, Unfiltered, Applied, Filtered, LcaLevel, Works, Pow2;
    hide Passes, UnreachedInUse, ResolvedPos, ParentHashes;
    var filtered, keys := FilteredSeq(g.tree, g.height, c), Provisional(g.tree, g.height, m, g.members[m]);
    MemberInRange(e, g.tree, g.height, m, g.members[m]);
    MemberInRange(e, g.tree, g.height, c, g.members[c]);
    LcaOfNodes(m, c, g.height);
    ProvisionalConsistent(e, g.tree, g.height, m, g.members[m]);
    ShortPathPanicsExactly(e, g.tree, g.height, m, g.members[m], c, leafKey, nodes, added, info, checks);
    if Unfilter(filtered, 0, nodes).Some? {
      AcceptedPathIsUsable(e, g.tree, g.height, m, keys, c, leafKey, filtered, nodes, added, info);
    }
  }

  /** At every moment of every run. */
  lemma {:induction false} AnyPathAnyTime(e: CipherSuite, founder: KeyPair, events: seq<Event>, n: nat, m: nat, c: nat,
                                          leafKey: ByteSeq, nodes: seq<UpdatePathNode>, added: set<nat>, info: ByteSeq,
                                          checks: Checks)
    requires Works(e) && Opens(e, founder.secret, founder.public)
    requires Run(e, Founded(founder), events) && n <= |events|
    requires m in After(e, Founded(founder), events, n).members && c in After(e, Founded(founder), events, n).members
             && m != c
    ensures TakesAnyPath(e, After(e, Founded(founder), events, n), m, c, leafKey, nodes, added, info, checks)
  {
    hide GroupOk, Works, Opens, TakesAnyPath, Founded, Run, After;
    FoundedKeeps(e, founder);
    RunKeeps(e, Founded(founder), events, n);
    AnyPath(e, After(e, Founded(founder), events, n), m, c, leafKey, nodes, added, info, checks);
  }

  /** A suite in the clear, to show that the assumptions above can be met together. */
  function ClearSuite(kdf: MlsKdfs.Provider): CipherSuite {
    CipherSuite(
      kdf,
      (secret, purpose) => None,
      seed => Ok(KeyPair([], [])),
      (pk, info, text, c) => Ok(HpkeCiphertext([], text)),
      (ct: HpkeCiphertext, sk, pk, info) => Ok(ct.ciphertext))
  }

  /** A founder widens the tree, adds a member and commits. */
  function FirstEvents(p: KeyPair, coins: (nat, nat) -> Coins): seq<Event> {
    [Grow, Add(1, p), Path(0, [], p, {1}, [], coins)]
  }

  /** Such runs exist. */
  lemma {:induction false} RunsExist(kdf: MlsKdfs.Provider, coins: (nat, nat) -> Coins)
    ensures var e, p := ClearSuite(kdf), KeyPair([], []);
            Works(e) && Opens(e, p.secret, p.public) && Run(e, Founded(p), FirstEvents(p, coins))
  {
    hide GroupOk, Opens, Resolution, WellFormedTree;
    var e, p := ClearSuite(kdf), KeyPair([], []);
    assert Opens(e, p.secret, p.public) && Works(e) by { ClearOpens(kdf); }
    var g := Founded(p);
    FoundedKeeps(e, p);
    EventKeeps(e, g, Grow);
    var g1 := Apply(e, g, Grow);
    EventKeeps(e, g1, Add(1, p));
    var g2 := Apply(e, g1, Add(1, p));
    var commit := Path(0, [], p, {1}, [], coins);
    FirstCommit(e, g2, commit);
    var events := FirstEvents(p, coins);
    assert events[1..] == [Add(1, p), commit] && events[1..][1..] == [commit] && [commit][1..] == [];
    assert Run(e, Apply(e, g2, commit), []);
    assert Run(e, g2, [commit]);
    assert Run(e, g1, events[1..]);
  }

  lemma ClearOpens(kdf: MlsKdfs.Provider)
    ensures Opens(ClearSuite(kdf), [], []) && Works(ClearSuite(kdf))
  {
  }

  lemma FirstCommit(e: CipherSuite, g: Group, ev: Event)
    requires Works(e) && NeverFails(e) && GroupOk(e, g) && ev.Path? && ev.sender in g.members
    requires ev.sender !in ev.added && ev.added <= g.members.Keys && Opens(e, ev.pair.secret, ev.pair.public)
    ensures Possible(e, g, ev)
  {
    hide WellFormedTree, Opens, Works, NeverFails, PathNodes;
    assert Consistent(e, g.tree, g.height, ev.sender, g.members[ev.sender]);
    CommitSucceeds(CommitOf(e, g, ev), 0);
  }

  // ----- A path without nodes -----

  /** Two members, no nodes at all: refused while their parent is blank, a panic once it is in use. */
  lemma {:induction false} EmptyPath(e: CipherSuite, g: Group, leafKey: ByteSeq, info: ByteSeq)
    requires Works(e) && GroupOk(e, g) && g.height == 1 && 0 in g.members && 1 in g.members
    ensures ReceivePath(e, g.tree, 1, 1, g.members[1], 0, leafKey, [], {}, info, PASSING)
            == if 1 in g.tree then Panicked else Refused(ExpectedNode)
  {
    hide WellFormedTree, Consistent, Decap, Works, Resolution, UnreachedInUse, ResolvedPos;
    var t := g.tree;
    assert Shift(1, 0) == 1 && Shift(0, 0) == 0 && Sibling(0) == 1 && LcaLevel(1, 0) == 1 && Above(0, 1) == 1;
    SiblingOccupied(t, 0, 1, 0);
    SiblingOccupied(ReceivedTree(t, 0, leafKey, []), 0, 1, 0);
    var filtered := FilteredSeq(t, 1, 0);
    assert Unfilter<UpdatePathNode>(filtered, 0, []) == Some([]);
    AnyPath(e, g, 1, 0, leafKey, [], {}, info, PASSING);
    if 1 in t { UnreachedOfOne(t); }
  }

  lemma UnreachedOfOne(t: Nodes)
    requires 1 in t
    ensures UnreachedInUse(t, 1, 0, 0)
  {
    hide Filtered;
    assert Above(0, 1) == 1;
  }

  /** The run above, before and after its commit. */
  lemma {:induction false} EmptyPathPanics(kdf: MlsKdfs.Provider, coins: (nat, nat) -> Coins, leafKey: ByteSeq,
                                           info: ByteSeq)
    ensures var e, p := ClearSuite(kdf), KeyPair([], []);
            && Run(e, Founded(p), FirstEvents(p, coins))
            && var g := After(e, Founded(p), FirstEvents(p, coins), 2);
            && var g' := After(e, Founded(p), FirstEvents(p, coins), 3);
            && 1 in g.members && 1 in g'.members
            && ReceivePath(e, g.tree, g.height, 1, g.members[1], 0, leafKey, [], {}, info, PASSING)
               == Refused(ExpectedNode)
            && ReceivePath(e, g'.tree, g'.height, 1, g'.members[1], 0, leafKey, [], {}, info, PASSING) == Panicked
  {
    hide GroupOk, Works, Opens, ReceivePath, Run, After, Possible, Apply;
    var e, p, events := ClearSuite(kdf), KeyPair([], []), FirstEvents(KeyPair([], []), coins);
    RunsExist(kdf, coins);
    FoundedKeeps(e, p);
    RunKeeps(e, Founded(p), events, 2);
    RunKeeps(e, Founded(p), events, 3);
    FirstGroups(e, p, coins);
    EmptyPath(e, After(e, Founded(p), events, 2), leafKey, info);
    EmptyPath(e, After(e, Founded(p), events, 3), leafKey, info);
  }

  lemma {:induction false} FirstGroups(e: CipherSuite, p: KeyPair, coins: (nat, nat) -> Coins)
    requires Works(e) && Opens(e, p.secret, p.public) && Run(e, Founded(p), FirstEvents(p, coins))
    ensures var g, g' := After(e, Founded(p), FirstEvents(p, coins), 2), After(e, Founded(p), FirstEvents(p, coins), 3);
            && g.height == g'.height == 1 && g.members.Keys == g'.members.Keys == {0, 1}
            && 1 !in g.tree && 1 in g'.tree
  {
    hide GroupOk, Works, Opens, Resolution, PairsExist, PathNodes, AddMember, Upcoming, NewTree;
    var events := FirstEvents(p, coins);
    assert events[1..][1..] == events[2..] && events[2..][1..] == [];
    var g1 := Apply(e, Founded(p), events[0]);
    var g2 := Apply(e, g1, events[1]);
    AddKeys(g1.tree, 1, 1, p.public);
    FoundedKeeps(e, p);
    RunKeeps(e, Founded(p), events, 2);
    CommittedPath(e, g2, events[2]);
  }

  lemma {:induction false} CommittedPath(e: CipherSuite, g: Group, ev: Event)
    requires Works(e) && GroupOk(e, g) && g.height == 1 && 1 in g.members
    requires ev.Path? && ev.sender == 0 && Possible(e, g, ev)
    ensures 1 in Apply(e, g, ev).tree
  {
    hide WellFormedTree, Works, Opens, Resolution, PathNodes, NewTree, PairAt, Consistent;
    var x := CommitOf(e, g, ev);
    GroupIsValidCommit(e, g, ev);
    assert Shift(1, 0) == 1 && Shift(0, 0) == 0 && Sibling(0) == 1 && Above(0, 1) == 1;
    SiblingOccupied(x.tree, 0, 1, 0);
    NewTreeOnPath(x, 1);
  }
}
