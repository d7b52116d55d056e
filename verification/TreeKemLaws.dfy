/** One commit: every member arrives at the committer's tree and commit secret, and holds its keys again. */
module TreeKemLaws {
  import opened Bits
  import opened Bytes
  import opened TreeMath
  import MlsKdfs
  import opened RatchetTrees
  import opened TreeKems

  // ----- Who holds which keys -----

  /** A member has the key of a node above it exactly if it is not noted there as unmerged. */
  ghost predicate HoldsKey(e: CipherSuite, n: Entry, m: nat, key: Option<ByteSeq>) {
    (key.None? <==> m in UnmergedOf(n)) && (key.Some? ==> Opens(e, key.value, n.key))
  }

  ghost predicate Consistent(e: CipherSuite, t: Nodes, h: nat, m: nat, keys: Keys) {
    && m < Pow2(h) && 2 * m in t
    && KeyOn(keys, 0).Some? && Opens(e, KeyOn(keys, 0).value, t[2 * m].key)
    && forall k: nat :: 1 <= k <= h && Above(m, k) in t ==> HoldsKey(e, t[Above(m, k)], m, KeyOn(keys, k))
  }

  ghost predicate ValidCommit(x: Commit) {
    && x.height <= MAX_HEIGHT && WellFormedTree(x.tree, x.height) && Works(x.suite)
    && x.sender < Pow2(x.height) && 2 * x.sender in x.tree
    && Opens(x.suite, x.leaf.secret, x.leaf.public)
  }

  // ----- The new tree -----

  lemma {:induction false} NewTreeLaw(x: Commit)
    requires PairsExist(x, x.height)
    ensures AgreeOff(x.tree, NewTree(x), x.height, x.sender)
    ensures 2 * x.sender in NewTree(x) && NewTree(x)[2 * x.sender] == Leaf(x.leaf.public)
  {
    hide Node, Installed, InTree, Filtered;
    LeafPlace(x.sender, x.height);
    forall k: nat, j: nat | InTree(k, j, x.height) && Shift(x.sender, k) != j
      ensures Same(x.tree, NewTree(x), Node(k, j))
    {
      InstalledLaw(x, x.height, k, j);
      AboveOff(x.sender, 0, k, j);
    }
  }

  /** A node of the path is new, or it was filtered and stays blank. */
  lemma {:induction false} NewTreeOnPath(x: Commit, k: nat)
    requires PairsExist(x, x.height) && WellFormedTree(x.tree, x.height) && 1 <= k <= x.height
             && x.sender < Pow2(x.height)
    ensures if Filtered(x.tree, x.sender, k - 1) then Above(x.sender, k) !in NewTree(x)
            else Above(x.sender, k) in NewTree(x)
                 && NewTree(x)[Above(x.sender, k)] == Parent(PairAt(x, k - 1).value.public, [])
  {
    hide Node, Installed, Pow2, PairAt, WellFormedTree, Filtered;
    InstalledLaw(x, x.height, k, Shift(x.sender, k));
    AboveIsOdd(x.sender, k);
    if Filtered(x.tree, x.sender, k - 1) { FilteredIsBlank(x.tree, x.height, x.sender, k); }
  }

  /** A parent with nobody on one side is blank. */
  lemma {:induction false} FilteredIsBlank(t: Nodes, h: nat, i: nat, k: nat)
    requires WellFormedTree(t, h) && i < Pow2(h) && 1 <= k <= h && Filtered(t, i, k - 1)
    ensures Above(i, k) !in t
  {
    hide Node, Pow2, WellFormedTree, Resolution, InTree;
    var j := Shift(i, k - 1);
    assert Shift(i, k) == j / 2;
    AboveInTree(i, k, h);
    if Above(i, k) in t { SidesOccupied(t, h, k, j / 2); }
  }

  lemma {:induction false} PathNodeFine(x: Commit, k: nat)
    requires PairsExist(x, x.height) && ValidCommit(x) && k <= x.height && Above(x.sender, k) in NewTree(x)
    ensures NodeFine(NewTree(x), x.height, k, Shift(x.sender, k))
  {
    hide Node, Installed, Pow2, PairAt, WellFormedTree, Resolution;
    var t := NewTree(x);
    NewTreeLaw(x);
    LeafPlace(x.sender, x.height);
    if k > 0 {
      NewTreeOnPath(x, k);
      var j := Shift(x.sender, k - 1);
      assert Shift(x.sender, k) == j / 2;
      MemberBelow(t, x.sender, k - 1);
      TreeGrows(x);
      OccupiedGrows(x.tree, t, k - 1, Sibling(j));
    }
  }

  lemma {:induction false} TreeGrows(x: Commit)
    requires PairsExist(x, x.height)
    ensures x.tree.Keys <= NewTree(x).Keys
  {
    hide Above, Filtered;
    InstalledGrows(x, x.height);
  }

  lemma {:induction false} InstalledGrows(x: Commit, n: nat)
    requires PairsExist(x, n)
    ensures x.tree.Keys <= Installed(x, n).Keys
  {
    hide Above, Filtered, PairAt;
    if n > 0 { InstalledGrows(x, n - 1); }
  }

  lemma {:induction false} NewTreeWellFormed(x: Commit)
    requires ValidCommit(x) && PairsExist(x, x.height)
    ensures WellFormedTree(NewTree(x), x.height)
  {
    hide Node, Pow2, NewTree, NodeFine, InTree;
    var t := NewTree(x);
    NewTreeLaw(x);
    forall y | y in t ensures IsInTree(y, Pow2(x.height) - 1) && (t[y].Leaf? <==> IsLeaf(y)) { NewTreeShape(x, y); }
    forall k: nat, j: nat | InTree(k, j, x.height) && Node(k, j) in t ensures NodeFine(t, x.height, k, j) {
      if j == Shift(x.sender, k) {
        LevelBound(k, j, x.height);
        PathNodeFine(x, k);
      } else {
        assert Same(x.tree, t, Node(k, j));
        assert NodeFine(x.tree, x.height, k, j);
        OffPathFine(x.tree, t, x.height, x.sender, k, j);
      }
    }
  }

  lemma LevelBound(k: nat, j: nat, h: nat)
    requires InTree(k, j, h)
    ensures k <= h
  {
  }

  lemma {:induction false} NewTreeShape(x: Commit, y: nat)
    requires ValidCommit(x) && PairsExist(x, x.height) && y in NewTree(x)
    ensures IsInTree(y, Pow2(x.height) - 1) && (NewTree(x)[y].Leaf? <==> IsLeaf(y))
  {
    hide Node, Pow2, Above, Filtered, Installed, WellFormedTree;
    LeafPlace(x.sender, x.height);
    if y in Installed(x, x.height) { InstalledShape(x, x.height, y); }
  }

  lemma {:induction false} InstalledShape(x: Commit, n: nat, y: nat)
    requires ValidCommit(x) && n <= x.height && PairsExist(x, n) && y in Installed(x, n)
    ensures IsInTree(y, Pow2(x.height) - 1) && (Installed(x, n)[y].Leaf? <==> IsLeaf(y))
    decreases n
  {
    hide Node, Pow2, Filtered, PairAt;
    if n > 0 {
      ShiftBound(x.sender, n, x.height);
      NodeBound(n, Shift(x.sender, n), x.height);
      LevelOfNode(n, Shift(x.sender, n));
      if y in Installed(x, n - 1) { InstalledShape(x, n - 1, y); }
    }
  }

  // ----- The path on the wire -----

  ghost predicate HonestAt(x: Commit, i: nat, p: Option<UpdatePathNode>)
    requires PairsExist(x, x.height) && i < x.height
  {
    if Filtered(x.tree, x.sender, i) then p.None? else p.Some? && PathNode(x, i) == Ok(p.value)
  }

  /** The committer's nodes at their places from position `i` on, without trailing blanks. */
  ghost predicate Honest(x: Commit, i: nat, path: Path)
    requires PairsExist(x, x.height)
  {
    && i + |path| <= x.height
    && (forall n: nat :: n < |path| ==> HonestAt(x, i + n, path[n]))
    && (forall n: nat :: i + |path| <= n < x.height ==> Filtered(x.tree, x.sender, n))
  }

  /** Receivers recover the places of the nodes from the filter alone. */
  lemma {:induction false} UnfilterHonest(x: Commit, filtered: seq<bool>, i: nat) returns (path: Path)
    requires PairsExist(x, x.height) && i <= x.height && PathNodes(x, i).Ok?
    requires |filtered| == x.height && forall n :: 0 <= n < |filtered| ==> filtered[n] == Filtered(x.tree, x.sender, n)
    ensures Unfilter(filtered, i, PathNodes(x, i).value) == Some(path) && Honest(x, i, path)
    decreases x.height - i
  {
    hide Filtered, PathNode, Honest, PairsExist, HonestAt;
    if i == x.height {
      path := [];
      NoneHonest(x, i);
    } else {
      var rest := UnfilterHonest(x, filtered, i + 1);
      var nodes := PathNodes(x, i).value;
      if !filtered[i] {
        assert nodes == [PathNode(x, i).value] + PathNodes(x, i + 1).value;
        assert nodes[1..] == PathNodes(x, i + 1).value;
        path := [Some(nodes[0])] + rest;
        assert HonestAt(x, i, Some(nodes[0])) by { HonestNode(x, i); }
        ConsHonest(x, i, Some(nodes[0]), rest);
      } else if |nodes| > 0 {
        path := [None] + rest;
        assert HonestAt(x, i, None) by { HonestNode(x, i); }
        ConsHonest(x, i, None, rest);
      } else {
        path := [];
        assert rest == [];
        NoneHonest(x, i);
      }
    }
  }

  lemma HonestNode(x: Commit, i: nat)
    requires PairsExist(x, x.height) && i < x.height
    ensures HonestAt(x, i, None) <==> Filtered(x.tree, x.sender, i)
    ensures !Filtered(x.tree, x.sender, i) && PathNode(x, i).Ok? ==> HonestAt(x, i, Some(PathNode(x, i).value))
  {
    hide Filtered, PathNode, PairsExist;
  }

  lemma NoneHonest(x: Commit, i: nat)
    requires PairsExist(x, x.height) && i <= x.height
    requires i < x.height ==> Filtered(x.tree, x.sender, i) && Honest(x, i + 1, [])
    ensures Honest(x, i, [])
  {
    hide Filtered, PairsExist, HonestAt;
  }

  lemma ConsHonest(x: Commit, i: nat, p: Option<UpdatePathNode>, rest: Path)
    requires PairsExist(x, x.height) && i < x.height && HonestAt(x, i, p) && Honest(x, i + 1, rest)
    ensures Honest(x, i, [p] + rest)
  {
    hide HonestAt, Filtered, PairsExist;
    var path := [p] + rest;
    forall n: nat | n < |path| ensures HonestAt(x, i + n, path[n]) {
      if n > 0 { assert path[n] == rest[n - 1] && HonestAt(x, i + 1 + (n - 1), rest[n - 1]); }
    }
  }

  lemma UpdatesCommute(t: Nodes, i: nat, n: Entry, j: nat, n': Entry)
    requires i != j
    ensures t[i := n][j := n'] == t[j := n'][i := n]
  {
  }

  lemma HonestLength(x: Commit, path: Path)
    requires PairsExist(x, x.height) && Honest(x, 0, path)
    ensures |path| <= x.height
  {
  }

  lemma AppliedStep(t: Nodes, c: nat, path: Path, n: nat)
    requires n <= |path|
    ensures Applied(t, c, path, n) ==
              if n == 0 then t
              else if path[n - 1].None? then Applied(t, c, path, n - 1)
              else Applied(t, c, path, n - 1)[Above(c, n) := Parent(path[n - 1].value.key, [])]
  {
    hide Above;
  }

  lemma InstalledStep(x: Commit, n: nat)
    requires PairsExist(x, x.height) && n <= x.height
    ensures PairsExist(x, n) && (n > 0 ==> PairsExist(x, n - 1))
    ensures n == 0 ==> Installed(x, n) == x.tree
    ensures n > 0 ==>
              Installed(x, n) ==
                if Filtered(x.tree, x.sender, n - 1) then Installed(x, n - 1)
                else Installed(x, n - 1)[Above(x.sender, n) := Parent(PairAt(x, n - 1).value.public, [])]
  {
    hide Above, Filtered, PairAt;
  }

  /** Applying the honest path gives the committer's tree. */
  lemma {:induction false} AppliedIsInstalled(x: Commit, path: Path, n: nat)
    requires PairsExist(x, x.height) && Honest(x, 0, path) && n <= |path|
    ensures Applied(x.tree[2 * x.sender := Leaf(x.leaf.public)], x.sender, path, n)
            == Installed(x, n)[2 * x.sender := Leaf(x.leaf.public)]
  {
    hide Above, Filtered, PairAt, PairsExist, Installed, Honest, Applied, NodePair, Upcoming;
    assert n <= x.height by { HonestLength(x, path); }
    InstalledStep(x, n);
    var leaf := Leaf(x.leaf.public);
    AppliedStep(x.tree[2 * x.sender := leaf], x.sender, path, n);
    if n > 0 {
      AppliedIsInstalled(x, path, n - 1);
      ClimbStep(x, path, n - 1);
      AboveIsOdd(x.sender, n);
      if path[n - 1].Some? {
        UpdatesCommute(Installed(x, n - 1), 2 * x.sender, leaf, Above(x.sender, n), Parent(path[n - 1].value.key, []));
      }
    }
  }

  lemma {:induction false} InstalledTail(x: Commit, n: nat)
    requires PairsExist(x, x.height) && n <= x.height && forall i: nat :: n <= i < x.height ==>
               Filtered(x.tree, x.sender, i)
    ensures Installed(x, n) == Installed(x, x.height)
    ensures Upcoming(x, n) == Upcoming(x, x.height)
    decreases x.height - n
  {
    hide Filtered, Above, PairAt, NextPathSecret;
    if n < x.height { InstalledTail(x, n + 1); }
  }

  // ----- Finding the ciphertext -----

  lemma {:induction false} SameRecipients(xs: seq<nat>, added: set<nat>)
    ensures KeepNodes(xs, NodesOf(added)) == KeepLeaves(xs, added)
  {
    if |xs| > 0 {
      SameRecipients(xs[1..], added);
      var y := xs[0];
      assert y in NodesOf(added) <==> y % 2 == 0 && y / 2 in added by {
        if y % 2 == 0 && y / 2 in added { assert 2 * (y / 2) == y; }
      }
    }
  }

  lemma {:induction false} KeptExactly(xs: seq<nat>, added: set<nat>, y: nat)
    ensures y in KeepLeaves(xs, added) <==> y in xs && (y % 2 == 1 || y / 2 !in added)
  {
    if |xs| > 0 { KeptExactly(xs[1..], added, y); }
  }

  /** A member is reached by the resolution: through its lowest ancestor in use, or as unmerged leaf. */
  lemma {:induction false} InResolution(t: Nodes, m: nat, k: nat)
    requires 2 * m in t
    ensures var r := LowestOccupied(t, m, k);
            && Above(m, r) in Resolution(t, k, Shift(m, k))
            && (m in UnmergedOf(t[Above(m, r)]) ==> 2 * m in Resolution(t, k, Shift(m, k)))
  {
    hide Node;
    LeafPlace(m, 0);
    if Above(m, k) in t {
      var us := UnmergedOf(t[Above(m, k)]);
      if m in us {
        var n :| 0 <= n < |us| && us[n] == m;
        assert LeafNodes(us)[n] == 2 * m;
      }
    } else {
      InResolution(t, m, k - 1);
      var j := Shift(m, k - 1);
      assert Shift(m, k) == j / 2 && (j == 2 * (j / 2) || j == 2 * (j / 2) + 1);
    }
  }

  lemma {:induction false} LcaOfNodes(m: nat, c: nat, h: nat)
    requires m != c && m < Pow2(h) && c < Pow2(h)
    ensures var l := LcaLevel(m, c);
            && LcaLevel(2 * m, 2 * c) == l + 1 && 1 <= l <= h
            && Shift(m, l - 1) == Sibling(Shift(c, l - 1))
            && (forall k: nat :: k < l ==> Shift(m, k) != Shift(c, k))
            && (forall k: nat :: l <= k ==> Shift(m, k) == Shift(c, k))
  {
    var l := LcaLevel(m, c);
    assert 2 * m / 2 == m && 2 * c / 2 == c;
    ShiftBound(m, h, h);
    ShiftBound(c, h, h);
    LcaLaw(m, c, h);
    LcaLaw(m, c, 0);
    forall k: nat ensures Shift(m, k) == Shift(c, k) <==> l <= k { LcaLaw(m, c, k); }
    CopathSplitsLeaves(c, m, l - 1);
    LcaSymmetric(m, c);
  }

  lemma {:induction false} LcaSymmetric(x: nat, y: nat)
    ensures LcaLevel(x, y) == LcaLevel(y, x)
    decreases x + y
  {
    if x != y { LcaSymmetric(x / 2, y / 2); }
  }

  /** Below the common ancestor a member sees what it saw before. */
  lemma {:induction false} SameBelow(x: Commit, m: nat, k: nat)
    requires PairsExist(x, x.height) && m < Pow2(x.height) && k <= x.height && Shift(m, k) != Shift(x.sender, k)
    ensures Same(x.tree, NewTree(x), Above(m, k))
  {
    hide Node, NewTree, Pow2, InTree;
    NewTreeLaw(x);
    AboveInTree(m, k, x.height);
  }

  /** The resolved position: a key the member holds, at a node the copath node resolves to. */
  lemma {:induction false} ResolvedLaw(e: CipherSuite, t: Nodes, m: nat, keys: Keys, k: nat)
    requires 2 * m in t && KeyOn(keys, 0).Some? && Opens(e, KeyOn(keys, 0).value, t[2 * m].key)
    requires var r := LowestOccupied(t, m, k); r > 0 ==> HoldsKey(e, t[Above(m, r)], m, KeyOn(keys, r))
    ensures var at := ResolvedPos(t, m, keys, k);
            && Above(m, at) in t && KeyOn(keys, at).Some? && Opens(e, KeyOn(keys, at).value, t[Above(m, at)].key)
            && Above(m, at) in Resolution(t, k, Shift(m, k))
  {
    hide Node, Opens, Resolution, Shift, LowestOccupied, Above;
    LeafPlace(m, 0);
    InResolution(t, m, k);
  }

  /** The resolved position is among the ciphertexts unless the member counts as added and has only its leaf key. */
  lemma {:induction false} FoundExactly(t: Nodes, m: nat, keys: Keys, k: nat, added: set<nat>)
    requires 2 * m in t && Above(m, ResolvedPos(t, m, keys, k)) in Resolution(t, k, Shift(m, k))
    ensures CiphertextPos(t, m, keys, k, added).Some? <==> m !in added || ResolvedPos(t, m, keys, k) > 0
  {
    hide Node, Resolution, KeepLeaves, Shift, ResolvedPos, Above;
    var at := ResolvedPos(t, m, keys, k);
    LeafPlace(m, 0);
    if at > 0 { AboveIsOdd(m, at); }
    KeptExactly(Resolution(t, k, Shift(m, k)), added, Above(m, at));
    InPosition(KeepLeaves(Resolution(t, k, Shift(m, k)), added), Above(m, at));
  }

  lemma InPosition(xs: seq<nat>, y: nat)
    ensures Position(xs, y).Some? <==> y in xs
  {
  }

  /** The ciphertext found there opens to the path secret of the common ancestor. */
  lemma {:induction false} FoundSecret(x: Commit, m: nat, keys: Keys, path: Path)
    requires ValidCommit(x) && PairsExist(x, x.height) && m != x.sender && m !in x.added
    requires Consistent(x.suite, x.tree, x.height, m, keys) && Honest(x, 0, path)
    ensures var t, lca := NewTree(x), LcaLevel(m, x.sender) - 1;
            && 0 <= lca < |path| && path[lca].Some? && 2 * m in t
            && var at := ResolvedPos(t, m, keys, lca);
            var pos := CiphertextPos(t, m, keys, lca, x.added);
            && pos.Some? && pos.value < |path[lca].value.encrypted|
            && KeyOn(keys, at).Some? && Above(m, at) in t
            && x.suite.open(path[lca].value.encrypted[pos.value], KeyOn(keys, at).value, t[Above(m, at)].key, x.info)
               == Ok(SecretAt(x, lca))
  {
    hide Node, NewTree, Pow2, WellFormedTree, Resolution, KeepLeaves, KeepNodes, Shift;
    hide LcaLevel, Above, ResolvedPos, SecretAt, PairAt, Consistent, Works;
    var t, lca := NewTree(x), LcaLevel(m, x.sender) - 1;
    MemberInRange(x.suite, x.tree, x.height, m, keys);
    LcaOfNodes(m, x.sender, x.height);
    SeenBelow(x, m, keys);
    ResolvedLaw(x.suite, t, m, keys, lca);
    FoundExactly(t, m, keys, lca, x.added);
    NotFiltered(x, m, keys);
    assert lca < |path|;
    assert HonestAt(x, 0 + lca, path[lca]);
    SameRecipients(Resolution(t, lca, Shift(m, lca)), x.added);
    var at := ResolvedPos(t, m, keys, lca);
    var to := KeepLeaves(Resolution(t, lca, Shift(m, lca)), x.added);
    var pos := CiphertextPos(t, m, keys, lca, x.added).value;
    var ct := x.suite.seal(t[to[pos]].key, x.info, SecretAt(x, lca), x.coins(lca, pos));
    assert ct == Ok(path[lca].value.encrypted[pos]);
  }

  /** What a member holds fits the new tree below the common ancestor. */
  lemma {:induction false} SeenBelow(x: Commit, m: nat, keys: Keys)
    requires PairsExist(x, x.height) && m != x.sender && x.sender < Pow2(x.height)
    requires Consistent(x.suite, x.tree, x.height, m, keys)
    ensures var t, l := NewTree(x), LcaLevel(m, x.sender);
            && l >= 1 && 2 * m in t && KeyOn(keys, 0).Some? && Opens(x.suite, KeyOn(keys, 0).value, t[2 * m].key)
            && var r := LowestOccupied(t, m, l - 1); r > 0 ==> HoldsKey(x.suite, t[Above(m, r)], m, KeyOn(keys, r))
  {
    hide Node, NewTree, Pow2, Opens, Shift, LcaLevel, LowestOccupied, Above, PairsExist;
    LcaOfNodes(m, x.sender, x.height);
    LeafPlace(m, x.height);
    SameBelow(x, m, 0);
    SameBelow(x, m, LowestOccupied(NewTree(x), m, LcaLevel(m, x.sender) - 1));
  }

  lemma MemberInRange(e: CipherSuite, t: Nodes, h: nat, m: nat, keys: Keys)
    requires Consistent(e, t, h, m, keys)
    ensures m < Pow2(h) && 2 * m in t
  {
  }

  /** The position of the common ancestor is on the wire. */
  lemma NotFiltered(x: Commit, m: nat, keys: Keys)
    requires ValidCommit(x) && m != x.sender && Consistent(x.suite, x.tree, x.height, m, keys)
    ensures LcaLevel(m, x.sender) >= 1 && !Filtered(x.tree, x.sender, LcaLevel(m, x.sender) - 1)
  {
    hide Resolution, Shift, LcaLevel, Works, WellFormedTree;
    LcaOfNodes(m, x.sender, x.height);
    MemberBelow(x.tree, m, LcaLevel(m, x.sender) - 1);
  }

  /** Climbing from a position derives the committer's keys and ends at the commit secret. */
  lemma {:induction false} ClimbHonest(x: Commit, path: Path, i: nat, keys: Keys) returns (keys': Keys)
    requires Renewable(x) && Honest(x, 0, path) && i <= x.height && |path| < |keys|
    ensures Climb(x.suite, path, i, Upcoming(x, i), keys) == Ok((keys', SecretAt(x, x.height)))
    ensures |keys'| == |keys|
    ensures forall k: nat :: i < k <= |path| ==> NewKey(x, k, KeyOn(keys', k))
    ensures forall k: nat :: !(i < k <= |path|) ==> KeyOn(keys', k) == KeyOn(keys, k)
    decreases |path| - i
  {
    hide Filtered, HonestAt, NewTree, Upcoming, NextPathSecret, NodePair, PairsExist, PairAt;
    if i >= |path| {
      InstalledTail(x, i);
      keys' := keys;
    } else {
      ClimbStep(x, path, i);
      keys' := ClimbHonest(x, path, i
                           + 1, keys[i + 1 := if path[i].None? then None else Some(PairAt(x, i).value.secret)]);
    }
  }

  lemma ClimbStep(x: Commit, path: Path, i: nat)
    requires PairsExist(x, x.height) && Honest(x, 0, path) && i < |path|
    ensures path[i].None? <==> Filtered(x.tree, x.sender, i)
    ensures path[i].None? ==> Upcoming(x, i + 1) == Upcoming(x, i)
    ensures path[i].Some? ==>
              && Upcoming(x, i).Ok? && Upcoming(x, i + 1) == NextPathSecret(x.suite, SecretAt(x, i))
              && PairAt(x, i).Ok? && PairAt(x, i) == NodePair(x.suite, SecretAt(x, i))
              && path[i].value.key == PairAt(x, i).value.public
  {
    hide Filtered, SealAll, Resolution, KeepNodes, NewTree, NodePair, NextPathSecret;
    assert HonestAt(x, 0 + i, path[i]);
  }

  /** Decapsulation by any member that was there before gives the commit secret and keys for the new tree. */
  lemma {:induction false} DecapAgrees(x: Commit, m: nat, keys: Keys, path: Path) returns (keys': Keys)
    requires ValidCommit(x) && Renewable(x) && m != x.sender && m !in x.added
    requires Consistent(x.suite, x.tree, x.height, m, keys) && Honest(x, 0, path)
    ensures 2 * m in NewTree(x)
    ensures Decap(x.suite, NewTree(x), x.height, m, keys, x.sender, path, x.added, x.info)
            == Done((keys', SecretAt(x, x.height)))
    ensures Consistent(x.suite, NewTree(x), x.height, m, keys')
  {
    hide NewTree, Pow2, WellFormedTree, CiphertextPos, Shift, LcaLevel;
    hide Above, ResolvedPos, Upcoming, PairAt, Consistent;
    hide HonestAt, Climb, Works, Filtered, PairsExist;
    MemberInRange(x.suite, x.tree, x.height, m, keys);
    LcaOfNodes(m, x.sender, x.height);
    var lca := LcaLevel(m, x.sender) - 1;
    FoundSecret(x, m, keys, path);
    assert HonestAt(x, 0 + lca, path[lca]);
    UpcomingAt(x, lca, path[lca]);
    var sized := Resize(keys, x.height + 2);
    keys' := ClimbHonest(x, path, lca, sized);
    KeysInStep(x, m, keys, keys', |path|);
  }

  lemma UpcomingAt(x: Commit, i: nat, p: Option<UpdatePathNode>)
    requires PairsExist(x, x.height) && i < x.height && HonestAt(x, i, p) && p.Some?
    ensures Upcoming(x, i) == Ok(SecretAt(x, i))
  {
    hide Filtered, Upcoming, NodePair, PathNode;
    assert PairAt(x, i).Ok?;
  }

  /** Old keys below the common ancestor and new ones from it up fit the new tree. */
  lemma {:induction false} KeysInStep(x: Commit, m: nat, keys: Keys, keys': Keys, top: nat)
    requires ValidCommit(x) && PairsExist(x, x.height) && m != x.sender
    requires top <= x.height && forall k: nat :: top <= k < x.height ==> Filtered(x.tree, x.sender, k)
    requires Consistent(x.suite, x.tree, x.height, m, keys)
    requires forall k: nat :: LcaLevel(m, x.sender) <= k <= top ==> NewKey(x, k, KeyOn(keys', k))
    requires forall k: nat :: k < LcaLevel(m, x.sender) ==> KeyOn(keys', k) == KeyOn(keys, k)
    ensures Consistent(x.suite, NewTree(x), x.height, m, keys')
  {
    hide NewTree, Pow2, WellFormedTree, Shift, LcaLevel, Above, Opens, HonestAt, Filtered, PairAt;
    var t, l := NewTree(x), LcaLevel(m, x.sender);
    LcaOfNodes(m, x.sender, x.height);
    LeafPlace(m, x.height);
    SameBelow(x, m, 0);
    forall k: nat | 1 <= k <= x.height && Above(m, k) in t
      ensures HoldsKey(x.suite, t[Above(m, k)], m, KeyOn(keys', k))
    {
      if k < l {
        SameBelow(x, m, k);
      } else {
        SameAbove(m, x.sender, k);
        NewTreeOnPath(x, k);
        PairOpens(x, k - 1);
      }
    }
  }

  /** The key of level `k` after the commit. */
  ghost predicate NewKey(x: Commit, k: nat, key: Option<ByteSeq>)
    requires PairsExist(x, x.height)
  {
    1 <= k <= x.height && (Filtered(x.tree, x.sender, k - 1) || key == Some(PairAt(x, k - 1).value.secret))
  }

  lemma PairOpens(x: Commit, i: nat)
    requires Works(x.suite) && PairAt(x, i).Ok?
    ensures Opens(x.suite, PairAt(x, i).value.secret, PairAt(x, i).value.public)
  {
    hide Opens;
  }

  // ----- The committer itself -----

  lemma {:induction false} CommitterKeysLaw(x: Commit, keys: Keys, n: nat, k: nat)
    requires n <= x.height && PairsExist(x, n) && 1 <= k <= n
    ensures CommitterKeys(x, keys, n)[k] == if Filtered(x.tree, x.sender, k - 1) then None
            else Some(PairAt(x, k - 1).value.secret)
    decreases n
  {
    hide Filtered, PairAt;
    if k < n { CommitterKeysLaw(x, keys, n - 1, k); }
  }

  lemma {:induction false} CommitterConsistent(x: Commit, keys: Keys)
    requires ValidCommit(x) && PairsExist(x, x.height)
    ensures Consistent(x.suite, NewTree(x), x.height, x.sender,
                       CommitterKeys(x, keys, x.height)[0 := Some(x.leaf.secret)])
  {
    hide NewTree, Pow2, WellFormedTree, Shift, Above, Opens, Filtered, PairAt, CommitterKeys;
    var t, keys' := NewTree(x), CommitterKeys(x, keys, x.height)[0 := Some(x.leaf.secret)];
    NewTreeLaw(x);
    forall k: nat | 1 <= k <= x.height && Above(x.sender, k) in t
      ensures HoldsKey(x.suite, t[Above(x.sender, k)], x.sender, KeyOn(keys', k))
    {
      CommitterKeysLaw(x, keys, x.height, k);
      NewTreeOnPath(x, k);
      PairOpens(x, k - 1);
    }
  }

  // ----- A member added by the commit -----

  /** From the common ancestor up, the joiner's own filter agrees with the committer's. */
  lemma {:induction false} SameFilter(x: Commit, m: nat, i: nat)
    requires ValidCommit(x) && PairsExist(x, x.height) && m != x.sender && m < Pow2(x.height) && 2 * m in x.tree
    requires LcaLevel(m, x.sender) <= i + 1 <= x.height
    ensures Filtered(NewTree(x), m, i) <==> Filtered(x.tree, x.sender, i)
  {
    hide NewTree, Pow2, WellFormedTree, Shift, Filtered, LcaLevel, Works, Opens, AgreeOff, PairsExist;
    LcaOfNodes(m, x.sender, x.height);
    NewTreeLaw(x);
    if i + 1 == LcaLevel(m, x.sender) {
      SiblingOccupied(NewTree(x), m, x.sender, i);
      SiblingOccupied(x.tree, x.sender, m, i);
    } else {
      CopathUnchanged(x.tree, NewTree(x), x.height, x.sender, i);
      SameFilterHere(NewTree(x), m, x.sender, i);
    }
  }

  lemma SiblingOccupied(t: Nodes, i: nat, l: nat, k: nat)
    requires 2 * l in t && (Shift(i, k) == Sibling(Shift(l, k)) || Shift(l, k) == Sibling(Shift(i, k)))
    ensures !Filtered(t, i, k)
  {
    hide Resolution, Shift;
    MemberBelow(t, l, k);
  }

  lemma SameFilterHere(t: Nodes, i: nat, l: nat, k: nat)
    requires Shift(i, k) == Shift(l, k)
    ensures Filtered(t, i, k) <==> Filtered(t, l, k)
  {
  }

  /** A change along a path leaves its copath alone. */
  lemma CopathUnchanged(t: Nodes, t': Nodes, h: nat, i: nat, k: nat)
    requires AgreeOff(t, t', h, i) && i < Pow2(h) && k < h
    ensures Filtered(t, i, k) <==> Filtered(t', i, k)
  {
    hide Resolution, AgreeOff, Shift, Pow2, InTree;
    AboveInTree(i, k, h);
    NeighboursInTree(k, Shift(i, k), h);
    ResolutionOffPath(t, t', h, i, k, Sibling(Shift(i, k)));
  }

  lemma {:induction false} JoinStep(x: Commit, m: nat, i: nat)
    requires ValidCommit(x) && PairsExist(x, x.height) && m != x.sender && m < Pow2(x.height) && 2 * m in x.tree
    requires LcaLevel(m, x.sender) <= i + 1 <= x.height
    ensures Filtered(NewTree(x), m, i) ==> Upcoming(x, i + 1) == Upcoming(x, i)
    ensures !Filtered(NewTree(x), m, i) ==>
              && Upcoming(x, i).Ok? && Upcoming(x, i + 1) == NextPathSecret(x.suite, SecretAt(x, i))
              && PairAt(x, i).Ok? && PairAt(x, i) == NodePair(x.suite, SecretAt(x, i))
              && Above(m, i + 1) in NewTree(x) && NewTree(x)[Above(m, i + 1)].key == PairAt(x, i).value.public
    ensures NewKey(x, i + 1, if Filtered(NewTree(x), m, i) then None else Some(PairAt(x, i).value.secret))
  {
    hide NewTree, Pow2, WellFormedTree, Shift, Filtered, Above, NodePair, NextPathSecret;
    LcaOfNodes(m, x.sender, x.height);
    SameFilter(x, m, i);
    SameAbove(m, x.sender, i + 1);
    NewTreeOnPath(x, i + 1);
  }

  lemma {:induction false} JoinHonest(x: Commit, m: nat, i: nat, keys: Keys) returns (keys': Keys)
    requires ValidCommit(x) && PairsExist(x, x.height) && m != x.sender && m < Pow2(x.height) && 2 * m in x.tree
    requires LcaLevel(m, x.sender) <= i + 1 && i <= x.height && |keys| == x.height + 1
    ensures JoinFrom(x.suite, NewTree(x), x.height, m, i, Upcoming(x, i), keys) == Ok(keys') && |keys'| == |keys|
    ensures forall k: nat :: i < k <= x.height ==> NewKey(x, k, KeyOn(keys', k))
    ensures forall k: nat :: k <= i ==> KeyOn(keys', k) == KeyOn(keys, k)
    decreases x.height - i
  {
    hide NewTree, Pow2, WellFormedTree, Filtered, Above, Upcoming;
    hide NextPathSecret, NodePair, ValidCommit, LcaLevel, PairsExist;
    hide PairAt;
    if i == x.height {
      keys' := keys;
    } else {
      JoinStep(x, m, i);
      if Filtered(NewTree(x), m, i) {
        keys' := JoinHonest(x, m, i + 1, keys);
        FilteredKey(x, m, i, KeyOn(keys', i + 1));
      } else {
        keys' := JoinHonest(x, m, i + 1, keys[i + 1 := Some(PairAt(x, i).value.secret)]);
      }
    }
  }

  lemma FilteredKey(x: Commit, m: nat, i: nat, key: Option<ByteSeq>)
    requires ValidCommit(x) && PairsExist(x, x.height) && m != x.sender && m < Pow2(x.height) && 2 * m in x.tree
    requires LcaLevel(m, x.sender) <= i + 1 <= x.height && Filtered(NewTree(x), m, i)
    ensures NewKey(x, i + 1, key)
  {
    hide NewTree, Pow2, WellFormedTree, Filtered, LcaLevel;
    SameFilter(x, m, i);
  }

  lemma JoinStart(x: Commit, m: nat, keys: Keys)
    requires ValidCommit(x) && PairsExist(x, x.height) && m != x.sender
    requires Consistent(x.suite, x.tree, x.height, m, keys)
    ensures m < Pow2(x.height) && x.sender < Pow2(x.height) && 2 * m in x.tree
    ensures var l := LcaLevel(m, x.sender);
            && 1 <= l <= x.height && !Filtered(x.tree, x.sender, l - 1) && Upcoming(x, l - 1) == Ok(SecretAt(x, l - 1))
  {
    hide NewTree, Pow2, WellFormedTree, Filtered, Upcoming, LcaLevel, Shift, Works, Opens, NodePair;
    LcaOfNodes(m, x.sender, x.height);
    NotFiltered(x, m, keys);
    assert PairAt(x, LcaLevel(m, x.sender) - 1).Ok?;
  }

  /** The secret the committer sends a joiner is there, and brings it in step with the new tree. */
  lemma {:induction false} JoinAgrees(x: Commit, m: nat, keys: Keys) returns (keys': Keys)
    requires ValidCommit(x) && PairsExist(x, x.height) && m != x.sender
    requires Consistent(x.suite, x.tree, x.height, m, keys)
    ensures var l := LcaLevel(m, x.sender);
            && 1 <= l <= x.height && PathSecrets(x, x.height)[l - 1] == Some(SecretAt(x, l - 1))
            && Join(x.suite, NewTree(x), x.height, m, x.sender, SecretAt(x, l - 1), keys) == Ok(keys')
    ensures Consistent(x.suite, NewTree(x), x.height, m, keys')
  {
    hide NewTree, Pow2, Filtered, Upcoming, LcaLevel, Shift;
    hide JoinFrom, ValidCommit, Consistent, PairsExist, NewKey, PairAt;
    JoinStart(x, m, keys);
    LcaOfNodes(m, x.sender, x.height);
    keys' := JoinHonest(x, m, LcaLevel(m, x.sender) - 1, Resize(keys, x.height + 1));
    KeysInStep(x, m, keys, keys', x.height);
  }

  // ----- Any path at all -----

  /** The places of the nodes follow the filter, whoever sent them. */
  lemma {:induction false} UnfilterLaw<T>(filtered: seq<bool>, i: nat, nodes: seq<T>)
    requires i <= |filtered| && Unfilter(filtered, i, nodes).Some?
    ensures var path := Unfilter(filtered, i, nodes).value;
            i + |path| <= |filtered| && forall n: nat :: n < |path| ==> (path[n].None? <==> filtered[i + n])
    decreases |filtered| - i
  {
    if |nodes| > 0 {
      var rest := if filtered[i] then nodes else nodes[1..];
      UnfilterLaw(filtered, i + 1, rest);
      var path, tail := Unfilter(filtered, i, nodes).value, Unfilter(filtered, i + 1, rest).value;
      forall n: nat | n < |path| ensures path[n].None? <==> filtered[i + n] {
        if n > 0 { assert path[n] == tail[n - 1]; }
      }
    }
  }

  lemma {:induction false} AppliedLaw(t: Nodes, c: nat, path: Path, n: nat, k: nat, j: nat)
    requires n <= |path|
    ensures if 1 <= k <= n && j == Shift(c, k) && path[k - 1].Some?
            then Node(k, j) in Applied(t, c, path, n)
              && Applied(t, c, path, n)[Node(k, j)] == Parent(path[k - 1].value.key, [])
            else Same(t, Applied(t, c, path, n), Node(k, j))
    decreases n
  {
    hide Node;
    if n > 0 {
      AppliedLaw(t, c, path, n - 1, k, j);
      if Above(c, n) == Node(k, j) { NodeInjective(n, Shift(c, n), k, j); }
    }
  }

  /** What climbing accepts it can open later: each key it stores fits the public key on the path. */
  lemma {:induction false} ClimbGuarantee(e: CipherSuite, path: Path, i: nat, next: Result<ByteSeq, CommitError>,
                                          keys: Keys)
    requires Works(e) && |path| < |keys| && Climb(e, path, i, next, keys).Ok?
    ensures var keys' := Climb(e, path, i, next, keys).value.0;
            && (forall k: nat :: i < k <= |path| && path[k - 1].Some? ==>
                  KeyOn(keys', k).Some? && Opens(e, KeyOn(keys', k).value, path[k - 1].value.key))
            && (forall k: nat :: !(i < k <= |path|) ==> KeyOn(keys', k) == KeyOn(keys, k))
    decreases |path| - i
  {
    hide Opens, NextPathSecret, NodePair, Works;
    if i < |path| {
      if path[i].None? {
        ClimbGuarantee(e, path, i + 1, next, keys[i + 1 := None]);
      } else {
        var pair := NodePair(e, next.value).value;
        NodePairOpens(e, next.value);
        ClimbGuarantee(e, path, i + 1, NextPathSecret(e, next.value), keys[i + 1 := Some(pair.secret)]);
      }
    }
  }

  lemma NodePairOpens(e: CipherSuite, secret: ByteSeq)
    requires Works(e) && NodePair(e, secret).Ok?
    ensures Opens(e, NodePair(e, secret).value.secret, NodePair(e, secret).value.public)
  {
    hide Opens;
  }

  lemma {:induction false} ReceivedNode(t: Nodes, h: nat, c: nat, leafKey: ByteSeq, path: Path, m: nat, k: nat)
    requires m != c && k <= h && m < Pow2(h) && c < Pow2(h)
    ensures if LcaLevel(m, c) <= k <= |path| && path[k - 1].Some?
            then Above(m, k) in ReceivedTree(t, c, leafKey, path)
              && ReceivedTree(t, c, leafKey, path)[Above(m, k)] == Parent(path[k - 1].value.key, [])
            else Same(t, ReceivedTree(t, c, leafKey, path), Above(m, k))
  {
    hide Node, Shift, Applied, Pow2, LcaLevel;
    LcaOfNodes(m, c, h);
    AppliedLaw(t[2 * c := Leaf(leafKey)], c, path, |path|, k, Shift(m, k));
    AboveIsOdd(m, k);
    LeafPlace(c, h);
    LeafPlace(m, h);
  }

  /**
   Whatever path arrives, honest or not: if a member accepts it, the member's keys fit the tree it has
   then, so that it can take part in later commits.
   */
  lemma {:induction false} AcceptedPathIsUsable(e: CipherSuite, t: Nodes, h: nat, m: nat, keys: Keys, c: nat,
                                                leafKey: ByteSeq, filtered: seq<bool>, nodes: seq<UpdatePathNode>,
                                                added: set<nat>, info: ByteSeq)
    requires Works(e) && WellFormedTree(t, h) && Consistent(e, t, h, m, keys) && m != c && c < Pow2(h)
    requires |filtered| == h && forall i :: 0 <= i < h ==> filtered[i] == Filtered(t, c, i)
    requires Unfilter(filtered, 0, nodes).Some?
    ensures var path := Unfilter(filtered, 0, nodes).value;
            && |path| <= h && 2 * m in ReceivedTree(t, c, leafKey, path)
            && var d := Decap(e, ReceivedTree(t, c, leafKey, path), h, m, keys, c, path, added, info);
            d.Done? ==> Consistent(e, ReceivedTree(t, c, leafKey, path), h, m, d.value.0)
  {
    hide WellFormedTree, Unfilter, ReceivedTree, OpenedSecret, Climb, Opens;
    hide Above, Shift, LcaLevel, Filtered, Works, Pow2;
    UnfilterLaw(filtered, 0, nodes);
    var path := Unfilter(filtered, 0, nodes).value;
    var t' := ReceivedTree(t, c, leafKey, path);
    LcaOfNodes(m, c, h);
    LeafPlace(m, h);
    ReceivedNode(t, h, c, leafKey, path, m, 0);
    var d := Decap(e, t', h, m, keys, c, path, added, info);
    if d.Done? {
      var lca := LcaLevel(m, c) - 1;
      var secret := OpenedSecret(e, t', m, keys, lca, path, added, info).value;
      ClimbGuarantee(e, path, lca, Ok(secret), Resize(keys, h + 2));
      forall k: nat | 1 <= k <= h && Above(m, k) in t' ensures HoldsKey(e, t'[Above(m, k)], m, KeyOn(d.value.0, k)) {
        ReceivedNode(t, h, c, leafKey, path, m, k);
        if lca < k <= |path| && path[k - 1].None? {
          SameAbove(m, c, k);
          FilteredIsBlank(t, h, c, k);
        }
      }
    }
  }

  // ----- Paths that are too short -----

  /** The positions from `i` to `k` that are not filtered. */
  function Unfiltered(filtered: seq<bool>, i: nat, k: nat): nat
    requires k <= |filtered|
    decreases k - i
  {
    if i >= k then 0 else (if filtered[i] then 0 else 1) + Unfiltered(filtered, i + 1, k)
  }

  /** The nodes sent reach position `k` exactly if there are more of them than unfiltered positions before it. */
  lemma {:induction false} UnfilterReaches<T>(filtered: seq<bool>, i: nat, nodes: seq<T>, k: nat)
    requires i <= k < |filtered| && Unfilter(filtered, i, nodes).Some?
    ensures k < i + |Unfilter(filtered, i, nodes).value| <==> Unfiltered(filtered, i, k) < |nodes|
    decreases k - i
  {
    if |nodes| > 0 && i < k {
      UnfilterReaches(filtered, i + 1, if filtered[i] then nodes else nodes[1..], k);
    }
  }

  /** Nodes fit the path if no more are sent than it has unfiltered positions. */
  lemma {:induction false} UnfilterFits<T>(filtered: seq<bool>, i: nat, nodes: seq<T>, k: nat)
    requires i <= k <= |filtered| && |nodes| <= Unfiltered(filtered, i, k)
    ensures Unfilter(filtered, i, nodes).Some?
    decreases k - i
  {
    if |nodes| > 0 { UnfilterFits(filtered, i + 1, if filtered[i] then nodes else nodes[1..], k); }
  }

  /** The received tree agrees with the old one at and below the common ancestor's child. */
  lemma {:induction false} ReceivedBelow(e: CipherSuite, t: Nodes, h: nat, m: nat, keys: Keys, c: nat, leafKey: ByteSeq,
                                         path: Path)
    requires Consistent(e, t, h, m, keys) && m != c && c < Pow2(h)
    ensures var t', l := ReceivedTree(t, c, leafKey, path), LcaLevel(m, c);
            && 1 <= l <= h && 2 * m in t' && KeyOn(keys, 0).Some? && Opens(e, KeyOn(keys, 0).value, t'[2 * m].key)
            && LowestOccupied(t', m, l - 1) == LowestOccupied(t, m, l - 1)
            && ResolvedPos(t', m, keys, l - 1) == ResolvedPos(t, m, keys, l - 1)
            && var r := LowestOccupied(t', m, l - 1); r > 0 ==> HoldsKey(e, t'[Above(m, r)], m, KeyOn(keys, r))
  {
    hide Node, ReceivedTree, Pow2, Opens, Shift, LcaLevel, LowestOccupied, Above;
    var t', l := ReceivedTree(t, c, leafKey, path), LcaLevel(m, c);
    LcaOfNodes(m, c, h);
    LeafPlace(m, h);
    forall k: nat | k < l ensures Same(t, t', Above(m, k)) { ReceivedNode(t, h, c, leafKey, path, m, k); }
    SameLowest(t, t', m, l - 1);
  }

  lemma {:induction false} SameLowest(t: Nodes, t': Nodes, m: nat, k: nat)
    requires 2 * m in t && 2 * m in t' && forall i: nat :: i <= k ==> Same(t, t', Above(m, i))
    ensures LowestOccupied(t', m, k) == LowestOccupied(t, m, k)
  {
    hide Above;
    LeafPlace(m, 0);
    if Above(m, k) !in t { SameLowest(t, t', m, k - 1); }
  }

  // ----- What a receiver makes of a path -----

  datatype Outcome = Outcome(tree: Nodes, keys: Keys, secret: Option<ByteSeq>)

  function FilteredSeq(t: Nodes, h: nat, c: nat): (r: seq<bool>)
    ensures |r| == h && forall i :: 0 <= i < h ==> r[i] == Filtered(t, c, i)
  {
    seq(h, i requires 0 <= i < h => Filtered(t, c, i))
  }

  /** A receiver validates the path, applies it to the tree and decapsulates. */
  function ReceivePath(e: CipherSuite, t: Nodes, h: nat, m: nat, keys: Keys, c: nat, leafKey: ByteSeq,
                       nodes: seq<UpdatePathNode>, added: set<nat>, info: ByteSeq, checks: Checks): Received<Outcome>
    requires m != c
  {
    var path := Unfilter(FilteredSeq(t, h, c), 0, nodes);
    if checks.leaf.Some? then Refused(checks.leaf.value)
    else if 2 * c !in t then Refused(ExpectedNode)
    else if checks.successor.Some? then Refused(checks.successor.value)
    else if path.None? then Refused(WrongPathLen)
    else
      UnfilterLaw(FilteredSeq(t, h, c), 0, nodes);
      var (t', applied) := AppliedPath(t, h, c, leafKey, path.value, checks);
      if applied.Err? then Refused(applied.error)
      else if 2 * m !in t' then Refused(UpdateErrorNoSecretKey)
      else
        var (keys', secret) :- Decap(e, t', h, m, Provisional(t, h, m, keys), c, path.value, added, info);
        Done(Outcome(t', keys', Some(secret)))
  }

  /** The checks let a path from `c` through, parent hashes of the unfiltered positions included. */
  ghost predicate Passes(t: Nodes, h: nat, c: nat, checks: Checks) {
    && checks.leaf.None? && checks.successor.None? && checks.identity.None? && checks.index.None?
    && checks.agreement.None? && 2 * c in t
    && forall i: nat :: i < h && !Filtered(t, c, i) ==> checks.hashing(i).None?
  }

  /** The unfiltered positions that `n` nodes do not reach are in use. */
  ghost predicate UnreachedInUse(t: Nodes, h: nat, c: nat, n: nat) {
    forall i: nat :: i < h && !Filtered(t, c, i) && n <= Unfiltered(FilteredSeq(t, h, c), 0, i) ==> Above(c, i + 1) in t
  }

  lemma {:induction false} ParentHashesExactly(t: Nodes, c: nat, n: nat, hashing: nat -> Option<CommitError>)
    ensures ParentHashes(t, c, n, hashing).None? <==>
              forall i: nat :: i < n && !Filtered(t, c, i) ==> Above(c, i + 1) in t && hashing(i).None?
  {
    hide Filtered, Above;
    if n > 0 { ParentHashesExactly(t, c, n - 1, hashing); }
  }

  lemma {:induction false} ReceivedAgreesOff(t: Nodes, h: nat, c: nat, leafKey: ByteSeq, path: Path)
    ensures AgreeOff(t, ReceivedTree(t, c, leafKey, path), h, c)
  {
    hide Node, Applied, InTree;
    LeafPlace(c, h);
    forall k: nat, j: nat | InTree(k, j, h) && Shift(c, k) != j
      ensures Same(t, ReceivedTree(t, c, leafKey, path), Node(k, j))
    {
      AppliedLaw(t[2 * c := Leaf(leafKey)], c, path, |path|, k, j);
      AboveOff(c, 0, k, j);
    }
  }

  /** One unfiltered position after the path is applied: reached by the path, or as it was. */
  lemma {:induction false} ReceivedOnPath(t: Nodes, h: nat, c: nat, leafKey: ByteSeq, path: Path, i: nat)
    requires c < Pow2(h) && i < h
    ensures Filtered(ReceivedTree(t, c, leafKey, path), c, i) <==> Filtered(t, c, i)
    ensures Above(c, i + 1) in ReceivedTree(t, c, leafKey, path) <==>
              (i < |path| && path[i].Some?) || Above(c, i + 1) in t
  {
    hide Node, Applied, Filtered, AgreeOff, Pow2;
    ReceivedAgreesOff(t, h, c, leafKey, path);
    CopathUnchanged(t, ReceivedTree(t, c, leafKey, path), h, c, i);
    AppliedLaw(t[2 * c := Leaf(leafKey)], c, path, |path|, i + 1, Shift(c, i + 1));
    AboveIsOdd(c, i + 1);
  }

  /** The parent hashes can be computed exactly if every unfiltered position is reached by the path or in use. */
  lemma {:induction false} HashesExactly(t: Nodes, h: nat, c: nat, leafKey: ByteSeq, nodes: seq<UpdatePathNode>,
                                         hashing: nat -> Option<CommitError>)
    requires c < Pow2(h) && Unfilter(FilteredSeq(t, h, c), 0, nodes).Some?
    ensures var path := Unfilter(FilteredSeq(t, h, c), 0, nodes).value;
            ParentHashes(ReceivedTree(t, c, leafKey, path), c, h, hashing).None? <==>
              UnreachedInUse(t, h, c, |nodes|) && forall i: nat :: i < h && !Filtered(t, c, i) ==> hashing(i).None?
  {
    hide Unfilter, Unfiltered, ReceivedTree, Filtered, Above, Pow2, ParentHashes;
    var filtered := FilteredSeq(t, h, c);
    var path := Unfilter(filtered, 0, nodes).value;
    UnfilterLaw(filtered, 0, nodes);
    ParentHashesExactly(ReceivedTree(t, c, leafKey, path), c, h, hashing);
    forall i: nat | i < h
      ensures Filtered(ReceivedTree(t, c, leafKey, path), c, i) <==> Filtered(t, c, i)
      ensures !Filtered(t, c, i) ==>
                (Above(c, i + 1) in ReceivedTree(t, c, leafKey, path) <==>
                   Unfiltered(filtered, 0, i) < |nodes| || Above(c, i + 1) in t)
    {
      ReceivedOnPath(t, h, c, leafKey, path, i);
      UnfilterReaches(filtered, 0, nodes, i);
    }
  }

  /**
   `decap` indexes the path at the common ancestor without a test. In a well-formed tree a receiver
   panics there exactly if the checks let the path through, the member finds its position, the path has
   no more nodes than there are unfiltered positions below the common ancestor, and the unfiltered
   positions that the path does not reach are in use, without which their parent hashes fail first.
   */
  lemma {:induction false} ShortPathPanicsExactly(e: CipherSuite, t: Nodes, h: nat, m: nat, keys: Keys, c: nat,
                                                  leafKey: ByteSeq, nodes: seq<UpdatePathNode>, added: set<nat>,
                                                  info: ByteSeq, checks: Checks)
    requires WellFormedTree(t, h) && Consistent(e, t, h, m, keys) && m != c && c < Pow2(h)
    ensures var lca := LcaLevel(m, c) - 1;
            && 0 <= lca < h && 2 * m in t
            && (ReceivePath(e, t, h, m, keys, c, leafKey, nodes, added, info, checks).Panicked? <==>
                  && Passes(t, h, c, checks)
                  && (m !in added || ResolvedPos(t, m, keys, lca) > 0)
                  && |nodes| <= Unfiltered(FilteredSeq(t, h, c), 0, lca)
                  && UnreachedInUse(t, h, c, |nodes|))
  {
    hide WellFormedTree, Unfilter, ReceivedTree, Decap, Opens, Filtered, LcaLevel, Pow2;
    hide ResolvedPos, Unfiltered, Consistent, UnreachedInUse, ParentHashes;
    var lca := LcaLevel(m, c) - 1;
    MemberInRange(e, t, h, m, keys);
    LcaOfNodes(m, c, h);
    var filtered := FilteredSeq(t, h, c);
    if |nodes| <= Unfiltered(filtered, 0, lca) { UnfilterFits(filtered, 0, nodes, lca); }
    if Unfilter(filtered, 0, nodes).Some? {
      HashesExactly(t, h, c, leafKey, nodes, checks.hashing);
      DecapPanicsExactly(e, t, h, m, keys, c, leafKey, nodes, added, info);
    }
  }

  /** The index out of range, with the tree the path left behind. */
  lemma {:induction false} DecapPanicsExactly(e: CipherSuite, t: Nodes, h: nat, m: nat, keys: Keys, c: nat,
                                              leafKey: ByteSeq, nodes: seq<UpdatePathNode>, added: set<nat>,
                                              info: ByteSeq)
    requires Consistent(e, t, h, m, keys) && m != c && c < Pow2(h)
    requires Unfilter(FilteredSeq(t, h, c), 0, nodes).Some?
    ensures var path, lca := Unfilter(FilteredSeq(t, h, c), 0, nodes).value, LcaLevel(m, c) - 1;
            var own := Provisional(t, h, m, keys);
            && |path| <= h && 0 <= lca < h && 2 * m in t && 2 * m in ReceivedTree(t, c, leafKey, path)
            && (Decap(e, ReceivedTree(t, c, leafKey, path), h, m, own, c, path, added, info).Panicked? <==>
                  && (m !in added || ResolvedPos(t, m, keys, lca) > 0)
                  && |nodes| <= Unfiltered(FilteredSeq(t, h, c), 0, lca))
  {
    hide Unfilter, ReceivedTree, CiphertextPos, Climb, Opens, Filtered;
    hide Above, Shift, LcaLevel, Pow2, LowestOccupied, ResolvedPos, Unfiltered, Consistent;
    var filtered, own := FilteredSeq(t, h, c), Provisional(t, h, m, keys);
    UnfilterLaw(filtered, 0, nodes);
    var path, lca := Unfilter(filtered, 0, nodes).value, LcaLevel(m, c) - 1;
    var t' := ReceivedTree(t, c, leafKey, path);
    MemberInRange(e, t, h, m, keys);
    LcaOfNodes(m, c, h);
    ProvisionalConsistent(e, t, h, m, keys);
    ReceivedBelow(e, t, h, m, own, c, leafKey, path);
    SameResolved(e, t, h, m, keys, lca);
    ResolvedLaw(e, t', m, own, lca);
    FoundExactly(t', m, own, lca, added);
    UnfilterReaches(filtered, 0, nodes, lca);
  }

  lemma ProvisionalConsistent(e: CipherSuite, t: Nodes, h: nat, m: nat, keys: Keys)
    requires Consistent(e, t, h, m, keys)
    ensures Consistent(e, t, h, m, Provisional(t, h, m, keys))
  {
    hide Opens, Above, Pow2;
  }

  lemma SameResolved(e: CipherSuite, t: Nodes, h: nat, m: nat, keys: Keys, k: nat)
    requires Consistent(e, t, h, m, keys) && k <= h
    ensures ResolvedPos(t, m, Provisional(t, h, m, keys), k) == ResolvedPos(t, m, keys, k)
  {
    hide Opens, Above, Pow2, LowestOccupied;
  }

  // ----- When committing succeeds -----

  lemma {:induction false} ResolutionInUse(t: Nodes, h: nat, k: nat, j: nat, y: nat)
    requires WellFormedTree(t, h) && InTree(k, j, h) && y in Resolution(t, k, j)
    ensures y in t
    decreases k
  {
    hide Node;
    if Node(k, j) in t {
      assert NodeFine(t, h, k, j);
    } else if k > 0 {
      if y in Resolution(t, k - 1, 2 * j) {
        ResolutionInUse(t, h, k - 1, 2 * j, y);
      } else {
        ResolutionInUse(t, h, k - 1, 2 * j + 1, y);
      }
    }
  }

  lemma {:induction false} KeptFrom(xs: seq<nat>, excluded: set<nat>)
    ensures forall y :: y in KeepNodes(xs, excluded) ==> y in xs
  {
    if |xs| > 0 { KeptFrom(xs[1..], excluded); }
  }

  /** Sealing fails only where the provider does. */
  ghost predicate NeverFails(e: CipherSuite) {
    && (forall secret, purpose :: e.refuses(secret, purpose).None?)
    && (forall seed :: e.derivePair(seed).Ok?)
    && (forall pk, info, text, c :: e.seal(pk, info, text, c).Ok?)
  }

  lemma {:induction false} SealAllSucceeds(x: Commit, t: Nodes, to: seq<nat>, secret: ByteSeq, i: nat)
    requires NeverFails(x.suite) && forall y :: y in to ==> y in t
    ensures SealAll(x, t, to, secret, i).Ok?
  {
    if |to| > 0 { SealAllSucceeds(x, t, to[..|to| - 1], secret, i); }
  }

  lemma {:induction false} DerivationsSucceed(x: Commit, i: nat)
    requires NeverFails(x.suite) && x.seed.Ok?
    ensures Upcoming(x, i).Ok? && PairAt(x, i).Ok?
  {
    hide Filtered, MlsKdfs.Derive;
    if i > 0 { DerivationsSucceed(x, i - 1); }
  }

  /** With a provider that does not fail, every member can commit in every well-formed tree. */
  lemma {:induction false} CommitSucceeds(x: Commit, i: nat)
    requires ValidCommit(x) && NeverFails(x.suite) && x.seed.Ok? && i <= x.height
    ensures Renewable(x) && PathNodes(x, i).Ok?
    decreases x.height - i
  {
    hide Node, Pow2, NewTree, WellFormedTree, Works, Opens, Resolution;
    hide KeepNodes, Filtered, Upcoming, PairAt, InTree, NeverFails;
    forall n: nat ensures Upcoming(x, n).Ok? && PairAt(x, n).Ok? { DerivationsSucceed(x, n); }
    if i < x.height {
      CommitSucceeds(x, i + 1);
      NewTreeWellFormed(x);
      var j := Sibling(Shift(x.sender, i));
      NeighboursOfPath(x.sender, i, x.height);
      var t := NewTree(x);
      forall y | y in Resolution(t, i, j) ensures y in t { ResolutionInUse(t, x.height, i, j, y); }
      KeptFrom(Resolution(t, i, j), NodesOf(x.added));
      SealAllSucceeds(x, t, KeepNodes(Resolution(t, i, j), NodesOf(x.added)), SecretAt(x, i), i);
    }
  }
}
