/**
 The public ratchet tree of a group (mls-rs/src/tree_kem/node.rs and mod.rs): resolutions, filtered
 paths and the edits a commit applies. A node that is not in the map is blank.
 */
module RatchetTrees {
  import opened Bits
  import opened Bytes
  import opened TreeMath

  datatype Entry = Leaf(key: ByteSeq) | Parent(key: ByteSeq, unmerged: seq<nat>)

  type Nodes = map<nat, Entry>

  function UnmergedOf(e: Entry): seq<nat> {
    if e.Parent? then e.unmerged else []
  }

  function LeafNodes(leaves: seq<nat>): (r: seq<nat>)
    ensures |r| == |leaves| && forall i :: 0 <= i < |r| ==> r[i] == 2 * leaves[i]
  {
    seq(|leaves|, i requires 0 <= i < |leaves| => 2 * leaves[i])
  }

  // ----- Resolutions -----

  /** The resolution of a node (section 4.1.1 of RFC 9420): what covers exactly the members below it. */
  function Resolution(t: Nodes, k: nat, j: nat): seq<nat>
    decreases k
  {
    if Node(k, j) in t then [Node(k, j)] + LeafNodes(UnmergedOf(t[Node(k, j)]))
    else if k == 0 then []
    else Resolution(t, k - 1, 2 * j) + Resolution(t, k - 1, 2 * j + 1)
  }

  /** Nobody is below the copath node next to the path of leaf `c` at level `i`. */
  predicate Filtered(t: Nodes, c: nat, i: nat) {
    Resolution(t, i, Sibling(Shift(c, i))) == []
  }

  // ----- Edits -----

  /** The tree without the nodes above leaf `i` up to level `k`. */
  function BlankPath(t: Nodes, i: nat, k: nat): Nodes {
    if k == 0 then t else BlankPath(t, i, k - 1) - {Above(i, k)}
  }

  function NoteUnmerged(t: Nodes, i: nat, k: nat): Nodes {
    if k == 0 then t
    else
      var below, x := NoteUnmerged(t, i, k - 1), Above(i, k);
      if x in below && below[x].Parent? then below[x := below[x].(unmerged := below[x].unmerged + [i])] else below
  }

  function RemoveMember(t: Nodes, h: nat, i: nat): Nodes {
    BlankPath(t - {2 * i}, i, h)
  }

  function UpdateMember(t: Nodes, h: nat, i: nat, key: ByteSeq): Nodes {
    BlankPath(t[2 * i := Leaf(key)], i, h)
  }

  function AddMember(t: Nodes, h: nat, i: nat, key: ByteSeq): Nodes {
    NoteUnmerged(t[2 * i := Leaf(key)], i, h)
  }

  // ----- Resolutions as the code computes them -----

  datatype Place = Place(level: nat, position: nat)

  ghost predicate OnStack(indexes: seq<nat>, places: seq<Place>, h: nat) {
    && |indexes| == |places|
    && forall i :: 0 <= i < |places| ==>
         InTree(places[i].level, places[i].position, h) && indexes[i] == Node(places[i].level, places[i].position)
  }

  /** What popping the whole stack will find. */
  ghost function ResolveStack(t: Nodes, places: seq<Place>): seq<nat> {
    if |places| == 0 then []
    else
      var top := places[|places| - 1];
      Resolution(t, top.level, top.position) + ResolveStack(t, places[..|places| - 1])
  }

  /** Nodes below those on the stack. */
  ghost function Weight(places: seq<Place>): nat {
    if |places| == 0 then 0
    else 2 * Pow2(places[|places| - 1].level) - 1 + Weight(places[..|places| - 1])
  }

  lemma PopBlank(t: Nodes, places: seq<Place>)
    requires |places| > 0
    ensures var top, rest := places[|places| - 1], places[..|places| - 1];
            Node(top.level, top.position) !in t ==>
              if top.level == 0 then ResolveStack(t, places) == ResolveStack(t, rest) && Weight(rest) < Weight(places)
              else
                var next := rest + [Place(top.level - 1, 2 * top.position + 1), Place(top.level - 1, 2 * top.position)];
                ResolveStack(t, places) == ResolveStack(t, next) && Weight(next) < Weight(places)
  {
    hide Node, Resolution, ResolveStack, Weight, Pow2;
    var top, rest := places[|places| - 1], places[..|places| - 1];
    StackTop(t, places);
    ResolutionStep(t, top.level, top.position);
    if Node(top.level, top.position) !in t && top.level > 0 {
      var right, left := Place(top.level - 1, 2 * top.position + 1), Place(top.level - 1, 2 * top.position);
      PushBoth(t, rest, right, left);
    }
  }

  lemma StackTop(t: Nodes, places: seq<Place>)
    requires |places| > 0
    ensures var top, rest := places[|places| - 1], places[..|places| - 1];
            && ResolveStack(t, places) == Resolution(t, top.level, top.position) + ResolveStack(t, rest)
            && Weight(places) == 2 * Pow2(top.level) - 1 + Weight(rest) && Weight(rest) < Weight(places)
            && (top.level > 0 ==> Pow2(top.level) == 2 * Pow2(top.level - 1))
  {
    hide Resolution;
  }

  lemma PushBoth(t: Nodes, rest: seq<Place>, right: Place, left: Place)
    ensures ResolveStack(t, rest + [right, left])
            == Resolution(t, left.level, left.position) + Resolution(t, right.level, right.position)
              + ResolveStack(t, rest)
    ensures Weight(rest + [right, left]) == 2 * Pow2(left.level) - 1 + 2 * Pow2(right.level) - 1 + Weight(rest)
  {
    hide Resolution;
    var one, two := rest + [right], rest + [right, left];
    assert two[..|two| - 1] == one && one[..|one| - 1] == rest;
    var a, b := Resolution(t, left.level, left.position), Resolution(t, right.level, right.position);
    var c := ResolveStack(t, rest);
    assert a + (b + c) == a + b + c;
  }

  class NodeVec {
    var nodes: Nodes
    const leafCount: nat
    ghost const height: nat

    ghost predicate Valid()
      reads this
    {
      height <= MAX_HEIGHT && leafCount == Pow2(height)
    }

    constructor (nodes: Nodes, leafCount: nat, ghost height: nat)
      requires height <= MAX_HEIGHT && leafCount == Pow2(height)
      ensures Valid() && this.nodes == nodes && this.height == height
    {
      this.nodes, this.leafCount, this.height := nodes, leafCount, height;
    }

    /** `get_resolution_index`, with its stack of indices. */
    method GetResolutionIndex(index: nat, ghost k: nat, ghost j: nat) returns (resolution: seq<nat>)
      requires Valid() && InTree(k, j, height) && index == Node(k, j)
      ensures resolution == Resolution(nodes, k, j)
    {
      hide Node, InTree, LeftUnchecked, RightUnchecked, Resolution, Weight;
      var indexes := [index];
      ghost var places := [Place(k, j)];
      assert places[..0] == [];
      resolution := [];
      while |indexes| > 0
        invariant OnStack(indexes, places, height)
        invariant resolution + ResolveStack(nodes, places) == Resolution(nodes, k, j)
        decreases Weight(places)
      {
        var x := indexes[|indexes| - 1];
        ghost var top, rest := places[|places| - 1], places[..|places| - 1];
        PopBlank(nodes, places);
        PopAny(places);
        ResolutionStep(nodes, top.level, top.position);
        LevelOfNode(top.level, top.position);
        indexes := indexes[..|indexes| - 1];
        if x in nodes {
          resolution := resolution + [x] + LeafNodes(UnmergedOf(nodes[x]));
          places := rest;
        } else if !IsLeaf(x) {
          ChildrenLaw(top.level, top.position, height);
          indexes := indexes + [RightUnchecked(x), LeftUnchecked(x)];
          places := rest + [Place(top.level - 1, 2 * top.position + 1), Place(top.level - 1, 2 * top.position)];
        } else {
          places := rest;
        }
      }
    }

    /** `is_resolution_empty`: stops at the first node that is not blank. */
    method IsResolutionEmpty(index: nat, ghost k: nat, ghost j: nat) returns (empty: bool)
      requires Valid() && InTree(k, j, height) && index == Node(k, j)
      ensures empty <==> Resolution(nodes, k, j) == []
    {
      hide Node, InTree, LeftUnchecked, RightUnchecked, Resolution, Weight;
      var indexes := [index];
      ghost var places := [Place(k, j)];
      assert places[..0] == [];
      while |indexes| > 0
        invariant OnStack(indexes, places, height)
        invariant ResolveStack(nodes, places) == Resolution(nodes, k, j)
        decreases Weight(places)
      {
        var x := indexes[|indexes| - 1];
        ghost var top, rest := places[|places| - 1], places[..|places| - 1];
        PopBlank(nodes, places);
        ResolutionStep(nodes, top.level, top.position);
        LevelOfNode(top.level, top.position);
        if x in nodes { return false; }
        indexes := indexes[..|indexes| - 1];
        if !IsLeaf(x) {
          ChildrenLaw(top.level, top.position, height);
          indexes := indexes + [RightUnchecked(x), LeftUnchecked(x)];
          places := rest + [Place(top.level - 1, 2 * top.position + 1), Place(top.level - 1, 2 * top.position)];
        } else {
          places := rest;
        }
      }
      return true;
    }

    /** `filtered`: which copath nodes of a leaf have nobody below them. */
    method FilteredPath(c: nat) returns (filtered: seq<bool>)
      requires Valid() && c < leafCount
      ensures |filtered| == height && forall i :: 0 <= i < height ==> filtered[i] == Filtered(nodes, c, i)
    {
      hide Node, InTree, Pow2, Shift, Resolution, Copath, Above;
      LeafPlace(c, height);
      var path := DirectCopath(2 * c, leafCount, height);
      CopathOfLeaf(c, 0, height);
      filtered := [];
      while |filtered| < |path|
        invariant |filtered| <= |path| == height
        invariant forall i :: 0 <= i < |filtered| ==> filtered[i] == Filtered(nodes, c, i)
      {
        ghost var i := |filtered|;
        AboveInTree(c, i, height);
        NeighboursInTree(i, Shift(c, i), height);
        var empty := IsResolutionEmpty(path[|filtered|].copath, i, Sibling(Shift(c, i)));
        filtered := filtered + [empty];
      }
    }

    /** `blank_direct_path`. */
    method BlankDirectPath(leaf: nat)
      requires Valid() && leaf < leafCount
      modifies this
      ensures nodes == BlankPath(old(nodes), leaf, height)
    {
      hide Node, InTree, Pow2, Above;
      LeafPlace(leaf, height);
      var path := DirectCopath(2 * leaf, leafCount, height);
      CopathOfLeaf(leaf, 0, height);
      var i := 0;
      while i < |path|
        invariant i <= |path| == height
        invariant nodes == BlankPath(old(nodes), leaf, i)
      {
        nodes := nodes - {path[i].path};
        i := i + 1;
      }
    }

    /** `update_unmerged`: every parent above the new leaf that is not blank notes it. */
    method UpdateUnmerged(leaf: nat)
      requires Valid() && leaf < leafCount
      modifies this
      ensures nodes == NoteUnmerged(old(nodes), leaf, height)
    {
      hide Node, InTree, Pow2, Above;
      LeafPlace(leaf, height);
      var path := DirectCopath(2 * leaf, leafCount, height);
      CopathOfLeaf(leaf, 0, height);
      var i := 0;
      while i < |path|
        invariant i <= |path| == height
        invariant nodes == NoteUnmerged(old(nodes), leaf, i)
      {
        var x := path[i].path;
        if x in nodes && nodes[x].Parent? {
          nodes := nodes[x := nodes[x].(unmerged := nodes[x].unmerged + [leaf])];
        }
        i := i + 1;
      }
    }
  }

  lemma ResolutionStep(t: Nodes, k: nat, j: nat)
    ensures Node(k, j) in t ==> Resolution(t, k, j) == [Node(k, j)] + LeafNodes(UnmergedOf(t[Node(k, j)]))
    ensures Node(k, j) !in t && k > 0 ==>
              Resolution(t, k, j) == Resolution(t, k - 1, 2 * j) + Resolution(t, k - 1, 2 * j + 1)
    ensures Node(k, j) !in t && k == 0 ==> Resolution(t, k, j) == []
  {
  }

  lemma PopAny(places: seq<Place>)
    requires |places| > 0
    ensures Weight(places[..|places| - 1]) < Weight(places)
  {
  }

  // ----- Well-formed trees -----

  ghost predicate NodeFine(t: Nodes, h: nat, k: nat, j: nat)
    requires Node(k, j) in t
  {
    && (forall u :: u in UnmergedOf(t[Node(k, j)]) ==> u < Pow2(h) && Shift(u, k) == j && 2 * u in t)
    && (k > 0 ==> Resolution(t, k - 1, 2 * j) != [] && Resolution(t, k - 1, 2 * j + 1) != [])
  }

  /** Leaves are leaves, unmerged leaves are members below, and a parent has members on both sides. */
  ghost predicate WellFormedTree(t: Nodes, h: nat) {
    && (forall x :: x in t ==> IsInTree(x, Pow2(h) - 1) && (t[x].Leaf? <==> IsLeaf(x)))
    && (forall k: nat, j: nat :: InTree(k, j, h) && Node(k, j) in t ==> NodeFine(t, h, k, j))
  }

  ghost predicate Same(t: Nodes, t': Nodes, x: nat) {
    (x in t <==> x in t') && (x in t ==> t[x] == t'[x])
  }

  /** The trees differ at most on leaf `i` and above it. */
  ghost predicate AgreeOff(t: Nodes, t': Nodes, h: nat, i: nat) {
    forall k: nat, j: nat :: InTree(k, j, h) && Shift(i, k) != j ==> Same(t, t', Node(k, j))
  }

  lemma {:induction false} ResolutionOffPath(t: Nodes, t': Nodes, h: nat, i: nat, k: nat, j: nat)
    requires AgreeOff(t, t', h, i) && InTree(k, j, h) && Shift(i, k) != j
    ensures Resolution(t, k, j) == Resolution(t', k, j)
    decreases k
  {
    hide Node;
    assert Same(t, t', Node(k, j));
    if k > 0 {
      assert Shift(i, k) == Shift(i, k - 1) / 2;
      ResolutionOffPath(t, t', h, i, k - 1, 2 * j);
      ResolutionOffPath(t, t', h, i, k - 1, 2 * j + 1);
    }
  }

  lemma {:induction false} OccupiedGrows(t: Nodes, t': Nodes, k: nat, j: nat)
    requires t.Keys <= t'.Keys && Resolution(t, k, j) != []
    ensures Resolution(t', k, j) != []
    decreases k
  {
    hide Node;
    if Node(k, j) !in t' {
      assert Node(k, j) !in t;
      if k > 0 {
        if Resolution(t, k - 1, 2 * j) != [] {
          OccupiedGrows(t, t', k - 1, 2 * j);
        } else {
          OccupiedGrows(t, t', k - 1, 2 * j + 1);
        }
      }
    }
  }

  /** A node with a member below has something in its resolution. */
  lemma {:induction false} MemberBelow(t: Nodes, m: nat, k: nat)
    requires 2 * m in t
    ensures Resolution(t, k, Shift(m, k)) != []
  {
    hide Node;
    LeafPlace(m, 0);
    if k > 0 && Node(k, Shift(m, k)) !in t {
      MemberBelow(t, m, k - 1);
      var j := Shift(m, k - 1);
      assert Shift(m, k) == j / 2 && (j == 2 * (j / 2) || j == 2 * (j / 2) + 1);
    }
  }

  // ----- What the edits change -----

  lemma {:induction false} BlankPathLaw(t: Nodes, i: nat, k: nat, x: nat)
    ensures x in BlankPath(t, i, k) <==> x in t && forall m: nat :: 1 <= m <= k ==> Above(i, m) != x
    ensures x in BlankPath(t, i, k) ==> BlankPath(t, i, k)[x] == t[x]
  {
    if k > 0 { BlankPathLaw(t, i, k - 1, x); }
  }

  lemma {:induction false} NoteUnmergedLaw(t: Nodes, i: nat, k: nat, x: nat)
    ensures x in NoteUnmerged(t, i, k) <==> x in t
    ensures x in t ==> NoteUnmerged(t, i, k)[x] ==
                         if t[x].Parent? && (exists m: nat :: 1 <= m <= k && Above(i, m) == x)
                         then t[x].(unmerged := t[x].unmerged + [i]) else t[x]
  {
    hide Node;
    if k > 0 {
      NoteUnmergedLaw(t, i, k - 1, x);
      if exists m: nat :: 1 <= m <= k - 1 && Above(i, m) == x {
        var m: nat :| 1 <= m <= k - 1 && Above(i, m) == x;
        if Above(i, k) == x { NodeInjective(k, Shift(i, k), m, Shift(i, m)); }
      }
    }
  }

  lemma AboveOff(i: nat, m: nat, k: nat, j: nat)
    requires Shift(i, k) != j
    ensures Above(i, m) != Node(k, j)
  {
    if Above(i, m) == Node(k, j) { NodeInjective(m, Shift(i, m), k, j); }
  }

  /** Blanking a path changes that path only. */
  lemma {:induction false} BlankAgrees(t: Nodes, h: nat, i: nat)
    ensures AgreeOff(t, BlankPath(t, i, h), h, i)
    ensures forall x :: x in BlankPath(t, i, h) ==> x in t && BlankPath(t, i, h)[x] == t[x]
    ensures forall k: nat :: 1 <= k <= h ==> Above(i, k) !in BlankPath(t, i, h)
    ensures 2 * i in t ==> 2 * i in BlankPath(t, i, h)
  {
    hide Node, BlankPath, InTree, Shift;
    var t' := BlankPath(t, i, h);
    forall x ensures x in t' ==> x in t && t'[x] == t[x] { BlankPathLaw(t, i, h, x); }
    forall k: nat | 1 <= k <= h ensures Above(i, k) !in t' { BlankPathLaw(t, i, h, Above(i, k)); }
    forall k: nat, j: nat | InTree(k, j, h) && Shift(i, k) != j ensures Same(t, t', Node(k, j)) {
      BlankPathLaw(t, i, h, Node(k, j));
      forall m: nat ensures Above(i, m) != Node(k, j) { AboveOff(i, m, k, j); }
    }
    BlankPathLaw(t, i, h, 2 * i);
    forall m: nat | 1 <= m ensures Above(i, m) != 2 * i { AboveIsOdd(i, m); }
  }

  /** So does a change at a leaf before it. */
  lemma AgreeFrom(t: Nodes, u: Nodes, t': Nodes, h: nat, i: nat)
    requires AgreeOff(u, t', h, i) && forall x :: x != 2 * i ==> Same(t, u, x)
    ensures AgreeOff(t, t', h, i)
  {
    hide Node, InTree, Shift;
    forall k: nat, j: nat | InTree(k, j, h) && Shift(i, k) != j ensures Same(t, t', Node(k, j)) {
      assert Same(u, t', Node(k, j));
      AboveOff(i, 0, k, j);
      LeafPlace(i, h);
      assert Same(t, u, Node(k, j));
    }
  }

  lemma {:induction false} RemoveAgrees(t: Nodes, h: nat, i: nat)
    ensures AgreeOff(t, RemoveMember(t, h, i), h, i)
    ensures forall x :: x in RemoveMember(t, h, i) ==> x in t && RemoveMember(t, h, i)[x] == t[x] && x != 2 * i
    ensures forall k: nat :: 1 <= k <= h ==> Above(i, k) !in RemoveMember(t, h, i)
  {
    hide Above, BlankPath, AgreeOff;
    BlankAgrees(t - {2 * i}, h, i);
    AgreeFrom(t, t - {2 * i}, RemoveMember(t, h, i), h, i);
  }

  lemma {:induction false} UpdateAgrees(t: Nodes, h: nat, i: nat, key: ByteSeq)
    ensures AgreeOff(t, UpdateMember(t, h, i, key), h, i)
    ensures 2 * i in UpdateMember(t, h, i, key) && UpdateMember(t, h, i, key)[2 * i] == Leaf(key)
    ensures forall x :: x in UpdateMember(t, h, i, key) && x != 2 * i ==>
              x in t && UpdateMember(t, h, i, key)[x] == t[x]
    ensures forall k: nat :: 1 <= k <= h ==> Above(i, k) !in UpdateMember(t, h, i, key)
  {
    hide Above, BlankPath, AgreeOff;
    BlankAgrees(t[2 * i := Leaf(key)], h, i);
    AgreeFrom(t, t[2 * i := Leaf(key)], UpdateMember(t, h, i, key), h, i);
  }

  lemma {:induction false} AddAgrees(t: Nodes, h: nat, i: nat, key: ByteSeq)
    ensures var t' := AddMember(t, h, i, key);
            && t'.Keys == t.Keys + {2 * i}
            && t'[2 * i] == Leaf(key)
            && AgreeOff(t, t', h, i)
            && (forall x :: x in t && x != 2 * i ==>
                  t'[x] == if t[x].Parent? && (exists m: nat :: 1 <= m <= h && Above(i, m) == x)
                           then t[x].(unmerged := t[x].unmerged + [i]) else t[x])
  {
    hide Node, NoteUnmerged;
    var u := t[2 * i := Leaf(key)];
    var t' := AddMember(t, h, i, key);
    LeafPlace(i, h);
    forall x
      ensures x in t' <==> x in u
      ensures x in u ==> t'[x] == if u[x].Parent? && (exists m: nat :: 1 <= m <= h && Above(i, m) == x)
                                  then u[x].(unmerged := u[x].unmerged + [i]) else u[x]
    {
      NoteUnmergedLaw(u, i, h, x);
    }
    forall k: nat, j: nat | InTree(k, j, h) && Shift(i, k) != j ensures Same(t, t', Node(k, j)) {
      forall m: nat ensures Above(i, m) != Node(k, j) { AboveOff(i, m, k, j); }
    }
  }

  // ----- Edits keep trees well-formed -----

  lemma {:induction false} RemoveKeepsTree(t: Nodes, h: nat, i: nat)
    requires WellFormedTree(t, h) && i < Pow2(h)
    ensures WellFormedTree(RemoveMember(t, h, i), h)
  {
    hide Node, RemoveMember, InTree, NodeFine;
    var t' := RemoveMember(t, h, i);
    RemoveAgrees(t, h, i);
    forall k: nat, j: nat | InTree(k, j, h) && Node(k, j) in t' ensures NodeFine(t', h, k, j) {
      NotOnPath(t', h, i, k, j);
      assert NodeFine(t, h, k, j);
      OffPathFine(t, t', h, i, k, j);
    }
  }

  /** With its leaf and all above it gone, a node that is left is elsewhere. */
  lemma NotOnPath(t: Nodes, h: nat, i: nat, k: nat, j: nat)
    requires 2 * i !in t && (forall m: nat :: 1 <= m <= h ==> Above(i, m) !in t)
    requires InTree(k, j, h) && Node(k, j) in t
    ensures Shift(i, k) != j
  {
    LeafPlace(i, h);
    assert Shift(i, k) == j ==> Above(i, k) == Node(k, j);
  }

  /** A node away from the changes stays as it was. */
  lemma {:induction false} OffPathFine(t: Nodes, t': Nodes, h: nat, i: nat, k: nat, j: nat)
    requires AgreeOff(t, t', h, i) && InTree(k, j, h) && Shift(i, k) != j && Node(k, j) in t && NodeFine(t, h, k, j)
    ensures Node(k, j) in t' && NodeFine(t', h, k, j)
  {
    hide Node, Resolution, Shift, Pow2, InTree, AgreeOff;
    OffPathSame(t, t', h, i, k, j);
    forall u | u in UnmergedOf(t[Node(k, j)]) ensures 2 * u in t' {
      LeafPlace(u, h);
      LeafPlace(i, h);
      OffPathSame(t, t', h, i, 0, u);
    }
    if k > 0 {
      OffPathBelow(i, k, j);
      NeighboursBelow(k, j, h);
      ResolutionOffPath(t, t', h, i, k - 1, 2 * j);
      ResolutionOffPath(t, t', h, i, k - 1, 2 * j + 1);
    }
  }

  lemma OffPathSame(t: Nodes, t': Nodes, h: nat, i: nat, k: nat, j: nat)
    requires AgreeOff(t, t', h, i) && InTree(k, j, h) && Shift(i, k) != j
    ensures Same(t, t', Node(k, j))
  {
  }

  lemma OffPathBelow(i: nat, k: nat, j: nat)
    requires k > 0 && Shift(i, k) != j
    ensures Shift(i, k - 1) != 2 * j && Shift(i, k - 1) != 2 * j + 1
  {
  }

  lemma {:induction false} UpdateKeepsTree(t: Nodes, h: nat, i: nat, key: ByteSeq)
    requires WellFormedTree(t, h) && i < Pow2(h)
    ensures WellFormedTree(UpdateMember(t, h, i, key), h)
  {
    hide Node, UpdateMember, NodeFine;
    var t' := UpdateMember(t, h, i, key);
    UpdateAgrees(t, h, i, key);
    LeafPlace(i, h);
    forall k: nat, j: nat | InTree(k, j, h) && Node(k, j) in t' ensures NodeFine(t', h, k, j) {
      if Shift(i, k) == j {
        AtOwnLeaf(t', h, i, k);
      } else {
        assert Same(t, t', Node(k, j));
        assert NodeFine(t, h, k, j);
        OffPathFine(t, t', h, i, k, j);
      }
    }
  }

  lemma AtOwnLeaf(t: Nodes, h: nat, i: nat, k: nat)
    requires k <= h && Above(i, k) in t && (forall m: nat :: 1 <= m <= h ==> Above(i, m) !in t) && t[Above(i, k)].Leaf?
    ensures k == 0 && NodeFine(t, h, k, Shift(i, k))
  {
  }

  lemma {:induction false} AddKeepsTree(t: Nodes, h: nat, i: nat, key: ByteSeq)
    requires WellFormedTree(t, h) && i < Pow2(h)
    ensures WellFormedTree(AddMember(t, h, i, key), h)
  {
    hide Node, AddMember, InTree, Resolution, Pow2, NodeFine, AgreeOff;
    var t' := AddMember(t, h, i, key);
    forall x | x in t' ensures IsInTree(x, Pow2(h) - 1) && (t'[x].Leaf? <==> IsLeaf(x)) {
      AddAgrees(t, h, i, key);
      if x == 2 * i { LeafBound(i, h); }
    }
    forall k: nat, j: nat | InTree(k, j, h) && Node(k, j) in t' ensures NodeFine(t', h, k, j) {
      if Node(k, j) == 2 * i {
        LeafPlace(i, h);
        NodeInjective(k, j, 0, i);
        AddedLeafFine(t, h, i, key);
      } else {
        AddKeepsFine(t, h, i, key, k, j);
      }
    }
  }

  lemma AddedLeafFine(t: Nodes, h: nat, i: nat, key: ByteSeq)
    ensures Node(0, i) in AddMember(t, h, i, key) && NodeFine(AddMember(t, h, i, key), h, 0, i)
  {
    hide AddMember, AgreeOff;
    AddAgrees(t, h, i, key);
  }

  lemma {:induction false} AddKeepsFine(t: Nodes, h: nat, i: nat, key: ByteSeq, k: nat, j: nat)
    requires WellFormedTree(t, h) && i < Pow2(h) && InTree(k, j, h)
    requires Node(k, j) in AddMember(t, h, i, key) && Node(k, j) != 2 * i
    ensures NodeFine(AddMember(t, h, i, key), h, k, j)
  {
    hide Node, AddMember, InTree, Resolution, Pow2, AgreeOff;
    var t' := AddMember(t, h, i, key);
    AddAgrees(t, h, i, key);
    assert NodeFine(t, h, k, j);
    if k > 0 {
      OccupiedGrows(t, t', k - 1, 2 * j);
      OccupiedGrows(t, t', k - 1, 2 * j + 1);
    }
    if exists m: nat :: 1 <= m <= h && Above(i, m) == Node(k, j) {
      var m: nat :| 1 <= m <= h && Above(i, m) == Node(k, j);
      NodeInjective(m, Shift(i, m), k, j);
    }
  }

  lemma LeafBound(i: nat, h: nat)
    requires i < Pow2(h)
    ensures IsInTree(2 * i, Pow2(h) - 1)
  {
  }

  /** A tree can be read as the left half of one twice as wide. */
  lemma {:induction false} GrowKeepsTree(t: Nodes, h: nat)
    requires WellFormedTree(t, h)
    ensures WellFormedTree(t, h + 1)
    ensures Node(h + 1, 0) !in t
  {
    hide Resolution, Shift;
    RootIndex(h + 1);
    forall k: nat, j: nat | InTree(k, j, h + 1) && Node(k, j) in t ensures NodeFine(t, h + 1, k, j) {
      var m, l := EveryIndexIsANode(Node(k, j), h);
      NodeInjective(k, j, m, l);
      assert NodeFine(t, h, k, j);
    }
  }

  /** And back, when nobody is in the right half. */
  lemma {:induction false} ShrinkKeepsTree(t: Nodes, h: nat)
    requires WellFormedTree(t, h + 1) && Resolution(t, h, 1) == []
    ensures WellFormedTree(t, h)
  {
    forall x | x in t ensures IsInTree(x, Pow2(h) - 1) {
      var k, j := EveryIndexIsANode(x, h + 1);
      InLeftHalf(t, h, k, j);
    }
    forall k: nat, j: nat | InTree(k, j, h) && Node(k, j) in t ensures NodeFine(t, h, k, j) {
      assert InTree(k, j, h + 1);
      assert NodeFine(t, h + 1, k, j);
      forall u | u in UnmergedOf(t[Node(k, j)]) ensures u < Pow2(h) { UnderBound(u, k, j, h); }
    }
  }

  lemma {:induction false} UnderBound(u: nat, k: nat, j: nat, h: nat)
    requires k <= h && j < Pow2(h - k) && Shift(u, k) == j
    ensures u < Pow2(h)
  {
    if k > 0 { UnderBound(u, k - 1, Shift(u, k - 1), h); }
  }

  /** With an empty right half, a node in use is in the left half. */
  lemma InLeftHalf(t: Nodes, h: nat, k: nat, j: nat)
    requires WellFormedTree(t, h + 1) && Resolution(t, h, 1) == [] && InTree(k, j, h + 1) && Node(k, j) in t
    ensures IsInTree(Node(k, j), Pow2(h) - 1)
  {
    hide Node, Resolution, WellFormedTree;
    NeighboursInTree(k, j, h + 1);
    RootIsBlank(t, h);
    ResolutionStep(t, k, j);
    if k <= h {
      if InTree(k, j, h) {
        NodeBound(k, j, h);
      } else {
        OccupiedUp(t, k, j, h);
      }
    }
  }

  lemma RootIsBlank(t: Nodes, h: nat)
    requires WellFormedTree(t, h + 1) && Resolution(t, h, 1) == []
    ensures Node(h + 1, 0) !in t
  {
    hide Node, Resolution, WellFormedTree;
    if Node(h + 1, 0) in t { SidesOccupied(t, h + 1, h + 1, 0); }
  }

  lemma SidesOccupied(t: Nodes, h: nat, k: nat, j: nat)
    requires WellFormedTree(t, h) && InTree(k, j, h) && 0 < k && Node(k, j) in t
    ensures Resolution(t, k - 1, 2 * j) != [] && Resolution(t, k - 1, 2 * j + 1) != []
  {
    assert NodeFine(t, h, k, j);
  }

  /** A node in use in the right half keeps its resolution from being empty. */
  lemma {:induction false} OccupiedUp(t: Nodes, k: nat, j: nat, h: nat)
    requires k <= h && Pow2(h - k) <= j < 2 * Pow2(h - k) && Resolution(t, k, j) != []
    ensures Resolution(t, h, 1) != []
    decreases h - k
  {
    if k < h {
      assert Resolution(t, k + 1, j / 2) != [] by {
        if Node(k + 1, j / 2) !in t { assert j == 2 * (j / 2) || j == 2 * (j / 2) + 1; }
      }
      OccupiedUp(t, k + 1, j / 2, h);
    }
  }
}
