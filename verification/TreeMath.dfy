/**
 Index arithmetic of the left-balanced trees of MLS (mls-rs/src/tree_kem/math.rs): the bit tricks on
 array indices against nodes named by their level and their position in it. Leaves are at level 0.
 */
module TreeMath {
  import opened Bits
  import opened Bytes

  const WORD: nat := 32

  /** Trees have at most 2^31 leaves, so that every index is a word. */
  const MAX_HEIGHT: nat := 31

  function TrailingOnes(x: nat): nat {
    if x % 2 == 0 then 0 else 1 + TrailingOnes(x / 2)
  }

  function Not(x: nat): nat
    requires x < Pow2(WORD)
  {
    Pow2(WORD) - 1 - x
  }

  predicate IsLeaf(x: nat) {
    x % 2 == 0
  }

  function LeftUnchecked(x: nat): nat
    requires !IsLeaf(x)
  {
    Xor(x, Pow2(TrailingOnes(x) - 1), WORD)
  }

  function RightUnchecked(x: nat): nat
    requires !IsLeaf(x)
  {
    Xor(x, 3 * Pow2(TrailingOnes(x) - 1), WORD)
  }

  datatype ParentSibling = ParentSibling(parent: nat, sibling: nat)

  /** `left` and `right` are `None` on leaves. */
  function Left(x: nat): Option<nat> {
    if IsLeaf(x) then None else Some(LeftUnchecked(x))
  }

  function Right(x: nat): Option<nat> {
    if IsLeaf(x) then None else Some(RightUnchecked(x))
  }

  function ParentIndex(x: nat): nat
    requires TrailingOnes(x) + 1 < WORD
  {
    Pow2Less(TrailingOnes(x) + 1, WORD);
    var level := TrailingOnes(x);
    Or(And(x, Not(Pow2(level + 1)), WORD), Pow2(level), WORD)
  }

  /** `parent_sibling`; the root of a tree of n leaves has index n - 1. */
  function ParentAndSibling(x: nat, leafCount: nat): Option<ParentSibling>
    requires TrailingOnes(x) + 1 < WORD && leafCount > 0
    requires x != leafCount - 1 ==> !IsLeaf(ParentIndex(x))
  {
    if x == leafCount - 1 then None
    else
      var p := ParentIndex(x);
      Some(ParentSibling(p, if x < p then RightUnchecked(p) else LeftUnchecked(p)))
  }

  predicate IsInTree(x: nat, root: nat) {
    x <= 2 * root
  }

  // ----- Nodes by level and position -----

  /** The index of the `j`-th node of level `k`. */
  function Node(k: nat, j: nat): nat {
    if k == 0 then 2 * j else 2 * Node(k - 1, j) + 1
  }

  function Sibling(j: nat): nat {
    if j % 2 == 0 then j + 1 else j - 1
  }

  /** The node belongs to the complete tree of height `h`. */
  predicate InTree(k: nat, j: nat, h: nat) {
    k <= h && j < Pow2(h - k)
  }

  lemma {:induction false} Pow2Less(a: nat, b: nat)
    requires a < b
    ensures Pow2(a) < Pow2(b)
    ensures 2 * Pow2(a) <= Pow2(b)
  {
    Pow2Monotone(a + 1, b);
  }

  lemma {:induction false} NodeClosedForm(k: nat, j: nat)
    ensures Node(k, j) == Pow2(k) * (2 * j + 1) - 1
  {
    if k > 0 {
      NodeClosedForm(k - 1, j);
      assert Pow2(k) * (2 * j + 1) == 2 * (Pow2(k - 1) * (2 * j + 1));
    }
  }

  lemma {:induction false} LevelOfNode(k: nat, j: nat)
    ensures TrailingOnes(Node(k, j)) == k
    ensures IsLeaf(Node(k, j)) <==> k == 0
  {
    if k > 0 { LevelOfNode(k - 1, j); }
  }

  /** An index names one node. */
  lemma {:induction false} NodeInjective(k: nat, j: nat, m: nat, l: nat)
    requires Node(k, j) == Node(m, l)
    ensures k == m && j == l
  {
    LevelOfNode(k, j);
    LevelOfNode(m, l);
    if k > 0 { NodeInjective(k - 1, j, m - 1, l); }
  }

  lemma {:induction false} NodeBound(k: nat, j: nat, h: nat)
    requires InTree(k, j, h)
    ensures Node(k, j) <= 2 * (Pow2(h) - 1)
  {
    if k > 0 { NodeBound(k - 1, j, h - 1); }
  }

  lemma {:induction false} RootIndex(h: nat)
    ensures Node(h, 0) == Pow2(h) - 1
  {
    if h > 0 { RootIndex(h - 1); }
  }

  /** The indices up to twice the root are exactly the nodes of the tree. */
  lemma {:induction false} EveryIndexIsANode(x: nat, h: nat) returns (k: nat, j: nat)
    requires IsInTree(x, Pow2(h) - 1)
    ensures InTree(k, j, h) && x == Node(k, j)
  {
    if x % 2 == 0 {
      k, j := 0, x / 2;
    } else {
      assert h > 0;
      k, j := EveryIndexIsANode(x / 2, h - 1);
      k := k + 1;
    }
  }

  // ----- The bit tricks -----

  lemma {:induction false} XorCons(a: nat, x: nat, b: nat, y: nat, width: nat)
    requires x < 2 && y < 2 && width > 0
    ensures Xor(2 * a + x, 2 * b + y, width) == 2 * Xor(a, b, width - 1) + (if x != y then 1 else 0)
  {
    assert (2 * a + x) / 2 == a && (2 * b + y) / 2 == b;
  }

  lemma {:induction false} AndCons(a: nat, x: nat, b: nat, y: nat, width: nat)
    requires x < 2 && y < 2 && width > 0
    ensures And(2 * a + x, 2 * b + y, width) == 2 * And(a, b, width - 1) + (if x == y == 1 then 1 else 0)
  {
    assert (2 * a + x) / 2 == a && (2 * b + y) / 2 == b;
  }

  lemma {:induction false} OrCons(a: nat, x: nat, b: nat, y: nat, width: nat)
    requires x < 2 && y < 2 && width > 0
    ensures Or(2 * a + x, 2 * b + y, width) == 2 * Or(a, b, width - 1) + (if x == 1 || y == 1 then 1 else 0)
  {
    assert (2 * a + x) / 2 == a && (2 * b + y) / 2 == b;
  }

  lemma {:induction false} XorClearsBit(k: nat, j: nat, width: nat)
    requires Node(k + 1, j) < Pow2(width)
    ensures Xor(Node(k + 1, j), Pow2(k), width) == Node(k, 2 * j)
  {
    hide Xor;
    if k == 0 {
      XorCons(2 * j, 1, 0, 1, width);
      XorZero(2 * j, width - 1);
    } else {
      XorCons(Node(k, j), 1, Pow2(k - 1), 0, width);
      XorClearsBit(k - 1, j, width - 1);
    }
  }

  lemma {:induction false} XorMovesBit(k: nat, j: nat, width: nat)
    requires Node(k + 1, j) < Pow2(width) && k + 2 <= width
    ensures Xor(Node(k + 1, j), 3 * Pow2(k), width) == Node(k, 2 * j + 1)
  {
    hide Xor;
    if k == 0 {
      XorCons(2 * j, 1, 1, 1, width);
      XorCons(j, 0, 0, 1, width - 1);
      XorZero(j, width - 2);
    } else {
      XorCons(Node(k, j), 1, 3 * Pow2(k - 1), 0, width);
      XorMovesBit(k - 1, j, width - 1);
    }
  }

  lemma NeighboursBelow(k: nat, j: nat, h: nat)
    requires 0 < k && InTree(k, j, h)
    ensures k <= h && InTree(k - 1, 2 * j, h) && InTree(k - 1, 2 * j + 1, h)
  {
  }

  /** `left` and `right` give the children. */
  lemma {:induction false} ChildrenLaw(k: nat, j: nat, h: nat)
    requires 0 < k && InTree(k, j, h) && h <= MAX_HEIGHT
    ensures Left(Node(k, j)) == Some(Node(k - 1, 2 * j))
    ensures Right(Node(k, j)) == Some(Node(k - 1, 2 * j + 1))
    ensures InTree(k - 1, 2 * j, h) && InTree(k - 1, 2 * j + 1, h)
  {
    hide Xor, Node, Pow2, InTree;
    NeighboursBelow(k, j, h);
    LevelOfNode(k, j);
    NodeBound(k, j, h);
    Pow2Less(h, WORD);
    XorClearsBit(k - 1, j, WORD);
    XorMovesBit(k - 1, j, WORD);
  }

  lemma {:induction false} AndAll(a: nat, width: nat)
    requires a < Pow2(width)
    ensures And(a, Pow2(width) - 1, width) == a
  {
    if width > 0 { AndAll(a / 2, width - 1); }
  }

  lemma {:induction false} ParentBits(k: nat, j: nat, width: nat)
    requires k + 1 < width && Node(k, j) < Pow2(width) && Pow2(k + 1) < Pow2(width)
    ensures Or(And(Node(k, j), Pow2(width) - 1 - Pow2(k + 1), width), Pow2(k), width) == Node(k + 1, j / 2)
  {
    hide And, Or;
    if k == 0 {
      ParentBitsOfLeaf(j, width);
    } else {
      Pow2Less(k, width - 1);
      var mask := Pow2(width - 1) - 1 - Pow2(k);
      AndCons(Node(k - 1, j), 1, mask, 1, width);
      OrCons(And(Node(k - 1, j), mask, width - 1), 1, Pow2(k - 1), 0, width);
      ParentBits(k - 1, j, width - 1);
    }
  }

  lemma ParentBitsOfLeaf(j: nat, width: nat)
    requires 2 <= width && 2 * j < Pow2(width)
    ensures Or(And(2 * j, 4 * Pow2(width - 2) - 3, width), 1, width) == 4 * (j / 2) + 1
  {
    hide And, Or;
    var rest := Pow2(width - 2);
    AndAll(j / 2, width - 2);
    AndCons(j / 2, j % 2, rest - 1, 0, width - 1);
    AndCons(j, 0, 2 * rest - 2, 1, width);
    OrCons(2 * (j / 2), 0, 0, 1, width);
    OrZero(2 * (j / 2), width - 1);
  }

  lemma {:induction false} OrderOfParent(k: nat, j: nat)
    ensures Node(k, j) < Node(k + 1, j / 2) <==> j % 2 == 0
  {
    if k > 0 { OrderOfParent(k - 1, j); }
  }

  lemma NeighboursInTree(k: nat, j: nat, h: nat)
    requires InTree(k, j, h)
    ensures k <= h && (k == h ==> j == 0)
    ensures k < h ==> InTree(k + 1, j / 2, h) && InTree(k, Sibling(j), h)
  {
  }

  lemma {:induction false} ParentIndexLaw(k: nat, j: nat, h: nat)
    requires InTree(k, j, h) && k < h <= MAX_HEIGHT
    ensures TrailingOnes(Node(k, j)) + 1 < WORD
    ensures ParentIndex(Node(k, j)) == Node(k + 1, j / 2)
  {
    hide And, Or, Node, Pow2, InTree, TrailingOnes;
    LevelOfNode(k, j);
    NodeBound(k, j, h);
    Pow2Less(h, WORD);
    Pow2Less(k + 1, WORD);
    ParentBits(k, j, WORD);
  }

  /** `parent_sibling` gives the parent and the sibling below every node but the root. */
  lemma {:induction false} ParentLaw(k: nat, j: nat, h: nat)
    requires InTree(k, j, h) && k < h <= MAX_HEIGHT
    ensures TrailingOnes(Node(k, j)) + 1 < WORD && !IsLeaf(ParentIndex(Node(k, j)))
    ensures InTree(k + 1, j / 2, h) && InTree(k, Sibling(j), h)
    ensures ParentAndSibling(Node(k, j), Pow2(h)) == Some(ParentSibling(Node(k + 1, j / 2), Node(k, Sibling(j))))
    ensures Node(k, j) != Pow2(h) - 1
  {
    hide Xor, And, Or, Node, Pow2, InTree, TrailingOnes, ParentIndex, LeftUnchecked, RightUnchecked;
    LevelOfNode(k, j);
    LevelOfNode(h, 0);
    RootIndex(h);
    NeighboursInTree(k, j, h);
    ParentIndexLaw(k, j, h);
    LevelOfNode(k + 1, j / 2);
    OrderOfParent(k, j);
    ChildrenLaw(k + 1, j / 2, h);
  }

  // ----- Paths -----

  datatype CopathNode = CopathNode(path: nat, copath: nat)

  /** The nodes above a node up to the root, each with the sibling of the one below it. */
  function Copath(k: nat, j: nat, h: nat): seq<CopathNode>
    requires k <= h
    decreases h - k
  {
    if k == h then [] else [CopathNode(Node(k + 1, j / 2), Node(k, Sibling(j)))] + Copath(k + 1, j / 2, h)
  }

  /** `direct_copath`. */
  method DirectCopath(x: nat, leafCount: nat, ghost h: nat) returns (path: seq<CopathNode>)
    requires h <= MAX_HEIGHT && leafCount == Pow2(h)
    ensures !IsInTree(x, leafCount - 1) ==> path == []
    ensures forall k: nat, j: nat :: InTree(k, j, h) && x == Node(k, j) ==> path == Copath(k, j, h)
  {
    hide *;
    path := [];
    if !IsInTree(x, leafCount - 1) {
      forall k: nat, j: nat | InTree(k, j, h) && x == Node(k, j) ensures false { NotInTree(x, k, j, h); }
      return;
    }
    ghost var k, j := EveryIndexIsANode(x, h);
    ghost var k0, j0 := k, j;
    var at := x;
    RootIndex(h);
    NeighboursInTree(k, j, h);
    while at != leafCount - 1
      invariant InTree(k, j, h) && k <= h && at == Node(k, j)
      invariant path + Copath(k, j, h) == Copath(k0, j0, h)
      decreases h - k
    {
      NeighboursInTree(k, j, h);
      ParentLaw(k, j, h);
      CopathStep(path, k, j, h);
      var ps := ParentAndSibling(at, leafCount).value;
      path := path + [CopathNode(ps.parent, ps.sibling)];
      at := ps.parent;
      k, j := k + 1, j / 2;
    }
    NodeInjective(k, j, h, 0);
    CopathStep(path, k, j, h);
    forall m: nat, l: nat | InTree(m, l, h) && x == Node(m, l) ensures m <= h && path == Copath(m, l, h) {
      NodeInjective(m, l, k0, j0);
    }
  }

  lemma NotInTree(x: nat, k: nat, j: nat, h: nat)
    requires InTree(k, j, h) && x == Node(k, j)
    ensures IsInTree(x, Pow2(h) - 1)
  {
    NodeBound(k, j, h);
  }

  lemma CopathStep(path: seq<CopathNode>, k: nat, j: nat, h: nat)
    requires k <= h
    ensures k == h ==> path + Copath(k, j, h) == path
    ensures k < h ==>
              path + Copath(k, j, h)
              == path + [CopathNode(Node(k + 1, j / 2), Node(k, Sibling(j)))] + Copath(k + 1, j / 2, h)
  {
    hide Node;
  }

  // ----- Leaves -----

  /** `i >> k`: the position at level `k` of the node above leaf `i`. */
  function Shift(i: nat, k: nat): nat {
    if k == 0 then i else Shift(i, k - 1) / 2
  }

  /** The node above leaf `i` at level `k`. */
  function Above(i: nat, k: nat): nat {
    Node(k, Shift(i, k))
  }

  lemma {:induction false} ShiftBound(i: nat, k: nat, h: nat)
    requires i < Pow2(h) && k <= h
    ensures Shift(i, k) < Pow2(h - k)
  {
    if k > 0 { ShiftBound(i, k - 1, h); }
  }

  lemma AboveInTree(i: nat, k: nat, h: nat)
    requires i < Pow2(h) && k <= h
    ensures InTree(k, Shift(i, k), h)
  {
    ShiftBound(i, k, h);
  }

  lemma {:induction false} ShiftAgain(i: nat, l: nat, k: nat, m: nat)
    requires k <= m && Shift(i, k) == Shift(l, k)
    ensures Shift(i, m) == Shift(l, m)
    decreases m
  {
    if k < m { ShiftAgain(i, l, k, m - 1); }
  }

  lemma SameAbove(i: nat, j: nat, k: nat)
    requires Shift(i, k) == Shift(j, k)
    ensures Above(i, k) == Above(j, k)
  {
  }

  lemma LeafPlace(i: nat, h: nat)
    ensures Node(0, i) == 2 * i && Shift(i, 0) == i && Above(i, 0) == 2 * i
    ensures InTree(0, i, h) <==> i < Pow2(h)
    ensures IsInTree(2 * i, Pow2(h) - 1) <==> i < Pow2(h)
  {
  }

  lemma {:induction false} CopathOfLeaf(i: nat, k: nat, h: nat)
    requires k <= h
    ensures |Copath(k, Shift(i, k), h)| == h - k
    ensures forall m :: 0 <= m < h - k ==>
              Copath(k, Shift(i, k), h)[m] == CopathNode(Above(i, k + m + 1), Node(k + m, Sibling(Shift(i, k + m))))
    decreases h - k
  {
    hide Node;
    if k < h {
      CopathOfLeaf(i, k + 1, h);
      var rest := Copath(k + 1, Shift(i, k + 1), h);
      forall m | 0 <= m < h - k
        ensures Copath(k, Shift(i, k), h)[m] == CopathNode(Above(i, k + m + 1), Node(k + m, Sibling(Shift(i, k + m))))
      {
        if m > 0 { assert Copath(k, Shift(i, k), h)[m] == rest[m - 1]; }
      }
    }
  }

  lemma AboveIsOdd(i: nat, k: nat)
    ensures Above(i, k) % 2 == 1 <==> k > 0
  {
    LevelOfNode(k, Shift(i, k));
  }

  /** The level of the lowest common ancestor of two leaves. */
  function LcaLevel(x: nat, y: nat): nat
    decreases x + y
  {
    if x == y then 0 else 1 + LcaLevel(x / 2, y / 2)
  }

  lemma {:induction false} ShiftHalf(i: nat, k: nat)
    ensures Shift(i / 2, k) == Shift(i, k + 1)
  {
    if k > 0 { ShiftHalf(i, k - 1); }
  }

  /** It is the least level at which the leaves share their ancestor. */
  lemma {:induction false} LcaLaw(x: nat, y: nat, k: nat)
    ensures Shift(x, k) == Shift(y, k) <==> LcaLevel(x, y) <= k
    decreases x + y
  {
    if x == y {
    } else if k > 0 {
      LcaLaw(x / 2, y / 2, k - 1);
      ShiftHalf(x, k - 1);
      ShiftHalf(y, k - 1);
    }
  }

  /** `leaf_lca_level`. */
  method LeafLcaLevel(x: nat, y: nat) returns (k: nat)
    ensures k == LcaLevel(x, y)
  {
    var xn, yn := x, y;
    k := 0;
    while xn != yn
      invariant k + LcaLevel(xn, yn) == LcaLevel(x, y)
      decreases xn + yn
    {
      xn, yn, k := xn / 2, yn / 2, k + 1;
    }
  }

  /**
   The copath of a leaf splits the others: leaf `l` lies under the copath node of level `k` exactly when
   the lowest common ancestor of the two is one level up.
   */
  lemma {:induction false} CopathSplitsLeaves(i: nat, l: nat, k: nat)
    requires i != l
    ensures Shift(l, k) == Sibling(Shift(i, k)) <==> k + 1 == LcaLevel(i, l)
  {
    LcaLaw(i, l, k);
    LcaLaw(i, l, k + 1);
    assert Shift(i, k + 1) == Shift(i, k) / 2 && Shift(l, k + 1) == Shift(l, k) / 2;
  }
}
