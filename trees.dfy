/**
 * The binary tree of the visualizer (`BinarySearchTreeNode` in index.js):
 * a key and two optional children, owned strictly hierarchically.
 * `Nil` stands for the JavaScript `null` child.
 */
module Trees {

  datatype Tree = Nil | Node(key: int, left: Tree, right: Tree)

  function Max(a: nat, b: nat): nat { if a < b then b else a }

  /** Number of nodes on the longest root-to-leaf path (0 for the empty tree). */
  function Height(t: Tree): nat {
    match t
    case Nil => 0
    case Node(_, l, r) => Max(Height(l), Height(r)) + 1
  }

  function Size(t: Tree): nat {
    match t
    case Nil => 0
    case Node(_, l, r) => Size(l) + Size(r) + 1
  }

  function Keys(t: Tree): set<int> {
    match t
    case Nil => {}
    case Node(k, l, r) => {k} + Keys(l) + Keys(r)
  }

  /** Keys in pre-order: root, then the left subtree, then the right subtree. */
  function PreOrder(t: Tree): (s: seq<int>)
    ensures |s| == Size(t)
  {
    match t
    case Nil => []
    case Node(k, l, r) => [k] + PreOrder(l) + PreOrder(r)
  }

  /** Depth of every node (the root has depth 0), listed in pre-order. */
  function Depths(t: Tree): (s: seq<nat>)
    ensures |s| == Size(t)
  {
    match t
    case Nil => []
    case Node(_, l, r) => [0] + Deeper(Depths(l)) + Deeper(Depths(r))
  }

  function Deeper(ds: seq<nat>): (r: seq<nat>)
    ensures |r| == |ds|
    ensures forall i :: 0 <= i < |ds| ==> r[i] == ds[i] + 1
  {
    seq(|ds|, i requires 0 <= i < |ds| => ds[i] + 1)
  }

  /**
   * Every key of the left subtree is at most the node's key, and every key
   * of the right subtree is at least it. The order is non-strict: keys are
   * rounded, so equal keys can occur.
   */
  ghost predicate IsSearchTree(t: Tree) {
    match t
    case Nil => true
    case Node(k, l, r) =>
      && (forall x :: x in Keys(l) ==> x <= k)
      && (forall x :: x in Keys(r) ==> k <= x)
      && IsSearchTree(l)
      && IsSearchTree(r)
  }

  /** Pre-order lists exactly the keys of the tree. */
  lemma {:induction false} PreOrderShape(t: Tree)
    ensures forall i :: 0 <= i < |PreOrder(t)| ==> PreOrder(t)[i] in Keys(t)
    ensures forall k :: k in Keys(t) ==> k in PreOrder(t)
  {
    match t
    case Nil =>
    case Node(k, l, r) =>
      PreOrderShape(l);
      PreOrderShape(r);
      var pl, pr := PreOrder(l), PreOrder(r);
      assert PreOrder(t) == [k] + pl + pr;
      forall i | 0 <= i < |PreOrder(t)| ensures PreOrder(t)[i] in Keys(t) {
        if i == 0 {
        } else if i <= |pl| {
          assert PreOrder(t)[i] == pl[i - 1];
        } else {
          assert PreOrder(t)[i] == pr[i - 1 - |pl|];
        }
      }
  }

  /** Entry i > 0 of the pre-order comes from the left subtree's pre-order, then from the right's. */
  lemma PreOrderSplit(t: Tree, i: nat)
    requires t.Node? && 0 < i < Size(t)
    ensures i <= Size(t.left) ==> PreOrder(t)[i] == PreOrder(t.left)[i - 1]
    ensures i > Size(t.left) ==> PreOrder(t)[i] == PreOrder(t.right)[i - 1 - Size(t.left)]
  {
    assert PreOrder(t) == [t.key] + PreOrder(t.left) + PreOrder(t.right);
  }

  /** A node below the root lies one level deeper than it does within its own subtree. */
  lemma DepthsSplit(t: Tree, i: nat)
    requires t.Node? && 0 < i < Size(t)
    ensures i <= Size(t.left) ==> Depths(t)[i] == Depths(t.left)[i - 1] + 1
    ensures i > Size(t.left) ==> Depths(t)[i] == Depths(t.right)[i - 1 - Size(t.left)] + 1
  {
    var dl, dr := Deeper(Depths(t.left)), Deeper(Depths(t.right));
    assert Depths(t) == [0] + dl + dr;
    if i <= Size(t.left) {
      assert Depths(t)[i] == dl[i - 1];
    } else {
      assert Depths(t)[i] == dr[i - 1 - Size(t.left)];
    }
  }

  /**
   * The pre-order index of the parent of the node at pre-order index n > 0:
   * the root for the roots of the two subtrees, otherwise the parent within
   * the subtree, shifted past the nodes listed before that subtree.
   */
  function ParentIndex(t: Tree, n: nat): (p: nat)
    requires t.Node? && 0 < n < Size(t)
    ensures p < n
  {
    match t
    case Node(_, l, r) =>
      if n <= Size(l) then
        if n == 1 then 0 else 1 + ParentIndex(l, n - 1)
      else
        var m := n - 1 - Size(l);
        if m == 0 then 0
        else
          assert m < Size(r) && r.Node?;
          Size(l) + 1 + ParentIndex(r, m)
  }

  /** A node lies exactly one level below its parent. */
  lemma {:induction false} ParentOneLevelUp(t: Tree, n: nat)
    requires t.Node? && 0 < n < Size(t)
    ensures Depths(t)[ParentIndex(t, n)] + 1 == Depths(t)[n]
    decreases t, 1
  {
    if n <= Size(t.left) {
      ParentInLeft(t, n - 1);
    } else {
      ParentInRight(t, n - 1 - Size(t.left));
    }
  }

  /** `ParentOneLevelUp` for entry j of the left subtree. */
  lemma {:induction false} ParentInLeft(t: Tree, j: nat)
    requires t.Node? && j < Size(t.left)
    ensures Depths(t)[ParentIndex(t, 1 + j)] + 1 == Depths(t)[1 + j]
    decreases t, 0
  {
    DepthsLeft(t, j);
    var p := LeftParent(t, j);
    if j == 0 {
      RootDepth(t);
      RootDepth(t.left);
    } else {
      ParentOneLevelUp(t.left, j);
      DepthsLeft(t, ParentIndex(t.left, j));
    }
  }

  /** `ParentOneLevelUp` for entry j of the right subtree. */
  lemma {:induction false} ParentInRight(t: Tree, j: nat)
    requires t.Node? && j < Size(t.right)
    ensures Depths(t)[ParentIndex(t, Size(t.left) + 1 + j)] + 1 == Depths(t)[Size(t.left) + 1 + j]
    decreases t, 0
  {
    DepthsRight(t, j);
    var p := RightParent(t, j);
    if j == 0 {
      RootDepth(t);
      RootDepth(t.right);
    } else {
      ParentOneLevelUp(t.right, j);
      DepthsRight(t, ParentIndex(t.right, j));
    }
  }

  /**
   * No node listed between a node and its parent is shallower than the node:
   * the entries between them belong to earlier siblings' subtrees. With
   * `ParentOneLevelUp` this makes `ParentIndex` the nearest earlier entry one
   * level up, which in pre-order is the parent.
   */
  lemma {:induction false} ParentIsNearest(t: Tree, n: nat)
    requires t.Node? && 0 < n < Size(t)
    ensures forall m :: ParentIndex(t, n) < m < n ==> Depths(t)[m] >= Depths(t)[n]
    decreases t, 2
  {
    if n <= Size(t.left) {
      NearestInLeft(t, n - 1);
    } else {
      NearestInRight(t, n - 1 - Size(t.left));
    }
  }

  /** `ParentIsNearest` for entry j of the left subtree. */
  lemma {:induction false} NearestInLeft(t: Tree, j: nat)
    requires t.Node? && j < Size(t.left)
    ensures forall m :: ParentIndex(t, 1 + j) < m < 1 + j ==> Depths(t)[m] >= Depths(t)[1 + j]
    decreases t, 1
  {
    var p := LeftParent(t, j);
    if j > 0 {
      ParentIsNearest(t.left, j);
      DepthsLeft(t, j);
      forall m | p < m < 1 + j ensures Depths(t)[m] >= Depths(t)[1 + j] {
        DepthsLeft(t, m - 1);
        assert ParentIndex(t.left, j) < m - 1 < j;
      }
    }
  }

  /** `ParentIsNearest` for entry j of the right subtree. */
  lemma {:induction false} NearestInRight(t: Tree, j: nat)
    requires t.Node? && j < Size(t.right)
    ensures forall m :: ParentIndex(t, Size(t.left) + 1 + j) < m < Size(t.left) + 1 + j ==>
      Depths(t)[m] >= Depths(t)[Size(t.left) + 1 + j]
    decreases t, 1
  {
    if j == 0 {
      var p := RightParent(t, j);
      LeftBelowRightRoot(t);
    } else {
      forall m | ParentIndex(t, Size(t.left) + 1 + j) < m < Size(t.left) + 1 + j
        ensures Depths(t)[m] >= Depths(t)[Size(t.left) + 1 + j]
      {
        NearestBelowRight(t, j, m);
      }
    }
  }

  /** The left subtree, listed between the root and the right child, lies no higher than the right child. */
  lemma LeftBelowRightRoot(t: Tree)
    requires t.Node? && 0 < Size(t.right)
    ensures forall m :: 0 < m < Size(t.left) + 1 ==> Depths(t)[m] >= Depths(t)[Size(t.left) + 1]
  {
    DepthsRight(t, 0);
    RootDepth(t.right);
    forall m | 0 < m < Size(t.left) + 1 ensures Depths(t)[m] >= 1 {
      DepthsLeft(t, m - 1);
    }
  }

  /**
   * For entry j > 0 of the right subtree, an entry m between it and its
   * parent lies within the right subtree, between j and j's parent there.
   */
  lemma {:induction false} NearestBelowRight(t: Tree, j: nat, m: nat)
    requires t.Node? && 0 < j < Size(t.right)
    requires ParentIndex(t, Size(t.left) + 1 + j) < m < Size(t.left) + 1 + j
    ensures Depths(t)[m] >= Depths(t)[Size(t.left) + 1 + j]
    decreases t, 0
  {
    var p := RightParent(t, j);
    var k := m - 1 - Size(t.left);
    ParentIsNearest(t.right, j);
    assert ParentIndex(t.right, j) < k < j;
    DepthsRight(t, j);
    DepthsRight(t, k);
  }

  /** The parent of entry j > 0 of the left subtree is its parent there, shifted past the root. */
  lemma LeftParent(t: Tree, j: nat) returns (p: nat)
    requires t.Node? && j < Size(t.left)
    ensures p == ParentIndex(t, 1 + j)
    ensures j == 0 ==> p == 0
    ensures j > 0 ==> p == 1 + ParentIndex(t.left, j)
  {
    p := ParentIndex(t, 1 + j);
  }

  /** The parent of entry j > 0 of the right subtree is its parent there, shifted past the root and the left subtree. */
  lemma RightParent(t: Tree, j: nat) returns (p: nat)
    requires t.Node? && j < Size(t.right)
    ensures p == ParentIndex(t, Size(t.left) + 1 + j)
    ensures j == 0 ==> p == 0
    ensures j > 0 ==> p == Size(t.left) + 1 + ParentIndex(t.right, j)
  {
    p := ParentIndex(t, Size(t.left) + 1 + j);
  }

  /** The root is listed first, at depth 0. */
  lemma RootDepth(t: Tree)
    requires t.Node?
    ensures Depths(t)[0] == 0
  {
  }

  /** Depth of entry j of the left subtree, seen from the whole tree. */
  lemma DepthsLeft(t: Tree, j: nat)
    requires t.Node? && j < Size(t.left)
    ensures Depths(t)[1 + j] == Depths(t.left)[j] + 1
  {
    DepthsSplit(t, 1 + j);
  }

  /** Depth of entry j of the right subtree, seen from the whole tree. */
  lemma DepthsRight(t: Tree, j: nat)
    requires t.Node? && j < Size(t.right)
    ensures Depths(t)[Size(t.left) + 1 + j] == Depths(t.right)[j] + 1
  {
    DepthsSplit(t, Size(t.left) + 1 + j);
  }

  /** No node lies deeper than the height allows. */
  lemma {:induction false} DepthsBelowHeight(t: Tree)
    ensures forall i :: 0 <= i < |Depths(t)| ==> Depths(t)[i] < Height(t)
  {
    match t
    case Nil =>
    case Node(k, l, r) =>
      forall i | 0 <= i < |Depths(t)| ensures Depths(t)[i] < Height(t) {
        if i > 0 {
          DepthsSplit(t, i);
          if i <= Size(l) {
            DepthsBelowHeight(l);
            assert Depths(l)[i - 1] < Height(l);
          } else {
            DepthsBelowHeight(r);
            assert Depths(r)[i - 1 - Size(l)] < Height(r);
          }
        }
      }
  }
}
