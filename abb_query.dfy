// Read-only walks over the tree: iterative search, the extremes of a subtree,
// and the in-order neighbours of a node found by walking parent links.

module AbbQuery {
  import opened Abb

  /**
   * `r` is the in-order successor of a key `x` within the tree `root`: the
   * node with the smallest key greater than `x`, or null when no key is greater.
   */
  ghost predicate IsSuccessor(root: Node, x: int, r: Node?)
    reads root, root.Repr
  {
    (r == null <==> forall k :: k in root.Keys ==> k <= x) &&
    (r != null ==> r in root.Repr && IsNextKey(root.Keys, x, r.key))
  }

  /**
   * `r` is the in-order predecessor of a key `x` within the tree `root`: the
   * node with the largest key smaller than `x`, or null when no key is smaller.
   */
  ghost predicate IsPredecessor(root: Node, x: int, r: Node?)
    reads root, root.Repr
  {
    (r == null <==> forall k :: k in root.Keys ==> x <= k) &&
    (r != null ==> r in root.Repr && IsPrevKey(root.Keys, x, r.key))
  }

  /**
   * Iterative search. The walk follows a null child when the key is absent
   * from a non-empty tree, so the key must be present there.
   */
  method Search(no: Node?, key: int) returns (r: Node?)
    requires no != null ==> Valid(no) && key in no.Keys
    ensures no == null ==> r == null
    ensures no != null ==> r != null && r in no.Repr && r.key == key
    ensures no != null ==> forall m :: m in no.Repr && m.key == key ==> m == r
  {
    if no == null {
      return null;
    }
    r := no;
    while key != r.key
      invariant r != null && r in no.Repr && key in r.Keys
      decreases r.Repr
    {
      assert LocalOk(r);
      if key < r.key {
        r := r.left;
      } else {
        r := r.right;
      }
    }
    forall m | m in no.Repr && m.key == key
      ensures m == r
    {
      KeysDistinct(no, m, r);
    }
  }

  /** The leftmost node of a subtree, which holds its smallest key; null for the empty tree. */
  method Minimum(no: Node?) returns (r: Node?)
    requires no != null ==> Valid(no)
    ensures (r == null) == (no == null)
    ensures no != null ==> r in no.Repr && r.left == null && r.key in no.Keys
    ensures no != null ==> forall k :: k in no.Keys ==> r.key <= k
  {
    if no == null {
      return null;
    }
    r := no;
    while r.left != null
      invariant r != null && r in no.Repr && r.Keys <= no.Keys
      invariant forall k :: k in no.Keys ==> k in r.Keys || r.key < k
      decreases r.Repr
    {
      assert LocalOk(r) && LocalOk(r.left);
      r := r.left;
    }
    assert LocalOk(r);
  }

  /** The rightmost node of a subtree, which holds its largest key; null for the empty tree. */
  method Maximum(no: Node?) returns (r: Node?)
    requires no != null ==> Valid(no)
    ensures (r == null) == (no == null)
    ensures no != null ==> r in no.Repr && r.right == null && r.key in no.Keys
    ensures no != null ==> forall k :: k in no.Keys ==> k <= r.key
  {
    if no == null {
      return null;
    }
    r := no;
    while r.right != null
      invariant r != null && r in no.Repr && r.Keys <= no.Keys
      invariant forall k :: k in no.Keys ==> k in r.Keys || k < r.key
      decreases r.Repr
    {
      assert LocalOk(r) && LocalOk(r.right);
      r := r.right;
    }
    assert LocalOk(r);
  }

  /**
   * The in-order successor of `no` in the tree rooted at `root`: the minimum
   * of its right subtree when it has one, otherwise the first ancestor reached
   * from a left child while walking up the parent links.
   */
  method Successor(ghost root: Node, no: Node?) returns (r: Node?)
    requires IsTree(root)
    requires no != null ==> no in root.Repr
    ensures no == null ==> r == null
    ensures no != null ==> IsSuccessor(root, no.key, r)
    ensures no != null && no.right != null ==> r != null && r in no.right.Repr && r.left == null
  {
    if no == null {
      return null;
    }
    assert LocalOk(no);
    if no.right != null {
      SubValid(root, no.right);
      r := Minimum(no.right);
      RightMinimumIsNext(root, no, r);
      return;
    }
    var cur := no;
    r := no.parent;
    while r != null && cur == r.right
      invariant cur in root.Repr && r == cur.parent
      invariant no.key in cur.Keys
      invariant forall k :: k in cur.Keys ==> k <= no.key
      decreases root.Repr - cur.Repr
    {
      ParentLink(root, cur);
      assert LocalOk(r);
      cur := r;
      r := r.parent;
    }
    if r != null {
      LeftTurnIsNext(root, cur, no.key);
    } else {
      TopIsRoot(root, cur);
    }
  }

  /**
   * The in-order predecessor of `no` in the tree rooted at `root`: the maximum
   * of its left subtree when it has one, otherwise the first ancestor reached
   * from a right child while walking up the parent links.
   */
  method Predecessor(ghost root: Node, no: Node?) returns (r: Node?)
    requires IsTree(root)
    requires no != null ==> no in root.Repr
    ensures no == null ==> r == null
    ensures no != null ==> IsPredecessor(root, no.key, r)
    ensures no != null && no.left != null ==> r != null && r in no.left.Repr && r.right == null
  {
    if no == null {
      return null;
    }
    assert LocalOk(no);
    if no.left != null {
      SubValid(root, no.left);
      r := Maximum(no.left);
      LeftMaximumIsPrev(root, no, r);
      return;
    }
    var cur := no;
    r := no.parent;
    while r != null && cur == r.left
      invariant cur in root.Repr && r == cur.parent
      invariant no.key in cur.Keys
      invariant forall k :: k in cur.Keys ==> no.key <= k
      decreases root.Repr - cur.Repr
    {
      ParentLink(root, cur);
      assert LocalOk(r);
      cur := r;
      r := r.parent;
    }
    if r != null {
      RightTurnIsPrev(root, cur, no.key);
    } else {
      TopIsRoot(root, cur);
    }
  }

  /** The smallest key of a node's right subtree is the next key after the node's in the whole tree. */
  lemma RightMinimumIsNext(root: Node, no: Node, r: Node)
    requires Valid(root) && no in root.Repr && no.right != null
    requires r in no.right.Repr && forall k :: k in no.right.Keys ==> r.key <= k
    ensures r in root.Repr && IsNextKey(root.Keys, no.key, r.key)
  {
    assert LocalOk(no);
    ReprClosed(root, no.right, r);
    ReprClosed(root, root, r);
    ReprClosed(root, root, no);
    forall k | k in root.Keys && no.key < k
      ensures r.key <= k
    {
      if k < r.key {
        Convex(root, no, no.key, r.key, k);
      }
    }
  }

  /** The largest key of a node's left subtree is the previous key before the node's in the whole tree. */
  lemma LeftMaximumIsPrev(root: Node, no: Node, r: Node)
    requires Valid(root) && no in root.Repr && no.left != null
    requires r in no.left.Repr && forall k :: k in no.left.Keys ==> k <= r.key
    ensures r in root.Repr && IsPrevKey(root.Keys, no.key, r.key)
  {
    assert LocalOk(no);
    ReprClosed(root, no.left, r);
    ReprClosed(root, root, r);
    ReprClosed(root, root, no);
    forall k | k in root.Keys && k < no.key
      ensures k <= r.key
    {
      if r.key < k {
        Convex(root, no, r.key, no.key, k);
      }
    }
  }

  /**
   * When `x` is the largest key of a subtree hanging as a left child, the
   * parent it hangs from holds the next key after `x` in the whole tree.
   */
  lemma LeftTurnIsNext(root: Node, cur: Node, x: int)
    requires Valid(root) && cur in root.Repr && cur != root
    requires cur.parent != null && cur.parent.right != cur
    requires x in cur.Keys && forall k :: k in cur.Keys ==> k <= x
    ensures cur.parent in root.Repr && IsNextKey(root.Keys, x, cur.parent.key)
  {
    ParentLink(root, cur);
    var p := cur.parent;
    assert LocalOk(p) && p.left == cur;
    ReprClosed(root, root, p);
    forall k | k in root.Keys && x < k
      ensures p.key <= k
    {
      if k < p.key {
        Convex(root, p, x, p.key, k);
      }
    }
  }

  /**
   * When `x` is the smallest key of a subtree hanging as a right child, the
   * parent it hangs from holds the previous key before `x` in the whole tree.
   */
  lemma RightTurnIsPrev(root: Node, cur: Node, x: int)
    requires Valid(root) && cur in root.Repr && cur != root
    requires cur.parent != null && cur.parent.left != cur
    requires x in cur.Keys && forall k :: k in cur.Keys ==> x <= k
    ensures cur.parent in root.Repr && IsPrevKey(root.Keys, x, cur.parent.key)
  {
    ParentLink(root, cur);
    var p := cur.parent;
    assert LocalOk(p) && p.right == cur;
    ReprClosed(root, root, p);
    forall k | k in root.Keys && k < x
      ensures k <= p.key
    {
      if p.key < k {
        Convex(root, p, p.key, x, k);
      }
    }
  }

  /** Walking parent links ends at the root: inside a tree only the root has no parent. */
  lemma TopIsRoot(root: Node, cur: Node)
    requires IsTree(root) && cur in root.Repr && cur.parent == null
    ensures cur == root
  {
    if cur != root {
      ParentLink(root, cur);
    }
  }
}
