// Nodes of an unbalanced binary search tree of integer keys whose nodes carry
// a back-pointer to their parent, the invariant that ties them together, and
// the structural facts every operation on the tree relies on.

module Abb {

  /** One node of the tree: `chave`, `pai`, `esq` and `dir` in the C record. */
  class Node {
    var key: int
    var parent: Node?
    var left: Node?
    var right: Node?

    // Ghost view: the nodes and the keys of the subtree rooted here.
    ghost var Repr: set<Node>
    ghost var Keys: set<int>

    /** A new leaf holding `key` that hangs from `parent` (null for a new root). */
    constructor (parent: Node?, key: int)
      ensures this.key == key && this.parent == parent
      ensures left == null && right == null
      ensures Repr == {this} && Keys == {key}
      ensures Valid(this)
    {
      this.key := key;
      this.parent := parent;
      left := null;
      right := null;
      Repr := {this};
      Keys := {key};
    }
  }

  ghost function ReprOf(t: Node?): set<Node>
    reads t
  {
    if t == null then {} else t.Repr
  }

  ghost function KeysOf(t: Node?): set<int>
    reads t
  {
    if t == null then {} else t.Keys
  }

  /**
   * What one node promises about itself and its two children: each child
   * points back at it, every key on the left is smaller and every key on the
   * right is larger than its own, the two subtrees share no node, and its
   * ghost Repr and Keys are made of its own and its children's.
   */
  ghost predicate LocalOk(m: Node)
    reads m, m.left, m.right
  {
    m in m.Repr &&
    (m.left != null ==>
      m.left in m.Repr && m.left.parent == m && m !in m.left.Repr &&
      forall k :: k in m.left.Keys ==> k < m.key) &&
    (m.right != null ==>
      m.right in m.Repr && m.right.parent == m && m !in m.right.Repr &&
      forall k :: k in m.right.Keys ==> m.key < k) &&
    (m.left != null && m.right != null ==> m.left.Repr !! m.right.Repr) &&
    m.Repr == {m} + ReprOf(m.left) + ReprOf(m.right) &&
    m.Keys == {m.key} + KeysOf(m.left) + KeysOf(m.right)
  }

  /** Every node of `S` is locally sound and its children are in `S` too. */
  ghost predicate Closed(S: set<Node>)
    reads S
  {
    forall m {:trigger LocalOk(m)} :: m in S ==>
      (m.left != null ==> m.left in S) && (m.right != null ==> m.right in S) && LocalOk(m)
  }

  /** `n` is the root of a well-formed subtree (its own parent link is not constrained). */
  ghost predicate Valid(n: Node)
    reads n, n.Repr
  {
    n in n.Repr && Closed(n.Repr)
  }

  /** A whole tree: empty, or a well-formed subtree whose root has no parent. */
  ghost predicate IsTree(t: Node?)
    reads t, ReprOf(t)
  {
    t != null ==> Valid(t) && t.parent == null
  }

  /** `y` is the smallest key of `ks` greater than `x`. */
  ghost predicate IsNextKey(ks: set<int>, x: int, y: int)
  {
    y in ks && x < y && forall k :: k in ks && x < k ==> y <= k
  }

  /** `y` is the largest key of `ks` smaller than `x`. */
  ghost predicate IsPrevKey(ks: set<int>, x: int, y: int)
  {
    y in ks && y < x && forall k :: k in ks && k < x ==> k <= y
  }

  /** Every subtree inside a well-formed subtree keeps its nodes and keys inside its ancestor's. */
  lemma {:induction false} ReprClosed(n: Node, x: Node, m: Node)
    requires Valid(n) && x in n.Repr && m in x.Repr
    ensures m.Repr <= x.Repr && m.Keys <= x.Keys && m.key in x.Keys && m in n.Repr
    decreases x.Repr
  {
    assert LocalOk(x);
    if m != x {
      if x.left != null && m in x.left.Repr {
        ReprClosed(n, x.left, m);
      } else {
        assert x.right != null && m in x.right.Repr;
        ReprClosed(n, x.right, m);
      }
    }
  }

  /** Every node of a well-formed subtree roots a well-formed subtree. */
  lemma SubValid(n: Node, x: Node)
    requires Valid(n) && x in n.Repr
    ensures Valid(x)
    ensures x.Repr <= n.Repr && x.Keys <= n.Keys
  {
    ReprClosed(n, n, x);
    assert LocalOk(x);
    forall m | m in x.Repr
      ensures (m.left != null ==> m.left in x.Repr) && (m.right != null ==> m.right in x.Repr) && LocalOk(m)
    {
      ReprClosed(n, x, m);
      assert LocalOk(m);
    }
  }

  /** The children of a well-formed subtree root well-formed subtrees. */
  lemma ChildrenValid(n: Node)
    requires Valid(n)
    ensures n.left != null ==> Valid(n.left)
    ensures n.right != null ==> Valid(n.right)
  {
    assert LocalOk(n);
    if n.left != null { SubValid(n, n.left); }
    if n.right != null { SubValid(n, n.right); }
  }

  /** What a well-formed subtree says about its root and its children. */
  lemma Unfold(t: Node)
    requires Valid(t)
    ensures LocalOk(t)
    ensures t.left != null ==> Valid(t.left)
    ensures t.right != null ==> Valid(t.right)
  {
    assert LocalOk(t);
    ChildrenValid(t);
  }

  /** A locally sound node whose children root well-formed subtrees roots a well-formed subtree. */
  lemma Join(n: Node)
    requires LocalOk(n)
    requires n.left != null ==> Valid(n.left)
    requires n.right != null ==> Valid(n.right)
    ensures Valid(n)
  {
    forall m | m in n.Repr
      ensures (m.left != null ==> m.left in n.Repr) && (m.right != null ==> m.right in n.Repr) && LocalOk(m)
    {
      if m != n {
        if n.left != null && m in n.left.Repr {
          assert LocalOk(m);
        } else {
          assert LocalOk(m);
        }
      }
    }
  }

  /**
   * Recomputes the ghost view of `p` from its children once a child link has
   * been rewritten: when both children root well-formed subtrees that point
   * back at `p` and lie on the correct sides of its key, `p` roots one too.
   */
  ghost method Refresh(p: Node)
    requires p.left != null ==> Valid(p.left) && p.left.parent == p && p !in p.left.Repr && forall k :: k in p.left.Keys ==> k < p.key
    requires p.right != null ==> Valid(p.right) && p.right.parent == p && p !in p.right.Repr && forall k :: k in p.right.Keys ==> p.key < k
    requires p.left != null && p.right != null ==> p.left.Repr !! p.right.Repr
    modifies p
    ensures Valid(p)
    ensures p.key == old(p.key) && p.parent == old(p.parent) && p.left == old(p.left) && p.right == old(p.right)
    ensures p.Repr == {p} + ReprOf(p.left) + ReprOf(p.right)
    ensures p.Keys == {p.key} + KeysOf(p.left) + KeysOf(p.right)
  {
    p.Repr := {p} + ReprOf(p.left) + ReprOf(p.right);
    p.Keys := {p.key} + KeysOf(p.left) + KeysOf(p.right);
    assert LocalOk(p);
    Join(p);
  }

  /** A closed set of nodes none of whose fields changed is still closed. */
  twostate lemma ClosedFrame(X: set<Node>)
    requires old(Closed(X)) && unchanged(X)
    ensures Closed(X)
  {
    forall m | m in X
      ensures (m.left != null ==> m.left in X) && (m.right != null ==> m.right in X) && LocalOk(m)
    {
      assert old(LocalOk(m));
    }
  }

  /** Keys are distinct: two nodes of a well-formed subtree with the same key are the same node. */
  lemma {:induction false} KeysDistinct(n: Node, a: Node, b: Node)
    requires Valid(n) && a in n.Repr && b in n.Repr && a.key == b.key
    ensures a == b
    decreases n.Repr
  {
    assert LocalOk(n);
    if a != b {
      if a == n || b == n {
        var other := if a == n then b else a;
        if n.left != null && other in n.left.Repr {
          ReprClosed(n, n.left, other);
        } else {
          ReprClosed(n, n.right, other);
        }
      } else if n.left != null && a in n.left.Repr && b in n.left.Repr {
        SubValid(n, n.left);
        KeysDistinct(n.left, a, b);
      } else if n.right != null && a in n.right.Repr && b in n.right.Repr {
        SubValid(n, n.right);
        KeysDistinct(n.right, a, b);
      } else {
        // one node on each side of n: their keys are on opposite sides of n.key
        ReprClosed(n, n.left, if a in n.left.Repr then a else b);
        ReprClosed(n, n.right, if a in n.right.Repr then a else b);
      }
    }
  }

  /** A well-formed subtree holds exactly as many distinct keys as nodes. */
  lemma {:induction false} KeysCount(n: Node)
    requires Valid(n)
    ensures |n.Keys| == |n.Repr|
    decreases n.Repr
  {
    assert LocalOk(n);
    ChildrenValid(n);
    var L, R := ReprOf(n.left), ReprOf(n.right);
    var LK, RK := KeysOf(n.left), KeysOf(n.right);
    if n.left != null { KeysCount(n.left); }
    if n.right != null { KeysCount(n.right); }
    assert |LK| == |L| && |RK| == |R|;
    assert forall k :: k in LK ==> k < n.key;
    assert forall k :: k in RK ==> n.key < k;
    assert LK !! RK by {
      forall k | k in LK ensures k !in RK { }
    }
    DisjointUnionSize(n.key, LK, RK);
    DisjointUnionSize(n, L, R);
  }

  lemma DisjointUnionSize<T>(x: T, a: set<T>, b: set<T>)
    requires x !in a && x !in b && a !! b
    ensures |{x} + a + b| == 1 + |a| + |b|
  {
    assert {x} !! a;
    assert ({x} + a) !! b;
  }

  /**
   * Every node of a tree other than its root has a parent inside the tree,
   * and is that parent's left or right child.
   */
  lemma {:induction false} ParentLink(n: Node, m: Node)
    requires Valid(n) && m in n.Repr && m != n
    ensures m.parent != null && m.parent in n.Repr
    ensures m.parent.left == m || m.parent.right == m
    decreases n.Repr
  {
    assert LocalOk(n);
    if n.left != null && m in n.left.Repr {
      if m != n.left {
        SubValid(n, n.left);
        ParentLink(n.left, m);
      }
    } else {
      assert n.right != null && m in n.right.Repr;
      if m != n.right {
        SubValid(n, n.right);
        ParentLink(n.right, m);
      }
    }
  }

  /**
   * The keys of a subtree form an interval of the whole tree's keys: a key of
   * the tree lying between two keys of the subtree is a key of the subtree.
   */
  lemma {:induction false} Convex(n: Node, x: Node, a: int, b: int, k: int)
    requires Valid(n) && x in n.Repr
    requires a in x.Keys && b in x.Keys && a <= k <= b && k in n.Keys
    ensures k in x.Keys
    decreases n.Repr
  {
    assert LocalOk(n);
    if x != n {
      if n.left != null && x in n.left.Repr {
        ReprClosed(n, n.left, x);
        SubValid(n, n.left);
        Convex(n.left, x, a, b, k);
      } else {
        assert n.right != null && x in n.right.Repr;
        ReprClosed(n, n.right, x);
        SubValid(n, n.right);
        Convex(n.right, x, a, b, k);
      }
    }
  }

  /** The parent a node points at (when that parent holds it) is outside its subtree. */
  lemma ParentOutside(n: Node)
    requires Valid(n) && n.parent != null
    requires n.parent.left == n || n.parent.right == n
    ensures n.parent !in n.Repr
  {
    assert n.parent in n.Repr ==> LocalOk(n.parent);
  }
}
