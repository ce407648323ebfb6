// Deletion: the recursive descent to the node holding the key, the bypass of
// a node with at most one child, and the two-child case in which the node
// takes its successor's key and the successor is unlinked from its parent.

module AbbRemove {
  import opened Abb
  import opened AbbQuery

  /** The nodes strictly above `s` on the way down from `R`. */
  ghost function Ancestors(R: Node, s: Node): set<Node>
    reads R, R.Repr
  {
    set a | a in R.Repr && s in a.Repr && a != s
  }

  /** Every node above the smallest node of a subtree holds it in its left subtree. */
  lemma MinimumAncestors(R: Node, s: Node)
    requires Valid(R) && s in R.Repr && forall k :: k in R.Keys ==> s.key <= k
    ensures forall a :: a in Ancestors(R, s) ==>
      a.left != null && (a.left == s || a.left in Ancestors(R, s)) && s.key < a.key
    ensures s != R ==> R in Ancestors(R, s) && s.parent in Ancestors(R, s) && s.parent.left == s
    ensures s == R ==> Ancestors(R, s) == {}
    ensures forall a :: a in Ancestors(R, s) ==> a !in s.Repr && (a.right == null || s !in a.right.Repr)
  {
    var A := Ancestors(R, s);
    forall a | a in A
      ensures a.left != null && (a.left == s || a.left in A) && s.key < a.key
      ensures a.right == null || s !in a.right.Repr
    {
      assert LocalOk(a);
      ReprClosed(R, R, a);
      if a.right != null && s in a.right.Repr {
        ReprClosed(R, a.right, s);
        assert false;
      }
      ReprClosed(R, a.left, s);
    }
    forall a | a in A
      ensures a !in s.Repr
    {
      assert LocalOk(a);
      if a in s.Repr {
        ReprClosed(R, s, a);
        ReprClosed(R, a.left, s);
        assert false;
      }
    }
    if s != R {
      assert LocalOk(R);
      ParentLink(R, s);
      assert LocalOk(s.parent) && LocalOk(s);
      assert s.parent in A;
    }
  }

  /**
   * Outside the path from `R` down to its smallest node `s`, the nodes other
   * than `s` and its right child form a set closed under taking children.
   */
  lemma OffPathClosed(R: Node, s: Node)
    requires Valid(R) && s in R.Repr && forall k :: k in R.Keys ==> s.key <= k
    ensures Closed(R.Repr - Ancestors(R, s) - {s} - {s.right})
  {
    var A := Ancestors(R, s);
    var X := R.Repr - A - {s} - {s.right};
    MinimumAncestors(R, s);
    assert LocalOk(s);
    forall m | m in X
      ensures (m.left != null ==> m.left in X) && (m.right != null ==> m.right in X) && LocalOk(m)
    {
      assert LocalOk(m);
      if s != R {
        assert s.parent in A;
      }
      if m.left != null {
        assert LocalOk(m.left);
        ReprClosed(R, m, m.left);
      }
      if m.right != null {
        assert LocalOk(m.right);
        ReprClosed(R, m, m.right);
      }
    }
  }

  /**
   * The path from `R` down to its smallest node `s`: every node on it holds
   * `s` in its left subtree and a larger key, and the nodes off it (other than
   * `s` and its right child) form a set closed under taking children.
   */
  lemma SuccessorPath(R: Node, s: Node) returns (A: set<Node>)
    requires Valid(R) && s in R.Repr && forall k :: k in R.Keys ==> s.key <= k
    ensures A <= R.Repr && s !in A && (s.right == null || s.right !in A)
    ensures forall a :: a in A ==>
      a.left != null && (a.left == s || a.left in A) && s.key < a.key && (a.right == null || s !in a.right.Repr)
    ensures forall a :: a in A ==> a !in s.Repr && s in a.Repr
    ensures s != R ==> R in A && s.parent in A && s.parent.left == s
    ensures s == R ==> A == {}
    ensures Closed(R.Repr - A - {s} - {s.right})
  {
    A := Ancestors(R, s);
    MinimumAncestors(R, s);
    OffPathClosed(R, s);
    assert LocalOk(s);
  }

  /**
   * The nodes a two-child deletion rewires, as they were before it: the node
   * `n` being deleted, its right child `R`, the successor `s` (the smallest
   * node under `R`), the parent `sp` and right child `sr` of `s`, the nodes `A`
   * above `s` on the way down from `R`, and the nodes `X` of `R` other than
   * those, `s` and `sr`.
   */
  datatype Cut = Cut(n: Node, R: Node, s: Node, sp: Node, sr: Node?, A: set<Node>, X: set<Node>)

  /** The parent of the unlinked successor, when it lies on the spine, is locally sound again. */
  twostate lemma SpineParentOk(c: Cut)
    requires old(Valid(c.R)) && old(c.s in c.R.Repr) && old(c.s.left) == null && c.sp == old(c.s.parent) && c.sr == old(c.s.right)
    requires old(c.A <= c.R.Repr) && c.s !in c.A && (c.sr == null || c.sr !in c.A)
    requires forall a :: a in c.A ==>
      old(a.left) != null && (old(a.left) == c.s || old(a.left) in c.A) && old(c.s.key) < old(a.key) &&
      (old(a.right) == null || c.s !in old(a.right.Repr)) && a !in old(c.s.Repr) && c.s in old(a.Repr)
    requires c.s != c.R ==> c.sp in c.A && old(c.sp.left) == c.s
    requires c.X == old(c.R.Repr) - c.A - {c.s} - {c.sr}
    requires Closed(c.X) && unchanged(c.X)
    requires forall a :: a in c.A ==>
      a.key == old(a.key) && a.right == old(a.right) && a.parent == old(a.parent) &&
      a.left == (if a == c.sp then c.sr else old(a.left)) &&
      a.Repr == old(a.Repr) - {c.s} && a.Keys == old(a.Keys) - {old(c.s.key)}
    requires c.sr != null ==>
      c.sr.parent == c.sp && c.sr.key == old(c.sr.key) && c.sr.left == old(c.sr.left) && c.sr.right == old(c.sr.right) &&
      c.sr.Repr == old(c.sr.Repr) && c.sr.Keys == old(c.sr.Keys)
    requires c.sp in c.A
    ensures (c.sp.left != null ==> c.sp.left in old(c.R.Repr) - {c.s}) && (c.sp.right != null ==> c.sp.right in old(c.R.Repr) - {c.s})
    ensures LocalOk(c.sp)
  {
    var s, sp, sr, A, X := c.s, c.sp, c.sr, c.A, c.X;
    assert old(LocalOk(s)) && old(LocalOk(sp));
    assert old(sp.left) == s;
    assert sp.Repr == {sp} + ReprOf(sr) + ReprOf(sp.right);
    assert sp.Keys == {sp.key} + KeysOf(sr) + KeysOf(sp.right);
    var d := old(sp.right);
    if d != null {
      assert old(LocalOk(d));
      assert d != s && d != sr;
      assert d !in A;
      assert d in X;
      assert LocalOk(d);
    }
  }

  /** The other nodes of the spine above the unlinked successor are locally sound again. */
  twostate lemma SpineRestOk(c: Cut)
    requires old(Valid(c.R)) && old(c.s in c.R.Repr) && old(c.s.left) == null && c.sp == old(c.s.parent) && c.sr == old(c.s.right)
    requires old(c.A <= c.R.Repr) && c.s !in c.A && (c.sr == null || c.sr !in c.A)
    requires forall a :: a in c.A ==>
      old(a.left) != null && (old(a.left) == c.s || old(a.left) in c.A) && old(c.s.key) < old(a.key) &&
      (old(a.right) == null || c.s !in old(a.right.Repr)) && a !in old(c.s.Repr) && c.s in old(a.Repr)
    requires c.s != c.R ==> c.sp in c.A && old(c.sp.left) == c.s
    requires c.X == old(c.R.Repr) - c.A - {c.s} - {c.sr}
    requires Closed(c.X) && unchanged(c.X)
    requires forall a :: a in c.A ==>
      a.key == old(a.key) && a.right == old(a.right) && a.parent == old(a.parent) &&
      a.left == (if a == c.sp then c.sr else old(a.left)) &&
      a.Repr == old(a.Repr) - {c.s} && a.Keys == old(a.Keys) - {old(c.s.key)}
    requires c.sr != null ==>
      c.sr.parent == c.sp && c.sr.key == old(c.sr.key) && c.sr.left == old(c.sr.left) && c.sr.right == old(c.sr.right) &&
      c.sr.Repr == old(c.sr.Repr) && c.sr.Keys == old(c.sr.Keys)
    ensures forall a :: a in c.A && a != c.sp ==>
      (a.left != null ==> a.left in old(c.R.Repr) - {c.s}) && (a.right != null ==> a.right in old(c.R.Repr) - {c.s}) && LocalOk(a)
  {
    var R, s, sp, sr, A, X := c.R, c.s, c.sp, c.sr, c.A, c.X;
    assert old(LocalOk(s));
    forall a | a in A && a != sp
      ensures (a.left != null ==> a.left in old(R.Repr) - {s}) && (a.right != null ==> a.right in old(R.Repr) - {s}) && LocalOk(a)
    {
      assert old(LocalOk(a));
      assert old(a.left) != s && old(a.left) in A;
      var d := old(a.right);
      if d != null {
        assert old(LocalOk(d));
        assert d != s && d != sr;
        assert d !in A;
        assert d in X;
        assert LocalOk(d);
      }
    }
  }


  /** The right child of the unlinked successor, which now hangs from the successor's parent, is locally sound. */
  twostate lemma LiftedOk(c: Cut)
    requires c.sr != null
    requires old(Valid(c.R)) && old(c.s in c.R.Repr) && c.sp == old(c.s.parent) && c.sr == old(c.s.right)
    requires forall a :: a in c.A ==> a !in old(c.s.Repr)
    requires c.X == old(c.R.Repr) - c.A - {c.s} - {c.sr}
    requires Closed(c.X) && unchanged(c.X)
    requires c.sr.parent == c.sp && c.sr.key == old(c.sr.key) && c.sr.left == old(c.sr.left) && c.sr.right == old(c.sr.right) &&
      c.sr.Repr == old(c.sr.Repr) && c.sr.Keys == old(c.sr.Keys)
    ensures (c.sr.left != null ==> c.sr.left in c.X) && (c.sr.right != null ==> c.sr.right in c.X) && LocalOk(c.sr)
  {
    var R, s, sp, sr, A, X := c.R, c.s, c.sp, c.sr, c.A, c.X;
    assert old(LocalOk(s)) && old(LocalOk(sr));
    if sr.left != null {
      assert old(LocalOk(sr.left));
      assert sr.left in X;
      assert LocalOk(sr.left);
    }
    if sr.right != null {
      assert old(LocalOk(sr.right));
      assert sr.right in X;
      assert LocalOk(sr.right);
    }
  }

  /** A set made of a closed set, locally sound nodes whose children stay inside it, and one more such node, is closed. */
  lemma UnionClosed(T: set<Node>, X: set<Node>, A: set<Node>, sr: Node?)
    requires Closed(X) && X <= T && A <= T && (sr != null ==> sr in T)
    requires forall m :: m in T ==> m in X || m in A || m == sr
    requires forall a :: a in A ==> (a.left != null ==> a.left in T) && (a.right != null ==> a.right in T) && LocalOk(a)
    requires sr != null ==> (sr.left != null ==> sr.left in X) && (sr.right != null ==> sr.right in X) && LocalOk(sr)
    ensures Closed(T)
  {
    forall m | m in T
      ensures (m.left != null ==> m.left in T) && (m.right != null ==> m.right in T) && LocalOk(m)
    {
      if m in X {
        assert LocalOk(m);
      } else if m in A {
        assert LocalOk(m);
      }
    }
  }

  /** The root of the rewritten subtree is locally sound: it holds the successor's key between its two sides. */
  twostate lemma RootOk(c: Cut)
    requires old(LocalOk(c.n)) && old(c.n.left) != null && c.R == old(c.n.right)
    requires old(c.n.left in c.n.left.Repr) && unchanged(old(c.n.left.Repr))
    requires old(c.s in c.R.Repr) && old(c.s.key) in old(c.R.Keys) && forall k :: k in old(c.R.Keys) ==> old(c.s.key) <= k
    requires c.n.key == old(c.s.key) && c.n.left == old(c.n.left) && c.n.parent == old(c.n.parent)
    requires c.n.Repr == old(c.n.Repr) - {c.s} && c.n.Keys == old(c.n.Keys) - {old(c.n.key)}
    requires c.n.right != null ==>
      c.n.right.parent == c.n && c.n.right in c.n.right.Repr &&
      c.n.right.Repr == old(c.R.Repr) - {c.s} && c.n.right.Keys == old(c.R.Keys) - {old(c.s.key)}
    requires c.n.right == null ==> old(c.R.Repr) == {c.s} && old(c.R.Keys) == {old(c.s.key)}
    ensures LocalOk(c.n)
  {
    var n, L := c.n, c.n.left;
    assert old(n.key) < n.key;
    assert L.Keys == old(L.Keys) && L.Repr == old(L.Repr) && L.parent == n;
    assert forall k :: k in L.Keys ==> k < n.key;
    assert old(n.key) !in old(L.Keys) && old(n.key) !in old(c.R.Keys);
  }


  /**
   * The state after the successor `s` (the smallest node of `R`, the right
   * child of `n`) has been unlinked: `n` holds its key, the right child `sr`
   * of `s` hangs where `s` hung, and every node above `s` has dropped it from
   * its ghost view. Then `n` again roots a well-formed subtree.
   */
  twostate lemma SpliceValid(c: Cut)
    requires old(Valid(c.n)) && old(c.n.left) != null && c.R == old(c.n.right)
    requires old(Valid(c.R)) && old(Valid(c.n.left))
    requires old(c.s in c.R.Repr) && old(c.s.left) == null && c.sp == old(c.s.parent) && c.sr == old(c.s.right)
    requires forall k :: k in old(c.R.Keys) ==> old(c.s.key) <= k
    requires old(c.s.key) in old(c.R.Keys)
    requires old(c.A <= c.R.Repr) && c.s !in c.A && (c.sr == null || c.sr !in c.A)
    requires forall a :: a in c.A ==>
      old(a.left) != null && (old(a.left) == c.s || old(a.left) in c.A) && old(c.s.key) < old(a.key) &&
      (old(a.right) == null || c.s !in old(a.right.Repr)) && a !in old(c.s.Repr) && c.s in old(a.Repr)
    requires c.s != c.R ==> c.R in c.A && c.sp in c.A && old(c.sp.left) == c.s
    requires c.s == c.R ==> c.A == {} && c.sp == c.n
    requires c.X == old(c.R.Repr) - c.A - {c.s} - {c.sr}
    requires old(Closed(c.X)) && unchanged(c.X)
    requires forall a :: a in c.A ==>
      a.key == old(a.key) && a.right == old(a.right) && a.parent == old(a.parent) &&
      a.left == (if a == c.sp then c.sr else old(a.left)) &&
      a.Repr == old(a.Repr) - {c.s} && a.Keys == old(a.Keys) - {old(c.s.key)}
    requires c.sr != null ==>
      c.sr.parent == c.sp && c.sr.key == old(c.sr.key) && c.sr.left == old(c.sr.left) && c.sr.right == old(c.sr.right) &&
      c.sr.Repr == old(c.sr.Repr) && c.sr.Keys == old(c.sr.Keys)
    requires c.n.key == old(c.s.key) && c.n.left == old(c.n.left) && c.n.parent == old(c.n.parent)
    requires c.n.right == (if c.sp == c.n then c.sr else c.R)
    requires c.n.Repr == old(c.n.Repr) - {c.s} && c.n.Keys == old(c.n.Keys) - {old(c.n.key)}
    requires unchanged(old(c.n.left.Repr))
    ensures Valid(c.n)
  {
    var n, R, s, sp, sr, A, X := c.n, c.R, c.s, c.sp, c.sr, c.A, c.X;
    ghost var T := old(R.Repr) - {s};
    ghost var L := n.left;
    ClosedFrame(X);
    SpineRestOk(c);
    if s != R {
      SpineParentOk(c);
    }
    if sr != null {
      LiftedOk(c);
    }
    assert old(LocalOk(s)) && old(LocalOk(n));
    UnionClosed(T, X, A, sr);
    ClosedFrame(old(L.Repr));
    assert Valid(L);
    if n.right != null {
      assert n.right.Repr == T;
      assert n.right.Keys == old(R.Keys) - {old(s.key)};
    } else {
      assert old(R.Repr) == {s} && old(R.Keys) == {old(s.key)};
    }
    RootOk(c);
    Join(n);
  }

  /**
   * Unlinks the successor `s` of `n` (the smallest node of its right subtree
   * `R`): `n` takes its key and the right child of `s` takes its place under
   * its parent, whichever side of that parent it hangs from.
   */
  method Unlink(n: Node, ghost R: Node, s: Node, ghost A: set<Node>, ghost X: set<Node>)
    requires Valid(n) && n.left != null && R == n.right
    requires s in R.Repr && s.left == null && s.parent != null
    requires forall k :: k in R.Keys ==> s.key <= k
    requires A <= R.Repr && s !in A && (s.right == null || s.right !in A)
    requires forall a :: a in A ==>
      a.left != null && (a.left == s || a.left in A) && s.key < a.key && (a.right == null || s !in a.right.Repr)
    requires forall a :: a in A ==> a !in s.Repr && s in a.Repr
    requires s != R ==> R in A && s.parent in A && s.parent.left == s
    requires s == R ==> A == {} && s.parent == n
    requires s.key in R.Keys
    requires X == R.Repr - A - {s} - {s.right}
    requires Closed(X)
    requires n !in A && n !in X && s.parent !in X && (s.right != null ==> s.right !in X) && A !! X
    requires n.left.Repr !! ({n, s.parent, s.right} + A)
    requires s.parent == n || s.parent.right != s
    requires s.parent == n <==> s == R
    requires s.right != null ==> s.right != n && s.right != s.parent
    modifies {n, s.parent, s.right} + A
    ensures Valid(n)
    ensures n.key == old(s.key) && n.left == old(n.left) && n.parent == old(n.parent)
    ensures n.Repr == old(n.Repr) - {s} && n.Keys == old(n.Keys) - {old(n.key)}
    ensures old(s.parent) == n ==> n.right == old(s.right)
    ensures old(s.parent) != n ==> old(s.parent).left == old(s.right)
    ensures old(s.right) != null ==> old(s.right).parent == old(s.parent)
    ensures old(s.parent) != n ==> old(s.parent).right == old(s.parent.right)
    ensures forall m :: m in old(n.Repr) ==>
      (m != n ==> m.key == old(m.key)) &&
      (m != old(s.right) ==> m.parent == old(m.parent)) &&
      (m != old(s.parent) ==> m.left == old(m.left) && m.right == old(m.right))
  {
    ghost var sk, nk, sr := s.key, n.key, s.right;
    ChildrenValid(n);
    label B:
    n.key := s.key;
    var sp := s.parent;
    if sp.right == s {
      sp.right := s.right;
    } else {
      sp.left := s.right;
    }
    if s.right != null {
      s.right.parent := sp;
    }
    forall a | a in A {
      a.Repr := a.Repr - {s};
    }
    forall a | a in A {
      a.Keys := a.Keys - {sk};
    }
    n.Repr := n.Repr - {s};
    n.Keys := n.Keys - {nk};
    SpliceValid@B(Cut(n, R, s, sp, sr, A, X));
  }

  /**
   * The two-child case of deletion: the leftmost node of the right subtree
   * (the successor) gives its key to `n` and is unlinked from wherever it hangs.
   */
  method ReplaceBySuccessor(n: Node) returns (s: Node)
    requires Valid(n) && n.left != null && n.right != null
    modifies n.Repr
    ensures Valid(n)
    ensures s in old(n.right.Repr) && old(s.left) == null && n.key == old(s.key)
    ensures IsNextKey(old(n.Keys), old(n.key), n.key)
    ensures n.Repr == old(n.Repr) - {s} && n.Keys == old(n.Keys) - {old(n.key)}
    ensures n.parent == old(n.parent) && n.left == old(n.left)
    ensures old(s.parent) != null && (old(s.parent) == n <==> s == old(n.right))
    ensures s != old(n.right) ==> old(s.parent.left) == s
    ensures old(s.right) != null ==> old(s.right.parent) == s
    ensures s == old(n.right) ==> n.right == old(s.right)
    ensures s != old(n.right) ==> old(s.parent).left == old(s.right)
    ensures s != old(n.right) ==> n.right == old(n.right) && old(s.parent).right == old(s.parent.right)
    ensures old(s.right) != null ==> old(s.right).parent == old(s.parent)
    ensures forall m :: m in old(n.Repr) ==>
      (m != n ==> m.key == old(m.key)) &&
      (m != old(s.right) ==> m.parent == old(m.parent)) &&
      (m != old(s.parent) ==> m.left == old(m.left) && m.right == old(m.right))
  {
    assert LocalOk(n);
    ChildrenValid(n);
    var R := n.right;
    s := Minimum(R);
    RightMinimumIsNext(n, n, s);
    ghost var A := SuccessorPath(R, s);
    ghost var X := R.Repr - A - {s} - {s.right};
    ReprClosed(n, R, s);
    assert LocalOk(s);
    if s != R {
      assert LocalOk(s.parent);
    }
    if s.right != null {
      ReprClosed(n, R, s.right);
    }
    Unlink(n, R, s, A, X);
  }

  /** The parent a subtree root hangs from, as a frame (empty for a whole tree). */
  ghost function Above(no: Node?): set<Node>
    reads no
  {
    if no == null || no.parent == null then {} else {no.parent}
  }

  /** A subtree root whose parent link changed and nothing else still roots a well-formed subtree. */
  twostate lemma Reparented(c: Node)
    requires old(Valid(c)) && c.key == old(c.key) && c.left == old(c.left) && c.right == old(c.right)
    requires c.Repr == old(c.Repr) && c.Keys == old(c.Keys)
    requires forall m :: m in old(c.Repr) && m != c ==> unchanged(m)
    ensures Valid(c)
  {
    forall m | m in c.Repr
      ensures (m.left != null ==> m.left in c.Repr) && (m.right != null ==> m.right in c.Repr) && LocalOk(m)
    {
      assert old(LocalOk(m));
    }
  }

  /**
   * Removes a node with at most one child: that child (or nothing) takes its
   * place in the parent's slot, and the child's parent link skips the node.
   */
  method Bypass(no: Node) returns (c: Node?)
    requires Valid(no) && (no.left == null || no.right == null)
    requires no.parent != null ==> no.parent.left == no || no.parent.right == no
    modifies no.Repr, Above(no)
    ensures c == (if old(no.left) == null then old(no.right) else old(no.left))
    ensures c != null ==> Valid(c) && c.parent == old(no.parent)
    ensures KeysOf(c) == old(no.Keys) - {old(no.key)} && ReprOf(c) == old(no.Repr) - {no}
    ensures forall m :: m in ReprOf(c) ==> m.key == old(m.key)
    ensures forall m :: m in ReprOf(c) ==> m.left == old(m.left) && m.right == old(m.right)
    ensures forall m :: m in ReprOf(c) && m != c ==> m.parent == old(m.parent)
    ensures old(no.parent) != null ==>
      var p := old(no.parent);
      (if old(p.left) == no then p.left == c && p.right == old(p.right) else p.right == c && p.left == old(p.left)) &&
      p.key == old(p.key) && p.parent == old(p.parent) && p.Repr == old(p.Repr) && p.Keys == old(p.Keys)
  {
    assert LocalOk(no);
    ChildrenValid(no);
    if no.parent != null {
      ParentOutside(no);
    }
    c := if no.left == null then no.right else no.left;
    var p := no.parent;
    if c != null {
      c.parent := p;
      Reparented(c);
    }
    if p != null {
      if p.left == no {
        p.left := c;
      } else {
        p.right := c;
      }
    }
  }

  /**
   * Deletes `key` from the subtree rooted at `no` and returns the root of what
   * remains. A node with at most one child is bypassed; a node with two
   * children takes its successor's key and the successor is unlinked instead.
   * `gone` is the node that leaves the tree.
   */
  method Remove(no: Node?, key: int) returns (r: Node?, ghost gone: Node?)
    requires no != null ==> Valid(no)
    requires no != null && no.parent != null ==> no.parent.left == no || no.parent.right == no
    modifies ReprOf(no), Above(no)
    decreases ReprOf(no), 1
    ensures r != null ==> no != null && Valid(r) && r.parent == old(no.parent)
    ensures KeysOf(r) == old(KeysOf(no)) - {key}
    ensures key in old(KeysOf(no)) ==> gone != null && gone in old(ReprOf(no)) && ReprOf(r) == old(ReprOf(no)) - {gone}
    ensures key !in old(KeysOf(no)) ==> gone == null && r == no && ReprOf(r) == old(ReprOf(no))
    ensures key !in old(KeysOf(no)) ==> forall m :: m in old(ReprOf(no)) ==>
      m.key == old(m.key) && m.left == old(m.left) && m.right == old(m.right) && m.parent == old(m.parent)
    ensures no != null && (key != old(no.key) || (old(no.left) != null && old(no.right) != null)) ==> r == no
    ensures no != null && key == old(no.key) && (old(no.left) == null || old(no.right) == null) ==>
      r == (if old(no.left) == null then old(no.right) else old(no.left))
    ensures forall m :: m in ReprOf(r) ==> m.key == old(m.key) || (old(m.key) == key && IsNextKey(old(KeysOf(no)), key, m.key))
    ensures no != null ==> (r != no <==> gone == no)
    ensures gone != null ==> gone in old(ReprOf(no))
    ensures gone != null ==> old(gone.key) == key || IsNextKey(old(KeysOf(no)), key, old(gone.key))
    ensures gone != null ==> forall m :: m in old(ReprOf(no)) && m != gone ==>
      (m.parent == old(m.parent) || (old(m.parent) == gone && m.parent == old(gone.parent))) &&
      (m == old(gone.parent) || (m.left == old(m.left) && m.right == old(m.right)))
    ensures gone != null && old(gone.parent) != null ==>
      var p, c := old(gone.parent), if old(gone.left) == null then old(gone.right) else old(gone.left);
      if old(p.left) == gone then p.left == c && p.right == old(p.right) else p.right == c && p.left == old(p.left)
    ensures no != null && old(no.parent) != null ==>
      var p := old(no.parent);
      (if old(p.left) == no then p.left == r && p.right == old(p.right) else p.right == r && p.left == old(p.left)) &&
      p.key == old(p.key) && p.parent == old(p.parent) && p.Repr == old(p.Repr) && p.Keys == old(p.Keys)
  {
    if no == null {
      return null, null;
    }
    assert LocalOk(no);
    if no.parent != null {
      ParentOutside(no);
    }
    if key < no.key {
      gone := RemoveLeft(no, key);
      r := no;
    } else if key > no.key {
      gone := RemoveRight(no, key);
      r := no;
    } else if no.left == null || no.right == null {
      r := Bypass(no);
      gone := no;
    } else {
      gone := ReplaceBySuccessor(no);
      r := no;
    }
  }

  /**
   * The recursive step of deletion for a key smaller than the node's own: the
   * key is deleted from the left subtree, and the root of what remains of it
   * is stored back in the left slot.
   */
  method RemoveLeft(no: Node, key: int) returns (ghost gone: Node?)
    requires Valid(no) && key < no.key
    modifies no.Repr
    decreases no.Repr, 0
    ensures Valid(no) && no.key == old(no.key) && no.parent == old(no.parent)
    ensures no.Keys == old(no.Keys) - {key}
    ensures key in old(no.Keys) ==> gone != null && gone in old(no.Repr) && no.Repr == old(no.Repr) - {gone}
    ensures key !in old(no.Keys) ==> gone == null && no.Repr == old(no.Repr)
    ensures key !in old(no.Keys) ==> forall m :: m in old(no.Repr) ==>
      m.key == old(m.key) && m.left == old(m.left) && m.right == old(m.right) && m.parent == old(m.parent)
    ensures forall m :: m in no.Repr ==> m.key == old(m.key) || (old(m.key) == key && IsNextKey(old(no.Keys), key, m.key))
    ensures gone != null ==> gone in old(no.Repr)
    ensures gone != null ==> old(gone.key) == key || IsNextKey(old(no.Keys), key, old(gone.key))
    ensures gone != null ==> forall m :: m in old(no.Repr) && m != gone ==>
      (m.parent == old(m.parent) || (old(m.parent) == gone && m.parent == old(gone.parent))) &&
      (m == old(gone.parent) || (m.left == old(m.left) && m.right == old(m.right)))
    ensures gone != null && old(gone.parent) != null ==>
      var p, c := old(gone.parent), if old(gone.left) == null then old(gone.right) else old(gone.left);
      if old(p.left) == gone then p.left == c && p.right == old(p.right) else p.right == c && p.left == old(p.left)
  {
    assert LocalOk(no);
    ChildrenValid(no);
    gone := null;
    if no.left != null {
      var c;
      c, gone := Remove(no.left, key);
      no.left := c;
      Refresh(no);
    }
  }

  /**
   * The recursive step of deletion for a key larger than the node's own: the
   * key is deleted from the right subtree, and the root of what remains of it
   * is stored back in the right slot.
   */
  method RemoveRight(no: Node, key: int) returns (ghost gone: Node?)
    requires Valid(no) && no.key < key
    modifies no.Repr
    decreases no.Repr, 0
    ensures Valid(no) && no.key == old(no.key) && no.parent == old(no.parent)
    ensures no.Keys == old(no.Keys) - {key}
    ensures key in old(no.Keys) ==> gone != null && gone in old(no.Repr) && no.Repr == old(no.Repr) - {gone}
    ensures key !in old(no.Keys) ==> gone == null && no.Repr == old(no.Repr)
    ensures key !in old(no.Keys) ==> forall m :: m in old(no.Repr) ==>
      m.key == old(m.key) && m.left == old(m.left) && m.right == old(m.right) && m.parent == old(m.parent)
    ensures forall m :: m in no.Repr ==> m.key == old(m.key) || (old(m.key) == key && IsNextKey(old(no.Keys), key, m.key))
    ensures gone != null ==> gone in old(no.Repr)
    ensures gone != null ==> old(gone.key) == key || IsNextKey(old(no.Keys), key, old(gone.key))
    ensures gone != null ==> forall m :: m in old(no.Repr) && m != gone ==>
      (m.parent == old(m.parent) || (old(m.parent) == gone && m.parent == old(gone.parent))) &&
      (m == old(gone.parent) || (m.left == old(m.left) && m.right == old(m.right)))
    ensures gone != null && old(gone.parent) != null ==>
      var p, c := old(gone.parent), if old(gone.left) == null then old(gone.right) else old(gone.left);
      if old(p.left) == gone then p.left == c && p.right == old(p.right) else p.right == c && p.left == old(p.left)
  {
    assert LocalOk(no);
    ChildrenValid(no);
    gone := null;
    if no.right != null {
      var c;
      c, gone := Remove(no.right, key);
      no.right := c;
      Refresh(no);
    }
  }

  /**
   * The pointer the deletion routine hands back as it is written, on the
   * inputs where it returns at all (on others it follows a null parent, a
   * null sibling or a null right child of the successor first): each step of
   * the descent returns whatever the call on the child returns, so an absent
   * key yields null; a found leaf yields null as well, and a found node with
   * children is handed back itself.
   */
  function ReturnedAsWritten(no: Node?, key: int): (r: Node?)
    requires no != null ==> Valid(no)
    reads no, if no == null then {} else no.Repr
    decreases ReprOf(no)
    ensures r != null ==> r in ReprOf(no)
  {
    if no == null then null
    else
      Unfold(no);
      if key < no.key then ReturnedAsWritten(no.left, key)
      else if key > no.key then ReturnedAsWritten(no.right, key)
      else if no.left == null && no.right == null then null
      else no
  }

  /** What the routine as written hands back is null or a node with a child that holds the key. */
  lemma {:induction false} ReturnedAsWrittenIsFound(no: Node?, key: int)
    requires no != null ==> Valid(no)
    ensures var r := ReturnedAsWritten(no, key);
      r != null ==> r.key == key && (r.left != null || r.right != null)
    ensures key !in KeysOf(no) ==> ReturnedAsWritten(no, key) == null
    decreases ReprOf(no)
  {
    if no != null {
      Unfold(no);
      ReturnedAsWrittenIsFound(no.left, key);
      ReturnedAsWrittenIsFound(no.right, key);
    }
  }

  /**
   * Deleting any key other than the root's own, the routine as written never
   * hands back the root, so a caller that keeps the result as its tree loses
   * the tree: the empty tree or a subtree takes its place. Remove hands back
   * the root in exactly this case.
   */
  lemma RootLostAsWritten(R: Node, key: int)
    requires Valid(R) && key != R.key
    ensures ReturnedAsWritten(R, key) != R
    ensures key !in R.Keys ==> ReturnedAsWritten(R, key) == null
  {
    ReturnedAsWrittenIsFound(R, key);
  }
}
