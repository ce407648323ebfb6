// Insertion: a new leaf is created by the node constructor and hung from the
// node whose empty slot the descent reaches.

module AbbInsert {
  import opened Abb

  /**
   * Stores `c` in the left slot of `p` (the assignment `no->esq = ...`) and
   * brings the ghost view of `p` up to date.
   */
  method AttachLeft(p: Node, c: Node?)
    requires c != null ==> Valid(c) && c.parent == p && p !in c.Repr && forall k :: k in c.Keys ==> k < p.key
    requires p.right != null ==> Valid(p.right) && p.right.parent == p && p !in p.right.Repr && forall k :: k in p.right.Keys ==> p.key < k
    requires c != null && p.right != null ==> c.Repr !! p.right.Repr
    modifies p
    ensures Valid(p) && p.left == c
    ensures p.key == old(p.key) && p.parent == old(p.parent) && p.right == old(p.right)
    ensures p.Repr == {p} + ReprOf(c) + ReprOf(p.right)
    ensures p.Keys == {p.key} + KeysOf(c) + KeysOf(p.right)
  {
    p.left := c;
    Refresh(p);
  }

  /**
   * Stores `c` in the right slot of `p` (the assignment `no->dir = ...`) and
   * brings the ghost view of `p` up to date.
   */
  method AttachRight(p: Node, c: Node?)
    requires c != null ==> Valid(c) && c.parent == p && p !in c.Repr && forall k :: k in c.Keys ==> p.key < k
    requires p.left != null ==> Valid(p.left) && p.left.parent == p && p !in p.left.Repr && forall k :: k in p.left.Keys ==> k < p.key
    requires c != null && p.left != null ==> c.Repr !! p.left.Repr
    modifies p
    ensures Valid(p) && p.right == c
    ensures p.key == old(p.key) && p.parent == old(p.parent) && p.left == old(p.left)
    ensures p.Repr == {p} + ReprOf(p.left) + ReprOf(c)
    ensures p.Keys == {p.key} + KeysOf(p.left) + KeysOf(c)
  {
    p.right := c;
    Refresh(p);
  }

  /**
   * Recursive insertion. The empty tree becomes a new parentless leaf; a
   * non-empty tree keeps its root, and a key not yet present gets a new leaf
   * hanging from the node whose empty slot the descent reached. A key already
   * present changes no link, since only the strict `<` and `>` branches act.
   * Nodes already in the tree keep their keys and their parents.
   */
  method Insert(no: Node?, key: int) returns (r: Node)
    requires no != null ==> Valid(no)
    modifies ReprOf(no)
    decreases ReprOf(no)
    ensures Valid(r)
    ensures no != null ==> r == no && r.parent == old(no.parent)
    ensures no == null ==> fresh(r) && r.parent == null && r.key == key && r.left == null && r.right == null
    ensures r.Keys == old(KeysOf(no)) + {key}
    ensures old(ReprOf(no)) <= r.Repr && fresh(r.Repr - old(ReprOf(no)))
    ensures forall m :: m in r.Repr && m !in old(ReprOf(no)) ==> m.key == key
    ensures forall m :: m in old(ReprOf(no)) ==> m.key == old(m.key) && m.parent == old(m.parent)
    ensures key in old(KeysOf(no)) ==> r.Repr == old(ReprOf(no))
    ensures key in old(KeysOf(no)) ==> forall m :: m in r.Repr ==> m.left == old(m.left) && m.right == old(m.right)
  {
    if no == null {
      r := new Node(null, key);
      return;
    }
    assert LocalOk(no);
    ChildrenValid(no);
    r := no;
    if key < no.key {
      var l;
      if no.left == null {
        l := new Node(no, key);
      } else {
        l := Insert(no.left, key);
      }
      AttachLeft(no, l);
    } else if key > no.key {
      var rr;
      if no.right == null {
        rr := new Node(no, key);
      } else {
        rr := Insert(no.right, key);
      }
      AttachRight(no, rr);
    }
  }
}
