# arvoreBinaria: a verified model of a binary search tree with parent links

The modelled program is a small C library (`abb.c`, `abb.h`) for an unbalanced
binary search tree ("árvore binária de busca", ABB) of `int` keys. Every node
(`struct abb`) holds a key (`chave`), its parent (`pai`) and its two children
(`esq`, `dir`). The tree is given by a pointer to its root, and `NULL` is the
empty tree. The library provides these operations:

- create a leaf (`abb_novoFilho`);
- insert and remove a key (`abb_insere`, `abb_remove`);
- search for a key (`abb_busca`);
- find the extremes of a subtree (`abb_minimo`, `abb_maximo`);
- walk to the in-order neighbours of a node (`abb_sucessor`, `abb_antecessor`);
- measure a tree by height, node count and width (`abb_altura`, `abb_qtdNos`,
  `abb_largura`);
- print it in bracket notation (`showTree`).

The model keeps the program's form. Nodes are heap objects of the class
`Abb.Node` whose fields the operations update in place. The loops stay loops,
and the recursive functions stay recursive.

Each node carries two ghost fields:

- `Repr`, the set of nodes of its subtree;
- `Keys`, the set of keys of its subtree.

The invariant is `Abb.Valid(n)`. Every node of the subtree must be locally
sound (`Abb.LocalOk`):

- each child points back at it;
- keys on the left are smaller and keys on the right are larger;
- the two child subtrees share no node;
- `Repr` and `Keys` are the node's own plus its children's.

A whole tree (`Abb.IsTree`) is empty, or is a valid subtree whose root has no
parent.

Modules, one per concern of the C file:

- `Abb` (`abb_tree.dfy`): the node record, the invariant and the structural
  lemmas every operation relies on. These include distinct keys, node count
  equal to key count, and parent links staying inside the tree.
- `AbbInsert` (`abb_insert.dfy`): insertion.
- `AbbQuery` (`abb_query.dfy`): search, minimum, maximum, successor and
  predecessor.
- `AbbRemove` (`abb_remove.dfy`): deletion in its three cases. This module also
  holds the return value of the deletion routine as it is written, which is
  described under Findings.
- `AbbMeasure` (`abb_measure.dfy`): height, node count, width, and the
  bracketed rendering.

## Model

| member | source | states |
|---|---|---|
| Abb.Node.constructor | abb.c:13-22 | The new node holds the given key and parent and has no children. It is a valid one-node subtree whose only key is the given one. |
| Abb.KeysDistinct | abb.h:1-6 | In a valid subtree, two nodes with the same key are the same node. The tree is a set of keys without duplicates. |
| Abb.KeysCount | abb.h:1-6 | A valid subtree has exactly as many distinct keys as nodes. |
| Abb.ParentLink | abb.h:1-6 | Every node of a valid subtree other than its root has a parent inside that subtree, and the parent holds it in its left or right slot. The `pai` links therefore stay inside the tree. |
| Abb.Convex | abb.h:1-6 | A key of the tree that lies between two keys of a subtree belongs to that subtree. |
| Abb.ParentOutside | abb.h:1-6 | The parent of a subtree's root never lies inside that subtree, so walking up the `pai` links cannot loop. |
| Abb.ChildrenValid | abb.h:1-6 | Both children of a valid node root valid subtrees. |
| Abb.Unfold | abb.h:1-6 | A valid subtree is locally sound at its root, and its children are valid. |
| Abb.ClosedFrame | abb.h:1-6 | A closed set of nodes whose fields did not change is still closed. Subtrees that an update does not touch stay well-formed. |
| AbbInsert.AttachLeft | abb.c:36-40 | Storing a valid subtree of smaller keys in the left slot keeps the node valid. The node's key, parent and right child are unchanged, and its nodes and keys become its own plus those of both children. |
| AbbInsert.AttachRight | abb.c:42-46 | Mirror of AttachLeft for the right slot and larger keys. |
| AbbInsert.Insert | abb.c:31-49 | The result is a valid subtree with the old keys plus the new key. The empty tree becomes a fresh parentless leaf; otherwise the same root is returned with its parent unchanged. No old node changes its key or parent, and every added node is fresh and holds the new key. A key already present leaves all nodes and links as they were. |
| AbbQuery.Search | abb.c:114-125 | The empty tree gives null. Otherwise the result is a node of the tree holding the key, and it is the only such node. |
| AbbQuery.Minimum | abb.c:187-195 | The result is null exactly for the empty tree. Otherwise it is a node of the subtree with no left child whose key is at most every key of the subtree. |
| AbbQuery.Maximum | abb.c:205-213 | The result is null exactly for the empty tree. Otherwise it is a node of the subtree with no right child whose key is at least every key of the subtree. |
| AbbQuery.Successor | abb.c:135-151 | For a node of a whole tree, the result holds the smallest key of the tree greater than the node's key, and is null exactly when no key is greater. It lies in the right subtree when there is one. |
| AbbQuery.Predecessor | abb.c:161-177 | Mirror of Successor: the largest smaller key, or null exactly when no key is smaller. |
| AbbQuery.RightMinimumIsNext | abb.c:138-139 | The smallest key of a node's right subtree is the next key after the node's key in the whole tree. |
| AbbQuery.LeftMaximumIsPrev | abb.c:164-165 | The largest key of a node's left subtree is the previous key before the node's key in the whole tree. |
| AbbQuery.LeftTurnIsNext | abb.c:141-149 | Suppose the upward walk stops at the first ancestor reached from its left side. That ancestor holds the next key after the start node's key. |
| AbbQuery.RightTurnIsPrev | abb.c:167-175 | Suppose the upward walk stops at the first ancestor reached from its right side. That ancestor holds the previous key. |
| AbbQuery.TopIsRoot | abb.c:144-148 | If the upward walk reaches a node without a parent, that node is the root of the whole tree. This is the case where the result is null. |
| AbbRemove.Remove | abb.c:58-105 | The result holds the old keys minus the removed key, and it is valid. When the key was absent, `gone` is null, the same root is returned, and no node or link changed. When the key was present, exactly one node `gone` left the tree. It held the key, or the key that follows it in the tree, and the root changes exactly when `gone` was the root. The shape is fixed as follows. Only `gone`'s child changes its parent, to `gone`'s old parent. Only `gone`'s old parent changes a child slot: the slot that held `gone` now holds `gone`'s child, and its other slot is unchanged. Every other remaining node keeps its parent and both child links. Every remaining node keeps its key, or took the key that followed the removed one. |
| AbbRemove.RemoveLeft | abb.c:62-63 | Deleting a key smaller than the node's own from its left subtree, and storing what remains back in the left slot, keeps the node valid with the same key and parent. The keys shrink by exactly the removed key, and the node set shrinks by at most one node. An absent key changes no node. A removed node held the key or the next key. As in Remove, only its child changes its parent, and only its old parent changes a slot, the one that held it, which now holds its child. |
| AbbRemove.RemoveRight | abb.c:65-66 | Mirror of RemoveLeft for a larger key and the right subtree, with the same frame on parents and child links. |
| AbbRemove.Bypass | abb.c:69-91 | A node with at most one child is spliced out. Its own child takes its place, and the child's parent link becomes the node's old parent. The parent's slot that held the node now holds that child, and the parent's other slot and key are unchanged. Every node of the child's subtree keeps both child links, and all of them except the child keep their parent. The subtree that remains has the old nodes and keys minus the spliced node. |
| AbbRemove.ReplaceBySuccessor | abb.c:92-102 | For a node with two children, the node takes over the key that follows its own among the subtree's keys. That key is held by a node of the right subtree with no left child, and that node is unlinked. The successor's right child takes the successor's old slot: the node's right slot when the successor is the node's right child, otherwise the left slot of the successor's parent, whose right slot and the node's right slot stay as they were. That child points back at the successor's old parent. Every other node of the subtree keeps its key, its parent and its child links. The node's left child and parent do not change. The result is valid, with the same nodes minus the successor node and the same keys minus the old key. |
| AbbRemove.Unlink | abb.c:96-101 | The successor's key is copied into the node. The successor's right child takes the successor's old slot: the node's right slot when the successor was its right child, otherwise the left slot of the successor's parent, whose right slot is unchanged. That child's parent link becomes the successor's old parent. Every other node keeps its key, its parent and its child links. The subtree stays valid and loses exactly the successor node and the node's old key. |
| AbbRemove.SuccessorPath | abb.c:93-95 | Descending from the right child to its minimum passes only through nodes that hold it on their left and whose keys are greater. Everything else of that subtree, apart from the minimum and its right child, forms a closed set. |
| AbbRemove.SpliceValid | abb.c:96-101 | The ghost bookkeeping of the two-child case: after the key copy and the relink, the node is the root of a valid subtree again. |
| AbbRemove.ReturnedAsWritten | abb.c:58-105 | What the deletion routine as written returns, on the inputs where it returns at all. The result is null or a node of the tree. |
| AbbRemove.ReturnedAsWrittenIsFound | abb.c:62-66 | What the routine as written returns is null or a node with a child holding the key. When the key is absent it is null. |
| AbbRemove.RootLostAsWritten | abb.c:62-66 | When any key other than the root's is deleted, the routine as written does not return the root, and for an absent key it returns null. |
| AbbMeasure.Height | abb.c:222-235 | The height is -1 exactly for the empty tree and is smaller than the number of nodes. |
| AbbMeasure.NodeCount | abb.c:244-249 | The count equals both the number of nodes and the number of distinct keys of the subtree, and is 0 exactly for the empty tree. |
| AbbMeasure.CountAtMostFull | abb.c:222-249 | A subtree of height h has at most 2^(h+1) - 1 nodes, the size of the full tree of height h. |
| AbbMeasure.LeafHeight | abb.c:222-235 | The height is 0 exactly when the subtree is a single node. |
| AbbMeasure.Width | abb.c:259-270 | The width is 0 for the empty tree. Otherwise it is the largest difference between two keys of the tree, and some two keys attain it. It is 0 exactly when the tree has at most one node. |
| AbbMeasure.Decimal | abb.c:310 | The decimal text of a key is non-empty and made of digits and '-' only. It starts with '-' exactly when the key is negative. |
| AbbMeasure.DecimalValue | abb.c:310 | The text that `%d` prints for a key denotes that key: read back as a signed decimal number, it gives the key. |
| AbbMeasure.DecimalInjective | abb.c:310 | Two keys with the same printed text are the same key. |
| AbbMeasure.PreOrder | abb.c:309-312 | The pre-order key sequence of a subtree starts with the root's key, has one entry per node, and holds exactly the subtree's keys. |
| AbbMeasure.ShowSpellsPreOrder | abb.c:302-315 | Without its brackets, the rendering lists the subtree's keys in pre-order, each as its decimal text followed by a space. |
| AbbMeasure.Show | abb.c:302-315 | The rendering of every subtree, empty or not, opens with '<' and closes with '>'. |
| AbbMeasure.ShowBrackets | abb.c:302-315 | The rendering of a subtree of n nodes contains exactly 2n + 1 opening and 2n + 1 closing brackets: one pair per node and one per empty slot. |

## Findings

| source | as written | input that shows it | evidently intended | confidence | as-written member | corrected member |
|---|---|---|---|---|---|---|
| abb.c:62-66 | The `<` and `>` branches return what the recursive call on the child returns. The caller therefore gets back null, for an absent key or a removed leaf, or gets the removed node or a node below the root. | Tree 7 with right child 9; remove 9. The call returns NULL. A caller that rebinds its tree to the result, as callers do with `abb_insere` (`a = abb_insere(a, 7)` at abb.c:323), loses the whole tree with `a = abb_remove(a, 9)`. The only call in the source, commented out at abb.c:335, stores the result in a separate variable. | Each step of the descent should store the result in the child slot and return the node itself, so the top-level call returns the root. AbbRemove.RemoveLeft and AbbRemove.RemoveRight do this. | high; not executed | AbbRemove.RootLostAsWritten | AbbRemove.Remove |

## Left out

- AbbRemove.Remove models the intended deletion, not several other defects of
  abb.c:69-102 (each discussed here, none modelled):
  - abb.c:80-83: the one-child case takes a child of the parent (`no->pai->dir`
    or `no->pai->esq`) instead of the node's own child. The model splices in
    the node's own child.
  - abb.c:70-73 and abb.c:80-89: the leaf and one-child cases dereference
    `no->pai`, which is NULL when the root itself is deleted. The model returns
    the remaining child, or the empty tree, as the new root.
  - abb.c:97-100: the two-child case unlinks the successor only when it hangs
    as a right child, which happens only when it is the node's own right child.
    A successor found deeper, as a left child, stays linked after being freed.
    The model relinks it on whichever side it hangs.
  - abb.c:99: the two-child case dereferences `sucessor->dir` even when it is
    NULL. The model updates that parent link only when there is a right child.
- AbbRemove.ReplaceBySuccessor finds the successor with `AbbQuery.Minimum` of
  the right subtree. abb.c:93-95 inlines the same loop.
- AbbRemove.Remove, AbbRemove.RemoveLeft and AbbRemove.RemoveRight return the removed node as a ghost
  value `gone`, so that the contracts can name it. The C code frees it.
- AbbQuery.Search requires the key to be present in a non-empty tree. On an
  absent key the loop at abb.c:118-124 follows a NULL child and dereferences
  it, so the C code gives no defined behaviour to model.
- AbbQuery.Successor and AbbQuery.Predecessor take the tree's root as a ghost
  parameter, to state which tree "next" and "previous" are measured in. The C
  functions only take the node.
- Memory management: `malloc` in abb.c:14 and `free` in abb.c:74, 90 and 101
  are left out. New nodes are Dafny allocations, and removed nodes simply leave
  the tree.
- AbbMeasure.Width uses unbounded integers. The C subtraction at abb.c:269
  overflows `int` when the two extreme keys are far apart, for example
  INT_MAX and a negative key. The model states the mathematical difference.
- Keys are unbounded integers throughout. C `int` is 32 bits, but no other
  operation does arithmetic on keys.
- AbbMeasure.Show returns the rendered text instead of printing it with
  `printf`. Output itself is I/O and is not modelled.
- `abb_densidade` (abb.c:281-292) is commented out in the source and not
  compiled, so it is not modelled. AbbMeasure.CountAtMostFull proves the
  bound that the comment at abb.c:273-276 describes: the size 2^(h+1) - 1 of
  the full tree of height h. The commented-out formula at abb.c:289 computes
  (h+1)^2 - 1 instead, which differs from it except at h = 1 and h = 3.
- `treeIsEmpty` (abb.c:295-300) is the test `t == null`, written inline in the
  model.
- `main` (abb.c:317-363) is a demonstration driver that prints results, so it
  is not modelled.
