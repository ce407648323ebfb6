// Measures of a tree computed by recursion over its links (height, number of
// nodes), its width taken from the two extremes, and the bracketed pre-order
// rendering of its keys.

module AbbMeasure {
  import opened Abb
  import opened AbbQuery

  /** The height of a subtree: -1 for the empty tree, 0 for a single node. */
  function Height(t: Node?): (h: int)
    requires t != null ==> Valid(t)
    reads t, if t == null then {} else t.Repr
    decreases ReprOf(t)
    ensures (h == -1) == (t == null)
    ensures -1 <= h < |ReprOf(t)|
  {
    if t == null then -1
    else
      Unfold(t);
      DisjointUnionSize(t, ReprOf(t.left), ReprOf(t.right));
      var hl := Height(t.left);
      var hr := Height(t.right);
      if hl > hr then hl + 1 else hr + 1
  }

  /** The number of nodes of a subtree, which is the number of keys it holds. */
  function NodeCount(t: Node?): (c: nat)
    requires t != null ==> Valid(t)
    reads t, if t == null then {} else t.Repr
    decreases ReprOf(t)
    ensures c == |ReprOf(t)| && c == |KeysOf(t)|
    ensures (c == 0) == (t == null)
  {
    if t == null then 0
    else
      Unfold(t);
      DisjointUnionSize(t, ReprOf(t.left), ReprOf(t.right));
      KeysCount(t);
      1 + NodeCount(t.left) + NodeCount(t.right)
  }

  function Pow2(e: nat): (p: nat)
    ensures p >= 1
  {
    if e == 0 then 1 else 2 * Pow2(e - 1)
  }

  /** One level of the recursions defining Height and NodeCount. */
  lemma MeasureStep(t: Node)
    requires Valid(t)
    ensures ReprOf(t.left) < t.Repr && ReprOf(t.right) < t.Repr
    ensures (t.left != null ==> Valid(t.left)) && (t.right != null ==> Valid(t.right))
    ensures Height(t) == (if Height(t.left) > Height(t.right) then Height(t.left) else Height(t.right)) + 1
    ensures NodeCount(t) == 1 + NodeCount(t.left) + NodeCount(t.right)
  {
    Unfold(t);
  }

  /**
   * A subtree of height h has at most 2^(h+1) - 1 nodes, the size of the
   * full tree of that height.
   */
  lemma {:induction false} CountAtMostFull(t: Node?)
    requires t != null ==> Valid(t)
    ensures NodeCount(t) <= Pow2(Height(t) + 1) - 1
    decreases ReprOf(t)
  {
    if t != null {
      MeasureStep(t);
      CountAtMostFull(t.left);
      CountAtMostFull(t.right);
      FullStep(NodeCount(t.left), NodeCount(t.right), Height(t.left), Height(t.right));
    } else {
      assert Pow2(0) == 1;
    }
  }

  /** The counting step of CountAtMostFull: two subtrees within their bounds under a new root. */
  lemma FullStep(cl: int, cr: int, hl: int, hr: int)
    requires hl >= -1 && hr >= -1
    requires cl <= Pow2(hl + 1) - 1 && cr <= Pow2(hr + 1) - 1
    ensures 1 + cl + cr <= Pow2((if hl > hr then hl + 1 else hr + 1) + 1) - 1
  {
    var h := if hl > hr then hl + 1 else hr + 1;
    PowMonotone(hl + 1, h);
    PowMonotone(hr + 1, h);
    assert Pow2(h + 1) == 2 * Pow2(h);
  }

  lemma {:induction false} PowMonotone(a: nat, b: nat)
    requires a <= b
    ensures Pow2(a) <= Pow2(b)
    decreases b
  {
    if a < b {
      PowMonotone(a, b - 1);
    }
  }

  /** A subtree has height 0 exactly when it is a single node. */
  lemma LeafHeight(t: Node)
    requires Valid(t)
    ensures (Height(t) == 0) == (t.left == null && t.right == null)
  {
    assert LocalOk(t);
    Unfold(t);
  }

  /**
   * The width of a subtree: the largest key minus the smallest, taken from
   * the two extremes; 0 for the empty tree.
   */
  method Width(t: Node?) returns (w: int)
    requires t != null ==> Valid(t)
    ensures w >= 0
    ensures t == null ==> w == 0
    ensures t != null ==> forall a, b :: a in t.Keys && b in t.Keys ==> a - b <= w
    ensures t != null ==> exists a, b :: a in t.Keys && b in t.Keys && a - b == w
    ensures (w == 0) == (t == null || (t.left == null && t.right == null))
  {
    if t == null {
      return 0;
    }
    var min := Minimum(t);
    var max := Maximum(t);
    w := max.key - min.key;
    assert LocalOk(t);
    if t.left != null {
      assert LocalOk(t.left);
    }
    if t.right != null {
      assert LocalOk(t.right);
    }
  }

  /** The decimal notation of an integer, with a leading '-' when it is negative. */
  function Decimal(i: int): (s: string)
    ensures |s| > 0
    ensures forall k :: 0 <= k < |s| ==> s[k] == '-' || '0' <= s[k] <= '9'
    ensures (s[0] == '-') == (i < 0)
    decreases if i < 0 then 1 - i else i
  {
    if i < 0 then "-" + Decimal(-i)
    else if i < 10 then [('0' as int + i) as char]
    else Decimal(i / 10) + [('0' as int + i % 10) as char]
  }

  /** The number a string of decimal digits denotes, its last digit the least significant. */
  function DigitsValue(s: string): int
  {
    if s == [] then 0 else 10 * DigitsValue(s[..|s| - 1]) + (s[|s| - 1] as int - '0' as int)
  }

  /** The number a decimal notation denotes: its digits' value, negated after a leading '-'. */
  function NotationValue(s: string): int
  {
    if |s| > 0 && s[0] == '-' then -DigitsValue(s[1..]) else DigitsValue(s)
  }

  /** The decimal notation of a number denotes that number. */
  lemma {:induction false} DecimalValue(i: int)
    ensures NotationValue(Decimal(i)) == i
  {
    if i < 0 {
      NaturalDecimalValue(-i);
      assert Decimal(i)[1..] == Decimal(-i);
    } else {
      NaturalDecimalValue(i);
    }
  }

  lemma {:induction false} NaturalDecimalValue(i: nat)
    ensures DigitsValue(Decimal(i)) == i
    decreases i
  {
    if i >= 10 {
      NaturalDecimalValue(i / 10);
      var s := Decimal(i);
      assert s[..|s| - 1] == Decimal(i / 10);
    }
  }

  /** Different numbers have different notations, so a rendering names its keys unambiguously. */
  lemma DecimalInjective(i: int, j: int)
    requires Decimal(i) == Decimal(j)
    ensures i == j
  {
    DecimalValue(i);
    DecimalValue(j);
  }

  /**
   * The pre-order rendering of a subtree: each subtree is enclosed in angle
   * brackets, and a non-empty one lists its key and a space before its two
   * subtrees.
   */
  function Show(t: Node?): (s: string)
    requires t != null ==> Valid(t)
    reads t, if t == null then {} else t.Repr
    decreases ReprOf(t)
    ensures |s| >= 2 && s[0] == '<' && s[|s| - 1] == '>'
  {
    if t == null then "<>"
    else
      Unfold(t);
      "<" + Decimal(t.key) + " " + Show(t.left) + Show(t.right) + ">"
  }

  /** The number of occurrences of `c` in `s`. */
  function Occurrences(s: string, c: char): nat
  {
    if s == [] then 0 else (if s[0] == c then 1 else 0) + Occurrences(s[1..], c)
  }

  lemma {:induction false} OccurrencesAppend(a: string, b: string, c: char)
    ensures Occurrences(a + b, c) == Occurrences(a, c) + Occurrences(b, c)
    decreases |a|
  {
    if a == [] {
      assert a + b == b;
    } else {
      assert (a + b)[0] == a[0];
      assert (a + b)[1..] == a[1..] + b;
      OccurrencesAppend(a[1..], b, c);
    }
  }

  lemma {:induction false} NoBracketInDecimal(i: int, c: char)
    requires c == '<' || c == '>'
    ensures Occurrences(Decimal(i), c) == 0
  {
    var s := Decimal(i);
    NoOccurrence(s, c);
  }

  lemma {:induction false} NoOccurrence(s: string, c: char)
    requires forall k :: 0 <= k < |s| ==> s[k] != c
    ensures Occurrences(s, c) == 0
    decreases |s|
  {
    if s != [] {
      NoOccurrence(s[1..], c);
    }
  }

  /** Counting a bracket in one rendered node: its own pair plus those of its two subtrees. */
  lemma BracketsOfNode(d: string, l: string, r: string, c: char)
    requires c == '<' || c == '>'
    requires Occurrences(d, c) == 0
    ensures Occurrences("<" + d + " " + l + r + ">", c) == Occurrences(l, c) + Occurrences(r, c) + 1
  {
    OccurrencesAppend("<" + d + " " + l + r, ">", c);
    OccurrencesAppend("<" + d + " " + l, r, c);
    OccurrencesAppend("<" + d + " ", l, c);
    OccurrencesAppend("<" + d, " ", c);
    OccurrencesAppend("<", d, c);
    assert Occurrences(" ", c) == 0 && Occurrences("<", c) + Occurrences(">", c) == 1 by {
      assert " "[1..] == [] && "<"[1..] == [] && ">"[1..] == [];
    }
  }

  /**
   * The rendering opens and closes one bracket pair for every node and for
   * every empty slot: 2n + 1 pairs for a subtree of n nodes.
   */
  lemma {:induction false} ShowBrackets(t: Node?, c: char)
    requires t != null ==> Valid(t)
    requires c == '<' || c == '>'
    ensures Occurrences(Show(t), c) == 2 * NodeCount(t) + 1
    decreases ReprOf(t)
  {
    if t == null {
      assert "<>"[1..] == ">" && ">"[1..] == [];
    } else {
      Unfold(t);
      ShowBrackets(t.left, c);
      ShowBrackets(t.right, c);
      NoBracketInDecimal(t.key, c);
      BracketsOfNode(Decimal(t.key), Show(t.left), Show(t.right), c);
    }
  }

  /**
   * The keys of a subtree in the order a pre-order walk visits them: the root,
   * then the left subtree, then the right subtree. Each key occurs once.
   */
  function PreOrder(t: Node?): (ks: seq<int>)
    requires t != null ==> Valid(t)
    reads t, if t == null then {} else t.Repr
    decreases ReprOf(t)
    ensures |ks| == NodeCount(t)
    ensures forall k :: k in ks <==> k in KeysOf(t)
    ensures t != null ==> ks[0] == t.key
  {
    if t == null then []
    else
      MeasureStep(t);
      Unfold(t);
      [t.key] + PreOrder(t.left) + PreOrder(t.right)
  }

  /** A string with its angle brackets taken out. */
  function Unbracket(s: string): string
  {
    if s == [] then [] else (if s[0] == '<' || s[0] == '>' then [] else [s[0]]) + Unbracket(s[1..])
  }

  /** The decimal notations of the keys, each followed by a space, one after the other. */
  function Spell(ks: seq<int>): string
  {
    if ks == [] then [] else Decimal(ks[0]) + " " + Spell(ks[1..])
  }

  lemma {:induction false} UnbracketAppend(a: string, b: string)
    ensures Unbracket(a + b) == Unbracket(a) + Unbracket(b)
    decreases |a|
  {
    if a == [] {
      assert a + b == b;
    } else {
      assert (a + b)[0] == a[0];
      assert (a + b)[1..] == a[1..] + b;
      UnbracketAppend(a[1..], b);
    }
  }

  lemma {:induction false} UnbracketKeeps(s: string)
    requires forall k :: 0 <= k < |s| ==> s[k] != '<' && s[k] != '>'
    ensures Unbracket(s) == s
    decreases |s|
  {
    if s != [] {
      UnbracketKeeps(s[1..]);
    }
  }

  lemma {:induction false} SpellAppend(a: seq<int>, b: seq<int>)
    ensures Spell(a + b) == Spell(a) + Spell(b)
    decreases |a|
  {
    if a == [] {
      assert a + b == b;
    } else {
      assert (a + b)[0] == a[0];
      assert (a + b)[1..] == a[1..] + b;
      SpellAppend(a[1..], b);
    }
  }

  /** Taking the brackets out of one rendered node leaves its key's notation, a space and its two subtrees. */
  lemma UnbracketNode(d: string, l: string, r: string)
    requires forall k :: 0 <= k < |d| ==> d[k] != '<' && d[k] != '>'
    ensures Unbracket("<" + d + " " + l + r + ">") == d + " " + Unbracket(l) + Unbracket(r)
  {
    UnbracketAppend("<" + d + " " + l + r, ">");
    UnbracketAppend("<" + d + " " + l, r);
    UnbracketAppend("<" + d + " ", l);
    UnbracketAppend("<" + d, " ");
    UnbracketAppend("<", d);
    UnbracketKeeps(d);
    assert Unbracket("<") == [] && Unbracket(">") == [] && Unbracket(" ") == " " by {
      assert "<"[1..] == [] && ">"[1..] == [] && " "[1..] == [];
    }
  }

  /**
   * Without its brackets, the rendering of a subtree lists the decimal
   * notations of its keys in pre-order, each followed by a space.
   */
  lemma {:induction false} ShowSpellsPreOrder(t: Node?)
    requires t != null ==> Valid(t)
    ensures Unbracket(Show(t)) == Spell(PreOrder(t))
    decreases ReprOf(t)
  {
    if t == null {
      assert "<>"[1..] == ">" && ">"[1..] == [];
    } else {
      Unfold(t);
      ShowSpellsPreOrder(t.left);
      ShowSpellsPreOrder(t.right);
      UnbracketNode(Decimal(t.key), Show(t.left), Show(t.right));
      SpellNode(t.key, PreOrder(t.left), PreOrder(t.right));
    }
  }

  /** Spelling a node's pre-order: its key's notation and a space, then its two subtrees' spellings. */
  lemma SpellNode(k: int, l: seq<int>, r: seq<int>)
    ensures Spell([k] + l + r) == Decimal(k) + " " + Spell(l) + Spell(r)
  {
    var ks := [k] + l + r;
    assert ks[0] == k && ks[1..] == l + r;
    SpellAppend(l, r);
  }
}
