// Laying the tree out as tables (publicsuffix/gen.go): assignIndexes numbers nodes and
// encodes children blocks in one walk, printNode emits the nodes in another.

module Layout {
  import opened Tables
  import opened Trie

  // ------------------------------------------------------- sizes of a tree

  function Descendants(n: Node): nat
    decreases n, 1
  {
    |n.children| + DescendantsOfAll(n.children)
  }

  function DescendantsOfAll(cs: seq<Node>): nat
    decreases cs, 0
  {
    if cs == [] then 0 else Descendants(cs[0]) + DescendantsOfAll(cs[1..])
  }

  /** How many nodes of the tree have children. */
  function Interior(n: Node): nat
    decreases n, 1
  {
    (if n.children != [] then 1 else 0) + InteriorOfAll(n.children)
  }

  function InteriorOfAll(cs: seq<Node>): nat
    decreases cs, 0
  {
    if cs == [] then 0 else Interior(cs[0]) + InteriorOfAll(cs[1..])
  }

  lemma {:induction false} SizesAppend(cs: seq<Node>, c: Node)
    ensures DescendantsOfAll(cs + [c]) == DescendantsOfAll(cs) + Descendants(c)
    ensures InteriorOfAll(cs + [c]) == InteriorOfAll(cs) + Interior(c)
  {
    if cs != [] {
      assert (cs + [c])[1..] == cs[1..] + [c];
      SizesAppend(cs[1..], c);
    }
  }

  lemma {:induction false} ChildSmaller(cs: seq<Node>, i: nat)
    requires i < |cs|
    ensures Descendants(cs[i]) <= DescendantsOfAll(cs)
    decreases i
  {
    if i > 0 {
      ChildSmaller(cs[1..], i - 1);
    }
  }

  /** Nodes without children below them have no descendants either. */
  lemma {:induction false} NoInterior(cs: seq<Node>)
    requires InteriorOfAll(cs) == 0
    ensures DescendantsOfAll(cs) == 0
    decreases |cs|
  {
    if cs != [] {
      assert cs[0].children == [];
      NoInterior(cs[1..]);
    }
  }

  // --------------------------------------- trees that differ in indexes only

  predicate SameTree(a: Node, b: Node)
    decreases a
  {
    && a.name == b.name && a.nodeType == b.nodeType && a.icann == b.icann && a.wildcard == b.wildcard
    && |a.children| == |b.children|
    && forall i :: 0 <= i < |a.children| ==> SameTree(a.children[i], b.children[i])
  }

  lemma {:induction false} SameTreeRefl(a: Node)
    ensures SameTree(a, a)
    decreases a
  {
    forall i | 0 <= i < |a.children|
      ensures SameTree(a.children[i], a.children[i])
    {
      SameTreeRefl(a.children[i]);
    }
  }

  lemma {:induction false} SameTreeTrans(a: Node, b: Node, c: Node)
    requires SameTree(a, b) && SameTree(b, c)
    ensures SameTree(a, c)
    decreases a
  {
    forall i | 0 <= i < |a.children|
      ensures SameTree(a.children[i], c.children[i])
    {
      SameTreeTrans(a.children[i], b.children[i], c.children[i]);
    }
  }

  lemma {:induction false} SameTreeBack(a: Node, b: Node)
    requires SameTree(a, b)
    ensures SameTree(b, a)
    decreases a
  {
    forall i | 0 <= i < |a.children|
      ensures SameTree(b.children[i], a.children[i])
    {
      SameTreeBack(a.children[i], b.children[i]);
    }
  }

  ghost predicate SameTrees(a: seq<Node>, b: seq<Node>) {
    |a| == |b| && forall i :: 0 <= i < |a| ==> SameTree(a[i], b[i])
  }

  lemma {:induction false} SameSizes(a: Node, b: Node)
    requires SameTree(a, b)
    ensures Descendants(a) == Descendants(b) && Interior(a) == Interior(b)
    decreases a, 1
  {
    SameSizesOfAll(a.children, b.children);
  }

  lemma {:induction false} SameSizesOfAll(a: seq<Node>, b: seq<Node>)
    requires SameTrees(a, b)
    ensures DescendantsOfAll(a) == DescendantsOfAll(b) && InteriorOfAll(a) == InteriorOfAll(b)
    decreases a, 0
  {
    if a != [] {
      SameSizes(a[0], b[0]);
      SameSizesOfAll(a[1..], b[1..]);
    }
  }

  /** Tables represent a tree whatever its nodes' indexes. */
  lemma {:induction false} RepresentsNodeSame(t: Table, a: Node, b: Node, f: nat)
    requires SameTree(a, b) && RepresentsNode(t, b, f)
    ensures RepresentsNode(t, a, f)
    decreases a
  {
    var u := t.children[ChildrenIndex(t.nodes[f])];
    forall i | 0 <= i < |a.children|
      ensures RepresentsNode(t, a.children[i], Lo(u) + i)
    {
      RepresentsNodeSame(t, a.children[i], b.children[i], Lo(u) + i);
    }
  }

  lemma RepresentsSame(t: Table, a: Node, b: Node, lo: nat, hi: nat)
    requires SameTree(a, b) && Represents(t, b, lo, hi)
    ensures Represents(t, a, lo, hi)
  {
    forall i | 0 <= i < |a.children|
      ensures RepresentsNode(t, a.children[i], lo + i)
    {
      RepresentsNodeSame(t, a.children[i], b.children[i], lo + i);
    }
  }

  // ----------------------------------------------- what assignIndexes achieves

  /** The six predefined entries of the children table, for nodes without children. */
  const PREDEFINED: seq<nat> :=
    [ChildrenWord(0, 0, Normal, false), ChildrenWord(0, 0, Exception, false), ChildrenWord(0, 0, ParentOnly, false),
     ChildrenWord(0, 0, Normal, true), ChildrenWord(0, 0, Exception, true), ChildrenWord(0, 0, ParentOnly, true)]

  function LeafIndex(n: Node): nat {
    TypeCode(n.nodeType) + (if n.wildcard then NUM_NODE_TYPE else 0)
  }

  /** The entry of the children table for a node whose children start at start. */
  ghost predicate Encoded(n: Node, start: nat, enc: seq<nat>) {
    && n.childrenIndex < |enc| && n.childrenIndex < CHILDREN_SLOTS
    && (n.children == [] ==> n.childrenIndex == LeafIndex(n))
    && (n.children != [] ==>
          && start + |n.children| < NODE_INDEXES
          && enc[n.childrenIndex] == ChildrenWord(start, start + |n.children|, n.nodeType, n.wildcard))
  }

  /** The node's descendants fill the indexes from start on, its children first. */
  ghost predicate Laid(n: Node, start: nat, enc: seq<nat>)
    decreases n, 1
  {
    && (n.children != [] ==> n.firstChild == start)
    && (forall i :: 0 <= i < |n.children| ==> n.children[i].nodesIndex == start + i)
    && LaidAll(n.children, start + |n.children|, enc)
  }

  ghost predicate LaidAll(cs: seq<Node>, start: nat, enc: seq<nat>)
    decreases cs, 0
  {
    cs == [] || (&& Encoded(cs[0], start, enc) && Laid(cs[0], start, enc)
                 && LaidAll(cs[1..], start + Descendants(cs[0]), enc))
  }

  lemma {:induction false} LaidLonger(n: Node, start: nat, enc: seq<nat>, more: seq<nat>)
    requires Laid(n, start, enc) && enc <= more
    ensures Laid(n, start, more)
    decreases n, 1
  {
    LaidAllLonger(n.children, start + |n.children|, enc, more);
  }

  lemma {:induction false} LaidAllLonger(cs: seq<Node>, start: nat, enc: seq<nat>, more: seq<nat>)
    requires LaidAll(cs, start, enc) && enc <= more
    ensures LaidAll(cs, start, more)
    decreases cs, 0
  {
    if cs != [] {
      LaidLonger(cs[0], start, enc, more);
      LaidAllLonger(cs[1..], start + Descendants(cs[0]), enc, more);
    }
  }

  lemma {:induction false} LaidAppend(cs: seq<Node>, c: Node, start: nat, enc: seq<nat>)
    requires LaidAll(cs, start, enc)
    requires Encoded(c, start + DescendantsOfAll(cs), enc) && Laid(c, start + DescendantsOfAll(cs), enc)
    ensures LaidAll(cs + [c], start, enc)
  {
    if cs != [] {
      assert (cs + [c])[1..] == cs[1..] + [c];
      LaidAppend(cs[1..], c, start + Descendants(cs[0]), enc);
    }
  }

  // ------------------------------------------------- where the walk gave up

  /** No entry of the children table has been made for a node that has children. */
  ghost predicate NoEntry(n: Node, size: nat) {
    n.children != [] && n.childrenIndex < CHILDREN_SLOTS && (n.childrenIndex == 0 || size <= n.childrenIndex)
  }

  /** The node has no entry, or has one and some node below it is stuck. */
  ghost predicate Stuck(n: Node, start: nat, enc: seq<nat>)
    decreases n, 1
  {
    NoEntry(n, |enc|) || (Encoded(n, start, enc) && StuckAll(n.children, start + |n.children|, enc))
  }

  ghost predicate StuckAll(cs: seq<Node>, start: nat, enc: seq<nat>)
    decreases cs, 0
  {
    cs != [] && (Stuck(cs[0], start, enc) || StuckAll(cs[1..], start + Descendants(cs[0]), enc))
  }

  lemma {:induction false} StuckAt(cs: seq<Node>, i: nat, start: nat, enc: seq<nat>)
    requires i < |cs| && Stuck(cs[i], start + DescendantsOfAll(cs[..i]), enc)
    ensures StuckAll(cs, start, enc)
    decreases i
  {
    if i > 0 {
      assert cs[..i][1..] == cs[1..][..i - 1];
      StuckAt(cs[1..], i - 1, start + Descendants(cs[0]), enc);
    }
  }

  /** No index has been assigned in the tree yet. */
  predicate Unindexed(n: Node)
    decreases n
  {
    n.childrenIndex == 0 && forall i :: 0 <= i < |n.children| ==> Unindexed(n.children[i])
  }

  ghost predicate AllUnindexed(cs: seq<Node>) {
    forall i :: 0 <= i < |cs| ==> Unindexed(cs[i])
  }
}
