// The generator's walks and the tables they produce (publicsuffix/gen.go).

module Generator {
  import opened Layout
  import opened Strings
  import opened Tables
  import opened Trie
  import opened Wrappers

  /** The globals that assignIndexes works on. */
  class IndexAssigner {
    var nextNodesIndex: nat
    var childrenEncoding: seq<nat>
    var firstCall: bool

    constructor ()
      ensures nextNodesIndex == 0 && childrenEncoding == PREDEFINED && firstCall
    {
      nextNodesIndex := 0;
      childrenEncoding := PREDEFINED;
      firstCall := true;
    }

    /** Numbers the children of n and encodes their block; false is the error "too large". */
    method AssignIndexes(n: Node) returns (r: Node, ok: bool)
      requires PREDEFINED <= childrenEncoding
      modifies this
      ensures SameTree(n, r) && r.nodesIndex == n.nodesIndex
      ensures old(childrenEncoding) <= childrenEncoding
      ensures nextNodesIndex == old(nextNodesIndex) + |n.children|
      ensures firstCall == (old(firstCall) && n.children == [])
      ensures n.children != [] ==> r.firstChild == old(nextNodesIndex)
      ensures forall i :: 0 <= i < |r.children| ==>
                r.children[i] == n.children[i].(nodesIndex := old(nextNodesIndex) + i)
      ensures ok && !old(firstCall) ==> Encoded(r, old(nextNodesIndex), childrenEncoding)
      ensures ok ==> |childrenEncoding| == |old(childrenEncoding)| + Entries(n, old(firstCall))
      ensures ok <==> Entries(n, old(firstCall)) == 0
                      || (|old(childrenEncoding)| < CHILDREN_SLOTS && old(nextNodesIndex) + |n.children| < NODE_INDEXES)
      ensures !ok ==> childrenEncoding == old(childrenEncoding)
      ensures !ok && n.childrenIndex == 0 ==> NoEntry(r, |childrenEncoding|)
    {
      SameTreeRefl(n);
      r := n;
      if |n.children| != 0 {
        r := r.(firstChild := nextNodesIndex);
        var cs := n.children;
        for i := 0 to |cs|
          invariant |cs| == |n.children| && nextNodesIndex == old(nextNodesIndex) + i
          invariant childrenEncoding == old(childrenEncoding) && firstCall == old(firstCall)
          invariant SameTrees(n.children, cs)
          invariant forall k :: 0 <= k < i ==> cs[k] == n.children[k].(nodesIndex := old(nextNodesIndex) + k)
          invariant forall k :: i <= k < |cs| ==> cs[k] == n.children[k]
        {
          var c := cs[i].(nodesIndex := nextNodesIndex);
          assert SameTree(n.children[i], c);
          cs := cs[i := c];
          nextNodesIndex := nextNodesIndex + 1;
        }
        r := r.(children := cs);
        if firstCall {
          firstCall := false;
          return r, true;
        }
        if |childrenEncoding| >= CHILDREN_SLOTS {
          return r, false;
        }
        r := r.(childrenIndex := |childrenEncoding|);
        var lo := r.firstChild;
        var hi := lo + |n.children|;
        if lo >= NODE_INDEXES || hi >= NODE_INDEXES {
          return r, false;
        }
        childrenEncoding := childrenEncoding + [ChildrenWord(lo, hi, n.nodeType, n.wildcard)];
      } else {
        r := r.(childrenIndex := LeafIndex(n));
      }
      ok := true;
    }

    /**
     * node.walk with assignIndexes: the node, then its children in order. Without an error the
     * numbering is the preorder of children blocks, and every node but the root is encoded. There
     * is an error exactly when there is no room; it leaves a node with children without an entry.
     */
    method Walk(n: Node) returns (r: Node, ok: bool)
      requires PREDEFINED <= childrenEncoding
      modifies this
      ensures SameTree(n, r) && r.nodesIndex == n.nodesIndex
      ensures old(childrenEncoding) <= childrenEncoding
      ensures firstCall ==> old(firstCall)
      ensures ok ==> nextNodesIndex == old(nextNodesIndex) + Descendants(n)
      ensures ok ==> Laid(r, old(nextNodesIndex), childrenEncoding)
      ensures ok && !old(firstCall) ==> Encoded(r, old(nextNodesIndex), childrenEncoding)
      ensures ok ==> |childrenEncoding| == |old(childrenEncoding)| + AllEntries(n, old(firstCall))
      ensures ok <==> Room(old(childrenEncoding), old(nextNodesIndex), AllEntries(n, old(firstCall)), Descendants(n))
      ensures !ok && Unindexed(n) ==>
                if old(firstCall) then StuckAll(r.children, old(nextNodesIndex) + |n.children|, childrenEncoding)
                else Stuck(r, old(nextNodesIndex), childrenEncoding)
      decreases Descendants(n), 1
    {
      r, ok := AssignIndexes(n);
      OwnShare(n, old(firstCall));
      if !ok {
        return;
      }
      SameSizes(n, r);
      StillUnindexed(n, r);
      ghost var numbered, enc := r, childrenEncoding;
      if r.children != [] {
        var cs;
        cs, ok := WalkAll(r.children);
        SameWithChildren(n, r, cs);
        r := r.(children := cs);
      }
      EncodedLonger(numbered, r, old(nextNodesIndex), enc, childrenEncoding);
    }

    /** The loop of node.walk over the children. */
    method WalkAll(cs: seq<Node>) returns (ds: seq<Node>, ok: bool)
      requires PREDEFINED <= childrenEncoding && !firstCall
      modifies this
      ensures SameTrees(cs, ds) && !firstCall
      ensures forall k :: 0 <= k < |cs| ==> ds[k].nodesIndex == cs[k].nodesIndex
      ensures old(childrenEncoding) <= childrenEncoding
      ensures ok ==> nextNodesIndex == old(nextNodesIndex) + DescendantsOfAll(cs)
      ensures ok ==> LaidAll(ds, old(nextNodesIndex), childrenEncoding)
      ensures ok ==> |childrenEncoding| == |old(childrenEncoding)| + InteriorOfAll(cs)
      ensures ok <==> Room(old(childrenEncoding), old(nextNodesIndex), InteriorOfAll(cs), DescendantsOfAll(cs))
      ensures !ok && AllUnindexed(cs) ==> StuckAll(ds, old(nextNodesIndex), childrenEncoding)
      decreases DescendantsOfAll(cs), 2
    {
      ds := cs;
      SameTreesRefl(cs);
      ghost var next := nextNodesIndex;
      for i := 0 to |cs|
        invariant PREDEFINED <= childrenEncoding && old(childrenEncoding) <= childrenEncoding && !firstCall
        invariant Renumbered(cs, ds, i)
        invariant LaidUpTo(ds, i, next, childrenEncoding, nextNodesIndex, |old(childrenEncoding)|)
      {
        ghost var before, enc, at := ds, childrenEncoding, nextNodesIndex;
        Bounds(cs, ds, i);
        var c;
        c, ok := Walk(ds[i]);
        SameSizes(ds[i], c);
        StillRenumbered(cs, ds, i, c);
        ds := ds[i := c];
        if !ok {
          ChildTooLarge(cs, before, i, old(childrenEncoding), next, enc, at);
          if AllUnindexed(cs) {
            assert before[..i] == ds[..i];
            StuckAt(ds, i, next, childrenEncoding);
          }
          return;
        }
        LaidStep(before, i, next, enc, childrenEncoding, at, |old(childrenEncoding)|, c);
      }
      assert ds[..|ds|] == ds;
      Totals(cs, ds);
      ok := true;
    }
  }

  /** There is room for the entries that a walk makes, and for the last index in them. */
  predicate Room(enc: seq<nat>, next: nat, entries: nat, descendants: nat) {
    entries == 0 || (|enc| + entries <= 512 && next + descendants < 16384)
  }

  /** The root's own block is implicit and takes no entry. */
  function Entries(n: Node, root: bool): nat {
    if n.children == [] || root then 0 else 1
  }

  /** The entries that the walk makes for the node and all below it. */
  function AllEntries(n: Node, root: bool): nat {
    if root then InteriorOfAll(n.children) else Interior(n)
  }

  lemma StillUnindexed(n: Node, r: Node)
    requires |r.children| == |n.children|
    requires forall i :: 0 <= i < |r.children| ==>
               r.children[i] == n.children[i].(nodesIndex := r.children[i].nodesIndex)
    ensures Unindexed(n) ==> AllUnindexed(r.children)
  {
    if Unindexed(n) {
      forall i | 0 <= i < |r.children| ensures Unindexed(r.children[i]) {
        assert Unindexed(n.children[i]);
      }
    }
  }

  lemma SameWithChildren(n: Node, r: Node, cs: seq<Node>)
    requires SameTree(n, r) && SameTrees(r.children, cs)
    ensures SameTree(n, r.(children := cs))
  {
    forall i | 0 <= i < |cs|
      ensures SameTree(n.children[i], cs[i])
    {
      SameTreeTrans(n.children[i], r.children[i], cs[i]);
    }
  }

  /** The node's own entry stays when its children are laid out. */
  lemma EncodedLonger(n: Node, r: Node, start: nat, enc: seq<nat>, more: seq<nat>)
    requires enc <= more && |r.children| == |n.children| && r == n.(children := r.children)
    ensures Encoded(n, start, enc) ==> Encoded(r, start, more)
  {
  }

  /** The list with the first i children walked. */
  ghost predicate Renumbered(cs: seq<Node>, ds: seq<Node>, i: nat) {
    && SameTrees(cs, ds) && i <= |cs| && ds[i..] == cs[i..]
    && forall k :: 0 <= k < |cs| ==> ds[k].nodesIndex == cs[k].nodesIndex
  }

  lemma SameTreesRefl(cs: seq<Node>)
    ensures SameTrees(cs, cs)
  {
    forall i | 0 <= i < |cs|
      ensures SameTree(cs[i], cs[i])
    {
      SameTreeRefl(cs[i]);
    }
  }

  lemma StillRenumbered(cs: seq<Node>, ds: seq<Node>, i: nat, c: Node)
    requires Renumbered(cs, ds, i) && i < |cs| && SameTree(ds[i], c) && c.nodesIndex == ds[i].nodesIndex
    ensures Renumbered(cs, ds[i := c], i + 1)
  {
    SameTreeTrans(cs[i], ds[i], c);
    assert ds[i := c][i + 1..] == ds[i..][1..] == cs[i..][1..];
  }

  /** A node with children takes one entry, unless it is the root, and one index for each child. */
  lemma OwnShare(n: Node, root: bool)
    ensures |n.children| <= Descendants(n) && Descendants(n) == |n.children| + DescendantsOfAll(n.children)
    ensures AllEntries(n, root) == Entries(n, root) + InteriorOfAll(n.children)
    ensures InteriorOfAll(n.children) == 0 ==> DescendantsOfAll(n.children) == 0
  {
    if InteriorOfAll(n.children) == 0 {
      NoInterior(n.children);
    }
  }

  /** The first i children are laid out from next on; at is the next free index. */
  ghost predicate LaidUpTo(ds: seq<Node>, i: nat, next: nat, enc: seq<nat>, at: nat, size: nat) {
    && i <= |ds| && LaidAll(ds[..i], next, enc)
    && at == next + DescendantsOfAll(ds[..i])
    && |enc| == size + InteriorOfAll(ds[..i])
    && (InteriorOfAll(ds[..i]) > 0 ==> |enc| <= CHILDREN_SLOTS && at < NODE_INDEXES)
  }

  lemma LaidStep(ds: seq<Node>, i: nat, next: nat, enc: seq<nat>, more: seq<nat>, at: nat, size: nat, c: Node)
    requires LaidUpTo(ds, i, next, enc, at, size) && i < |ds| && enc <= more
    requires Encoded(c, at, more) && Laid(c, at, more) && |more| == |enc| + Interior(c)
    requires Room(enc, at, Interior(c), Descendants(c))
    ensures LaidUpTo(ds[i := c], i + 1, next, more, at + Descendants(c), size)
  {
    LaidAllLonger(ds[..i], next, enc, more);
    LaidAppend(ds[..i], c, next, more);
    SizesAppend(ds[..i], c);
    if Interior(c) == 0 {
      NoInterior(c.children);
    }
    assert ds[i := c][..i + 1] == ds[..i] + [c];
  }

  lemma {:induction false} TakeSizes(cs: seq<Node>, i: nat)
    requires i < |cs|
    ensures DescendantsOfAll(cs[..i]) + Descendants(cs[i]) <= DescendantsOfAll(cs)
    ensures InteriorOfAll(cs[..i]) + Interior(cs[i]) <= InteriorOfAll(cs)
    decreases i
  {
    if i > 0 {
      assert cs[..i][1..] == cs[1..][..i - 1];
      TakeSizes(cs[1..], i - 1);
    }
  }

  /** What is still to be walked is part of the whole. */
  lemma Bounds(cs: seq<Node>, ds: seq<Node>, i: nat)
    requires Renumbered(cs, ds, i) && i < |cs|
    ensures ds[i] == cs[i] && Descendants(ds[i]) <= DescendantsOfAll(cs)
    ensures DescendantsOfAll(ds[..i]) + Descendants(ds[i]) <= DescendantsOfAll(cs)
    ensures InteriorOfAll(ds[..i]) + Interior(ds[i]) <= InteriorOfAll(cs)
  {
    assert ds[i] == ds[i..][0] == cs[i..][0];
    SameSizesOfAll(cs, ds);
    TakeSizes(ds, i);
  }

  /** No room for a child is no room for all of them. */
  lemma ChildTooLarge(cs: seq<Node>, ds: seq<Node>, i: nat, enc0: seq<nat>, next: nat, enc: seq<nat>, at: nat)
    requires Renumbered(cs, ds, i) && i < |cs| && LaidUpTo(ds, i, next, enc, at, |enc0|)
    requires !Room(enc, at, Interior(ds[i]), Descendants(ds[i]))
    ensures !Room(enc0, next, InteriorOfAll(cs), DescendantsOfAll(cs))
  {
    Bounds(cs, ds, i);
  }

  lemma Totals(cs: seq<Node>, ds: seq<Node>)
    requires SameTrees(cs, ds)
    ensures DescendantsOfAll(cs) == DescendantsOfAll(ds) && InteriorOfAll(cs) == InteriorOfAll(ds)
  {
    SameSizesOfAll(cs, ds);
  }

  // ------------------------------------------------------------- label encoding

  /** strings.Index: where the first occurrence of sub in s starts. */
  method IndexOfText(s: string, sub: string) returns (at: int)
    ensures at == -1 <==> !Contains(s, sub)
    ensures at != -1 ==> 0 <= at <= |s| && HasPrefix(s[at..], sub)
  {
    for i := 0 to |s| + 1
      invariant forall k :: 0 <= k < i ==> !HasPrefix(s[k..], sub)
    {
      if HasPrefix(s[i..], sub) {
        return i;
      }
    }
    return -1;
  }

  /** An encoding is offset and length of the label in the text. */
  ghost predicate Encodes(text: string, e: nat, lbl: string) {
    && TextOffset(e) + TextLength(e) <= |text| && text[TextOffset(e)..TextOffset(e) + TextLength(e)] == lbl
    && e < TEXT_LENGTHS * TEXT_OFFSETS
  }

  /** printReal's table of label encodings; the error is a label too long or too far in the text. */
  method EncodeLabels(labelsList: seq<string>, text: string) returns (r: Result<map<string, nat>>)
    requires forall l :: l in labelsList ==> Contains(text, l)
    ensures r.Ok? ==> forall l :: l in labelsList ==> l in r.value && Encodes(text, r.value[l], l)
    ensures r.Ok? ==> forall l :: l in labelsList ==> |l| < TEXT_LENGTHS
    ensures r.Err? ==> |text| >= TEXT_OFFSETS || exists l :: l in labelsList && |l| >= TEXT_LENGTHS
  {
    var encoding: map<string, nat> := map[];
    for i := 0 to |labelsList|
      invariant forall k :: 0 <= k < i ==>
                  labelsList[k] in encoding && Encodes(text, encoding[labelsList[k]], labelsList[k])
    {
      var lbl := labelsList[i];
      assert lbl in labelsList;
      var offset := IndexOfText(text, lbl);
      if offset < 0 {
        assert false;
      }
      var length := |lbl|;
      if offset >= TEXT_OFFSETS || length >= TEXT_LENGTHS {
        return Err;
      }
      LabelWord(text, lbl, offset);
      encoding := encoding[lbl := length + TEXT_LENGTHS * offset];
    }
    return Ok(encoding);
  }

  lemma LabelWord(text: string, lbl: string, offset: nat)
    requires offset <= |text| && HasPrefix(text[offset..], lbl)
    requires offset < TEXT_OFFSETS && |lbl| < TEXT_LENGTHS
    ensures Encodes(text, |lbl| + TEXT_LENGTHS * offset, lbl)
  {
    NodeWordFields(offset, |lbl|, false, 0);
    assert NodeWord(offset, |lbl|, false, 0) == |lbl| + TEXT_LENGTHS * offset;
    assert text[offset..][..|lbl|] == text[offset..offset + |lbl|];
  }

  // ------------------------------------------------------------ node emission

  /** The word printNode writes for a child; a label without an encoding counts as 0. */
  function Word(c: Node, encoding: map<string, nat>): nat {
    (if c.name in encoding then encoding[c.name] else 0)
    + TEXT_LENGTHS * TEXT_OFFSETS * Bit(c.icann)
    + TEXT_LENGTHS * TEXT_OFFSETS * 2 * c.childrenIndex
  }

  function Words(cs: seq<Node>, encoding: map<string, nat>): (ws: seq<nat>)
    ensures |ws| == |cs| && forall i :: 0 <= i < |cs| ==> ws[i] == Word(cs[i], encoding)
  {
    seq(|cs|, i requires 0 <= i < |cs| => Word(cs[i], encoding))
  }

  /** All words below n: its children's, then those below each child. */
  function Emit(n: Node, encoding: map<string, nat>): (ws: seq<nat>)
    ensures |ws| == Descendants(n)
    decreases n, 1
  {
    Words(n.children, encoding) + EmitAll(n.children, encoding)
  }

  function EmitAll(cs: seq<Node>, encoding: map<string, nat>): (ws: seq<nat>)
    ensures |ws| == DescendantsOfAll(cs)
    decreases cs, 0
  {
    if cs == [] then [] else Emit(cs[0], encoding) + EmitAll(cs[1..], encoding)
  }

  lemma {:induction false} EmitAppend(cs: seq<Node>, c: Node, encoding: map<string, nat>)
    ensures EmitAll(cs + [c], encoding) == EmitAll(cs, encoding) + Emit(c, encoding)
  {
    if cs != [] {
      assert (cs + [c])[1..] == cs[1..] + [c];
      EmitAppend(cs[1..], c, encoding);
    }
  }

  /** printNode, then node.walk's loop over the children. */
  method PrintNodes(n: Node, encoding: map<string, nat>) returns (words: seq<nat>)
    ensures words == Emit(n, encoding)
    decreases n, 1
  {
    words := [];
    for i := 0 to |n.children|
      invariant words == Words(n.children[..i], encoding)
    {
      words := words + [Word(n.children[i], encoding)];
    }
    assert n.children[..|n.children|] == n.children;
    var below := PrintBelow(n.children, encoding);
    words := words + below;
  }

  method PrintBelow(cs: seq<Node>, encoding: map<string, nat>) returns (words: seq<nat>)
    ensures words == EmitAll(cs, encoding)
    decreases cs, 0
  {
    words := [];
    for i := 0 to |cs|
      invariant words == EmitAll(cs[..i], encoding)
    {
      var below := PrintNodes(cs[i], encoding);
      EmitAppend(cs[..i], cs[i], encoding);
      assert cs[..i + 1] == cs[..i] + [cs[i]];
      words := words + below;
    }
    assert cs[..|cs|] == cs;
  }

  // ----------------------------------------- emission meets numbering

  ghost predicate NameEncoded(lbl: string, text: string, encoding: map<string, nat>) {
    lbl in encoding && Encodes(text, encoding[lbl], lbl)
  }

  /** Every name in the tree below n has an encoding. */
  ghost predicate NamesEncoded(n: Node, text: string, encoding: map<string, nat>)
    decreases n
  {
    forall i :: 0 <= i < |n.children| ==>
      NameEncoded(n.children[i].name, text, encoding) && NamesEncoded(n.children[i], text, encoding)
  }

  ghost predicate AllNamesEncoded(cs: seq<Node>, text: string, encoding: map<string, nat>) {
    forall i :: 0 <= i < |cs| ==> NameEncoded(cs[i].name, text, encoding) && NamesEncoded(cs[i], text, encoding)
  }

  lemma WordFields(c: Node, text: string, encoding: map<string, nat>)
    requires NameEncoded(c.name, text, encoding) && c.childrenIndex < CHILDREN_SLOTS
    ensures var w := Word(c, encoding);
      && w < 0x1_0000_0000 && ChildrenIndex(w) == c.childrenIndex && IcannBit(w) == c.icann
      && TextOffset(w) + TextLength(w) <= |text| && text[TextOffset(w)..TextOffset(w) + TextLength(w)] == c.name
  {
    var e := encoding[c.name];
    assert e == TextLength(e) + TEXT_LENGTHS * TextOffset(e);
    NodeWordFields(TextOffset(e), TextLength(e), c.icann, c.childrenIndex);
    assert Word(c, encoding) == NodeWord(TextOffset(e), TextLength(e), c.icann, c.childrenIndex);
  }

  /** The words from start on. */
  ghost predicate At(nodes: seq<nat>, start: nat, words: seq<nat>) {
    start + |words| <= |nodes| && nodes[start..start + |words|] == words
  }

  lemma AtSplit(nodes: seq<nat>, start: nat, a: seq<nat>, b: seq<nat>)
    requires At(nodes, start, a + b)
    ensures At(nodes, start, a) && At(nodes, start + |a|, b)
  {
    var ab := nodes[start..start + |a + b|];
    assert nodes[start..start + |a|] == ab[..|a|] == a;
    assert nodes[start + |a|..start + |a| + |b|] == ab[|a|..] == b;
  }

  /** The entry that a node's word leads to says what the node is. */
  lemma EntryFields(t: Table, c: Node, start: nat)
    requires PREDEFINED <= t.children && Encoded(c, start, t.children)
    ensures var u := t.children[c.childrenIndex];
      && TypeField(u) == TypeCode(c.nodeType) && WildcardBit(u) == c.wildcard
      && Hi(u) == Lo(u) + |c.children| && (c.children != [] ==> Lo(u) == start)
      && (c.children == [] ==> Hi(u) == 0)
  {
    var u := t.children[c.childrenIndex];
    if c.children == [] {
      assert u == PREDEFINED[LeafIndex(c)] == ChildrenWord(0, 0, c.nodeType, c.wildcard);
      ChildrenWordFields(0, 0, c.nodeType, c.wildcard);
    } else {
      ChildrenWordFields(start, start + |c.children|, c.nodeType, c.wildcard);
    }
  }

  /** A node is represented when its word, its entry and its children are. */
  lemma FromParts(t: Table, c: Node, f: nat, start: nat)
    requires HasLabel(t, f, c.name) && ChildrenIndex(t.nodes[f]) == c.childrenIndex < |t.children|
    requires IcannBit(t.nodes[f]) == c.icann
    requires PREDEFINED <= t.children && Encoded(c, start, t.children) && start + |c.children| <= |t.nodes|
    requires forall i :: 0 <= i < |c.children| ==> RepresentsNode(t, c.children[i], start + i)
    ensures RepresentsNode(t, c, f)
  {
    EntryFields(t, c, start);
  }

  lemma HasWord(t: Table, c: Node, f: nat, encoding: map<string, nat>, start: nat)
    requires f < |t.nodes| && t.nodes[f] == Word(c, encoding) && NameEncoded(c.name, t.text, encoding)
    requires Encoded(c, start, t.children)
    ensures HasLabel(t, f, c.name) && ChildrenIndex(t.nodes[f]) == c.childrenIndex < |t.children|
    ensures IcannBit(t.nodes[f]) == c.icann
  {
    WordFields(c, t.text, encoding);
  }

  /** A node whose word stands at f, and whose descendants are laid out from start on, is represented. */
  lemma {:induction false} NodeRepresented(t: Table, c: Node, f: nat, start: nat, encoding: map<string, nat>)
    requires PREDEFINED <= t.children && Encoded(c, start, t.children) && Laid(c, start, t.children)
    requires f < |t.nodes| && t.nodes[f] == Word(c, encoding) && At(t.nodes, start, Emit(c, encoding))
    requires NameEncoded(c.name, t.text, encoding) && NamesEncoded(c, t.text, encoding)
    ensures RepresentsNode(t, c, f)
    decreases c, 1
  {
    hide RepresentsNode, At, Word, NameEncoded, ChildrenIndex, Encoded;
    HasWord(t, c, f, encoding, start);
    AtSplit(t.nodes, start, Words(c.children, encoding), EmitAll(c.children, encoding));
    AllRepresented(t, c.children, start, start + |c.children|, encoding);
    FromParts(t, c, f, start);
  }

  lemma HeadWord(t: Table, cs: seq<Node>, f: nat, encoding: map<string, nat>)
    requires cs != [] && At(t.nodes, f, Words(cs, encoding))
    ensures f < |t.nodes| && t.nodes[f] == Word(cs[0], encoding)
    ensures At(t.nodes, f + 1, Words(cs[1..], encoding))
  {
    assert Words(cs, encoding) == [Word(cs[0], encoding)] + Words(cs[1..], encoding);
    AtSplit(t.nodes, f, [Word(cs[0], encoding)], Words(cs[1..], encoding));
    assert t.nodes[f] == t.nodes[f..f + 1][0];
  }

  lemma HeadNames(cs: seq<Node>, text: string, encoding: map<string, nat>)
    requires cs != [] && AllNamesEncoded(cs, text, encoding)
    ensures NameEncoded(cs[0].name, text, encoding) && NamesEncoded(cs[0], text, encoding)
    ensures AllNamesEncoded(cs[1..], text, encoding)
  {
    hide NameEncoded;
  }

  lemma HeadBlock(t: Table, cs: seq<Node>, start: nat, encoding: map<string, nat>)
    requires cs != [] && At(t.nodes, start, EmitAll(cs, encoding))
    ensures At(t.nodes, start, Emit(cs[0], encoding))
    ensures At(t.nodes, start + Descendants(cs[0]), EmitAll(cs[1..], encoding))
  {
    EmitHead(cs, encoding);
    hide *;
    AtSplit(t.nodes, start, Emit(cs[0], encoding), EmitAll(cs[1..], encoding));
  }

  lemma EmitHead(cs: seq<Node>, encoding: map<string, nat>)
    requires cs != []
    ensures EmitAll(cs, encoding) == Emit(cs[0], encoding) + EmitAll(cs[1..], encoding)
  {
  }

  lemma {:induction false} AllRepresented(t: Table, cs: seq<Node>, f: nat, start: nat, encoding: map<string, nat>)
    requires PREDEFINED <= t.children && LaidAll(cs, start, t.children)
    requires At(t.nodes, f, Words(cs, encoding)) && At(t.nodes, start, EmitAll(cs, encoding))
    requires AllNamesEncoded(cs, t.text, encoding)
    ensures forall i :: 0 <= i < |cs| ==> RepresentsNode(t, cs[i], f + i)
    decreases cs, 0
  {
    hide At, RepresentsNode, Emit, Word, Encoded, Laid, AllNamesEncoded, Descendants;
    if cs != [] {
      HeadNames(cs, t.text, encoding);
      HeadWord(t, cs, f, encoding);
      HeadBlock(t, cs, start, encoding);
      NodeRepresented(t, cs[0], f, start, encoding);
      AllRepresented(t, cs[1..], f + 1, start + Descendants(cs[0]), encoding);
      HeadAndRest(t, cs, f);
    }
  }

  lemma HeadAndRest(t: Table, cs: seq<Node>, f: nat)
    requires cs != [] && RepresentsNode(t, cs[0], f)
    requires forall i :: 0 <= i < |cs[1..]| ==> RepresentsNode(t, cs[1..][i], f + 1 + i)
    ensures forall i :: 0 <= i < |cs| ==> RepresentsNode(t, cs[i], f + i)
  {
    forall i | 1 <= i < |cs|
      ensures RepresentsNode(t, cs[i], f + i)
    {
      assert cs[1..][i - 1] == cs[i] && RepresentsNode(t, cs[1..][i - 1], f + 1 + (i - 1));
    }
  }

  /** The root's block comes first, and behind it all other blocks. */
  lemma TreeSplit(nodes: seq<nat>, n: Node, encoding: map<string, nat>)
    requires nodes == Emit(n, encoding)
    ensures At(nodes, 0, Words(n.children, encoding)) && At(nodes, |n.children|, EmitAll(n.children, encoding))
  {
    assert nodes[0..|nodes|] == nodes;
    AtSplit(nodes, 0, Words(n.children, encoding), EmitAll(n.children, encoding));
  }

  /** The numbering of assignIndexes is the emission order of printNode: the tables represent the tree. */
  lemma TreeRepresented(t: Table, n: Node, encoding: map<string, nat>)
    requires PREDEFINED <= t.children && Laid(n, 0, t.children)
    requires t.nodes == Emit(n, encoding) && NamesEncoded(n, t.text, encoding)
    ensures Represents(t, n, 0, |n.children|)
  {
    TreeSplit(t.nodes, n, encoding);
    AllRepresented(t, n.children, 0, |n.children|, encoding);
  }

  // ------------------------------------------- what a dropped error does

  /** A node that is stuck is not represented: its entry is none, or some other node's. */
  lemma {:induction false} StuckNode(t: Table, c: Node, f: nat, start: nat, encoding: map<string, nat>)
    requires PREDEFINED <= t.children && Stuck(c, start, t.children)
    requires f < |t.nodes| && t.nodes[f] == Word(c, encoding) && At(t.nodes, start, Emit(c, encoding))
    requires NameEncoded(c.name, t.text, encoding) && NamesEncoded(c, t.text, encoding)
    ensures !RepresentsNode(t, c, f)
    decreases c, 1
  {
    hide RepresentsNode, At, Word, NameEncoded, ChildrenIndex;
    WordFields(c, t.text, encoding);
    if NoEntry(c, |t.children|) {
      NoEntryFields(t, c, f);
    } else {
      AtSplit(t.nodes, start, Words(c.children, encoding), EmitAll(c.children, encoding));
      var i := StuckChild(t, c.children, start, start + |c.children|, encoding);
      NotBelow(t, c, f, start, i);
    }
  }

  /** A node whose children are not all represented is not represented. */
  lemma NotBelow(t: Table, c: Node, f: nat, start: nat, i: nat)
    requires PREDEFINED <= t.children && Encoded(c, start, t.children) && i < |c.children|
    requires f < |t.nodes| && ChildrenIndex(t.nodes[f]) == c.childrenIndex
    requires !RepresentsNode(t, c.children[i], start + i)
    ensures !RepresentsNode(t, c, f)
  {
    EntryFields(t, c, start);
  }

  lemma NoEntryFields(t: Table, c: Node, f: nat)
    requires PREDEFINED <= t.children && NoEntry(c, |t.children|)
    requires f < |t.nodes| && ChildrenIndex(t.nodes[f]) == c.childrenIndex
    ensures !RepresentsNode(t, c, f)
  {
    assert t.children[0] == PREDEFINED[0] == 0;
  }

  lemma {:induction false} StuckChild(t: Table, cs: seq<Node>, f: nat, start: nat, encoding: map<string, nat>)
    returns (i: nat)
    requires PREDEFINED <= t.children && StuckAll(cs, start, t.children)
    requires At(t.nodes, f, Words(cs, encoding)) && At(t.nodes, start, EmitAll(cs, encoding))
    requires AllNamesEncoded(cs, t.text, encoding)
    ensures i < |cs| && !RepresentsNode(t, cs[i], f + i)
    decreases cs, 0
  {
    hide At, RepresentsNode, Emit, Word, Encoded, Stuck, AllNamesEncoded, Descendants;
    HeadNames(cs, t.text, encoding);
    HeadWord(t, cs, f, encoding);
    HeadBlock(t, cs, start, encoding);
    if Stuck(cs[0], start, t.children) {
      StuckNode(t, cs[0], f, start, encoding);
      i := 0;
    } else {
      var k := StuckChild(t, cs[1..], f + 1, start + Descendants(cs[0]), encoding);
      i := k + 1;
    }
  }

  /** Where the walk gave up, the tables do not represent the tree. */
  lemma TreeNotRepresented(t: Table, n: Node, encoding: map<string, nat>)
    requires PREDEFINED <= t.children && StuckAll(n.children, |n.children|, t.children)
    requires t.nodes == Emit(n, encoding) && NamesEncoded(n, t.text, encoding)
    ensures !Represents(t, n, 0, |n.children|)
  {
    TreeSplit(t.nodes, n, encoding);
    hide At, Emit, Stuck, StuckAll, RepresentsNode, NamesEncoded;
    var i := StuckChild(t, n.children, 0, |n.children|, encoding);
    assert !RepresentsNode(t, n.children[i], 0 + i);
  }
}
