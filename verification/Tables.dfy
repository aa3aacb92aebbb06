// The generated tables (publicsuffix/gen.go, printReal): their words, and what it means
// for tables to represent a tree.
//
// A word is a uint32 whose fields do not overlap, so the shifts and masks of the source
// are multiplications, divisions and remainders by powers of two here, and its bitwise
// "or" of disjoint fields is a sum.

module Tables {
  import opened Trie

  const TEXT_LENGTHS: int := 64        // 6 bits
  const TEXT_OFFSETS: int := 32768     // 15 bits
  const CHILDREN_SLOTS: int := 512     // 9 bits
  const NODE_INDEXES: int := 16384     // 14 bits, for lo and for hi
  const NUM_NODE_TYPE: int := 3

  function TypeCode(nt: NodeType): nat {
    match nt
    case Normal => 0
    case Exception => 1
    case ParentOnly => 2
  }

  function Bit(b: bool): nat {
    if b then 1 else 0
  }

  /** children index, ICANN bit, text offset, text length, from the most significant bits down. */
  function NodeWord(offset: nat, length: nat, icann: bool, childrenIndex: nat): nat {
    length + TEXT_LENGTHS * (offset + TEXT_OFFSETS * (Bit(icann) + 2 * childrenIndex))
  }

  /** wildcard bit, node type, high index, low index, from the most significant bits down. */
  function ChildrenWord(lo: nat, hi: nat, nt: NodeType, wildcard: bool): nat {
    lo + NODE_INDEXES * (hi + NODE_INDEXES * (TypeCode(nt) + 4 * Bit(wildcard)))
  }

  function TextLength(w: nat): nat { w % TEXT_LENGTHS }
  function TextOffset(w: nat): nat { w / TEXT_LENGTHS % TEXT_OFFSETS }
  function IcannBit(w: nat): bool { w / (TEXT_LENGTHS * TEXT_OFFSETS) % 2 != 0 }
  function ChildrenIndex(w: nat): nat { w / (TEXT_LENGTHS * TEXT_OFFSETS) / 2 % CHILDREN_SLOTS }

  function Lo(u: nat): nat { u % NODE_INDEXES }
  function Hi(u: nat): nat { u / NODE_INDEXES % NODE_INDEXES }
  function TypeField(u: nat): nat { u / NODE_INDEXES / NODE_INDEXES % 4 }
  function WildcardBit(u: nat): bool { u / NODE_INDEXES / NODE_INDEXES / 4 % 2 != 0 }

  /** Fields within their bits read back as they were written, and the word is a uint32. */
  lemma NodeWordFields(offset: nat, length: nat, icann: bool, childrenIndex: nat)
    requires offset < TEXT_OFFSETS && length < TEXT_LENGTHS && childrenIndex < CHILDREN_SLOTS
    ensures var w := NodeWord(offset, length, icann, childrenIndex);
      && w < 0x1_0000_0000
      && TextLength(w) == length && TextOffset(w) == offset && IcannBit(w) == icann
      && ChildrenIndex(w) == childrenIndex
  {
    var w := NodeWord(offset, length, icann, childrenIndex);
    assert w / TEXT_LENGTHS == offset + TEXT_OFFSETS * (Bit(icann) + 2 * childrenIndex);
    assert w / (TEXT_LENGTHS * TEXT_OFFSETS) == Bit(icann) + 2 * childrenIndex;
  }

  lemma ChildrenWordFields(lo: nat, hi: nat, nt: NodeType, wildcard: bool)
    requires lo < NODE_INDEXES && hi < NODE_INDEXES
    ensures var u := ChildrenWord(lo, hi, nt, wildcard);
      && u < 0x1_0000_0000
      && Lo(u) == lo && Hi(u) == hi && TypeField(u) == TypeCode(nt) && WildcardBit(u) == wildcard
  {
    var u := ChildrenWord(lo, hi, nt, wildcard);
    assert u / NODE_INDEXES == hi + NODE_INDEXES * (TypeCode(nt) + 4 * Bit(wildcard));
    assert u / NODE_INDEXES / NODE_INDEXES == TypeCode(nt) + 4 * Bit(wildcard);
  }

  /** The generated constants: text, nodes, children, numTLD. */
  datatype Table = Table(text: string, nodes: seq<nat>, children: seq<nat>, numTLD: nat)

  predicate HasLabel(t: Table, i: nat, lbl: string) {
    && i < |t.nodes|
    && TextOffset(t.nodes[i]) + TextLength(t.nodes[i]) <= |t.text|
    && t.text[TextOffset(t.nodes[i])..TextOffset(t.nodes[i]) + TextLength(t.nodes[i])] == lbl
  }

  /** The children of n occupy the nodes from lo to hi, and so on down the tree. */
  ghost predicate Represents(t: Table, n: Node, lo: nat, hi: nat)
    decreases n
  {
    && hi == lo + |n.children| && hi <= |t.nodes|
    && forall i :: 0 <= i < |n.children| ==> RepresentsNode(t, n.children[i], lo + i)
  }

  /** The word at index f stands for the node c. */
  ghost predicate RepresentsNode(t: Table, c: Node, f: nat)
    decreases c
  {
    && HasLabel(t, f, c.name) && IcannBit(t.nodes[f]) == c.icann
    && ChildrenIndex(t.nodes[f]) < |t.children|
    && var u := t.children[ChildrenIndex(t.nodes[f])];
    && TypeField(u) == TypeCode(c.nodeType) && WildcardBit(u) == c.wildcard
    && Lo(u) + |c.children| == Hi(u) <= |t.nodes|
    && forall i :: 0 <= i < |c.children| ==> RepresentsNode(t, c.children[i], Lo(u) + i)
  }

  /**
   * Words of the tables that the package is shipped with: the nodes of "ac", which has children at
   * entry 6, and of "academy", and the first children entries.
   */
  lemma ShippedWords()
    ensures NodeWord(655, 2, true, 6) == 0x01a0a3c2 && NodeWord(15478, 7, true, 0) == 0x002f1d87
    ensures ChildrenWord(0, 0, Normal, false) == 0 && ChildrenWord(0, 0, Exception, false) == 0x1000_0000
    ensures ChildrenWord(0, 0, ParentOnly, false) == 0x2000_0000 && ChildrenWord(0, 0, Normal, true) == 0x4000_0000
    ensures ChildrenWord(0, 0, Exception, true) == 0x5000_0000 && ChildrenWord(0, 0, ParentOnly, true) == 0x6000_0000
    ensures ChildrenWord(0x230, 0x236, Normal, false) == 0x008d8230
  {
  }
}
