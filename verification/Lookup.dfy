// The fast query of publicsuffix/list.go: binary search over the generated tables.

module Lookup {
  import opened Build
  import opened Rules
  import opened Sorting
  import opened Strings
  import opened Tables
  import opened Trie
  import opened Wrappers

  /** The label of the i'th node, cut out of the text. */
  function NodeLabel(t: Table, i: nat): string
    requires i < |t.nodes| && TextOffset(t.nodes[i]) + TextLength(t.nodes[i]) <= |t.text|
  {
    t.text[TextOffset(t.nodes[i])..TextOffset(t.nodes[i]) + TextLength(t.nodes[i])]
  }

  /** The labels of a block of nodes, in strictly increasing order. */
  ghost predicate Block(t: Table, cs: seq<Node>, lo: nat) {
    && lo + |cs| <= |t.nodes| && InOrder(cs)
    && forall i :: 0 <= i < |cs| ==> HasLabel(t, lo + i, cs[i].name)
  }

  /** Binary search: the node of the child with the label, or None for notFound. */
  method Find(t: Table, lbl: string, lo0: nat, hi0: nat, ghost cs: seq<Node>) returns (f: Option<nat>)
    requires Block(t, cs, lo0) && hi0 == lo0 + |cs|
    ensures f.Some? ==> lo0 <= f.value < hi0 && ChildOf(cs, lbl) == Some(cs[f.value - lo0])
    ensures f.None? ==> ChildOf(cs, lbl) == None
  {
    hide Less, InOrder, NodeLabel, TextOffset, TextLength;
    var lo, hi := lo0, hi0;
    while lo < hi
      invariant lo0 <= lo <= hi <= hi0
      invariant forall i :: 0 <= i < lo - lo0 ==> Less(cs[i].name, lbl)
      invariant forall i :: hi - lo0 <= i < |cs| ==> Less(lbl, cs[i].name)
    {
      var mid := lo + (hi - lo) / 2;
      ghost var m := mid - lo0;
      LabelAt(t, cs, lo0, m);
      var s := NodeLabel(t, mid);
      LessTotal(s, lbl);
      if Less(s, lbl) {
        BelowToo(cs, m, lbl);
        lo := mid + 1;
      } else if s == lbl {
        IndexUnique(cs, lbl, m);
        return Some(mid);
      } else {
        AboveToo(cs, m, lbl);
        hi := mid;
      }
    }
    NotThere(cs, lbl, lo - lo0);
    return None;
  }

  lemma LabelAt(t: Table, cs: seq<Node>, lo: nat, m: nat)
    requires Block(t, cs, lo) && m < |cs|
    ensures lo + m < |t.nodes| && TextOffset(t.nodes[lo + m]) + TextLength(t.nodes[lo + m]) <= |t.text|
    ensures NodeLabel(t, lo + m) == cs[m].name
  {
    assert HasLabel(t, lo + m, cs[m].name);
  }

  /** All labels are smaller or greater. */
  lemma NotThere(cs: seq<Node>, lbl: string, k: nat)
    requires k <= |cs|
    requires forall i :: 0 <= i < k ==> Less(cs[i].name, lbl)
    requires forall i :: k <= i < |cs| ==> Less(lbl, cs[i].name)
    ensures ChildOf(cs, lbl) == None
  {
    LessTotal(lbl, lbl);
  }

  lemma BelowToo(cs: seq<Node>, m: nat, lbl: string)
    requires InOrder(cs) && m < |cs| && Less(cs[m].name, lbl)
    ensures forall i :: 0 <= i <= m ==> Less(cs[i].name, lbl)
  {
    forall i | 0 <= i < m
      ensures Less(cs[i].name, lbl)
    {
      LessTrans(cs[i].name, cs[m].name, lbl);
    }
  }

  lemma AboveToo(cs: seq<Node>, m: nat, lbl: string)
    requires InOrder(cs) && m < |cs| && Less(lbl, cs[m].name)
    ensures forall i :: m <= i < |cs| ==> Less(lbl, cs[i].name)
  {
    forall i | m < i < |cs|
      ensures Less(lbl, cs[i].name)
    {
      LessTrans(lbl, cs[m].name, cs[i].name);
    }
  }

  // ------------------------------------------------ positions in the domain

  /** strings.LastIndex of one character. */
  function LastDot(s: string): (i: int)
    ensures -1 <= i < |s|
    ensures i >= 0 ==> s[i] == '.'
    ensures forall j :: i < j < |s| ==> s[j] != '.'
  {
    if |s| == 0 then -1 else if s[|s| - 1] == '.' then |s| - 1 else LastDot(s[..|s| - 1])
  }

  /** Where the last k labels of a domain begin. */
  function Start(parts: seq<string>, k: nat): nat
    requires k <= |parts|
  {
    if k == |parts| then 0 else |Join(parts[..|parts| - k], ".")| + 1
  }

  lemma {:induction false} JoinConcat(a: seq<string>, b: seq<string>)
    requires a != [] && b != []
    ensures Join(a + b, ".") == Join(a, ".") + "." + Join(b, ".")
  {
    if |a| == 1 {
      assert (a + b)[1..] == b;
    } else {
      assert (a + b)[1..] == a[1..] + b;
      JoinConcat(a[1..], b);
      assert a[0] + "." + (Join(a[1..], ".") + "." + Join(b, "."))
          == a[0] + "." + Join(a[1..], ".") + "." + Join(b, ".");
    }
  }

  lemma LastLabelsStart(parts: seq<string>, k: nat)
    requires 0 < k <= |parts|
    ensures Start(parts, k) <= |Join(parts, ".")|
    ensures Join(parts, ".")[Start(parts, k)..] == LastLabels(parts, k)
    ensures k < |parts| ==> Join(parts, ".")[Start(parts, k) - 1] == '.'
  {
    if k == |parts| {
      assert parts[0..] == parts;
    } else {
      var a, b := parts[..|parts| - k], parts[|parts| - k..];
      assert a + b == parts;
      JoinConcat(a, b);
    }
  }

  /** Cutting the last of m labels off a string of m labels. */
  lemma CutLast(parts: seq<string>, m: nat)
    requires SepFree(parts, '.') && 0 < m <= |parts|
    ensures var s := Join(parts[..m], ".");
      var dot := LastDot(s);
      && s[1 + dot..] == parts[m - 1]
      && (m == 1 <==> dot == -1)
      && (m > 1 ==> dot >= 0 && s[..dot] == Join(parts[..m - 1], "."))
      && 1 + dot == Start(parts, |parts| - (m - 1))
  {
    var s := Join(parts[..m], ".");
    var last := parts[m - 1];
    if m == 1 {
      assert parts[..1] == [last] && s == last;
    } else {
      assert parts[..m] == parts[..m - 1] + [last];
      JoinConcat(parts[..m - 1], [last]);
      var head := Join(parts[..m - 1], ".");
      assert s == head + "." + last;
      assert forall j :: |head| < j < |s| ==> s[j] == last[j - |head| - 1];
      assert s[|head|] == '.';
      assert LastDot(s) == |head|;
      assert s[1 + |head|..] == last && s[..|head|] == head;
    }
  }

  lemma ChildRepresented(t: Table, n: Node, lo: nat, hi: nat, f: nat)
    requires Represents(t, n, lo, hi) && Ordered(n) && lo <= f < hi
    ensures var c := n.children[f - lo];
      && f < |t.nodes| && ChildrenIndex(t.nodes[f]) < |t.children|
      && var u := t.children[ChildrenIndex(t.nodes[f])];
      && Ordered(c) && TypeField(u) == TypeCode(c.nodeType) && WildcardBit(u) == c.wildcard
      && Represents(t, c, Lo(u), Hi(u)) && IcannBit(t.nodes[f]) == c.icann
  {
    assert RepresentsNode(t, n.children[f - lo], lo + (f - lo));
  }

  /** The position the loop has found: the start of best labels, or the end for none. */
  predicate Marks(parts: seq<string>, domain: string, suffix: nat, best: nat) {
    best <= |parts| && suffix == if best == 0 then |domain| else Start(parts, best)
  }

  /** The children word u stands for the node c. */
  ghost predicate StandsFor(t: Table, u: nat, c: Node) {
    && Ordered(c) && Represents(t, c, Lo(u), Hi(u))
    && TypeField(u) == TypeCode(c.nodeType) && WildcardBit(u) == c.wildcard
  }

  /** The search for a label below a node: the children word of the node found, and its ICANN bit. */
  method Descend(t: Table, lbl: string, lo: nat, hi: nat, ghost n: Node)
    returns (u: Option<nat>, icann: bool, ghost c: Node)
    requires Represents(t, n, lo, hi) && Ordered(n)
    ensures u.None? ==> ChildOf(n.children, lbl) == None
    ensures u.Some? ==> ChildOf(n.children, lbl) == Some(c) && StandsFor(t, u.value, c) && icann == c.icann
  {
    c := n;
    if lo == hi {
      return None, false, c;
    }
    var f := Find(t, lbl, lo, hi, n.children);
    if f.None? {
      return None, false, c;
    }
    ChildRepresented(t, n, lo, hi, f.value);
    c := n.children[f.value - lo];
    return Some(t.children[ChildrenIndex(t.nodes[f.value])]), IcannBit(t.nodes[f.value]), c;
  }

  /** What is left to walk, after the label at depth d has been found at c, or not. */
  function WalkOn(c: Option<Node>, path: seq<string>, d: nat, best1: nat): nat
    requires d < |path|
  {
    match c
    case None => best1
    case Some(c) =>
      var best2 := if c.nodeType == Normal then d + 1 else best1;
      if c.nodeType == Exception then d
      else if d + 1 == |path| then best2
      else Walk(c, c.wildcard, path, d + 1, best2)
  }

  /** The flag at the end of the walk, after the label at depth d has been found at c, or not. */
  function FlagOn(c: Option<Node>, path: seq<string>, d: nat, flag: bool): bool
    requires d < |path|
  {
    match c
    case None => flag
    case Some(c) =>
      if c.nodeType == Exception || d + 1 == |path| then c.icann else WalkFlag(c, path, d + 1, c.icann)
  }

  /** The loop's variables: the block of nodes, what is left of the domain, the suffix, the two bits. */
  datatype Vars = Vars(lo: nat, hi: nat, s: string, suffix: nat, wildcard: bool, icann: bool)

  /** The loop stands at depth d, below the node n, and will have found w labels and the flag. */
  ghost predicate At(t: Table, parts: seq<string>, domain: string, v: Vars, n: Node, d: nat, best: nat, w: nat,
                     flag: bool)
  {
    && d < |parts| && v.s == Join(parts[..|parts| - d], ".")
    && Represents(t, n, v.lo, v.hi) && Ordered(n)
    && Marks(parts, domain, v.suffix, best)
    && Walk(n, v.wildcard, Rev(parts), d, best) == w && WalkFlag(n, Rev(parts), d, v.icann) == flag
  }

  ghost predicate NoException(cs: seq<Node>) {
    forall i :: 0 <= i < |cs| ==> cs[i].nodeType != Exception
  }

  /** The second half of a round: the node c has been found, u is its children word. */
  method Take(t: Table, domain: string, ghost parts: seq<string>, v: Vars, dot: int, u: nat, ghost c: Node,
              ghost d: nat, ghost best1: nat, ghost w: nat, ghost flag: bool)
    returns (r: Vars, done: bool, ghost best2: nat)
    requires CutAt(parts, v.s, dot, d) && Marks(parts, domain, v.suffix, best1) && StandsFor(t, u, c)
    requires w == WalkOn(Some(c), Rev(parts), d, best1)
    requires v.icann == c.icann && flag == FlagOn(Some(c), Rev(parts), d, v.icann)
    requires c.nodeType == Exception ==> d > 0
    ensures done ==> Marks(parts, domain, r.suffix, w) && r.icann == flag
    ensures !done ==> At(t, parts, domain, r, c, d + 1, best2, w, flag)
  {
    r, done, best2 := v.(lo := Lo(u), hi := Hi(u)), true, best1;
    if TypeField(u) == TypeCode(Normal) {
      r := r.(suffix := 1 + dot);
      best2 := d + 1;
    } else if TypeField(u) == TypeCode(Exception) {
      r := r.(suffix := 1 + |v.s|);
      return;
    }
    r := r.(wildcard := WildcardBit(u));
    if dot == -1 {
      return;
    }
    r, done := r.(s := v.s[..dot]), false;
  }

  /** What is left to read at depth d, its last dot, and what is left behind it. */
  ghost predicate CutAt(parts: seq<string>, s: string, dot: int, d: nat) {
    && d < |parts| && s == Join(parts[..|parts| - d], ".") && -1 <= dot < |s|
    && 1 + dot == Start(parts, d + 1) && (d + 1 == |parts| <==> dot == -1)
    && (dot >= 0 ==> s[..dot] == Join(parts[..|parts| - (d + 1)], "."))
  }

  lemma CutsAt(parts: seq<string>, s: string, d: nat)
    requires SepFree(parts, '.') && d < |parts| && s == Join(parts[..|parts| - d], ".")
    ensures CutAt(parts, s, LastDot(s), d) && s[1 + LastDot(s)..] == parts[|parts| - d - 1]
  {
    CutLast(parts, |parts| - d);
  }

  /** The wildcard bit makes the label at depth d public. */
  lemma WildcardMarks(parts: seq<string>, domain: string, v: Vars, d: nat, best: nat)
    requires CutAt(parts, v.s, LastDot(v.s), d) && Marks(parts, domain, v.suffix, best)
    ensures Marks(parts, domain, if v.wildcard then 1 + LastDot(v.s) else v.suffix, if v.wildcard then d + 1 else best)
  {
  }

  lemma LabelAtDepth(parts: seq<string>, n: Node, wild: bool, d: nat, best: nat, lbl: string)
    requires d < |parts| && lbl == parts[|parts| - d - 1]
    ensures Walk(n, wild, Rev(parts), d, best)
            == WalkOn(ChildOf(n.children, lbl), Rev(parts), d, if wild then d + 1 else best)
    ensures forall flag :: WalkFlag(n, Rev(parts), d, flag) == FlagOn(ChildOf(n.children, lbl), Rev(parts), d, flag)
  {
  }

  lemma NotTop(n: Node, lbl: string, c: Node)
    requires NoException(n.children) && ChildOf(n.children, lbl) == Some(c)
    ensures c.nodeType != Exception
  {
  }

  /** What a round starts from: the last label cut off, the wildcard bit counted, the walk still to do. */
  ghost predicate Ready(t: Table, parts: seq<string>, domain: string, v: Vars, n: Node, d: nat, best1: nat, w: nat,
                        flag: bool, dot: int, suffix: nat)
  {
    && CutAt(parts, v.s, dot, d) && Marks(parts, domain, suffix, best1)
    && Represents(t, n, v.lo, v.hi) && Ordered(n)
    && WalkOn(ChildOf(n.children, v.s[1 + dot..]), Rev(parts), d, best1) == w
    && FlagOn(ChildOf(n.children, v.s[1 + dot..]), Rev(parts), d, v.icann) == flag
  }

  lemma RoundStarts(t: Table, parts: seq<string>, domain: string, v: Vars, n: Node, d: nat, best: nat, w: nat,
                    flag: bool)
    requires SepFree(parts, '.') && At(t, parts, domain, v, n, d, best, w, flag)
    ensures var dot := LastDot(v.s);
      Ready(t, parts, domain, v, n, d, if v.wildcard then d + 1 else best, w, flag, dot,
            if v.wildcard then 1 + dot else v.suffix)
  {
    hide Marks, Represents, Ordered, Walk, WalkFlag, SepFree, ChildOf, WalkOn, FlagOn;
    CutsAt(parts, v.s, d);
    WildcardMarks(parts, domain, v, d, best);
    LabelAtDepth(parts, n, v.wildcard, d, best, v.s[1 + LastDot(v.s)..]);
  }

  lemma ReadyParts(t: Table, parts: seq<string>, domain: string, v: Vars, n: Node, d: nat, best1: nat, w: nat,
                   flag: bool, dot: int, suffix: nat)
    requires Ready(t, parts, domain, v, n, d, best1, w, flag, dot, suffix)
    ensures -1 <= dot < |v.s| && Represents(t, n, v.lo, v.hi) && Ordered(n)
  {
  }

  /** The label is not there: the walk is over. */
  lemma ReadyNone(t: Table, parts: seq<string>, domain: string, v: Vars, n: Node, d: nat, best1: nat, w: nat,
                  flag: bool, dot: int, suffix: nat)
    requires Ready(t, parts, domain, v, n, d, best1, w, flag, dot, suffix)
    requires ChildOf(n.children, v.s[1 + dot..]) == None
    ensures Marks(parts, domain, suffix, w) && v.icann == flag
  {
    hide Represents, Ordered, Walk, WalkFlag, ChildOf;
  }

  /** The label is there: the walk goes on from the child. */
  lemma ReadySome(t: Table, parts: seq<string>, domain: string, v: Vars, n: Node, d: nat, best1: nat, w: nat,
                  flag: bool, dot: int, suffix: nat, c: Node)
    requires Ready(t, parts, domain, v, n, d, best1, w, flag, dot, suffix)
    requires ChildOf(n.children, v.s[1 + dot..]) == Some(c) && (d == 0 ==> NoException(n.children))
    ensures CutAt(parts, v.s, dot, d) && Marks(parts, domain, suffix, best1)
    ensures w == WalkOn(Some(c), Rev(parts), d, best1) && flag == FlagOn(Some(c), Rev(parts), d, c.icann)
    ensures c.nodeType == Exception ==> d > 0
  {
    hide Represents, Ordered, Walk, WalkFlag;
    if d == 0 {
      NotTop(n, v.s[1 + dot..], c);
    }
  }

  /** One round of the loop. */
  method Round(t: Table, domain: string, ghost parts: seq<string>, v: Vars, ghost n: Node, ghost d: nat,
               ghost best: nat, ghost w: nat, ghost flag: bool)
    returns (r: Vars, done: bool, ghost c: Node, ghost best2: nat)
    requires SepFree(parts, '.') && At(t, parts, domain, v, n, d, best, w, flag)
    // an exception of one label would make the source slice out of range
    requires d == 0 ==> NoException(n.children)
    ensures done ==> Marks(parts, domain, r.suffix, w) && r.icann == flag
    ensures !done ==> At(t, parts, domain, r, c, d + 1, best2, w, flag)
  {
    hide *;
    var dot := LastDot(v.s);
    best2 := if v.wildcard then d + 1 else best;
    var suffix := if v.wildcard then 1 + dot else v.suffix;
    RoundStarts(t, parts, domain, v, n, d, best, w, flag);
    ReadyParts(t, parts, domain, v, n, d, best2, w, flag, dot, suffix);
    r, done := v.(suffix := suffix), true;
    var u, icann;
    u, icann, c := Descend(t, v.s[1 + dot..], v.lo, v.hi, n);
    if u.None? {
      ReadyNone(t, parts, domain, v, n, d, best2, w, flag, dot, suffix);
    } else {
      ReadySome(t, parts, domain, v, n, d, best2, w, flag, dot, suffix, c);
      r := r.(icann := icann);
      r, done, best2 := Take(t, domain, parts, r, dot, u.value, c, d, best2, w, flag);
    }
  }

  /** The loop of PublicSuffix. It finds on the tables what Walk finds on the tree. */
  method Locate(t: Table, domain: string, ghost root: Node) returns (suffix: nat, icann: bool)
    requires Represents(t, root, 0, t.numTLD) && Ordered(root)
    requires NoException(root.children)
    ensures Marks(Split(domain, '.'), domain, suffix, Walk(root, false, Rev(Split(domain, '.')), 0, 0))
    ensures icann == WalkFlag(root, Rev(Split(domain, '.')), 0, false)
  {
    ghost var parts := Split(domain, '.');
    SplitSepFree(domain, '.');
    JoinSplit(domain, '.');
    assert parts[..|parts|] == parts;
    ghost var n, d, best, w := root, 0, 0, Walk(root, false, Rev(parts), 0, 0);
    ghost var flag := WalkFlag(root, Rev(parts), 0, false);
    var v, done := Vars(0, t.numTLD, domain, |domain|, false, false), false;
    while !done
      invariant !done ==> At(t, parts, domain, v, n, d, best, w, flag) && (d == 0 ==> n == root)
      invariant done ==> Marks(parts, domain, v.suffix, w) && v.icann == flag
      decreases |parts| - d, !done
    {
      v, done, n, best := Round(t, domain, parts, v, n, d, best, w, flag);
      d := if done then d else d + 1;
    }
    return v.suffix, v.icann;
  }

  /** A well-formed list has no exception directly below the root. */
  lemma NoTopException(rs: seq<Rule>, icann: seq<bool>)
    requires |icann| == |rs| && WellFormed(rs)
    ensures NoException(Tree(rs, icann).children)
  {
    var root := Tree(rs, icann);
    TreeOrdered(rs, icann);
    forall i | 0 <= i < |root.children|
      ensures root.children[i].nodeType != Exception
    {
      var q := [root.children[i].name];
      IndexUnique(root.children, q[0], i);
      TreeSays(rs, icann, q);
      assert Get(root, q) == Some(root.children[i]);
      assert forall j :: 0 <= j < |rs| && rs[j].nodeType == Exception ==> rs[j].Good() && |rs[j].Path()| != |q|;
    }
  }

  /** The end of PublicSuffix: the position found cuts off the right labels. */
  lemma CutSuffix(parts: seq<string>, pos: nat, w: nat)
    requires |parts| > 0 && Marks(parts, Join(parts, "."), pos, w)
    ensures pos <= |Join(parts, ".")|
    ensures pos < |Join(parts, ".")| ==> w > 0 && Join(parts, ".")[pos..] == LastLabels(parts, w)
    ensures pos == |Join(parts, ".")| ==> w <= 1
  {
    if w > 0 {
      LastLabelsStart(parts, w);
      if w > 1 {
      }
    }
  }

  /** Without a position, the last label is cut off. */
  lemma CutOne(parts: seq<string>)
    requires |parts| > 0 && SepFree(parts, '.')
    ensures var domain := Join(parts, ".");
      domain[1 + LastDot(domain)..] == LastLabels(parts, 1)
  {
    assert parts[..|parts|] == parts;
    CutLast(parts, |parts|);
    LastLabelsStart(parts, 1);
  }

  /** The tables stand for the tree of a well-formed list of rules. */
  ghost predicate Serves(t: Table, rs: seq<Rule>, icann: seq<bool>) {
    |icann| == |rs| && WellFormed(rs) && Represents(t, Tree(rs, icann), 0, t.numTLD)
  }

  /**
   * The second result of the query: where the loop ends, d labels down, all rules that end there stand in
   * the ICANN section; with no rule for the last label it is false.
   */
  ghost predicate IsManaged(rs: seq<Rule>, icann: seq<bool>, domain: string, managed: bool)
    requires |icann| == |rs|
  {
    var path := Rev(Split(domain, '.'));
    exists d: nat :: EndsAt(rs, path, d) && (managed <==> d > 0 && Managed(rs, icann, path[..d]))
  }

  /** The fast query gives the suffix that the rules define, and the flag of the node where its walk ends. */
  method PublicSuffix(t: Table, domain: string, ghost rs: seq<Rule>, ghost icann: seq<bool>)
    returns (suffix: string, managed: bool)
    requires Serves(t, rs, icann)
    ensures IsPublicSuffix(rs, domain, suffix) && IsManaged(rs, icann, domain, managed)
  {
    hide Split, Join, Walk, WalkFlag, Marks, SuffixCount, EndsAt, Managed, WellFormed, Tree, Represents, LastDot;
    hide IsPublicSuffix, IsManaged, LastLabels, Ordered, NoException;
    ghost var root, parts := Tree(rs, icann), Split(domain, '.');
    TreeOrdered(rs, icann);
    NoTopException(rs, icann);
    WalkFromRoot(rs, icann, Rev(parts));
    SplitSepFree(domain, '.');
    JoinSplit(domain, '.');
    ghost var e := FlagFromRoot(rs, icann, Rev(parts));
    var pos;
    pos, managed := Locate(t, domain, root);
    ghost var w := Walk(root, false, Rev(parts), 0, 0);
    CutSuffix(parts, pos, w);
    CutOne(parts);
    if pos == |domain| {
      suffix := domain[1 + LastDot(domain)..];
      Counted(rs, domain, suffix, 1);
    } else {
      suffix := domain[pos..];
      Counted(rs, domain, suffix, w);
    }
    assert IsManaged(rs, icann, domain, managed) by {
      ManagedThere(rs, icann, domain, managed, e);
    }
  }

  lemma Counted(rs: seq<Rule>, domain: string, suffix: string, k: nat)
    requires k <= |Split(domain, '.')| && SuffixCount(rs, Rev(Split(domain, '.')), k)
    requires suffix == LastLabels(Split(domain, '.'), k)
    ensures IsPublicSuffix(rs, domain, suffix)
  {
    assert CountedSuffix(rs, domain, suffix, k);
  }

  lemma ManagedThere(rs: seq<Rule>, icann: seq<bool>, domain: string, managed: bool, d: nat)
    requires |icann| == |rs| && EndsAt(rs, Rev(Split(domain, '.')), d)
    requires managed <==> d > 0 && Managed(rs, icann, Rev(Split(domain, '.'))[..d])
    ensures IsManaged(rs, icann, domain, managed)
  {
  }

  datatype Registrable = Domain(name: string) | CannotDerive | InvalidSuffix

  /** The suffix plus one label, in terms of the labels of the domain. */
  ghost predicate OneMore(rs: seq<Rule>, domain: string, r: Registrable) {
    var parts := Split(domain, '.');
    exists k: nat ::
      && k <= |parts| && SuffixCount(rs, Rev(parts), k)
      && r == if k == |parts| then CannotDerive else Domain(LastLabels(parts, k + 1))
  }

  lemma SplitAt(parts: seq<string>, k: nat)
    requires 0 < k < |parts|
    ensures Join(parts, ".") == Join(parts[..|parts| - k], ".") + "." + LastLabels(parts, k)
  {
    var m := |parts| - k;
    assert parts == parts[..m] + parts[m..];
    JoinConcat(parts[..m], parts[m..]);
  }

  /** Cutting a domain in front of its last k labels, and one label further. */
  lemma OneMoreLabel(parts: seq<string>, domain: string, k: nat)
    requires SepFree(parts, '.') && domain == Join(parts, ".") && 0 < k < |parts|
    ensures var i := |domain| - |LastLabels(parts, k)| - 1;
      && 0 <= i < |domain| && domain[i] == '.'
      && domain[1 + LastDot(domain[..i])..] == LastLabels(parts, k + 1)
  {
    var head, tail := Join(parts[..|parts| - k], "."), LastLabels(parts, k);
    SplitAt(parts, k);
    assert domain == head + "." + tail;
    assert domain[..|head|] == head;
    CutLast(parts, |parts| - k);
    LastLabelsStart(parts, k + 1);
  }

  /** The two tests of EffectiveTLDPlusOne find what lies in front of the last k labels. */
  lemma TestsDecide(domain: string, k: nat)
    requires 0 < k <= |Split(domain, '.')|
    ensures var parts := Split(domain, '.');
      var suffix := LastLabels(parts, k);
      var i := |domain| - |suffix| - 1;
      && (|domain| <= |suffix| <==> k == |parts|)
      && (k < |parts| ==> domain[i] == '.' && domain[1 + LastDot(domain[..i])..] == LastLabels(parts, k + 1))
  {
    var parts := Split(domain, '.');
    SplitSepFree(domain, '.');
    JoinSplit(domain, '.');
    AllLabels(parts);
    hide *;
    if k < |parts| {
      OneMoreLabel(parts, domain, k);
    }
  }

  lemma AllLabels(parts: seq<string>)
    ensures LastLabels(parts, |parts|) == Join(parts, ".")
  {
    assert parts[0..] == parts;
  }

  function Derive(domain: string, suffix: string): Registrable {
    if |domain| <= |suffix| then CannotDerive
    else
      var i := |domain| - |suffix| - 1;
      if domain[i] != '.' then InvalidSuffix else Domain(domain[1 + LastDot(domain[..i])..])
  }

  lemma DeriveCounted(domain: string, k: nat)
    requires 0 < k <= |Split(domain, '.')|
    ensures var parts := Split(domain, '.');
      Derive(domain, LastLabels(parts, k))
      == if k == |parts| then CannotDerive else Domain(LastLabels(parts, k + 1))
  {
    TestsDecide(domain, k);
  }

  /** The "invalid public suffix" error is never returned; success adds exactly one label. */
  lemma Derives(rs: seq<Rule>, domain: string, suffix: string)
    requires WellFormed(rs) && IsPublicSuffix(rs, domain, suffix)
    ensures Derive(domain, suffix) != InvalidSuffix && OneMore(rs, domain, Derive(domain, suffix))
  {
    var k: nat :| CountedSuffix(rs, domain, suffix, k);
    PositiveCount(rs, Rev(Split(domain, '.')), k);
    DeriveCounted(domain, k);
  }

  method EffectiveTLDPlusOne(t: Table, domain: string, ghost rs: seq<Rule>, ghost icann: seq<bool>)
    returns (r: Registrable)
    requires Serves(t, rs, icann)
    ensures r != InvalidSuffix && OneMore(rs, domain, r)
  {
    var suffix, _ := PublicSuffix(t, domain, rs, icann);
    Derives(rs, domain, suffix);
    r := Derive(domain, suffix);
  }

  lemma PositiveCount(rs: seq<Rule>, path: seq<string>, k: nat)
    requires WellFormed(rs) && SuffixCount(rs, path, k)
    ensures k > 0
  {
    assert forall i :: 0 <= i < |rs| ==> rs[i].Good() && rs[i].Count() > 0;
  }
}
