// The tree of rule labels that publicsuffix/gen.go builds.

module Trie {
  import opened Sorting
  import opened Wrappers

  datatype NodeType = Normal | Exception | ParentOnly

  /** gen.go's node; the three indexes are filled in when the tables are laid out. */
  datatype Node = Node(name: string, nodeType: NodeType, icann: bool, wildcard: bool,
                       nodesIndex: nat, childrenIndex: nat, firstChild: nat, children: seq<Node>)

  function Fresh(lbl: string): Node {
    Node(lbl, ParentOnly, true, false, 0, 0, 0, [])
  }

  /** The zero value that main1 starts from. */
  const EMPTY_ROOT: Node := Node("", Normal, false, false, 0, 0, 0, [])

  predicate ByLabel(a: Node, b: Node) {
    Less(a.name, b.name)
  }

  lemma ByLabelAsymmetric()
    ensures Asymmetric(ByLabel)
  {
    forall x: Node, y: Node | ByLabel(x, y)
      ensures !ByLabel(y, x)
    {
      LessTotal(x.name, y.name);
    }
  }

  ghost predicate InOrder(cs: seq<Node>) {
    forall i, j :: 0 <= i < j < |cs| ==> Less(cs[i].name, cs[j].name)
  }

  /** Children are in strictly increasing label order at every node. */
  ghost predicate Ordered(n: Node) {
    InOrder(n.children) && forall i :: 0 <= i < |n.children| ==> Ordered(n.children[i])
  }

  /** The first child with the label. */
  function IndexOf(cs: seq<Node>, lbl: string): (i: nat)
    ensures i <= |cs|
    ensures i < |cs| ==> cs[i].name == lbl
    ensures forall k :: 0 <= k < i ==> cs[k].name != lbl
  {
    if cs == [] || cs[0].name == lbl then 0 else 1 + IndexOf(cs[1..], lbl)
  }

  function ChildOf(cs: seq<Node>, lbl: string): Option<Node> {
    var i := IndexOf(cs, lbl);
    if i < |cs| then Some(cs[i]) else None
  }

  /** The children once the child with the label exists. */
  function WithChild(cs: seq<Node>, lbl: string): (r: seq<Node>) {
    if IndexOf(cs, lbl) < |cs| then cs else SortWith(cs + [Fresh(lbl)], ByLabel)
  }

  method Child(cs: seq<Node>, lbl: string) returns (r: seq<Node>, at: nat)
    requires InOrder(cs)
    ensures r == WithChild(cs, lbl) && at == IndexOf(r, lbl) < |r|
  {
    for i := 0 to |cs|
      invariant forall k :: 0 <= k < i ==> cs[k].name != lbl
    {
      if cs[i].name == lbl {
        return cs, i;
      }
    }
    WithChildFacts(cs, lbl);
    r := SortWith(cs + [Fresh(lbl)], ByLabel);
    at := IndexOf(r, lbl);
  }

  lemma IndexUnique(cs: seq<Node>, lbl: string, i: nat)
    requires InOrder(cs) && i < |cs| && cs[i].name == lbl
    ensures IndexOf(cs, lbl) == i
  {
    LessTotal(lbl, lbl);
  }

  lemma PlaceMembers(cs: seq<Node>, c: Node)
    ensures forall d :: d in Place(cs, c, ByLabel) <==> d in cs || d == c
  {
    PlaceKeeps(cs, c, ByLabel);
    assert forall d :: d in Place(cs, c, ByLabel) <==> d in multiset(Place(cs, c, ByLabel));
    assert forall d :: d in cs <==> d in multiset(cs);
  }

  /** A node in front of a list in order, smaller than its first. */
  lemma InOrderCons(c: Node, cs: seq<Node>)
    requires InOrder(cs) && forall d :: d in cs ==> Less(c.name, d.name)
    ensures InOrder([c] + cs)
  {
  }

  lemma {:induction false} PlaceOrdered(cs: seq<Node>, c: Node)
    requires InOrder(cs) && IndexOf(cs, c.name) == |cs|
    ensures InOrder(Place(cs, c, ByLabel))
  {
    if cs != [] {
      if ByLabel(c, cs[0]) {
        forall d | d in cs
          ensures Less(c.name, d.name)
        {
          if d != cs[0] {
            LessTrans(c.name, cs[0].name, d.name);
          }
        }
        InOrderCons(c, cs);
      } else {
        LessTotal(c.name, cs[0].name);
        PlaceOrdered(cs[1..], c);
        PlaceMembers(cs[1..], c);
        InOrderCons(cs[0], Place(cs[1..], c, ByLabel));
      }
    }
  }

  /** With distinct names, the child with a name is the member with that name. */
  lemma ChildOfMember(cs: seq<Node>, c: Node)
    requires InOrder(cs) && c in cs
    ensures ChildOf(cs, c.name) == Some(c)
  {
    var i :| 0 <= i < |cs| && cs[i] == c;
    IndexUnique(cs, c.name, i);
  }

  lemma SameChild(cs: seq<Node>, ds: seq<Node>, lbl: string)
    requires InOrder(cs) && InOrder(ds)
    requires forall c: Node :: c.name == lbl ==> (c in cs <==> c in ds)
    ensures ChildOf(cs, lbl) == ChildOf(ds, lbl)
  {
    if ChildOf(cs, lbl).Some? {
      ChildOfMember(ds, ChildOf(cs, lbl).value);
    } else if ChildOf(ds, lbl).Some? {
      ChildOfMember(cs, ChildOf(ds, lbl).value);
    }
  }

  lemma WithChildAbsent(cs: seq<Node>, lbl: string)
    requires InOrder(cs) && IndexOf(cs, lbl) == |cs|
    ensures InOrder(WithChild(cs, lbl))
    ensures forall c :: c in WithChild(cs, lbl) <==> c in cs || c == Fresh(lbl)
  {
    ByLabelAsymmetric();
    SortAppended(cs, Fresh(lbl), ByLabel);
    PlaceOrdered(cs, Fresh(lbl));
    PlaceMembers(cs, Fresh(lbl));
  }

  /** Ensuring a child changes nothing for other labels. */
  lemma WithChildFacts(cs: seq<Node>, lbl: string)
    requires InOrder(cs)
    ensures InOrder(WithChild(cs, lbl))
    ensures ChildOf(WithChild(cs, lbl), lbl) == Some(ChildOf(cs, lbl).UnwrapOr(Fresh(lbl)))
    ensures forall l :: l != lbl ==> ChildOf(WithChild(cs, lbl), l) == ChildOf(cs, l)
    ensures forall c :: c in WithChild(cs, lbl) ==> c in cs || c == Fresh(lbl)
  {
    var r := WithChild(cs, lbl);
    if IndexOf(cs, lbl) == |cs| {
      WithChildAbsent(cs, lbl);
      ChildOfMember(r, Fresh(lbl));
      forall l | l != lbl
        ensures ChildOf(r, l) == ChildOf(cs, l)
      {
        SameChild(r, cs, l);
      }
    }
  }

  // --------------------------------------------------------- rule insertion

  /** The end of a rule's path: main1's updates of the last node. */
  function Mark(n: Node, nt: NodeType, icann: bool, wildcard: bool): Node {
    n.(nodeType := if nt != ParentOnly && n.nodeType == ParentOnly then nt else n.nodeType,
       icann := n.icann && icann,
       wildcard := n.wildcard || wildcard)
  }

  /** The tree after a rule has been entered below n; path is its labels, top level first. */
  function Insert(n: Node, path: seq<string>, nt: NodeType, icann: bool, wildcard: bool): (r: Node)
    ensures r.name == n.name
    decreases |path|
  {
    if path == [] then Mark(n, nt, icann, wildcard)
    else
      var cs := WithChild(n.children, path[0]);
      var i := IndexOf(cs, path[0]);
      if i < |cs| then n.(children := cs[i := Insert(cs[i], path[1..], nt, icann, wildcard)]) else n
  }

  /** The node at the end of a path. */
  function Get(n: Node, path: seq<string>): Option<Node>
    decreases |path|
  {
    if path == [] then Some(n)
    else
      match ChildOf(n.children, path[0])
      case None => None
      case Some(c) => Get(c, path[1..])
  }

  /** What a node says about its own path: its type, its ICANN flag and its wildcard bit. */
  datatype Attr = Attr(nodeType: NodeType, icann: bool, wildcard: bool)

  function AttrAt(n: Node, path: seq<string>): Option<Attr> {
    match Get(n, path)
    case None => None
    case Some(c) => Some(Attr(c.nodeType, c.icann, c.wildcard))
  }

  function MarkAttr(a: Attr, nt: NodeType, icann: bool, wildcard: bool): Attr {
    Attr(if nt != ParentOnly && a.nodeType == ParentOnly then nt else a.nodeType, a.icann && icann,
         a.wildcard || wildcard)
  }

  const FRESH_ATTR := Attr(ParentOnly, true, false)

  /** One child replaced: other labels see what they saw. */
  lemma ReplacedChild(cs: seq<Node>, i: nat, c: Node, l: string)
    requires InOrder(cs) && i < |cs| && c.name == cs[i].name
    ensures InOrder(cs[i := c])
    ensures ChildOf(cs[i := c], l) == if l == c.name then Some(c) else ChildOf(cs, l)
  {
    var ds := cs[i := c];
    if l == c.name {
      IndexUnique(ds, l, i);
    } else {
      forall d: Node | d.name == l
        ensures d in cs <==> d in ds
      {
        if d in cs {
          var k :| 0 <= k < |cs| && cs[k] == d;
          assert ds[k] == d;
        }
      }
      SameChild(cs, ds, l);
    }
  }

  lemma InsertChild(n: Node, path: seq<string>, nt: NodeType, icann: bool, wildcard: bool, l: string)
    requires InOrder(n.children) && path != []
    ensures var was := ChildOf(n.children, path[0]).UnwrapOr(Fresh(path[0]));
      var r := Insert(n, path, nt, icann, wildcard);
      && InOrder(r.children)
      && ChildOf(r.children, l)
         == if l == path[0] then Some(Insert(was, path[1..], nt, icann, wildcard)) else ChildOf(n.children, l)
  {
    var cs := WithChild(n.children, path[0]);
    WithChildFacts(n.children, path[0]);
    var i := IndexOf(cs, path[0]);
    ReplacedChild(cs, i, Insert(cs[i], path[1..], nt, icann, wildcard), l);
  }

  /** Insertion keeps the children of every node in strictly increasing label order. */
  lemma {:induction false} InsertOrdered(n: Node, path: seq<string>, nt: NodeType, icann: bool, wildcard: bool)
    requires Ordered(n)
    ensures Ordered(Insert(n, path, nt, icann, wildcard))
    decreases |path|
  {
    if path != [] {
      var cs := WithChild(n.children, path[0]);
      WithChildFacts(n.children, path[0]);
      var i := IndexOf(cs, path[0]);
      assert forall c :: c in cs ==> Ordered(c);
      InsertOrdered(cs[i], path[1..], nt, icann, wildcard);
      ReplacedChild(cs, i, Insert(cs[i], path[1..], nt, icann, wildcard), path[0]);
    }
  }

  /** How an attribute reads after the insertion of a path. */
  function AttrAfter(before: Option<Attr>, path: seq<string>, nt: NodeType, icann: bool, wildcard: bool,
                     q: seq<string>): Option<Attr> {
    if q == path then Some(MarkAttr(before.UnwrapOr(FRESH_ATTR), nt, icann, wildcard))
    else if q <= path then Some(before.UnwrapOr(FRESH_ATTR))
    else before
  }

  lemma AttrAfterTail(before: Option<Attr>, path: seq<string>, nt: NodeType, icann: bool, wildcard: bool,
                      q: seq<string>)
    requires path != [] && q != []
    ensures q[0] == path[0] ==>
      AttrAfter(before, path, nt, icann, wildcard, q) == AttrAfter(before, path[1..], nt, icann, wildcard, q[1..])
    ensures q[0] != path[0] ==> AttrAfter(before, path, nt, icann, wildcard, q) == before
  {
    assert q == [q[0]] + q[1..] && path == [path[0]] + path[1..];
  }

  lemma FreshAttr(lbl: string, q: seq<string>)
    ensures AttrAt(Fresh(lbl), q) == if q == [] then Some(FRESH_ATTR) else None
  {
  }

  /**
   * What insertion changes: the nodes on the path come to exist, and only the last one is
   * marked. Every other path reads as before.
   */
  lemma {:induction false} InsertAttr(n: Node, path: seq<string>, nt: NodeType, icann: bool, wildcard: bool,
                                      q: seq<string>)
    requires Ordered(n)
    ensures AttrAt(Insert(n, path, nt, icann, wildcard), q) == AttrAfter(AttrAt(n, q), path, nt, icann, wildcard, q)
    decreases |path|, 1
  {
    if path != [] && q != [] {
      InsertChild(n, path, nt, icann, wildcard, q[0]);
      AttrAfterTail(AttrAt(n, q), path, nt, icann, wildcard, q);
      if q[0] == path[0] {
        InsertAttrBelow(n, path, nt, icann, wildcard, q);
      }
    }
  }

  lemma {:induction false} InsertAttrBelow(n: Node, path: seq<string>, nt: NodeType, icann: bool, wildcard: bool,
                                           q: seq<string>)
    requires Ordered(n) && path != [] && q != []
    ensures var was := ChildOf(n.children, path[0]).UnwrapOr(Fresh(path[0]));
      q[0] == path[0] ==>
        AttrAt(Insert(was, path[1..], nt, icann, wildcard), q[1..])
        == AttrAfter(AttrAt(n, q), path[1..], nt, icann, wildcard, q[1..])
    decreases |path|, 0
  {
    var was := ChildOf(n.children, path[0]).UnwrapOr(Fresh(path[0]));
    InsertAttr(was, path[1..], nt, icann, wildcard, q[1..]);
    FreshAttr(path[0], q[1..]);
  }

  /** main1's walk from the root along a rule's labels, creating what is missing. */
  method AddRule(n: Node, path: seq<string>, nt: NodeType, icann: bool, wildcard: bool) returns (r: Node)
    requires Ordered(n)
    ensures r == Insert(n, path, nt, icann, wildcard) && Ordered(r)
    decreases |path|
  {
    InsertOrdered(n, path, nt, icann, wildcard);
    if path == [] {
      return Mark(n, nt, icann, wildcard);
    }
    WithChildFacts(n.children, path[0]);
    var cs, at := Child(n.children, path[0]);
    assert cs[at] in n.children || cs[at] == Fresh(path[0]);
    var below := AddRule(cs[at], path[1..], nt, icann, wildcard);
    r := n.(children := cs[at := below]);
  }
}
