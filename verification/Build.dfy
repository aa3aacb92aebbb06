// From a list of rules to the tree, and from the tree back to what the rules say.

module Build {
  import opened Rules
  import opened Trie
  import opened Wrappers

  /** main1's tree after all rules; icann holds, rule by rule, the section it stands in. */
  function Tree(rs: seq<Rule>, icann: seq<bool>): (root: Node)
    requires |icann| == |rs|
  {
    if rs == [] then EMPTY_ROOT
    else
      var k := |rs| - 1;
      Insert(Tree(rs[..k], icann[..k]), rs[k].Path(), rs[k].nodeType, icann[k], rs[k].wildcard)
  }

  lemma {:induction false} TreeOrdered(rs: seq<Rule>, icann: seq<bool>)
    requires |icann| == |rs|
    ensures Ordered(Tree(rs, icann))
  {
    if rs != [] {
      var k := |rs| - 1;
      TreeOrdered(rs[..k], icann[..k]);
      InsertOrdered(Tree(rs[..k], icann[..k]), rs[k].Path(), rs[k].nodeType, icann[k], rs[k].wildcard);
    }
  }

  lemma TreeNext(rs: seq<Rule>, icann: seq<bool>, i: nat)
    requires i < |rs| == |icann|
    ensures Tree(rs[..i + 1], icann[..i + 1])
            == Insert(Tree(rs[..i], icann[..i]), rs[i].Path(), rs[i].nodeType, icann[i], rs[i].wildcard)
  {
    hide Insert;
    assert rs[..i + 1][..i] == rs[..i] && icann[..i + 1][..i] == icann[..i];
  }

  method BuildTree(rules: seq<string>, icann: seq<bool>) returns (root: Node)
    requires |icann| == |rules|
    ensures root == Tree(ParseAll(rules), icann) && Ordered(root)
  {
    root := EMPTY_ROOT;
    ghost var rs := ParseAll(rules);
    assert Tree(rs[..0], icann[..0]) == root && Ordered(root);
    hide Tree, Insert, Ordered;
    for i := 0 to |rules|
      invariant root == Tree(rs[..i], icann[..i]) && Ordered(root)
    {
      var r := Parse(rules[i]);
      root := AddRule(root, r.Path(), r.nodeType, icann[i], r.wildcard);
      TreeNext(rs, icann, i);
    }
    assert rs[..|rules|] == rs && icann[..|rules|] == icann;
  }

  // ------------------------------------------------- what a path's node says

  ghost predicate Leads(rs: seq<Rule>, q: seq<string>) {
    exists i :: 0 <= i < |rs| && q <= rs[i].Path()
  }

  ghost predicate Has(rs: seq<Rule>, nt: NodeType, q: seq<string>) {
    exists i :: 0 <= i < |rs| && rs[i].nodeType == nt && rs[i].Path() == q
  }

  /** The node of a path exists if a rule leads through it, and its marks come from rules. */
  ghost predicate Says(rs: seq<Rule>, q: seq<string>, a: Option<Attr>) {
    && (a.Some? <==> Leads(rs, q))
    && (a.Some? ==>
          && (a.value.wildcard <==> Has(rs, ParentOnly, q))
          && (a.value.nodeType == ParentOnly ==> !Has(rs, Normal, q) && !Has(rs, Exception, q))
          && (a.value.nodeType != ParentOnly ==> Has(rs, a.value.nodeType, q)))
  }

  lemma LeadsCons(rs: seq<Rule>, r: Rule, q: seq<string>)
    ensures Leads(rs + [r], q) <==> Leads(rs, q) || q <= r.Path()
    ensures forall nt :: Has(rs + [r], nt, q) <==> Has(rs, nt, q) || (r.nodeType == nt && r.Path() == q)
  {
    var all := rs + [r];
    assert all[|rs|] == r;
    assert forall i :: 0 <= i < |rs| ==> all[i] == rs[i];
  }

  lemma SaysAfter(rs: seq<Rule>, r: Rule, icann: bool, q: seq<string>, a: Option<Attr>)
    requires Says(rs, q, a) && (r.wildcard <==> r.nodeType == ParentOnly)
    ensures Says(rs + [r], q, AttrAfter(a, r.Path(), r.nodeType, icann, r.wildcard, q))
  {
    LeadsCons(rs, r, q);
    if a.None? {
      assert forall nt :: !Has(rs, nt, q);
    }
  }

  lemma {:induction false} TreeSays(rs: seq<Rule>, icann: seq<bool>, q: seq<string>)
    requires |icann| == |rs| && q != []
    requires forall i :: 0 <= i < |rs| ==> (rs[i].wildcard <==> rs[i].nodeType == ParentOnly)
    ensures Says(rs, q, AttrAt(Tree(rs, icann), q))
  {
    if rs != [] {
      var k := |rs| - 1;
      TreeSays(rs[..k], icann[..k], q);
      TreeOrdered(rs[..k], icann[..k]);
      InsertAttr(Tree(rs[..k], icann[..k]), rs[k].Path(), rs[k].nodeType, icann[k], rs[k].wildcard, q);
      SaysAfter(rs[..k], rs[k], icann[k], q, AttrAt(Tree(rs[..k], icann[..k]), q));
      assert rs == rs[..k] + [rs[k]];
    }
  }

  /** All rules that end here stand in the ICANN section. */
  ghost predicate Managed(rs: seq<Rule>, icann: seq<bool>, q: seq<string>)
    requires |icann| == |rs|
  {
    forall i :: 0 <= i < |rs| && rs[i].Path() == q ==> icann[i]
  }

  lemma ManagedAfter(rs: seq<Rule>, icann: seq<bool>, q: seq<string>)
    requires |icann| == |rs| > 0
    ensures var k := |rs| - 1;
      Managed(rs, icann, q) <==> Managed(rs[..k], icann[..k], q) && (rs[k].Path() == q ==> icann[k])
  {
  }

  /** The flag of a node says whether all rules that end there are ICANN rules; where none ends it is set. */
  lemma {:induction false} TreeManaged(rs: seq<Rule>, icann: seq<bool>, q: seq<string>)
    requires |icann| == |rs| && q != []
    ensures AttrAt(Tree(rs, icann), q).Some? ==>
              (AttrAt(Tree(rs, icann), q).value.icann <==> Managed(rs, icann, q))
    ensures AttrAt(Tree(rs, icann), q).None? ==> Managed(rs, icann, q)
  {
    if rs != [] {
      var k := |rs| - 1;
      TreeManaged(rs[..k], icann[..k], q);
      TreeOrdered(rs[..k], icann[..k]);
      InsertAttr(Tree(rs[..k], icann[..k]), rs[k].Path(), rs[k].nodeType, icann[k], rs[k].wildcard, q);
      ManagedAfter(rs, icann, q);
    }
  }

  // --------------------------------------------------------- walking the tree

  /**
   * PublicSuffix's loop over the tree: d labels of the path are consumed, wild is the bit of
   * the node reached, best the number of labels found public so far (0 for none).
   */
  function Walk(n: Node, wild: bool, path: seq<string>, d: nat, best: nat): nat
    requires d < |path|
    decreases |path| - d
  {
    var best1 := if wild then d + 1 else best;
    match ChildOf(n.children, path[d])
    case None => best1
    case Some(c) =>
      if c.nodeType == Exception then d
      else
        var best2 := if c.nodeType == Normal then d + 1 else best1;
        if d + 1 == |path| then best2 else Walk(c, c.wildcard, path, d + 1, best2)
  }

  lemma {:induction false} GetExtend(n: Node, p: seq<string>, l: string)
    ensures Get(n, p + [l])
            == match Get(n, p) case None => None case Some(c) => ChildOf(c.children, l)
    decreases |p|
  {
    if p == [] {
      assert p + [l] == [l];
      assert [l][1..] == [];
    } else {
      assert (p + [l])[1..] == p[1..] + [l];
      match ChildOf(n.children, p[0])
      case None =>
      case Some(c) => GetExtend(c, p[1..], l);
    }
  }

  ghost predicate Ordinary(rs: seq<Rule>, i: int, path: seq<string>) {
    Covers(rs, i, path) && rs[i].nodeType != Exception
  }

  /** best is the longest count among the covering rules that reach no further than d labels. */
  ghost predicate BestUpTo(rs: seq<Rule>, path: seq<string>, d: nat, best: nat) {
    && (best == 0 || exists i :: Ordinary(rs, i, path) && rs[i].Count() == best)
    && (forall i :: Ordinary(rs, i, path) && rs[i].Count() <= d ==> rs[i].Count() <= best)
  }

  ghost predicate NoExceptionUpTo(rs: seq<Rule>, path: seq<string>, d: nat) {
    forall i :: Excepts(rs, i, path) ==> |rs[i].labels| > d
  }

  lemma PrefixOf(q: seq<string>, path: seq<string>, d: nat)
    requires d <= |path|
    ensures q <= path && |q| == d <==> q == path[..d]
    ensures q <= path && d <= |q| ==> path[..d] <= q
  {
  }

  /** Where the tree ends, no rule reaches further. */
  lemma NothingBeyond(rs: seq<Rule>, path: seq<string>, d: nat)
    requires d < |path| && !Leads(rs, path[..d + 1])
    ensures forall i :: Covers(rs, i, path) ==> |rs[i].labels| <= d
  {
    forall i | Covers(rs, i, path)
      ensures |rs[i].labels| <= d
    {
      PrefixOf(rs[i].Path(), path, d + 1);
    }
  }

  /** The wildcard bit of the node at depth d accounts for the wildcard rules of d + 1 parts. */
  lemma WildcardStep(rs: seq<Rule>, path: seq<string>, d: nat, wild: bool, best: nat)
    requires d < |path| && WellFormed(rs) && BestUpTo(rs, path, d, best)
    requires wild <==> Has(rs, ParentOnly, path[..d])
    ensures var best1 := if wild then d + 1 else best;
      && (best1 == 0 || exists i :: Ordinary(rs, i, path) && rs[i].Count() == best1)
      && (forall i :: Ordinary(rs, i, path) && rs[i].Count() <= d + 1 && |rs[i].labels| <= d ==> rs[i].Count() <= best1)
  {
    if wild {
      var i :| 0 <= i < |rs| && rs[i].nodeType == ParentOnly && rs[i].Path() == path[..d];
      assert Ordinary(rs, i, path) && rs[i].Count() == d + 1;
    } else {
      var q := path[..d];
      forall i | Ordinary(rs, i, path) && |rs[i].labels| <= d
        ensures rs[i].Count() <= d
      {
        PrefixOf(rs[i].Path(), path, d);
        assert rs[i].wildcard ==> |rs[i].labels| != d;
      }
    }
  }

  /** The walk ends where the tree does: the best found is the answer. */
  lemma WalkEnds(rs: seq<Rule>, path: seq<string>, d: nat, best1: nat)
    requires WellFormed(rs) && d <= |path|
    requires best1 == 0 || exists i :: Ordinary(rs, i, path) && rs[i].Count() == best1
    requires forall i :: Ordinary(rs, i, path) && rs[i].Count() <= d + 1 && |rs[i].labels| <= d ==>
               rs[i].Count() <= best1
    requires forall i :: Covers(rs, i, path) ==> |rs[i].labels| <= d
    requires NoExceptionUpTo(rs, path, d)
    ensures SuffixCount(rs, path, if best1 == 0 then 1 else best1)
  {
    forall i | Covers(rs, i, path)
      ensures Ordinary(rs, i, path) && 0 < rs[i].Count() <= best1
    {
      assert rs[i].Good();
    }
  }

  lemma NoClash(rs: seq<Rule>, q: seq<string>)
    requires WellFormed(rs) && Has(rs, Normal, q)
    ensures !Has(rs, Exception, q)
  {
    var j :| 0 <= j < |rs| && rs[j].nodeType == Normal && rs[j].Path() == q;
    forall i | 0 <= i < |rs| && rs[i].nodeType == Exception
      ensures rs[i].Path() != q
    {
      assert Compatible(rs[i], rs[j]);
    }
  }

  /** Rules that end at the label just reached are of the type its node has. */
  lemma RulesEndingHere(rs: seq<Rule>, path: seq<string>, d: nat, a: Attr)
    requires d < |path| && WellFormed(rs) && Says(rs, path[..d + 1], Some(a)) && a.nodeType != Exception
    ensures forall i :: Covers(rs, i, path) && |rs[i].labels| == d + 1 ==>
      rs[i].nodeType != Exception && (rs[i].nodeType == Normal ==> a.nodeType == Normal)
  {
    var q := path[..d + 1];
    if a.nodeType == Normal {
      NoClash(rs, q);
    }
    forall i | Covers(rs, i, path) && |rs[i].labels| == d + 1
      ensures Has(rs, rs[i].nodeType, q)
    {
      PrefixOf(rs[i].Path(), path, d + 1);
    }
  }

  /** The walk past a child that is no exception. */
  lemma StepPast(rs: seq<Rule>, path: seq<string>, d: nat, best1: nat, a: Attr)
    requires d < |path| && WellFormed(rs) && Says(rs, path[..d + 1], Some(a)) && a.nodeType != Exception
    requires NoExceptionUpTo(rs, path, d)
    requires best1 == 0 || exists i :: Ordinary(rs, i, path) && rs[i].Count() == best1
    requires forall i :: Ordinary(rs, i, path) && rs[i].Count() <= d + 1 && |rs[i].labels| <= d ==>
               rs[i].Count() <= best1
    ensures NoExceptionUpTo(rs, path, d + 1)
    ensures best1 <= d + 1 ==> BestUpTo(rs, path, d + 1, if a.nodeType == Normal then d + 1 else best1)
  {
    RulesEndingHere(rs, path, d, a);
    if a.nodeType == Normal {
      var j :| 0 <= j < |rs| && rs[j].nodeType == Normal && rs[j].Path() == path[..d + 1];
      assert rs[j].Good() && Ordinary(rs, j, path) && rs[j].Count() == d + 1;
    } else {
      forall i | Ordinary(rs, i, path) && rs[i].Count() <= d + 1
        ensures |rs[i].labels| <= d
      {
        assert rs[i].Good();
      }
    }
  }

  lemma WalkAtException(rs: seq<Rule>, path: seq<string>, d: nat, a: Attr)
    requires d < |path| && WellFormed(rs) && Says(rs, path[..d + 1], Some(a)) && a.nodeType == Exception
    ensures SuffixCount(rs, path, d) && d > 0
  {
    var i :| 0 <= i < |rs| && rs[i].nodeType == Exception && rs[i].Path() == path[..d + 1];
    assert rs[i].Good() && Excepts(rs, i, path) && rs[i].Count() == d;
  }

  /** The node at one label more, and what rules say about it. */
  lemma NextNode(rs: seq<Rule>, icann: seq<bool>, n: Node, path: seq<string>, d: nat)
    requires |icann| == |rs| && WellFormed(rs) && d < |path|
    requires Get(Tree(rs, icann), path[..d]) == Some(n)
    ensures Get(Tree(rs, icann), path[..d + 1]) == ChildOf(n.children, path[d])
    ensures Says(rs, path[..d + 1], AttrAt(Tree(rs, icann), path[..d + 1]))
  {
    hide Get, Tree, Says;
    assert path[..d + 1] == path[..d] + [path[d]];
    GetExtend(Tree(rs, icann), path[..d], path[d]);
    TreeSays(rs, icann, path[..d + 1]);
  }

  /** The walk over the tree counts the labels of the public suffix. */
  lemma {:induction false} WalkMeaning(rs: seq<Rule>, icann: seq<bool>, n: Node, wild: bool, path: seq<string>,
                                       d: nat, best: nat)
    requires |icann| == |rs| && WellFormed(rs) && d < |path|
    requires Get(Tree(rs, icann), path[..d]) == Some(n)
    requires wild <==> Has(rs, ParentOnly, path[..d])
    requires BestUpTo(rs, path, d, best) && best <= d && NoExceptionUpTo(rs, path, d)
    ensures var w := Walk(n, wild, path, d, best);
      w <= |path| && SuffixCount(rs, path, if w == 0 then 1 else w)
    decreases |path| - d
  {
    hide WellFormed, SuffixCount, Get, Tree, Has, BestUpTo, NoExceptionUpTo;
    var best1 := if wild then d + 1 else best;
    NextNode(rs, icann, n, path, d);
    WildcardStep(rs, path, d, wild, best);
    match ChildOf(n.children, path[d])
    case None =>
      NothingBeyond(rs, path, d);
      WalkEnds(rs, path, d, best1);
    case Some(c) =>
      var a := Attr(c.nodeType, c.icann, c.wildcard);
      if c.nodeType == Exception {
        WalkAtException(rs, path, d, a);
      } else {
        StepPast(rs, path, d, best1, a);
        var best2 := if c.nodeType == Normal then d + 1 else best1;
        if d + 1 == |path| {
          WalkEnds(rs, path, d + 1, best2);
        } else {
          WalkMeaning(rs, icann, c, c.wildcard, path, d + 1, best2);
        }
      }
  }

  lemma WalkFromRoot(rs: seq<Rule>, icann: seq<bool>, path: seq<string>)
    requires |icann| == |rs| && WellFormed(rs) && path != []
    ensures var w := Walk(Tree(rs, icann), false, path, 0, 0);
      w <= |path| && SuffixCount(rs, path, if w == 0 then 1 else w)
  {
    assert forall i :: 0 <= i < |rs| ==> rs[i].Good() && |rs[i].Path()| > 0;
    assert path[..0] == [];
    WalkMeaning(rs, icann, Tree(rs, icann), false, path, 0, 0);
  }

  // --------------------------------------------------------- the ICANN flag

  /** PublicSuffix's second result: the flag of the last node that the loop comes to; false if there is none. */
  function WalkFlag(n: Node, path: seq<string>, d: nat, flag: bool): bool
    requires d < |path|
    decreases |path| - d
  {
    match ChildOf(n.children, path[d])
    case None => flag
    case Some(c) =>
      if c.nodeType == Exception || d + 1 == |path| then c.icann else WalkFlag(c, path, d + 1, c.icann)
  }

  /**
   * d labels lead to where the loop ends: some rule leads there, and no exception ends before; and it is
   * all of the domain, or an exception ends there, or no rule leads further.
   */
  ghost predicate EndsAt(rs: seq<Rule>, path: seq<string>, d: nat) {
    && d <= |path| && (d > 0 ==> Leads(rs, path[..d]))
    && (forall e :: 0 < e < d ==> !Has(rs, Exception, path[..e]))
    && (d == |path| || (d > 0 && Has(rs, Exception, path[..d])) || !Leads(rs, path[..d + 1]))
  }

  lemma ExceptionHere(rs: seq<Rule>, q: seq<string>, a: Attr)
    requires WellFormed(rs) && Says(rs, q, Some(a))
    ensures a.nodeType == Exception <==> Has(rs, Exception, q)
  {
    if a.nodeType == Normal {
      NoClash(rs, q);
    }
  }

  /** The flag found is that of the node where the loop ends. */
  lemma {:induction false} FlagMeaning(rs: seq<Rule>, icann: seq<bool>, n: Node, path: seq<string>, d: nat, flag: bool)
    returns (e: nat)
    requires |icann| == |rs| && WellFormed(rs) && d < |path| && Get(Tree(rs, icann), path[..d]) == Some(n)
    requires d > 0 ==> Leads(rs, path[..d])
    requires forall i :: 0 < i <= d ==> !Has(rs, Exception, path[..i])
    requires flag == (d > 0 && Managed(rs, icann, path[..d]))
    ensures EndsAt(rs, path, e)
    ensures WalkFlag(n, path, d, flag) <==> e > 0 && Managed(rs, icann, path[..e])
    decreases |path| - d
  {
    hide WellFormed, Get, Tree, Has, Leads, Managed, Says;
    NextNode(rs, icann, n, path, d);
    TreeManaged(rs, icann, path[..d + 1]);
    match ChildOf(n.children, path[d]) {
      case None =>
        NotLed(rs, icann, path[..d + 1]);
        e := d;
      case Some(c) =>
        Led(rs, icann, path[..d + 1], c);
        if c.nodeType == Exception || d + 1 == |path| {
          e := d + 1;
        } else {
          e := FlagMeaning(rs, icann, c, path, d + 1, c.icann);
        }
    }
  }

  lemma NotLed(rs: seq<Rule>, icann: seq<bool>, q: seq<string>)
    requires |icann| == |rs| && Get(Tree(rs, icann), q) == None
    requires Says(rs, q, AttrAt(Tree(rs, icann), q))
    ensures !Leads(rs, q)
  {
    hide Leads, Get, Tree;
  }

  lemma Led(rs: seq<Rule>, icann: seq<bool>, q: seq<string>, c: Node)
    requires |icann| == |rs| && WellFormed(rs) && Get(Tree(rs, icann), q) == Some(c)
    requires Says(rs, q, AttrAt(Tree(rs, icann), q))
    ensures Leads(rs, q) && (c.nodeType == Exception <==> Has(rs, Exception, q))
    ensures AttrAt(Tree(rs, icann), q) == Some(Attr(c.nodeType, c.icann, c.wildcard))
  {
    ExceptionHere(rs, q, Attr(c.nodeType, c.icann, c.wildcard));
    hide Leads, Get, Tree, Has, WellFormed;
  }

  lemma FlagFromRoot(rs: seq<Rule>, icann: seq<bool>, path: seq<string>) returns (e: nat)
    requires |icann| == |rs| && WellFormed(rs) && path != []
    ensures EndsAt(rs, path, e)
    ensures WalkFlag(Tree(rs, icann), path, 0, false) <==> e > 0 && Managed(rs, icann, path[..e])
  {
    assert path[..0] == [];
    e := FlagMeaning(rs, icann, Tree(rs, icann), path, 0, false);
  }

  /** The loop ends at one place only. */
  lemma EndsAtUnique(rs: seq<Rule>, path: seq<string>, d: nat, e: nat)
    requires EndsAt(rs, path, d) && EndsAt(rs, path, e) && d <= e
    ensures d == e
  {
    if d < e {
      assert path[..d + 1] <= path[..e];
      LeadsShorter(rs, path[..d + 1], path[..e]);
    }
  }

  lemma LeadsShorter(rs: seq<Rule>, p: seq<string>, q: seq<string>)
    requires p <= q && Leads(rs, q)
    ensures Leads(rs, p)
  {
    var i :| 0 <= i < |rs| && q <= rs[i].Path();
    assert p <= rs[i].Path();
  }

  /** Where no rule ends at the last node, its flag is set, whatever the section of the prevailing rule. */
  lemma FlagWithoutRule(rs: seq<Rule>, icann: seq<bool>, q: seq<string>)
    requires |icann| == |rs| && forall i :: 0 <= i < |rs| ==> rs[i].Path() != q
    ensures Managed(rs, icann, q)
  {
  }

  /**
   * The flag is documented to be that of the public suffix. With a private rule for a top level domain
   * and a rule three labels deep below it, a domain beside that rule has the private suffix and the flag set.
   */
  lemma FlagOfAnotherNode(top: string, mid: string, low: string, other: string)
    requires PlainLabel(top) && PlainLabel(mid) && PlainLabel(low) && low != other
    ensures var rs, icann := [Rule(Normal, false, [top]), Rule(Normal, false, [low, mid, top])], [false, true];
      var path := [top, mid, other];
      && WellFormed(rs) && SuffixCount(rs, path, 1) && !Managed(rs, icann, path[..1])
      && EndsAt(rs, path, 2) && Managed(rs, icann, path[..2])
  {
    var rs, icann := [Rule(Normal, false, [top]), Rule(Normal, false, [low, mid, top])], [false, true];
    TwoRulesCount(rs, top, mid, low, other);
    TwoRulesEnd(rs, icann, top, mid, low, other);
  }

  lemma TwoRulesCount(rs: seq<Rule>, top: string, mid: string, low: string, other: string)
    requires PlainLabel(top) && PlainLabel(mid) && PlainLabel(low) && low != other
    requires rs == [Rule(Normal, false, [top]), Rule(Normal, false, [low, mid, top])]
    ensures WellFormed(rs) && SuffixCount(rs, [top, mid, other], 1)
  {
    var path := [top, mid, other];
    assert rs[0].Good() && rs[1].Good();
    assert rs[0].Path() == [top] && rs[1].Path() == [top, mid, low];
    assert [top] <= path && path[2] != rs[1].Path()[2];
    assert Covers(rs, 0, path) && !Covers(rs, 1, path) && rs[0].Count() == 1;
  }

  lemma TwoRulesEnd(rs: seq<Rule>, icann: seq<bool>, top: string, mid: string, low: string, other: string)
    requires rs == [Rule(Normal, false, [top]), Rule(Normal, false, [low, mid, top])] && icann == [false, true]
    requires low != other
    ensures var path := [top, mid, other];
      !Managed(rs, icann, path[..1]) && EndsAt(rs, path, 2) && Managed(rs, icann, path[..2])
  {
    var path := [top, mid, other];
    assert rs[0].Path() == [top] == path[..1] && rs[1].Path() == [top, mid, low];
    assert path[..2] == [top, mid] && path[..2] <= rs[1].Path();
    assert path[..3] == path && !(path <= rs[0].Path()) && path[2] != rs[1].Path()[2];
  }
}
