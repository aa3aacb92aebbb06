// The generator end to end (publicsuffix/gen.go): rules in, tables out; and the two ways of
// asking for a public suffix compared.

module Compiler {
  import opened Build
  import opened Generator
  import opened Layout
  import opened Lookup
  import opened TextCrusher
  import opened Rules
  import opened SlowSuffix
  import opened Sorting
  import opened Strings
  import opened Tables
  import opened Trie
  import opened Wrappers

  // ------------------------------------------------------ names in the tree

  /** Every name below n is in the list. */
  ghost predicate NamesIn(n: Node, names: seq<string>)
    decreases n
  {
    forall i :: 0 <= i < |n.children| ==> n.children[i].name in names && NamesIn(n.children[i], names)
  }

  lemma {:induction false} InsertNames(n: Node, path: seq<string>, nt: NodeType, icann: bool, wildcard: bool,
                                       names: seq<string>)
    requires Ordered(n) && NamesIn(n, names) && forall l :: l in path ==> l in names
    ensures NamesIn(Insert(n, path, nt, icann, wildcard), names)
    decreases |path|
  {
    if path != [] {
      var cs := WithChild(n.children, path[0]);
      WithChildFacts(n.children, path[0]);
      var i := IndexOf(cs, path[0]);
      assert forall c :: c in cs ==> c.name in names && NamesIn(c, names) && Ordered(c);
      InsertNames(cs[i], path[1..], nt, icann, wildcard, names);
    }
  }

  lemma {:induction false} TreeNames(rs: seq<Rule>, icann: seq<bool>, names: seq<string>)
    requires |icann| == |rs|
    requires forall i, l :: 0 <= i < |rs| && l in rs[i].labels ==> l in names
    ensures NamesIn(Tree(rs, icann), names)
  {
    if rs != [] {
      var k := |rs| - 1;
      TreeNames(rs[..k], icann[..k], names);
      TreeOrdered(rs[..k], icann[..k]);
      assert forall l :: l in rs[k].Path() ==> l in rs[k].labels;
      InsertNames(Tree(rs[..k], icann[..k]), rs[k].Path(), rs[k].nodeType, icann[k], rs[k].wildcard, names);
    }
  }

  lemma {:induction false} InsertUnindexed(n: Node, path: seq<string>, nt: NodeType, icann: bool, wildcard: bool)
    requires Ordered(n) && Unindexed(n)
    ensures Unindexed(Insert(n, path, nt, icann, wildcard))
    decreases |path|
  {
    if path != [] {
      var cs := WithChild(n.children, path[0]);
      WithChildFacts(n.children, path[0]);
      var i := IndexOf(cs, path[0]);
      assert forall c :: c in cs ==> Unindexed(c) && Ordered(c);
      InsertUnindexed(cs[i], path[1..], nt, icann, wildcard);
    }
  }

  lemma {:induction false} TreeUnindexed(rs: seq<Rule>, icann: seq<bool>)
    requires |icann| == |rs|
    ensures Unindexed(Tree(rs, icann))
  {
    if rs != [] {
      var k := |rs| - 1;
      TreeUnindexed(rs[..k], icann[..k]);
      TreeOrdered(rs[..k], icann[..k]);
      InsertUnindexed(Tree(rs[..k], icann[..k]), rs[k].Path(), rs[k].nodeType, icann[k], rs[k].wildcard);
    }
  }

  lemma {:induction false} NamesGetEncoded(a: Node, b: Node, names: seq<string>, text: string,
                                           encoding: map<string, nat>)
    requires SameTree(a, b) && NamesIn(a, names)
    requires forall l :: l in names ==> NameEncoded(l, text, encoding)
    ensures NamesEncoded(b, text, encoding)
    decreases a
  {
    forall i | 0 <= i < |b.children|
      ensures NameEncoded(b.children[i].name, text, encoding) && NamesEncoded(b.children[i], text, encoding)
    {
      NamesGetEncoded(a.children[i], b.children[i], names, text, encoding);
    }
  }

  /** The list has the labels of all rules, and no others, each once and sorted. */
  ghost predicate LabelList(rules: seq<string>, ls: seq<string>) {
    && Increasing(ls, Less)
    && forall l :: l in ls <==> exists i :: 0 <= i < |rules| && l in Parse(rules[i]).labels
  }

  lemma OneLabelList(rules: seq<string>, a: seq<string>, b: seq<string>)
    requires LabelList(rules, a) && LabelList(rules, b)
    ensures a == b
  {
    IncreasingUnique(a, b);
  }

  /** main1's labelsMap and labelsList. */
  method CollectLabels(rules: seq<string>) returns (labelsList: seq<string>)
    ensures LabelList(rules, labelsList)
  {
    var found: seq<string> := [];
    for i := 0 to |rules|
      invariant Different(found)
      invariant forall l :: l in found <==> exists k :: 0 <= k < i && l in Parse(rules[k]).labels
    {
      found := AddLabels(found, Parse(rules[i]).labels);
    }
    SortKeeps(found, Less);
    SortOrdered(found);
    labelsList := SortWith(found, Less);
    forall l
      ensures l in found <==> l in labelsList
    {
      assert l in found <==> l in multiset(found);
      assert l in labelsList <==> l in multiset(labelsList);
    }
  }

  method AddLabels(found0: seq<string>, labels: seq<string>) returns (found: seq<string>)
    requires Different(found0)
    ensures Different(found) && forall l :: l in found <==> l in found0 || l in labels
  {
    found := found0;
    for j := 0 to |labels|
      invariant Different(found) && forall l :: l in found <==> l in found0 || l in labels[..j]
    {
      if labels[j] !in found {
        found := found + [labels[j]];
      }
      assert labels[..j + 1] == labels[..j] + [labels[j]];
    }
    assert labels[..|labels|] == labels;
  }

  // ------------------------------------------------------------- the tables

  /** The tree fits both tables: the capacity checks of assignIndexes pass. The root has no entry. */
  predicate Fits(root: Node) {
    Room(PREDEFINED, 0, InteriorOfAll(root.children), Descendants(root))
  }

  /** The labels fit their fields, and there is something to write. */
  ghost predicate Writable(labelsList: seq<string>) {
    (forall l :: l in labelsList ==> |l| < 64) && (exists l :: l in labelsList && l != "")
  }

  lemma {:induction false} SomeText(ls: seq<string>)
    requires Total(ls) > 0
    ensures exists l :: l in ls && l != ""
  {
    if ls[0] == "" {
      SomeText(ls[1..]);
      var l :| l in ls[1..] && l != "";
      assert l in ls;
    } else {
      assert ls[0] in ls;
    }
  }

  lemma NoText(text: string, ls: seq<string>)
    requires text == "" && forall l :: l in ls ==> Contains(text, l)
    ensures !Writable(ls)
  {
  }

  /** What printReal has written, whether the walk came to its end or gave up. */
  lemma TreePrinted(t: Table, root: Node, walked: Node, names: seq<string>, encoding: map<string, nat>)
    requires PREDEFINED <= t.children && t.nodes == Emit(walked, encoding)
    requires SameTree(root, walked) && NamesIn(root, names)
    requires forall l :: l in names ==> NameEncoded(l, t.text, encoding)
    ensures Laid(walked, 0, t.children) ==> Represents(t, root, 0, |root.children|)
    ensures StuckAll(walked.children, |root.children|, t.children) ==> !Represents(t, root, 0, |root.children|)
  {
    hide Laid, Represents, StuckAll;
    NamesGetEncoded(root, walked, names, t.text, encoding);
    if Laid(walked, 0, t.children) {
      TreeRepresented(t, walked, encoding);
      RepresentsSame(t, root, walked, 0, |root.children|);
    }
    if StuckAll(walked.children, |root.children|, t.children) {
      TreeNotRepresented(t, walked, encoding);
      if Represents(t, root, 0, |root.children|) {
        SameTreeBack(root, walked);
        RepresentsSame(t, walked, root, 0, |root.children|);
      }
    }
  }

  /**
   * printReal. The error of the walk that assigns indexes is dropped, as in the source, so
   * tables of a tree that does not fit are produced all the same. They never represent the tree.
   */
  method PrintReal(root: Node, labelsList: seq<string>, crush: bool) returns (r: Result<Table>)
    ensures r.Ok? && Fits(root) && NamesIn(root, labelsList) ==> Represents(r.value, root, 0, r.value.numTLD)
    ensures r.Ok? && !Fits(root) && NamesIn(root, labelsList) && Unindexed(root) ==>
              !Represents(r.value, root, 0, r.value.numTLD)
    ensures r.Ok? && !crush ==> r.value.text == Join(labelsList, "")
    ensures r.Ok? && crush ==> (|r.value.text| < Total(labelsList) <==> Crushable(labelsList))
    ensures r.Ok? ==> Writable(labelsList)
    ensures Total(labelsList) < 32768 && Writable(labelsList) ==> r.Ok?
  {
    hide Represents, Laid, NamesIn, Encodes, StuckAll, Unindexed, Crushable, Join, Kept, Overlapping;
    var text := MakeText(labelsList, crush);
    if text == "" {
      NoText(text, labelsList);
      return Err;
    }
    SomeText(labelsList);
    var encoding := EncodeLabels(labelsList, text);
    if encoding.Err? {
      return Err;
    }
    var assigner := new IndexAssigner();
    var walked, _ := assigner.Walk(root);
    var nodes := PrintNodes(walked, encoding.value);
    var t := Table(text, nodes, assigner.childrenEncoding, |root.children|);
    if NamesIn(root, labelsList) {
      TreePrinted(t, root, walked, labelsList, encoding.value);
    }
    return Ok(t);
  }

  /** The list has a rule, no label is too long, and the text of all labels has room for its offsets. */
  ghost predicate Printable(rules: seq<string>) {
    && rules != []
    && (forall i, l :: 0 <= i < |rules| && l in Parse(rules[i]).labels ==> |l| < 64)
    && forall ls :: LabelList(rules, ls) ==> Total(ls) < 32768
  }

  lemma SomeLabel(rules: seq<string>, ls: seq<string>)
    requires rules != [] && WellFormed(ParseAll(rules)) && LabelList(rules, ls)
    ensures exists l :: l in ls && l != ""
  {
    var r := ParseAll(rules)[0];
    assert r.Good() && PlainLabel(r.labels[0]);
    var l := r.labels[0];
    assert l in Parse(rules[0]).labels;
    assert l in ls;
  }

  /**
   * The whole generator: tables are made from every list whose labels fit their fields, and they
   * serve the list's rules exactly when the tree fits the tables. Their text is all labels one after
   * another, or with the flag a shorter one exactly when there is something to crush.
   */
  method Generate(rules: seq<string>, icann: seq<bool>, crush: bool) returns (r: Result<Table>)
    requires |icann| == |rules| && WellFormed(ParseAll(rules))
    ensures Printable(rules) ==> r.Ok?
    ensures r.Ok? ==> forall i, l :: 0 <= i < |rules| && l in Parse(rules[i]).labels ==> |l| < 64
    ensures r.Ok? ==> forall ls :: LabelList(rules, ls) ==>
              if crush then |r.value.text| < Total(ls) <==> Crushable(ls) else r.value.text == Join(ls, "")
    ensures r.Ok? ==> (Serves(r.value, ParseAll(rules), icann) <==> Fits(Tree(ParseAll(rules), icann)))
  {
    hide Crushable, Join, LabelList;
    ghost var rs := ParseAll(rules);
    var root := BuildTree(rules, icann);
    var labelsList := CollectLabels(rules);
    TreeNames(rs, icann, labelsList);
    TreeUnindexed(rs, icann);
    if rules != [] {
      SomeLabel(rules, labelsList);
    }
    r := PrintReal(root, labelsList, crush);
    forall ls | LabelList(rules, ls)
      ensures ls == labelsList
    {
      OneLabelList(rules, ls, labelsList);
    }
  }

  /**
   * The package's test of the two queries, for every list and every domain: the fast query on
   * the generated tables gives what the slow query gives on the rules.
   */
  method Compare(rules: seq<string>, icann: seq<bool>, crush: bool, domain: string)
    returns (fast: Result<string>, slow: string)
    requires |icann| == |rules| && WellFormed(ParseAll(rules)) && Fits(Tree(ParseAll(rules), icann))
    ensures Printable(rules) ==> fast.Ok?
    ensures fast.Ok? ==> fast.value == slow
    ensures IsPublicSuffix(ParseAll(rules), domain, slow)
  {
    ghost var rs := ParseAll(rules);
    var t := Generate(rules, icann, crush);
    slow := SlowPublicSuffix(rules, domain);
    if t.Err? {
      return Err, slow;
    }
    var suffix, _ := PublicSuffix(t.value, domain, rs, icann);
    PublicSuffixUnique(rs, domain, suffix, slow);
    fast := Ok(suffix);
  }
}
