// The rules of a public suffix list and what they say about a domain: the algorithm of
// publicsuffix.org as slowPublicSuffix states it (publicsuffix/list_test.go).
//
// Domains and rules are split at dots. Paths are label lists read from the top level
// domain down, which is the order in which tree and tables are walked.

module Rules {
  import opened Strings
  import opened Trie

  function Rev<T>(s: seq<T>): (r: seq<T>)
    ensures |r| == |s| && forall i :: 0 <= i < |s| ==> r[i] == s[|s| - 1 - i]
  {
    seq(|s|, i requires 0 <= i < |s| => s[|s| - 1 - i])
  }

  /** What main1 makes of the text of a rule. */
  datatype Rule = Rule(nodeType: NodeType, wildcard: bool, labels: seq<string>) {
    function Path(): seq<string> {
      Rev(labels)
    }

    /** The parts of the rule's text. */
    function Parts(): seq<string> {
      if wildcard then ["*"] + labels
      else if nodeType == Exception && labels != [] then [['!'] + labels[0]] + labels[1..]
      else labels
    }

    /** How many labels of the domain it makes public: an exception loses its leftmost. */
    function Count(): nat {
      if nodeType == Exception && labels != [] then |labels| - 1
      else |labels| + (if wildcard then 1 else 0)
    }

    /** The list's format: nonempty labels, the two marks only in front, no one-label exception. */
    predicate Good() {
      && AllPlain(labels)
      && labels != []
      && (nodeType == Exception ==> !wildcard && |labels| >= 2)
      && (wildcard <==> nodeType == ParentOnly)
    }
  }

  function Parse(s: string): (r: Rule)
    ensures r.labels != [] && (r.wildcard <==> r.nodeType == ParentOnly)
  {
    if HasPrefix(s, "*.") then Rule(ParentOnly, true, Split(s[2..], '.'))
    else if HasPrefix(s, "!") then Rule(Exception, false, Split(s[1..], '.'))
    else Rule(Normal, false, Split(s, '.'))
  }

  function ParseAll(rules: seq<string>): (rs: seq<Rule>)
    ensures |rs| == |rules| && forall i :: 0 <= i < |rules| ==> rs[i] == Parse(rules[i])
  {
    seq(|rules|, i requires 0 <= i < |rules| => Parse(rules[i]))
  }

  predicate PlainLabel(l: string) {
    l != "" && l[0] != '*' && l[0] != '!'
  }

  predicate AllPlain(labels: seq<string>) {
    forall i :: 0 <= i < |labels| ==> PlainLabel(labels[i])
  }

  /** No path is both plain and exception, and no exception lies below another. */
  predicate Compatible(exc: Rule, other: Rule) {
    && (other.nodeType == Normal ==> other.Path() != exc.Path())
    && (other.nodeType == Exception && exc.Path() <= other.Path() ==> exc.Path() == other.Path())
  }

  ghost predicate WellFormed(rs: seq<Rule>) {
    && (forall i :: 0 <= i < |rs| ==> rs[i].Good())
    && (forall i, j :: 0 <= i < |rs| && 0 <= j < |rs| && rs[i].nodeType == Exception ==> Compatible(rs[i], rs[j]))
  }

  // ------------------------------------------------------------- matching

  /** slowPublicSuffix's match of one label. */
  predicate MatchPart(rulePart: string, domainPart: string)
    requires rulePart != ""
  {
    if rulePart[0] == '*' then true
    else if rulePart[0] == '!' then rulePart[1..] == domainPart
    else rulePart == domainPart
  }

  /** Splitting a rule's text gives the parts of what main1 makes of it. */
  lemma PartsOfRule(s: string)
    ensures Split(s, '.') == Parse(s).Parts()
  {
    if HasPrefix(s, "*.") {
      SplitWildcard(s[2..]);
      assert s == "*." + s[2..];
    } else if HasPrefix(s, "!") {
      SplitException(s[1..]);
      assert s == "!" + s[1..];
    }
  }

  lemma SplitWildcard(rest: string)
    ensures Split("*." + rest, '.') == ["*"] + Split(rest, '.')
  {
    SplitFirst("*", rest, '.');
    assert "*" + ['.'] + rest == "*." + rest;
  }

  lemma SplitException(rest: string)
    ensures Split("!" + rest, '.') == [['!'] + Split(rest, '.')[0]] + Split(rest, '.')[1..]
  {
    assert ("!" + rest)[1..] == rest;
  }

  /** The rule's parts match the last labels of the domain. */
  ghost predicate PartsMatch(ruleParts: seq<string>, parts: seq<string>)
    requires Nonempty(ruleParts)
  {
    && |ruleParts| <= |parts|
    && forall i :: 0 <= i < |ruleParts| ==> MatchPart(ruleParts[i], parts[|parts| - |ruleParts| + i])
  }

  /** A rule covers a domain when its path leads there, with a label to spare for a wildcard. */
  predicate Matches(r: Rule, path: seq<string>) {
    r.Path() <= path && (r.wildcard ==> |r.labels| < |path|)
  }

  predicate Nonempty(ruleParts: seq<string>) {
    forall i :: 0 <= i < |ruleParts| ==> ruleParts[i] != ""
  }

  predicate EndsWith(parts: seq<string>, labels: seq<string>) {
    |labels| <= |parts| && parts[|parts| - |labels|..] == labels
  }

  /** Ending with labels is beginning with them, read from the top level down. */
  lemma EndsWithPath(parts: seq<string>, labels: seq<string>)
    ensures EndsWith(parts, labels) <==> Rev(labels) <= Rev(parts)
  {
    if EndsWith(parts, labels) {
      forall i | 0 <= i < |labels|
        ensures Rev(labels)[i] == Rev(parts)[i]
      {
        assert parts[|parts| - |labels|..][|labels| - 1 - i] == labels[|labels| - 1 - i];
      }
    } else if Rev(labels) <= Rev(parts) {
      forall i | 0 <= i < |labels|
        ensures parts[|parts| - |labels| + i] == labels[i]
      {
        assert Rev(labels)[|labels| - 1 - i] == Rev(parts)[|labels| - 1 - i];
      }
    }
  }

  /** The label-by-label comparison of slowPublicSuffix decides whether the rule covers the domain. */
  lemma MatchMeaning(r: Rule, parts: seq<string>)
    requires r.Good()
    ensures Nonempty(r.Parts())
    ensures PartsMatch(r.Parts(), parts) <==> Matches(r, Rev(parts))
  {
    EndsWithPath(parts, r.labels);
    if |r.Parts()| <= |parts| {
      if r.wildcard {
        WildcardParts(r.labels, parts);
      } else if r.nodeType == Exception {
        ExceptionParts(r.labels, parts);
      } else {
        PlainParts(r.labels, parts);
      }
    }
  }

  lemma PlainParts(labels: seq<string>, parts: seq<string>)
    requires |labels| <= |parts| && AllPlain(labels)
    ensures PartsMatch(labels, parts) <==> EndsWith(parts, labels)
  {
    var tail := parts[|parts| - |labels|..];
    assert forall i :: 0 <= i < |labels| ==> tail[i] == parts[|parts| - |labels| + i];
    if PartsMatch(labels, parts) {
      assert forall i :: 0 <= i < |labels| ==> MatchPart(labels[i], tail[i]);
      assert tail == labels;
    }
  }

  lemma WildcardParts(labels: seq<string>, parts: seq<string>)
    requires |labels| < |parts| && AllPlain(labels)
    ensures PartsMatch(["*"] + labels, parts) <==> EndsWith(parts, labels)
  {
    PlainParts(labels, parts);
    var rp := ["*"] + labels;
    if PartsMatch(labels, parts) {
      forall i | 0 <= i < |rp|
        ensures MatchPart(rp[i], parts[|parts| - |rp| + i])
      {
        assert i > 0 ==> rp[i] == labels[i - 1];
      }
    }
    if PartsMatch(rp, parts) {
      forall i | 0 <= i < |labels|
        ensures MatchPart(labels[i], parts[|parts| - |labels| + i])
      {
        assert rp[i + 1] == labels[i];
      }
    }
  }

  lemma ExceptionParts(labels: seq<string>, parts: seq<string>)
    requires 0 < |labels| <= |parts| && AllPlain(labels)
    ensures PartsMatch([['!'] + labels[0]] + labels[1..], parts) <==> EndsWith(parts, labels)
  {
    PlainParts(labels, parts);
    var rp := [['!'] + labels[0]] + labels[1..];
    assert rp[0][1..] == labels[0];
    assert forall i :: 1 <= i < |rp| ==> rp[i] == labels[i];
    assert forall i :: 1 <= i < |labels| ==> labels[i] == rp[i];
  }

  // ------------------------------------------------- the prevailing rule

  /** The rules that cover the domain with this path. */
  ghost predicate Covers(rs: seq<Rule>, i: int, path: seq<string>) {
    0 <= i < |rs| && Matches(rs[i], path)
  }

  ghost predicate Excepts(rs: seq<Rule>, i: int, path: seq<string>) {
    Covers(rs, i, path) && rs[i].nodeType == Exception
  }

  /**
   * k labels make up the public suffix: one less than a covering exception has, else as many
   * as the longest covering rule has, else one.
   */
  ghost predicate SuffixCount(rs: seq<Rule>, path: seq<string>, k: nat) {
    if exists i :: Excepts(rs, i, path) then
      exists i :: Excepts(rs, i, path) && k == rs[i].Count()
    else if exists i :: Covers(rs, i, path) then
      && (exists i :: Covers(rs, i, path) && k == rs[i].Count())
      && (forall i :: Covers(rs, i, path) ==> rs[i].Count() <= k)
    else k == 1
  }

  lemma OneException(rs: seq<Rule>, path: seq<string>, i: int, j: int)
    requires WellFormed(rs) && Excepts(rs, i, path) && Excepts(rs, j, path)
    ensures rs[i].Path() == rs[j].Path() && rs[i].Count() == rs[j].Count()
  {
    var a, b := rs[i].Path(), rs[j].Path();
    if |a| <= |b| {
      assert a == path[..|a|] == b[..|a|];
      assert Compatible(rs[i], rs[j]);
    }
  }

  /** For a well-formed list there is only one public suffix. */
  lemma SuffixCountUnique(rs: seq<Rule>, path: seq<string>, k: nat, m: nat)
    requires WellFormed(rs) && SuffixCount(rs, path, k) && SuffixCount(rs, path, m)
    ensures k == m
  {
    if exists i :: Excepts(rs, i, path) {
      var i :| Excepts(rs, i, path) && k == rs[i].Count();
      var j :| Excepts(rs, j, path) && m == rs[j].Count();
      OneException(rs, path, i, j);
    }
  }

  /** The last k labels of a domain, joined again. */
  function LastLabels(parts: seq<string>, k: nat): string
    requires k <= |parts|
  {
    Join(parts[|parts| - k..], ".")
  }

  ghost predicate CountedSuffix(rs: seq<Rule>, domain: string, suffix: string, k: nat) {
    var parts := Split(domain, '.');
    k <= |parts| && SuffixCount(rs, Rev(parts), k) && suffix == LastLabels(parts, k)
  }

  /** The public suffix of a domain under a list of rules. */
  ghost predicate IsPublicSuffix(rs: seq<Rule>, domain: string, suffix: string) {
    exists k: nat :: CountedSuffix(rs, domain, suffix, k)
  }

  lemma PublicSuffixUnique(rs: seq<Rule>, domain: string, a: string, b: string)
    requires WellFormed(rs) && IsPublicSuffix(rs, domain, a) && IsPublicSuffix(rs, domain, b)
    ensures a == b
  {
    var k: nat :| CountedSuffix(rs, domain, a, k);
    var m: nat :| CountedSuffix(rs, domain, b, m);
    SuffixCountUnique(rs, Rev(Split(domain, '.')), k, m);
  }

  // ------------------------------------------------- the rules of .jp, for example

  /** The two marks of a rule: "*." in front makes it a wildcard below the rest, "!" an exception for the rest. */
  lemma ParseMeaning(rest: string)
    ensures Parse("*." + rest) == Rule(ParentOnly, true, Split(rest, '.'))
    ensures Parse("!" + rest) == Rule(Exception, false, Split(rest, '.'))
    ensures !HasPrefix(rest, "*.") && !HasPrefix(rest, "!") ==> Parse(rest) == Rule(Normal, false, Split(rest, '.'))
  {
    assert ("*." + rest)[2..] == rest && ("!" + rest)[1..] == rest;
    assert ("!" + rest)[0] == '!' && !HasPrefix("!" + rest, "*.");
  }

  /** A rule for a domain, a wildcard below one of its names, and an exception to that. */
  ghost predicate Japanese(rs: seq<Rule>, jp: string, kobe: string, city: string) {
    rs == [Rule(Normal, false, [jp]), Rule(ParentOnly, true, [kobe, jp]), Rule(Exception, false, [city, kobe, jp])]
  }

  lemma JapaneseParts(rs: seq<Rule>, jp: string, kobe: string, city: string, path: seq<string>)
    requires Japanese(rs, jp, kobe, city)
    ensures |rs| == 3 && rs[0].Count() == 1 && rs[1].Count() == 3 && rs[2].Count() == 2
    ensures rs[0].nodeType == Normal && rs[1].nodeType == ParentOnly && rs[2].nodeType == Exception
    ensures Covers(rs, 0, path) <==> |path| >= 1 && path[0] == jp
    ensures Covers(rs, 1, path) <==> |path| >= 3 && path[0] == jp && path[1] == kobe
    ensures Covers(rs, 2, path) <==> |path| >= 3 && path[0] == jp && path[1] == kobe && path[2] == city
    ensures forall i :: Covers(rs, i, path) ==> i == 0 || i == 1 || i == 2
  {
    assert rs[0].Path() == [jp] && rs[1].Path() == [jp, kobe] && rs[2].Path() == [jp, kobe, city];
  }

  /**
   * The public suffix has two labels under the exception, three under the wildcard, and one elsewhere,
   * whether a rule covers the domain or none.
   */
  lemma JapaneseCount(rs: seq<Rule>, jp: string, kobe: string, city: string, path: seq<string>)
    requires Japanese(rs, jp, kobe, city) && path != []
    ensures var below := |path| >= 3 && path[0] == jp && path[1] == kobe;
      SuffixCount(rs, path, if below && path[2] == city then 2 else if below then 3 else 1)
  {
    JapaneseParts(rs, jp, kobe, city, path);
    hide Japanese, Covers;
    if Covers(rs, 2, path) {
      assert Excepts(rs, 2, path);
    } else if Covers(rs, 1, path) {
      assert Covers(rs, 1, path);
    }
  }
}
