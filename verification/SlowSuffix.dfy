// slowPublicSuffix of publicsuffix/list_test.go: match every rule, sort, take the first.

module SlowSuffix {
  import opened Rules
  import opened Sorting
  import opened Strings
  import opened Trie

  predicate Marked(ruleParts: seq<string>, mark: char) {
    ruleParts != [] && ruleParts[0] != "" && ruleParts[0][0] == mark
  }

  /** byPriority.Less: exceptions first, then longer rules. */
  predicate ByPriority(a: seq<string>, b: seq<string>) {
    if Marked(a, '!') then true else if Marked(b, '!') then false else |a| > |b|
  }

  /** The first of the sorted rules is an exception if there is one, and a longest rule otherwise. */
  lemma {:induction false} FirstByPriority(xs: seq<seq<string>>)
    requires xs != []
    ensures var sorted := SortWith(xs, ByPriority);
      && sorted != [] && sorted[0] in xs
      && ((exists x :: x in xs && Marked(x, '!')) ==> Marked(sorted[0], '!'))
      && (!Marked(sorted[0], '!') ==> forall x :: x in xs ==> |x| <= |sorted[0]|)
  {
    var init, last := xs[..|xs| - 1], xs[|xs| - 1];
    assert xs == init + [last];
    if init != [] {
      FirstByPriority(init);
    }
  }

  lemma MarksOfRule(r: Rule)
    requires r.Good()
    ensures Marked(r.Parts(), '!') <==> r.nodeType == Exception
    ensures Marked(r.Parts(), '*') <==> r.wildcard
  {
  }

  method MatchRule(ruleParts: seq<string>, domainParts: seq<string>) returns (ok: bool)
    requires Nonempty(ruleParts)
    ensures ok <==> PartsMatch(ruleParts, domainParts)
  {
    if |domainParts| < |ruleParts| {
      return false;
    }
    for i := 0 to |ruleParts|
      invariant forall k :: |ruleParts| - i <= k < |ruleParts| ==>
        MatchPart(ruleParts[k], domainParts[|domainParts| - |ruleParts| + k])
    {
      var rulePart := ruleParts[|ruleParts| - 1 - i];
      var domainPart := domainParts[|domainParts| - 1 - i];
      if !MatchPart(rulePart, domainPart) {
        assert !MatchPart(ruleParts[|ruleParts| - 1 - i],
                          domainParts[|domainParts| - |ruleParts| + (|ruleParts| - 1 - i)]);
        return false;
      }
    }
    return true;
  }

  lemma GoodRule(rs: seq<Rule>, i: int)
    requires WellFormed(rs) && 0 <= i < |rs|
    ensures rs[i].Good()
  {
  }

  /** The rules that cover the domain, as lists of parts. */
  ghost predicate Collected(rs: seq<Rule>, upTo: int, path: seq<string>, matching: seq<seq<string>>) {
    && (forall m :: m in matching ==> exists i :: 0 <= i < upTo && Covers(rs, i, path) && m == rs[i].Parts())
    && (forall i :: 0 <= i < upTo && Covers(rs, i, path) ==> rs[i].Parts() in matching)
  }

  method CollectMatching(rules: seq<string>, domainParts: seq<string>) returns (matching: seq<seq<string>>)
    requires WellFormed(ParseAll(rules))
    ensures Collected(ParseAll(rules), |rules|, Rev(domainParts), matching)
  {
    hide WellFormed, Collected, Covers;
    matching := [];
    ghost var rs := ParseAll(rules);
    CollectedNone(rs, Rev(domainParts));
    for i := 0 to |rules|
      invariant Collected(rs, i, Rev(domainParts), matching)
    {
      var ruleParts := Split(rules[i], '.');
      PartsOfRule(rules[i]);
      GoodRule(rs, i);
      MatchMeaning(rs[i], domainParts);
      var ok := MatchRule(ruleParts, domainParts);
      CollectedNext(rs, i, Rev(domainParts), matching, ok);
      if ok {
        matching := matching + [ruleParts];
      }
    }
  }

  lemma CollectedNone(rs: seq<Rule>, path: seq<string>)
    ensures Collected(rs, 0, path, [])
  {
  }

  /** One more rule looked at. */
  lemma CollectedNext(rs: seq<Rule>, i: int, path: seq<string>, matching: seq<seq<string>>, ok: bool)
    requires Collected(rs, i, path, matching) && 0 <= i < |rs| && (ok <==> Matches(rs[i], path))
    ensures Collected(rs, i + 1, path, if ok then matching + [rs[i].Parts()] else matching)
  {
    hide Matches;
    var more := if ok then matching + [rs[i].Parts()] else matching;
    forall m | m in more ensures exists k :: 0 <= k < i + 1 && Covers(rs, k, path) && m == rs[k].Parts() {
      if m !in matching {
        assert Covers(rs, i, path);
      }
    }
  }

  /** A rule that was collected. */
  lemma RuleOf(rs: seq<Rule>, path: seq<string>, matching: seq<seq<string>>, m: seq<string>) returns (i: nat)
    requires Collected(rs, |rs|, path, matching) && m in matching
    ensures i < |rs| && Covers(rs, i, path) && m == rs[i].Parts()
  {
    hide Covers;
    i :| 0 <= i < |rs| && Covers(rs, i, path) && m == rs[i].Parts();
  }

  /** The sorted rules start with one that fixes the number of labels. */
  lemma PrevailingCount(rs: seq<Rule>, path: seq<string>, matching: seq<seq<string>>, i: nat)
    requires WellFormed(rs) && Collected(rs, |rs|, path, matching) && matching != []
    requires Covers(rs, i, path) && rs[i].Parts() == SortWith(matching, ByPriority)[0]
    ensures SuffixCount(rs, path, rs[i].Count())
  {
    FirstByPriority(matching);
    MarksOfRule(rs[i]);
    forall j | Covers(rs, j, path)
      ensures rs[j].Parts() in matching
      ensures Marked(rs[j].Parts(), '!') <==> Excepts(rs, j, path)
    {
      MarksOfRule(rs[j]);
    }
  }

  /** The labels that the prevailing rule fixes: the mark resolved, a wildcard replaced. */
  function Resolved(prevailing: seq<string>, domainParts: seq<string>): seq<string>
    requires prevailing != [] && |prevailing| <= |domainParts|
  {
    var rest := if Marked(prevailing, '!') then prevailing[1..] else prevailing;
    if Marked(rest, '*') then [domainParts[|domainParts| - |rest|]] + rest[1..] else rest
  }

  /** A list of parts that can be resolved without an index going astray. */
  predicate Resolvable(prevailing: seq<string>, domainParts: seq<string>) {
    && prevailing != [] && |prevailing| <= |domainParts|
    && prevailing[0] != "" && (|prevailing| > 1 ==> prevailing[1] != "")
    && (Marked(prevailing, '!') ==> |prevailing| > 1)
  }

  /** What is left of the prevailing rule are the last labels of the domain. */
  lemma ResolvedLabels(r: Rule, parts: seq<string>)
    requires r.Good() && Matches(r, Rev(parts))
    ensures Resolvable(r.Parts(), parts) && r.Count() <= |parts|
    ensures Resolved(r.Parts(), parts) == parts[|parts| - r.Count()..]
  {
    var rp := r.Parts();
    MarksOfRule(r);
    EndsWithPath(parts, r.labels);
    if r.nodeType == Exception {
      assert rp[1..] == r.labels[1..] == parts[|parts| - (|r.labels| - 1)..];
    } else if r.wildcard {
      assert rp[1..] == r.labels;
      assert [parts[|parts| - |rp|]] + r.labels == parts[|parts| - |rp|..];
    }
  }

  /** When no rule covers a domain, one label is its suffix. */
  lemma DefaultRule(rs: seq<Rule>, domainParts: seq<string>)
    requires Collected(rs, |rs|, Rev(domainParts), []) && |domainParts| > 0
    ensures Resolvable(["*"], domainParts) && SuffixCount(rs, Rev(domainParts), 1)
    ensures Resolved(["*"], domainParts) == domainParts[|domainParts| - 1..]
  {
  }

  /** The prevailing rule for a domain, or "*" when no rule covers it. */
  method Prevailing(rules: seq<string>, domainParts: seq<string>) returns (prevailing: seq<string>, ghost k: nat)
    requires WellFormed(ParseAll(rules)) && |domainParts| > 0
    ensures Resolvable(prevailing, domainParts) && k <= |domainParts|
    ensures SuffixCount(ParseAll(rules), Rev(domainParts), k)
    ensures Resolved(prevailing, domainParts) == domainParts[|domainParts| - k..]
  {
    hide Collected, Marked, ByPriority, Resolved, Resolvable;
    ghost var rs, path := ParseAll(rules), Rev(domainParts);
    var matching := CollectMatching(rules, domainParts);
    if matching == [] {
      DefaultRule(rs, domainParts);
      return ["*"], 1;
    }
    FirstByPriority(matching);
    prevailing := SortWith(matching, ByPriority)[0];
    ghost var i := RuleOf(rs, path, matching, prevailing);
    k := rs[i].Count();
    PrevailingCount(rs, path, matching, i);
    GoodRule(rs, i);
    hide WellFormed, SuffixCount;
    ResolvedLabels(rs[i], domainParts);
  }

  /** The end of slowPublicSuffix: an exception loses its leftmost part, a wildcard its mark. */
  method Resolve(chosen: seq<string>, domainParts: seq<string>) returns (prevailing: seq<string>)
    requires Resolvable(chosen, domainParts)
    ensures prevailing == Resolved(chosen, domainParts)
  {
    prevailing := chosen;
    if prevailing[0][0] == '!' {
      prevailing := prevailing[1..];
    }
    if prevailing[0][0] == '*' {
      var replaced := domainParts[|domainParts| - |prevailing|];
      prevailing := [replaced] + prevailing[1..];
    }
  }

  method SlowPublicSuffix(rules: seq<string>, domain: string) returns (suffix: string)
    requires WellFormed(ParseAll(rules))
    ensures IsPublicSuffix(ParseAll(rules), domain, suffix)
  {
    hide Split, Join, WellFormed, SuffixCount;
    var domainParts := Split(domain, '.');
    var prevailing;
    ghost var k;
    prevailing, k := Prevailing(rules, domainParts);
    prevailing := Resolve(prevailing, domainParts);
    suffix := Join(prevailing, ".");
    assert CountedSuffix(ParseAll(rules), domain, suffix, k);
  }
}
