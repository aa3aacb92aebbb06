// makeText of publicsuffix/gen.go: one text that holds every label, made short by dropping
// labels inside others and by overlapping ends.

module TextCrusher {
  import opened Sorting
  import opened Strings

  function Total(ss: seq<string>): nat {
    if ss == [] then 0 else |ss[0]| + Total(ss[1..])
  }

  function Nonempty(ss: seq<string>): nat {
    if ss == [] then 0 else (if ss[0] != "" then 1 else 0) + Nonempty(ss[1..])
  }

  lemma {:induction false} TotalUpdate(ss: seq<string>, i: nat, s: string)
    requires i < |ss|
    ensures Total(ss[i := s]) == Total(ss) - |ss[i]| + |s|
    ensures Nonempty(ss[i := s]) == Nonempty(ss) - (if ss[i] != "" then 1 else 0) + (if s != "" then 1 else 0)
  {
    if i > 0 {
      assert ss[i := s][1..] == ss[1..][i - 1 := s];
      TotalUpdate(ss[1..], i - 1, s);
    }
  }

  lemma ContainsTrans(a: string, b: string, c: string)
    requires Contains(a, b) && Contains(b, c)
    ensures Contains(a, c)
  {
    var i :| 0 <= i <= |a| && HasPrefix(a[i..], b);
    var j :| 0 <= j <= |b| && HasPrefix(b[j..], c);
    forall x | 0 <= x < |c|
      ensures a[i + j + x] == c[x]
    {
      assert c[x] == b[j..][..|c|][x] == b[j + x];
      assert b[j + x] == a[i..][..|b|][j + x];
    }
    assert a[i + j..][..|c|] == c;
    assert HasPrefix(a[i + j..], c);
  }

  lemma ContainsItself(s: string)
    ensures Contains(s, s) && Contains(s, "")
  {
    assert HasPrefix(s[0..], s) && HasPrefix(s[0..], "");
  }

  lemma ContainsParts(a: string, b: string)
    ensures Contains(a + b, a) && Contains(a + b, b)
  {
    assert HasPrefix((a + b)[0..], a);
    assert (a + b)[|a|..] == b && HasPrefix((a + b)[|a|..], b);
  }

  /** Every label is inside some string of the list. */
  ghost predicate Kept(labels: seq<string>, ss: seq<string>) {
    forall l :: l in labels && l != "" ==> exists k :: 0 <= k < |ss| && Contains(ss[k], l)
  }

  /** A list keeps the labels if every string of the old list is inside one of the new. */
  lemma KeptBy(labels: seq<string>, ss: seq<string>, ts: seq<string>)
    requires Kept(labels, ss)
    requires forall k :: 0 <= k < |ss| && ss[k] != "" ==> exists m :: 0 <= m < |ts| && Contains(ts[m], ss[k])
    ensures Kept(labels, ts)
  {
    forall l | l in labels && l != ""
      ensures exists m :: 0 <= m < |ts| && Contains(ts[m], l)
    {
      var k :| 0 <= k < |ss| && Contains(ss[k], l);
      var m :| 0 <= m < |ts| && Contains(ts[m], ss[k]);
      ContainsTrans(ts[m], ss[k], l);
    }
  }

  lemma DropKeeps(labels: seq<string>, ss: seq<string>, i: nat, j: nat)
    requires i < |ss| && j < |ss| && i != j && Contains(ss[i], ss[j]) && Kept(labels, ss)
    ensures Kept(labels, ss[j := ""])
  {
    var ts := ss[j := ""];
    forall k | 0 <= k < |ss| && ss[k] != ""
      ensures exists m :: 0 <= m < |ts| && Contains(ts[m], ss[k])
    {
      ContainsItself(ss[k]);
      var m := if k == j then i else k;
      assert Contains(ts[m], ss[k]);
    }
    KeptBy(labels, ss, ts);
  }

  /** No string left lies inside another one, as far as i and j have been compared. */
  ghost predicate Apart(ss: seq<string>, i: nat, j: nat) {
    forall a, b ::
      0 <= a < |ss| && 0 <= b < |ss| && (a < i || (a == i && b < j)) && a != b && ss[a] != "" && ss[b] != "" ==>
        !Contains(ss[a], ss[b])
  }

  /**
   * Removes the strings that are inside others, and only those: every label is kept, and nothing more
   * can be removed.
   */
  method DropSubstrings(labels: seq<string>) returns (ss: seq<string>)
    ensures |ss| == |labels| && forall k :: 0 <= k < |ss| ==> ss[k] == labels[k] || (ss[k] == "" && Inside(labels, k))
    ensures Kept(labels, ss) && Total(ss) <= Total(labels)
    ensures forall a, b :: 0 <= a < |ss| && 0 <= b < |ss| && a != b && ss[a] != "" && ss[b] != "" ==>
              !Contains(ss[a], ss[b])
  {
    ss := labels;
    forall k | 0 <= k < |labels|
      ensures Contains(ss[k], labels[k])
    {
      ContainsItself(labels[k]);
    }
    var changed := true;
    while changed
      invariant Shrunk(labels, ss)
      invariant !changed ==> Apart(ss, |ss|, 0)
      decreases Nonempty(ss), changed
    {
      changed := false;
      ghost var before := Nonempty(ss);
      for i := 0 to |ss|
        invariant Shrunk(labels, ss)
        invariant if changed then Nonempty(ss) < before else Nonempty(ss) == before
        invariant !changed ==> Apart(ss, i, 0)
      {
        var s := ss[i];
        if s != "" {
          for j := 0 to |ss|
            invariant Shrunk(labels, ss) && ss[i] == s
            invariant if changed then Nonempty(ss) < before else Nonempty(ss) == before
            invariant !changed ==> Apart(ss, i, j)
          {
            if i != j && ss[j] != "" && Contains(s, ss[j]) {
              assert Inside(labels, j);
              DropKeeps(labels, ss, i, j);
              TotalUpdate(ss, j, "");
              changed := true;
              ss := ss[j := ""];
            }
          }
        }
      }
    }
  }

  /** The string at k lies inside a string at another place. */
  ghost predicate Inside(labels: seq<string>, k: nat)
    requires k < |labels|
  {
    labels[k] != "" && exists i :: 0 <= i < |labels| && i != k && labels[i] != "" && Contains(labels[i], labels[k])
  }

  /** The labels with some of them emptied, none of which is needed. */
  ghost predicate Shrunk(labels: seq<string>, ss: seq<string>) {
    && |ss| == |labels| && (forall k :: 0 <= k < |ss| ==> ss[k] == labels[k] || (ss[k] == "" && Inside(labels, k)))
    && Kept(labels, ss) && Total(ss) <= Total(labels)
  }

  lemma {:induction false} TotalConcat(a: seq<string>, b: seq<string>)
    ensures Total(a + b) == Total(a) + Total(b)
  {
    if a == [] {
      assert a + b == b;
    } else {
      assert (a + b)[1..] == a[1..] + b;
      TotalConcat(a[1..], b);
    }
  }

  lemma {:induction false} PlaceTotal(ss: seq<string>, s: string)
    ensures Total(Place(ss, s, Less)) == Total(ss) + |s|
  {
    if ss != [] {
      PlaceTotal(ss[1..], s);
    }
  }

  lemma {:induction false} SortTotal(ss: seq<string>)
    ensures Total(SortWith(ss, Less)) == Total(ss)
  {
    if ss != [] {
      var init, last := ss[..|ss| - 1], ss[|ss| - 1];
      SortTotal(init);
      PlaceTotal(SortWith(init, Less), last);
      TotalConcat(init, [last]);
      assert ss == init + [last];
    }
  }

  lemma SortKept(labels: seq<string>, ss: seq<string>)
    requires Kept(labels, ss)
    ensures Kept(labels, SortWith(ss, Less)) && Total(SortWith(ss, Less)) == Total(ss)
  {
    var ts := SortWith(ss, Less);
    SortKeeps(ss, Less);
    forall k | 0 <= k < |ss| && ss[k] != ""
      ensures exists m :: 0 <= m < |ts| && Contains(ts[m], ss[k])
    {
      assert ss[k] in multiset(ts);
      var m :| 0 <= m < |ts| && ts[m] == ss[k];
      ContainsItself(ss[k]);
    }
    KeptBy(labels, ss, ts);
    SortTotal(ss);
  }

  /** The same strings, as often, apart from the empty one. */
  ghost predicate SameTexts(ss: seq<string>, ts: seq<string>) {
    forall t :: t != "" ==> multiset(ss)[t] == multiset(ts)[t]
  }

  lemma SameTextsTail(ss: seq<string>, ts: seq<string>)
    requires ts != [] && ts[0] == "" && SameTexts(ss, ts)
    ensures SameTexts(ss, ts[1..])
  {
    assert ts == [ts[0]] + ts[1..];
  }

  /** Sorts and removes the empty strings in front. */
  method DropEmpty(labels: seq<string>, ss0: seq<string>) returns (ss: seq<string>)
    requires Kept(labels, ss0)
    ensures Kept(labels, ss) && Total(ss) == Total(ss0) && SameTexts(ss0, ss)
  {
    SortKept(labels, ss0);
    SortKeeps(ss0, Less);
    ss := SortWith(ss0, Less);
    while |ss| > 0 && ss[0] == ""
      invariant Kept(labels, ss) && Total(ss) == Total(ss0) && SameTexts(ss0, ss)
      decreases |ss|
    {
      forall k | 0 <= k < |ss| && ss[k] != ""
        ensures exists m :: 0 <= m < |ss[1..]| && Contains(ss[1..][m], ss[k])
      {
        ContainsItself(ss[k]);
        assert Contains(ss[1..][k - 1], ss[k]);
      }
      KeptBy(labels, ss, ss[1..]);
      SameTextsTail(ss0, ss);
      ss := ss[1..];
    }
  }

  /** The last k of s are the first k of t. */
  predicate Overlap(s: string, t: string, k: nat) {
    k <= |s| && k <= |t| && s[|s| - k..] == t[..k]
  }

  /** No two different strings overlap by more than k, as far as i and j have been compared. */
  ghost predicate NoLonger(ss: seq<string>, i: nat, j: nat, k: nat) {
    forall a, b, m: nat :: 0 <= a < |ss| && 0 <= b < |ss| && a != b && (a < i || (a == i && b < j)) && m > k ==>
      !Overlap(ss[a], ss[b], m)
  }

  /** The longest overlap of two strings of the list; k == 0 if there is none. */
  method BestOverlap(ss: seq<string>) returns (besti: int, bestj: int, bestk: nat)
    ensures bestk > 0 ==> 0 <= besti < |ss| && 0 <= bestj < |ss| && besti != bestj
    ensures bestk > 0 ==> Overlap(ss[besti], ss[bestj], bestk)
    ensures forall a, b, m: nat :: 0 <= a < |ss| && 0 <= b < |ss| && a != b && m > bestk ==> !Overlap(ss[a], ss[b], m)
  {
    besti, bestj, bestk := -1, -1, 0;
    for i := 0 to |ss|
      invariant bestk > 0 ==> 0 <= besti < |ss| && 0 <= bestj < |ss| && besti != bestj
      invariant bestk > 0 ==> Overlap(ss[besti], ss[bestj], bestk)
      invariant NoLonger(ss, i, 0, bestk)
    {
      var s := ss[i];
      if s != "" {
        for j := 0 to |ss|
          invariant bestk > 0 ==> 0 <= besti < |ss| && 0 <= bestj < |ss| && besti != bestj
          invariant bestk > 0 ==> Overlap(ss[besti], ss[bestj], bestk)
          invariant NoLonger(ss, i, j, bestk)
        {
          var t := ss[j];
          if i != j {
            var k := bestk + 1;
            while k <= |s| && k <= |t|
              invariant bestk < k
              invariant bestk > 0 ==> 0 <= besti < |ss| && 0 <= bestj < |ss| && besti != bestj
              invariant bestk > 0 ==> Overlap(ss[besti], ss[bestj], bestk)
              invariant NoLonger(ss, i, j, bestk)
              invariant forall m: nat :: bestk < m < k ==> !Overlap(s, t, m)
              decreases |s| - k
            {
              if s[|s| - k..] == t[..k] {
                besti, bestj, bestk := i, j, k;
              }
              k := k + 1;
            }
          }
        }
      }
    }
  }

  /** The two strings, joined so that the overlap is written once. */
  lemma MergeKeeps(labels: seq<string>, ss: seq<string>, i: nat, j: nat, k: nat)
    requires i < |ss| && j < |ss| && i != j && k > 0 && Overlap(ss[i], ss[j], k) && Kept(labels, ss)
    ensures var ts := ss[i := ss[i] + ss[j][k..]][j := ""];
      Kept(labels, ts) && Total(ts) == Total(ss) - k && Nonempty(ts) < Nonempty(ss)
  {
    var merged := ss[i] + ss[j][k..];
    var ts := ss[i := merged][j := ""];
    assert merged == ss[i][..|ss[i]| - k] + ss[j];
    ContainsParts(ss[i], ss[j][k..]);
    ContainsParts(ss[i][..|ss[i]| - k], ss[j]);
    forall m | 0 <= m < |ss| && ss[m] != ""
      ensures exists n :: 0 <= n < |ts| && Contains(ts[n], ss[m])
    {
      ContainsItself(ss[m]);
      var n := if m == j then i else m;
      assert Contains(ts[n], ss[m]);
    }
    KeptBy(labels, ss, ts);
    TotalUpdate(ss, i, merged);
    TotalUpdate(ss[i := merged], j, "");
  }

  /** The end of one string is the beginning of a string at another place. */
  ghost predicate Overlapping(ss: seq<string>) {
    exists a, b, m: nat :: 0 <= a < |ss| && 0 <= b < |ss| && a != b && m > 0 && Overlap(ss[a], ss[b], m)
  }

  /** Joins strings where one's end is another's beginning, longest overlap first; changes nothing if there are none. */
  method MergeOverlaps(labels: seq<string>, ss0: seq<string>) returns (ss: seq<string>)
    requires Kept(labels, ss0)
    ensures Kept(labels, ss) && (Overlapping(ss0) ==> Total(ss) < Total(ss0)) && (!Overlapping(ss0) ==> ss == ss0)
    ensures forall a, b, m: nat :: 0 <= a < |ss| && 0 <= b < |ss| && a != b && m > 0 ==> !Overlap(ss[a], ss[b], m)
  {
    ss := ss0;
    while true
      invariant Kept(labels, ss) && (ss == ss0 || (Total(ss) < Total(ss0) && Overlapping(ss0)))
      decreases Nonempty(ss)
    {
      var besti, bestj, bestk := BestOverlap(ss);
      if bestk == 0 {
        return;
      }
      assert Overlapping(ss);
      MergeKeeps(labels, ss, besti, bestj, bestk);
      ss := ss[besti := ss[besti] + ss[bestj][bestk..]];
      ss := ss[bestj := ""];
    }
  }

  // --------------------------------------------- when crushing makes it shorter

  lemma TwoPlaces(ss: seq<string>, i: nat, j: nat)
    requires i < |ss| && j < |ss| && i != j
    ensures multiset{ss[i], ss[j]} <= multiset(ss)
  {
    var a, b := if i < j then i else j, if i < j then j else i;
    assert ss == ss[..a] + [ss[a]] + ss[a + 1..b] + [ss[b]] + ss[b + 1..];
  }

  lemma PlacesOf(ss: seq<string>, x: string, y: string) returns (i: nat, j: nat)
    requires multiset{x, y} <= multiset(ss)
    ensures i < |ss| && j < |ss| && i != j && ss[i] == x && ss[j] == y
  {
    assert x in multiset{x, y};
    i := PlaceOf(ss, x);
    var rest := ss[..i] + ss[i + 1..];
    assert multiset(rest)[y] == multiset(ss)[y] - multiset{x}[y] && multiset{x, y}[y] == multiset{x}[y] + 1;
    var k := PlaceOf(rest, y);
    j := if k < i then k else k + 1;
  }

  lemma PlaceOf(ss: seq<string>, x: string) returns (i: nat)
    requires multiset(ss)[x] > 0
    ensures i < |ss| && ss[i] == x
    ensures multiset(ss[..i] + ss[i + 1..]) == multiset(ss) - multiset{x}
  {
    assert x in multiset(ss);
    i :| 0 <= i < |ss| && ss[i] == x;
    assert ss == ss[..i] + [ss[i]] + ss[i + 1..];
  }

  /** Whether strings overlap depends on which strings there are, and how often. */
  lemma OverlapsSame(ss: seq<string>, ts: seq<string>)
    requires SameTexts(ss, ts) && Overlapping(ss)
    ensures Overlapping(ts)
  {
    var a, b, m: nat :| 0 <= a < |ss| && 0 <= b < |ss| && a != b && m > 0 && Overlap(ss[a], ss[b], m);
    TwoPlaces(ss, a, b);
    var x, y := ss[a], ss[b];
    forall t ensures multiset{x, y}[t] <= multiset(ts)[t] {
      assert multiset{x, y}[t] <= multiset(ss)[t];
    }
    var i, j := PlacesOf(ts, x, y);
    assert Overlap(ts[i], ts[j], m);
  }

  /** A string at one place contains a string at another. */
  ghost predicate Nested(ss: seq<string>) {
    exists k: nat :: k < |ss| && Inside(ss, k)
  }

  lemma {:induction false} DroppedShorter(labels: seq<string>, ss: seq<string>)
    requires |ss| == |labels| && forall k :: 0 <= k < |ss| ==> ss[k] == labels[k] || ss[k] == ""
    ensures Total(ss) <= Total(labels) && (Total(ss) == Total(labels) ==> ss == labels)
  {
    if ss != [] {
      DroppedShorter(labels[1..], ss[1..]);
      assert ss == [ss[0]] + ss[1..] && labels == [labels[0]] + labels[1..];
    }
  }

  /** Removing the strings inside others makes the list shorter exactly when there are some. */
  lemma NestedDropped(labels: seq<string>, ss: seq<string>)
    requires Shrunk(labels, ss)
    requires forall a, b :: 0 <= a < |ss| && 0 <= b < |ss| && a != b && ss[a] != "" && ss[b] != "" ==>
               !Contains(ss[a], ss[b])
    ensures if Nested(labels) then Total(ss) < Total(labels) else ss == labels
  {
    DroppedShorter(labels, ss);
    assert Nested(labels) ==> ss != labels;
  }

  /** Two labels, at different places, of which one begins with the other's end, or holds the other. */
  ghost predicate Crushable(labels: seq<string>) {
    exists i, j :: 0 <= i < |labels| && 0 <= j < |labels| && i != j && labels[i] != "" && labels[j] != ""
      && (Contains(labels[i], labels[j]) || Meets(labels[i], labels[j]))
  }

  ghost predicate Meets(s: string, t: string) {
    exists k: nat :: 0 < k <= |s| && k <= |t| && s[|s| - k..] == t[..k]
  }

  lemma CrushableIff(labels: seq<string>)
    ensures Crushable(labels) <==> Nested(labels) || Overlapping(labels)
  {
    if Crushable(labels) {
      var i, j :| 0 <= i < |labels| && 0 <= j < |labels| && i != j && labels[i] != "" && labels[j] != ""
        && (Contains(labels[i], labels[j]) || Meets(labels[i], labels[j]));
      if Contains(labels[i], labels[j]) {
        assert Inside(labels, j);
      } else {
        var k: nat :| 0 < k <= |labels[i]| && k <= |labels[j]| && labels[i][|labels[i]| - k..] == labels[j][..k];
        assert Overlap(labels[i], labels[j], k);
      }
    }
    if Overlapping(labels) {
      var a, b, m: nat :| 0 <= a < |labels| && 0 <= b < |labels| && a != b && m > 0 && Overlap(labels[a], labels[b], m);
      assert Meets(labels[a], labels[b]);
    }
  }

  lemma {:induction false} JoinHolds(ss: seq<string>)
    ensures |Join(ss, "")| == Total(ss)
    ensures forall k :: 0 <= k < |ss| ==> Contains(Join(ss, ""), ss[k])
  {
    if |ss| == 1 {
      ContainsItself(ss[0]);
    } else if |ss| > 1 {
      JoinHolds(ss[1..]);
      var rest := Join(ss[1..], "");
      assert Join(ss, "") == ss[0] + rest;
      ContainsParts(ss[0], rest);
      forall k | 1 <= k < |ss|
        ensures Contains(ss[0] + rest, ss[k])
      {
        ContainsTrans(ss[0] + rest, rest, ss[1..][k - 1]);
      }
    }
  }

  lemma JoinKept(labels: seq<string>, ss: seq<string>)
    requires Kept(labels, ss)
    ensures forall l :: l in labels ==> Contains(Join(ss, ""), l)
  {
    JoinHolds(ss);
    forall l | l in labels
      ensures Contains(Join(ss, ""), l)
    {
      if l == "" {
        ContainsItself(Join(ss, ""));
      } else {
        var k :| 0 <= k < |ss| && Contains(ss[k], l);
        ContainsTrans(Join(ss, ""), ss[k], l);
      }
    }
  }

  /**
   * The text holds every label, so none is missing when offsets are looked up, and is no longer than
   * all of them together. Without the flag it is all of them; with it, it is shorter exactly when
   * there is something to crush, and no two of the strings it is made of overlap any more.
   */
  method MakeText(labelsList: seq<string>, crush: bool) returns (text: string)
    ensures forall l :: l in labelsList ==> Contains(text, l)
    ensures |text| <= Total(labelsList)
    ensures !crush ==> text == Join(labelsList, "")
    ensures crush ==> (|text| < Total(labelsList) <==> Crushable(labelsList))
    ensures crush ==> exists ss :: Kept(labelsList, ss) && !Overlapping(ss) && text == Join(ss, "")
  {
    var ss := labelsList;
    if crush {
      hide Kept, Contains, Overlap;
      ss := DropSubstrings(labelsList);
      ghost var dropped := ss;
      NestedDropped(labelsList, ss);
      ss := DropEmpty(labelsList, ss);
      ghost var sorted := ss;
      ss := MergeOverlaps(labelsList, ss);
      CrushedTotal(labelsList, dropped, sorted, ss);
    } else {
      forall k | 0 <= k < |ss|
        ensures Contains(ss[k], labelsList[k])
      {
        ContainsItself(ss[k]);
      }
    }
    JoinHolds(ss);
    JoinKept(labelsList, ss);
    text := Join(ss, "");
  }

  lemma CrushedTotal(labels: seq<string>, dropped: seq<string>, sorted: seq<string>, merged: seq<string>)
    requires if Nested(labels) then Total(dropped) < Total(labels) else dropped == labels
    requires Total(sorted) == Total(dropped) && SameTexts(dropped, sorted)
    requires if Overlapping(sorted) then Total(merged) < Total(sorted) else merged == sorted
    ensures Total(merged) <= Total(labels) && (Total(merged) < Total(labels) <==> Crushable(labels))
  {
    CrushableIff(labels);
    if !Nested(labels) {
      if Overlapping(labels) {
        OverlapsSame(labels, sorted);
      }
      if Overlapping(sorted) {
        OverlapsSame(sorted, labels);
      }
    }
  }
}
