// The functions of Go's package strings that the modelled code calls, over sequences of
// any element type.

module Strings {

  /** strings.Split with a separator of one element: always at least one part. */
  function Split<T(==)>(s: seq<T>, sep: T): (parts: seq<seq<T>>)
    ensures |parts| > 0
  {
    if s == [] then [[]]
    else
      var rest := Split(s[1..], sep);
      if s[0] == sep then [[]] + rest
      else [[s[0]] + rest[0]] + rest[1..]
  }

  function Join<T>(parts: seq<seq<T>>, sep: seq<T>): seq<T> {
    if |parts| == 0 then []
    else if |parts| == 1 then parts[0]
    else parts[0] + sep + Join(parts[1..], sep)
  }

  ghost predicate SepFree<T>(parts: seq<seq<T>>, sep: T) {
    forall i :: 0 <= i < |parts| ==> sep !in parts[i]
  }

  lemma {:induction false} SplitSepFree<T>(s: seq<T>, sep: T)
    ensures SepFree(Split(s, sep), sep)
  {
    if s != [] {
      SplitSepFree(s[1..], sep);
    }
  }

  lemma {:induction false} JoinSplit<T>(s: seq<T>, sep: T)
    ensures Join(Split(s, sep), [sep]) == s
  {
    if s != [] {
      var rest := Split(s[1..], sep);
      JoinSplit(s[1..], sep);
      if s[0] == sep {
        assert ([[]] + rest)[1..] == rest;
      } else if |rest| > 1 {
        var first := [s[0]] + rest[0];
        assert ([first] + rest[1..])[1..] == rest[1..];
        assert first + [sep] + Join(rest[1..], [sep]) == [s[0]] + (rest[0] + [sep] + Join(rest[1..], [sep]));
      }
    }
  }

  /** Splitting at the first separator: the part before it, then the rest. */
  lemma {:induction false} SplitFirst<T>(a: seq<T>, b: seq<T>, sep: T)
    requires sep !in a
    ensures Split(a, sep) == [a]
    ensures Split(a + [sep] + b, sep) == [a] + Split(b, sep)
  {
    if a == [] {
      assert ([] + [sep] + b)[1..] == b;
      assert [] + [sep] + b == [sep] + b;
    } else {
      SplitFirst(a[1..], b, sep);
      assert (a + [sep] + b)[1..] == a[1..] + [sep] + b;
      assert [a[0]] + a[1..] == a;
    }
  }

  lemma {:induction false} SplitJoin<T>(parts: seq<seq<T>>, sep: T)
    requires |parts| > 0 && SepFree(parts, sep)
    ensures Split(Join(parts, [sep]), sep) == parts
  {
    if |parts| == 1 {
      SplitFirst(parts[0], [], sep);
    } else {
      assert SepFree(parts[1..], sep);
      SplitJoin(parts[1..], sep);
      SplitFirst(parts[0], Join(parts[1..], [sep]), sep);
    }
  }

  predicate HasPrefix<T(==)>(s: seq<T>, prefix: seq<T>) {
    |prefix| <= |s| && s[..|prefix|] == prefix
  }

  predicate Contains<T(==)>(s: seq<T>, sub: seq<T>) {
    exists k :: 0 <= k <= |s| && HasPrefix(s[k..], sub)
  }

  lemma {:induction false} PartWithin<T>(parts: seq<seq<T>>, sep: seq<T>, i: nat, prefix: seq<T>)
    requires i < |parts| && HasPrefix(parts[i], prefix)
    ensures Contains(Join(parts, sep), prefix)
  {
    var all := Join(parts, sep);
    if i == 0 {
      assert HasPrefix(all[0..], prefix);
    } else {
      PartWithin(parts[1..], sep, i - 1, prefix);
      var rest := Join(parts[1..], sep);
      var k :| 0 <= k <= |rest| && HasPrefix(rest[k..], prefix);
      assert all[|parts[0] + sep| + k..] == rest[k..];
    }
  }
}
