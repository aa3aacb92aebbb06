// Go's string order and a stand-in for package sort: an insertion sort by a given order.

module Sorting {

  /** s < t on strings: the first difference decides, a proper prefix is smaller. */
  predicate Less(s: string, t: string) {
    if t == [] then false
    else if s == [] then true
    else s[0] < t[0] || (s[0] == t[0] && Less(s[1..], t[1..]))
  }

  lemma {:induction false} LessTrans(a: string, b: string, c: string)
    requires Less(a, b) && Less(b, c)
    ensures Less(a, c)
  {
    if a != [] && a[0] == b[0] && b[0] == c[0] {
      LessTrans(a[1..], b[1..], c[1..]);
    }
  }

  lemma {:induction false} LessTotal(a: string, b: string)
    ensures Less(a, b) || a == b || Less(b, a)
    ensures !(Less(a, b) && Less(b, a)) && !Less(a, a)
  {
    if a != [] {
      LessTotal(a[1..], a[1..]);
      if b != [] && a[0] == b[0] {
        LessTotal(a[1..], b[1..]);
        assert a == [a[0]] + a[1..] && b == [b[0]] + b[1..];
      }
    }
  }

  /** x put in front of the first element it is less than. */
  function Place<T>(xs: seq<T>, x: T, less: (T, T) -> bool): seq<T> {
    if xs == [] then [x]
    else if less(x, xs[0]) then [x] + xs
    else [xs[0]] + Place(xs[1..], x, less)
  }

  function SortWith<T>(xs: seq<T>, less: (T, T) -> bool): seq<T> {
    if xs == [] then [] else Place(SortWith(xs[..|xs| - 1], less), xs[|xs| - 1], less)
  }

  lemma {:induction false} PlaceKeeps<T>(xs: seq<T>, x: T, less: (T, T) -> bool)
    ensures multiset(Place(xs, x, less)) == multiset(xs) + multiset{x}
  {
    if xs != [] && !less(x, xs[0]) {
      PlaceKeeps(xs[1..], x, less);
      assert xs == [xs[0]] + xs[1..];
    }
  }

  lemma {:induction false} SortKeeps<T>(xs: seq<T>, less: (T, T) -> bool)
    ensures multiset(SortWith(xs, less)) == multiset(xs)
  {
    if xs != [] {
      SortKeeps(xs[..|xs| - 1], less);
      PlaceKeeps(SortWith(xs[..|xs| - 1], less), xs[|xs| - 1], less);
      assert xs == xs[..|xs| - 1] + [xs[|xs| - 1]];
    }
  }

  /** Every element is less than all that follow. */
  ghost predicate Increasing<T>(xs: seq<T>, less: (T, T) -> bool) {
    forall i, j :: 0 <= i < j < |xs| ==> less(xs[i], xs[j])
  }

  /** The order never holds both ways. */
  ghost predicate Asymmetric<T(!new)>(less: (T, T) -> bool) {
    forall x, y :: less(x, y) ==> !less(y, x)
  }

  lemma {:induction false} PlaceLast<T(!new)>(xs: seq<T>, x: T, less: (T, T) -> bool)
    requires Asymmetric(less) && forall i :: 0 <= i < |xs| ==> less(xs[i], x)
    ensures Place(xs, x, less) == xs + [x]
  {
    if xs != [] {
      assert forall i :: 0 <= i < |xs[1..]| ==> xs[1..][i] == xs[i + 1];
      PlaceLast(xs[1..], x, less);
      assert xs == [xs[0]] + xs[1..];
    }
  }

  lemma {:induction false} SortIncreasing<T(!new)>(xs: seq<T>, less: (T, T) -> bool)
    requires Asymmetric(less) && Increasing(xs, less)
    ensures SortWith(xs, less) == xs
  {
    if xs != [] {
      var init := xs[..|xs| - 1];
      SortIncreasing(init, less);
      PlaceLast(init, xs[|xs| - 1], less);
    }
  }

  /** Sorting a list that is in order but for its new last element. */
  lemma SortAppended<T(!new)>(xs: seq<T>, x: T, less: (T, T) -> bool)
    requires Asymmetric(less) && Increasing(xs, less)
    ensures SortWith(xs + [x], less) == Place(xs, x, less)
  {
    assert (xs + [x])[..|xs|] == xs;
    SortIncreasing(xs, less);
  }

  // ------------------------------------------------------- sorting strings

  /** x keeps the order of strings different from it. */
  lemma {:induction false} PlaceOrdered(xs: seq<string>, x: string)
    requires Increasing(xs, Less) && x !in xs
    ensures Increasing(Place(xs, x, Less), Less)
  {
    if xs != [] {
      LessTotal(xs[0], x);
      if Less(x, xs[0]) {
        forall i | 0 <= i < |xs| ensures Less(x, xs[i]) {
          if i > 0 {
            LessTrans(x, xs[0], xs[i]);
          }
        }
      } else {
        PlaceOrdered(xs[1..], x);
        var rest := Place(xs[1..], x, Less);
        PlaceKeeps(xs[1..], x, Less);
        forall i | 0 <= i < |rest| ensures Less(xs[0], rest[i]) {
          assert rest[i] in multiset(rest);
          assert rest[i] == x || rest[i] in xs[1..];
        }
      }
    }
  }

  ghost predicate Different<T>(xs: seq<T>) {
    forall i, j :: 0 <= i < j < |xs| ==> xs[i] != xs[j]
  }

  /** Different strings, sorted, are in strictly increasing order. */
  lemma {:induction false} SortOrdered(xs: seq<string>)
    requires Different(xs)
    ensures Increasing(SortWith(xs, Less), Less)
  {
    if xs != [] {
      var init, last := xs[..|xs| - 1], xs[|xs| - 1];
      SortOrdered(init);
      SortKeeps(init, Less);
      assert last in SortWith(init, Less) ==> last in multiset(init);
      PlaceOrdered(SortWith(init, Less), last);
    }
  }

  lemma SomeElement(xs: seq<string>)
    ensures xs == [] || exists x :: x in xs
  {
    assert xs != [] ==> xs[0] in xs;
  }

  /** Only one strictly increasing list has given elements. */
  lemma {:induction false} IncreasingUnique(xs: seq<string>, ys: seq<string>)
    requires Increasing(xs, Less) && Increasing(ys, Less)
    requires forall x :: x in xs <==> x in ys
    ensures xs == ys
  {
    SomeElement(xs);
    SomeElement(ys);
    if xs != [] {
      assert xs[0] in ys;
      assert ys[0] in xs;
      LessTotal(xs[0], ys[0]);
      assert xs[0] == ys[0];
      forall x ensures x in xs[1..] <==> x in ys[1..] {
        LessTotal(xs[0], x);
        assert x in xs <==> x == xs[0] || x in xs[1..];
        assert x in ys <==> x == ys[0] || x in ys[1..];
      }
      IncreasingUnique(xs[1..], ys[1..]);
      assert xs == [xs[0]] + xs[1..] && ys == [ys[0]] + ys[1..];
    }
  }

  /** The first difference is at k, and there s is less. */
  predicate LessAt(s: string, t: string, k: int) {
    0 <= k < |s| && k < |t| && s[..k] == t[..k] && s[k] < t[k]
  }

  /** Go's order of strings: a proper beginning is less, and otherwise the first difference decides. */
  lemma {:induction false} LessMeaning(s: string, t: string)
    ensures Less(s, t) <==> s < t || exists k :: LessAt(s, t, k)
  {
    if s != [] && t != [] {
      if s[0] == t[0] {
        LessMeaning(s[1..], t[1..]);
        assert s == [s[0]] + s[1..] && t == [t[0]] + t[1..];
        forall k ensures LessAt(s, t, k) <==> LessAt(s[1..], t[1..], k - 1) {
          LessBehind(s, t, k);
        }
        assert forall k :: LessAt(s[1..], t[1..], k) ==> LessAt(s, t, k + 1);
      } else {
        assert LessAt(s, t, 0) <==> s[0] < t[0];
        forall k ensures LessAt(s, t, k) ==> k == 0 {
          OnlyFirst(s, t, k);
        }
      }
    }
  }

  lemma LessBehind(s: string, t: string, k: int)
    requires s != [] && t != [] && s[0] == t[0]
    ensures LessAt(s, t, k) <==> LessAt(s[1..], t[1..], k - 1)
  {
    if 0 < k < |s| && k < |t| {
      assert s[..k] == [s[0]] + s[1..][..k - 1] && t[..k] == [t[0]] + t[1..][..k - 1];
      assert s[1..][..k - 1] == s[..k][1..] && t[1..][..k - 1] == t[..k][1..];
    }
  }

  lemma OnlyFirst(s: string, t: string, k: int)
    requires s != [] && t != [] && s[0] != t[0]
    ensures LessAt(s, t, k) ==> k == 0
  {
    if 0 < k < |s| && k < |t| {
      assert s[..k][0] != t[..k][0];
    }
  }
}
