// Going through a set in no particular order, and looking things up.

module Collections {
  import opened Wrappers

  /** Any element. */
  method Pick<T(==)>(s: set<T>) returns (x: T)
    requires s != {}
    ensures x in s
  {
    x :| x in s;
  }

  /** The elements in some order. */
  method Elements<T(==)>(s: set<T>) returns (r: seq<T>)
    ensures multiset(r) == multiset(s)
  {
    r := [];
    var todo := s;
    while todo != {}
      invariant todo <= s && multiset(r) + multiset(todo) == multiset(s)
      decreases |todo|
    {
      var x := Pick(todo);
      r, todo := r + [x], todo - {x};
    }
  }

  lemma ElementsCount<T>(r: seq<T>, s: set<T>)
    requires multiset(r) == multiset(s)
    ensures |r| == |s|
  {
    assert |multiset(r)| == |r| && |multiset(s)| == |s|;
  }

  /** A look into a defaultdict. */
  function Of<V>(m: map<string, V>, run: string, default: V): V {
    if run in m then m[run] else default
  }

  function Look<V>(m: map<string, V>, run: string): Option<V> {
    if run in m then Some(m[run]) else None
  }

  /** What has been done of a map; the other keys are still to do. */
  ghost predicate Part<K(!new), V>(all: map<K, V>, done: map<K, V>, todo: set<K>) {
    && (forall k :: k in all ==> (k in done <==> k !in todo))
    && (forall k :: k in done ==> k in all && done[k] == all[k])
  }

  lemma PartNone<K(!new), V>(all: map<K, V>)
    ensures Part(all, map[], all.Keys)
  {
  }

  lemma PartOne<K(!new), V>(all: map<K, V>, done: map<K, V>, todo: set<K>, key: K)
    requires Part(all, done, todo) && key in all
    ensures Part(all, done[key := all[key]], todo - {key})
  {
  }

  lemma PartAll<K(!new), V>(all: map<K, V>, done: map<K, V>)
    requires Part(all, done, {})
    ensures done == all
  {
    assert done.Keys == all.Keys;
  }
}
