// The dictionary that replaces the keys of a record by small numbers (loads/db/_python.py).

module KeyTable {
  import opened Collections

  datatype Value = Text(text: string) | Number(number: int)

  type Record = map<string, Value>

  /** A record with its keys replaced. */
  type Row = map<int, Value>

  /** The names of the codes, and the codes of the names. */
  datatype Table = Table(names: map<int, string>, codes: map<string, int>)

  /** The two directions are inverse to each other; the codes are the numbers below the size. */
  ghost predicate Mutual(t: Table) {
    && (forall k: int :: k in t.names <==> 0 <= k < |t.names|)
    && (forall k :: k in t.names ==> t.names[k] in t.codes && t.codes[t.names[k]] == k)
    && (forall s :: s in t.codes ==> t.codes[s] in t.names && t.names[t.codes[s]] == s)
  }

  /** Codes are only ever added. */
  ghost predicate Extends(t: Table, later: Table) {
    && (forall k :: k in t.names ==> k in later.names && later.names[k] == t.names[k])
    && (forall s :: s in t.codes ==> s in later.codes && later.codes[s] == t.codes[s])
  }

  function WithKey(t: Table, key: string, code: int): Table {
    Table(t.names[code := key], t.codes[key := code])
  }

  lemma KeyAdded(t: Table, key: string)
    requires Mutual(t) && key !in t.codes
    ensures Mutual(WithKey(t, key, |t.names|)) && Extends(t, WithKey(t, key, |t.names|))
  {
  }

  lemma ExtendsItself(t: Table)
    ensures Extends(t, t)
  {
  }

  lemma ExtendsOn(t: Table, later: Table, last: Table)
    requires Extends(t, later) && Extends(later, last)
    ensures Extends(t, last)
  {
  }

  lemma CodeKnown(t: Table, key: string)
    requires Mutual(t) && key in t.codes
    ensures t.codes[key] in t.names && t.names[t.codes[key]] == key
  {
  }

  lemma KeyKnown(t: Table, code: int)
    requires Mutual(t) && code in t.names
    ensures t.names[code] in t.codes && t.codes[t.names[code] := code] == t.codes
  {
  }

  /** The largest code, if there is one. */
  lemma LastCode(t: Table)
    requires Mutual(t)
    ensures t.names.Keys == {} <==> |t.names| == 0
    ensures |t.names| > 0 ==> |t.names| - 1 in t.names && forall k :: k in t.names ==> k <= |t.names| - 1
  {
  }

  /** The row is the record with its keys replaced. */
  ghost predicate Stands(t: Table, row: Row, record: Record) {
    && (forall s :: s in record ==> s in t.codes && t.codes[s] in row && row[t.codes[s]] == record[s])
    && (forall k :: k in row ==> k in t.names && t.names[k] in record)
  }

  /** A row means the same record in every later table. */
  lemma StandsOn(t: Table, later: Table, row: Row, record: Record)
    requires Stands(t, row, record) && Extends(t, later)
    ensures Stands(later, row, record)
  {
  }

  lemma StandsWithin(t: Table, row: Row, a: Record, b: Record)
    requires Mutual(t) && Stands(t, row, a) && Stands(t, row, b)
    ensures forall s :: s in a ==> s in b && a[s] == b[s]
  {
    forall s | s in a ensures s in b && a[s] == b[s] {
      var k := t.codes[s];
      assert t.names[k] == s && k in row;
    }
  }

  /** A row means at most one record. */
  lemma StandsForOne(t: Table, row: Row, a: Record, b: Record)
    requires Mutual(t) && Stands(t, row, a) && Stands(t, row, b)
    ensures a == b
  {
    StandsWithin(t, row, a, b);
    StandsWithin(t, row, b, a);
    assert a.Keys == b.Keys;
  }

  lemma StandsNone(t: Table)
    ensures Stands(t, map[], map[])
  {
  }

  /** One more key. */
  lemma StandsWith(t: Table, row: Row, record: Record, code: int, value: Value)
    requires Mutual(t) && Stands(t, row, record) && code in t.names
    ensures Stands(t, row[code := value], record[t.names[code] := value])
  {
  }

  /** The part of a record that is done, in a table that has grown. */
  ghost predicate Compressing(before: Table, t: Table, row: Row, done: Record) {
    Mutual(t) && Extends(before, t) && Stands(t, row, done)
  }

  lemma Compressed(before: Table, t: Table, later: Table, row: Row, done: Record, code: int, value: Value)
    requires Compressing(before, t, row, done) && Mutual(later) && Extends(t, later) && code in later.names
    ensures Compressing(before, later, row[code := value], done[later.names[code] := value])
  {
    StandsOn(t, later, row, done);
    StandsWith(later, row, done, code, value);
    ExtendsOn(before, t, later);
  }

  /** _uncompress_headers: the codes are looked up one by one, in any order. */
  method Uncompress(names: map<int, string>, row: Row, ghost t: Table) returns (record: Record)
    requires Mutual(t) && names == t.names && forall k :: k in row ==> k in t.names
    ensures Stands(t, row, record)
  {
    StandsNone(t);
    PartNone(row);
    hide Stands, Part, Mutual;
    record := map[];
    ghost var done: Row := map[];
    var todo := row.Keys;
    while todo != {}
      invariant todo <= row.Keys && Part(row, done, todo) && Stands(t, done, record)
      decreases |todo|
    {
      var key := Pick(todo);
      StandsWith(t, done, record, key, row[key]);
      PartOne(row, done, todo, key);
      record := record[names[key] := row[key]];
      done := done[key := row[key]];
      todo := todo - {key};
    }
    PartAll(row, done);
  }
}
