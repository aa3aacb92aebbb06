// What the result log holds for one run, and what it should give back (loads/db/_python.py).

module LogSpec {
  import opened Bytes
  import opened KeyTable
  import opened RecordFile
  import opened Wrappers

  /** What a run has in memory, and in its files. The rows are those in the compressed file. */
  datatype RunLog = RunLog(
    buffer: seq<Record>, errors: seq<Record>, counts: map<string, int>, table: Table, rows: seq<Row>,
    records: Option<seq<Byte>>, errorRows: Option<seq<Row>>,
    savedCounts: Option<map<string, int>>, savedNames: Option<map<int, string>>)

  // ------------------------------------------------------------- records

  /** A record that can be added. Its type and size, if it has them, are a text and a number. */
  predicate Addable(x: Record) {
    && "run_id" in x && x["run_id"].Text?
    && ("data_type" in x ==> x["data_type"].Text?)
    && ("size" in x ==> x["size"].Number?)
  }

  lemma AddableRun(x: Record)
    requires Addable(x)
    ensures "run_id" in x && x["run_id"].Text?
  {
  }

  function Kind(x: Record): string
    requires Addable(x)
  {
    if "data_type" in x then x["data_type"].text else "unknown"
  }

  function Size(x: Record): int
    requires Addable(x)
  {
    if "size" in x then x["size"].number else 1
  }

  predicate IsError(x: Record)
    requires Addable(x)
  {
    Kind(x) == "addError" || Kind(x) == "addFailure"
  }

  ghost predicate AllAddable(log: seq<Record>) {
    forall x :: x in log ==> Addable(x)
  }

  function Errors(log: seq<Record>): (r: seq<Record>)
    requires AllAddable(log)
    ensures AllAddable(r)
  {
    if log == [] then [] else
    var x := log[|log| - 1];
    Errors(log[..|log| - 1]) + if IsError(x) then [x] else []
  }

  lemma {:induction false} ErrorsParts(a: seq<Record>, b: seq<Record>)
    requires AllAddable(a + b)
    ensures AllAddable(a) && AllAddable(b) && Errors(a + b) == Errors(a) + Errors(b)
    decreases |b|
  {
    hide IsError, Addable;
    assert forall x :: x in a || x in b ==> x in a + b;
    if b == [] {
      assert a + b == a;
    } else {
      var n := |b| - 1;
      assert (a + b)[..|a| + n] == a + b[..n] && (a + b)[|a| + n] == b[n];
      ErrorsParts(a, b[..n]);
    }
  }

  /** The records of the two types that report a failing test, and no others. */
  predicate Reports(x: Record) {
    "data_type" in x && (x["data_type"] == Text("addError") || x["data_type"] == Text("addFailure"))
  }

  /**
   * The errors of a log are its records of the types addError and addFailure, each as often as it is
   * there, and in the order of the log.
   */
  lemma {:induction false} ErrorsMeaning(log: seq<Record>)
    requires AllAddable(log)
    ensures Errors(log) == Reported(log)
    ensures forall x :: x in Errors(log) <==>
              x in log && "data_type" in x
              && (x["data_type"] == Text("addError") || x["data_type"] == Text("addFailure"))
    ensures forall x :: x in log && Reports(x) ==> multiset(Errors(log))[x] == multiset(log)[x]
  {
    if log != [] {
      var x := log[0];
      assert log == [x] + log[1..];
      ErrorsParts([x], log[1..]);
      ErrorsOne(x);
      ErrorsMeaning(log[1..]);
    }
  }

  /** Read from the front. */
  function Reported(log: seq<Record>): seq<Record> {
    if log == [] then [] else (if Reports(log[0]) then [log[0]] else []) + Reported(log[1..])
  }

  lemma ErrorsOne(x: Record)
    requires Addable(x)
    ensures Errors([x]) == if Reports(x) then [x] else []
  {
    assert [x][..0] == [];
  }

  /** A record without a type is of the type "unknown", and one without a size counts once. */
  lemma DefaultsCounted(x: Record)
    requires Addable(x)
    ensures "data_type" !in x && "size" !in x ==> Counts([x]) == map["unknown" := 1]
    ensures "data_type" in x && "size" !in x ==> Counts([x]) == map[x["data_type"].text := 1]
    ensures "data_type" in x && "size" in x ==> Counts([x]) == map[x["data_type"].text := x["size"].number]
    ensures "data_type" !in x && "size" in x ==> Counts([x]) == map["unknown" := x["size"].number]
  {
    assert [x][..0] == [];
  }

  function Bumped(counts: map<string, int>, x: Record): map<string, int>
    requires Addable(x)
  {
    counts[Kind(x) := (if Kind(x) in counts then counts[Kind(x)] else 0) + Size(x)]
  }

  function Counts(log: seq<Record>): map<string, int>
    requires AllAddable(log)
  {
    if log == [] then map[] else Bumped(Counts(log[..|log| - 1]), log[|log| - 1])
  }

  /** The sizes of the records of a type, added up. */
  function Total(log: seq<Record>, kind: string): int
    requires AllAddable(log)
  {
    if log == [] then 0 else
    (if Kind(log[0]) == kind then Size(log[0]) else 0) + Total(log[1..], kind)
  }

  lemma {:induction false} TotalLast(log: seq<Record>, kind: string)
    requires AllAddable(log) && log != []
    ensures var x := log[|log| - 1];
            Total(log, kind) == Total(log[..|log| - 1], kind) + if Kind(x) == kind then Size(x) else 0
  {
    if |log| > 1 {
      TotalLast(log[1..], kind);
      assert log[1..][..|log| - 2] == log[..|log| - 1][1..];
    }
  }

  /** The counts are the sums of the sizes, for the types that there are. */
  lemma {:induction false} CountsAreTotals(log: seq<Record>, kind: string)
    requires AllAddable(log)
    ensures kind in Counts(log) <==> exists x :: x in log && Kind(x) == kind
    ensures kind in Counts(log) ==> Counts(log)[kind] == Total(log, kind)
    ensures kind !in Counts(log) ==> Total(log, kind) == 0
  {
    if log != [] {
      var init, x := log[..|log| - 1], log[|log| - 1];
      assert log == init + [x];
      CountsAreTotals(init, kind);
      TotalLast(log, kind);
    }
  }

  // --------------------------------------------------- what a run holds

  /** The rows stand for the first records of the log; the others are in the queue. */
  ghost predicate Holds(t: Table, rows: seq<Row>, queue: seq<Record>, log: seq<Record>) {
    && |rows| <= |log| && queue == log[|rows|..]
    && forall i :: 0 <= i < |rows| ==> Stands(t, rows[i], log[i])
  }

  /** The rows of records. */
  ghost predicate AllStand(t: Table, rows: seq<Row>, records: seq<Record>) {
    |rows| == |records| && forall i :: 0 <= i < |rows| ==> Stands(t, rows[i], records[i])
  }

  lemma HoldsAdded(t: Table, rows: seq<Row>, queue: seq<Record>, log: seq<Record>, x: Record)
    requires Holds(t, rows, queue, log)
    ensures Holds(t, rows, queue + [x], log + [x])
  {
  }

  lemma HoldsOn(t: Table, later: Table, rows: seq<Row>, queue: seq<Record>, log: seq<Record>)
    requires Holds(t, rows, queue, log) && Extends(t, later)
    ensures Holds(later, rows, queue, log)
  {
    forall i | 0 <= i < |rows| ensures Stands(later, rows[i], log[i]) {
      StandsOn(t, later, rows[i], log[i]);
    }
  }

  lemma HoldsDumped(t: Table, later: Table, rows: seq<Row>, queue: seq<Record>, log: seq<Record>, more: seq<Row>)
    requires Holds(t, rows, queue, log) && Extends(t, later) && AllStand(later, more, queue)
    ensures Holds(later, rows + more, [], log)
  {
    HoldsOn(t, later, rows, queue, log);
    forall i | |rows| <= i < |rows + more| ensures Stands(later, (rows + more)[i], log[i]) {
      assert log[i] == queue[i - |rows|];
    }
  }

  function Packed(rows: seq<Row>, pack: Row -> seq<Byte>): (lines: seq<seq<Byte>>)
    ensures |lines| == |rows| && forall i :: 0 <= i < |rows| ==> lines[i] == pack(rows[i])
  {
    seq(|rows|, i requires 0 <= i < |rows| => pack(rows[i]))
  }

  /** The run has kept every record of the log, in its files or in its queues. */
  ghost predicate Faithful(s: RunLog, log: seq<Record>, pack: Row -> seq<Byte>) {
    && AllAddable(log) && Mutual(s.table)
    && Holds(s.table, s.rows, s.buffer, log)
    && s.records == (if s.rows == [] then None else Some(Written(Packed(s.rows, pack))))
    && Holds(s.table, s.errorRows.UnwrapOr([]), s.errors, Errors(log))
    && s.counts == Counts(log)
  }

  lemma FaithfulMutual(s: RunLog, log: seq<Record>, pack: Row -> seq<Byte>)
    requires Faithful(s, log, pack)
    ensures Mutual(s.table)
  {
  }

  /** Everything is in the files. */
  ghost predicate Saved(s: RunLog) {
    s.buffer == [] && s.errors == [] && s.savedCounts == Some(s.counts) && s.savedNames == Some(s.table.names)
  }

  /** The run with one more record. */
  function Added(s: RunLog, x: Record): RunLog
    requires Addable(x)
  {
    s.(
      buffer := s.buffer + [x],
      errors := if IsError(x) then s.errors + [x] else s.errors,
      counts := Bumped(s.counts, x)
    )
  }

  lemma AddedFaithful(s: RunLog, log: seq<Record>, pack: Row -> seq<Byte>, x: Record)
    requires Faithful(s, log, pack) && Addable(x)
    ensures Faithful(Added(s, x), log + [x], pack)
  {
    HoldsAdded(s.table, s.rows, s.buffer, log, x);
    HoldsAdded(s.table, s.errorRows.UnwrapOr([]), s.errors, Errors(log), x);
    assert (log + [x])[..|log|] == log;
  }

  /** The table has grown, and has the rows of the records in a queue. */
  ghost predicate Compresses(t: Table, later: Table, queue: seq<Record>, more: seq<Row>) {
    Mutual(later) && Extends(t, later) && AllStand(later, more, queue)
  }

  /** The queue of errors is written as these rows. */
  function ErrorsDumped(s: RunLog, later: Table, more: seq<Row>): RunLog {
    s.(errors := [], table := later,
       errorRows := if s.errors == [] then s.errorRows else Some(s.errorRows.UnwrapOr([]) + more))
  }

  lemma ErrorsDumpedFaithful(s: RunLog, log: seq<Record>, pack: Row -> seq<Byte>, later: Table, more: seq<Row>)
    requires Faithful(s, log, pack) && Compresses(s.table, later, s.errors, more)
    ensures Faithful(ErrorsDumped(s, later, more), log, pack)
  {
    var rows := s.errorRows.UnwrapOr([]);
    HoldsDumped(s.table, later, rows, s.errors, Errors(log), more);
    assert s.errors == [] ==> rows + more == rows;
    HoldsOn(s.table, later, s.rows, s.buffer, log);
  }

  /** The queue of records is written as these rows, compressed. */
  function RecordsDumped(s: RunLog, later: Table, more: seq<Row>, pack: Row -> seq<Byte>): RunLog {
    s.(buffer := [], table := later, rows := s.rows + more,
       records := if s.buffer == [] then s.records
                  else Some(s.records.UnwrapOr([]) + Written(Packed(more, pack))))
  }

  lemma {:induction false} WrittenParts(a: seq<seq<Byte>>, b: seq<seq<Byte>>)
    ensures Written(a + b) == Written(a) + Written(b)
  {
    if a == [] {
      assert a + b == b;
    } else {
      assert (a + b)[1..] == a[1..] + b;
      WrittenParts(a[1..], b);
    }
  }

  /** The compressed file after some more rows. */
  lemma FileGrown(rows: seq<Row>, more: seq<Row>, pack: Row -> seq<Byte>)
    ensures Written(Packed(rows + more, pack)) == Written(Packed(rows, pack)) + Written(Packed(more, pack))
  {
    assert Packed(rows + more, pack) == Packed(rows, pack) + Packed(more, pack);
    WrittenParts(Packed(rows, pack), Packed(more, pack));
  }

  lemma RecordsDumpedFaithful(s: RunLog, log: seq<Record>, pack: Row -> seq<Byte>, later: Table, more: seq<Row>)
    requires Faithful(s, log, pack) && Compresses(s.table, later, s.buffer, more)
    ensures Faithful(RecordsDumped(s, later, more, pack), log, pack)
  {
    HoldsDumped(s.table, later, s.rows, s.buffer, log, more);
    HoldsOn(s.table, later, s.errorRows.UnwrapOr([]), s.errors, Errors(log));
    FileGrown(s.rows, more, pack);
    assert s.rows == [] ==> Written(Packed(s.rows, pack)) == [];
    assert s.buffer == [] ==> s.rows + more == s.rows;
  }

  // -------------------------------------------------------- reading back

  /** What zlib and json promise: unpack undoes pack, and unpacks nothing of which the end is missing. */
  ghost predicate Lossless(pack: Row -> seq<Byte>, unpack: seq<Byte> -> Option<Row>) {
    forall row :: unpack(pack(row)) == Some(row) && Whole(pack(row), unpack)
  }

  /** The compressed file of a run is read back as its rows, up to the first that has the end marker inside. */
  lemma FileRead(rows: seq<Row>, pack: Row -> seq<Byte>, unpack: seq<Byte> -> Option<Row>)
    requires Lossless(pack, unpack)
    ensures ReadAll(Written(Packed(rows, pack)), unpack) == ReadBack(Packed(rows, pack), rows)
  {
    hide Whole;
    var lines := Packed(rows, pack);
    assert AllWhole(lines, unpack) && Unpacks(lines, unpack, rows);
    WrittenReadBack(lines, unpack, rows);
  }

  /** _filtered, turned round. */
  predicate Passes(x: Record, kind: Option<string>) {
    kind.None? || ("data_type" in x && x["data_type"] == Text(kind.value))
  }

  function Matching(log: seq<Record>, kind: Option<string>): (r: seq<Record>)
    ensures |r| <= |log|
    ensures forall x :: x in r <==> x in log && Passes(x, kind)
  {
    if log == [] then [] else (if Passes(log[0], kind) then [log[0]] else []) + Matching(log[1..], kind)
  }

  function Take<T>(s: seq<T>, n: nat): seq<T> {
    if n < |s| then s[..n] else s
  }

  function Drop<T>(s: seq<T>, n: nat): seq<T> {
    if n < |s| then s[n..] else []
  }

  /** The records that a call with these arguments looks at. */
  function Window(log: seq<Record>, start: nat, size: Option<nat>): seq<Record> {
    if size.None? then Drop(log, start) else Take(Drop(log, start), size.value + 1)
  }

  /** The records that a call with these arguments gives. */
  function Page(log: seq<Record>, kind: Option<string>, start: nat, size: Option<nat>): seq<Record> {
    var found := Matching(Window(log, start, size), kind);
    if size.None? then found else Take(found, size.value)
  }

  lemma {:induction false} MatchingAll(log: seq<Record>)
    ensures Matching(log, None) == log
  {
    if log != [] {
      MatchingAll(log[1..]);
    }
  }

  lemma MatchingOne(x: Record, kind: string)
    ensures Matching([x], Some(kind)) == if "data_type" in x && x["data_type"] == Text(kind) then [x] else []
  {
    assert [x][1..] == [];
  }

  /** The filter keeps the records of the type asked for, in their order; without one it keeps all. */
  lemma FilterMeaning(a: seq<Record>, x: Record, b: seq<Record>, kind: string)
    ensures Matching(a + [x] + b, Some(kind))
            == Matching(a, Some(kind))
               + (if "data_type" in x && x["data_type"] == Text(kind) then [x] else [])
               + Matching(b, Some(kind))
    ensures Matching(a, None) == a
  {
    MatchingOne(x, kind);
    MatchingAll(a);
    hide Matching, Passes;
    MatchingParts(a + [x], b, Some(kind));
    MatchingParts(a, [x], Some(kind));
  }

  /** A page has records of the log only. */
  lemma PageMembers(log: seq<Record>, kind: Option<string>, start: nat, size: Option<nat>)
    ensures forall x :: x in Page(log, kind, start, size) ==> x in log && Passes(x, kind)
  {
    var all, window := Drop(log, start), Window(log, start, size);
    assert forall x :: x in all ==> x in log;
    assert forall x :: x in window ==> x in all;
    assert forall x :: x in Page(log, kind, start, size) ==> x in Matching(window, kind);
  }

  /** Without a filter, a page is the records from start on, size of them. */
  lemma WholePage(log: seq<Record>, start: nat, size: Option<nat>)
    ensures Page(log, None, start, size) == if size.None? then Drop(log, start) else Take(Drop(log, start), size.value)
  {
    MatchingAll(Window(log, start, size));
  }

  lemma {:induction false} MatchingParts(a: seq<Record>, b: seq<Record>, kind: Option<string>)
    ensures Matching(a + b, kind) == Matching(a, kind) + Matching(b, kind)
  {
    hide Passes;
    if a == [] {
      assert a + b == b;
    } else {
      assert (a + b)[1..] == a[1..] + b;
      MatchingParts(a[1..], b, kind);
    }
  }

  /**
   * With a filter, a page is the first size matching records from start on exactly when the
   * window of size + 1 records has that many of them, or there are none behind it.
   */
  lemma FilteredPage(log: seq<Record>, kind: Option<string>, start: nat, size: nat)
    ensures Page(log, kind, start, Some(size)) == Take(Matching(Drop(log, start), kind), size) <==>
            || |Matching(Window(log, start, Some(size)), kind)| >= size
            || Matching(Drop(Drop(log, start), size + 1), kind) == []
  {
    hide Matching;
    var all := Drop(log, start);
    var window, behind := Take(all, size + 1), Drop(all, size + 1);
    assert all == window + behind;
    MatchingParts(window, behind, kind);
    TakeParts(Matching(window, kind), Matching(behind, kind), size);
    hide Take, Drop;
  }

  /** The first elements of a whole are those of its beginning when that is long enough, or is all. */
  lemma TakeParts<T>(a: seq<T>, b: seq<T>, n: nat)
    ensures Take(a, n) == Take(a + b, n) <==> |a| >= n || b == []
  {
    if |a| >= n {
      assert Take(a + b, n) == Take(a, n);
    } else if b == [] {
      assert a + b == a;
    } else {
      assert |Take(a + b, n)| > |a|;
    }
  }

  /** A page of one record finds the second record of the log, and misses the third. */
  lemma MissedRecord(a: Record, b: Record)
    requires !Passes(a, Some("b")) && Passes(b, Some("b"))
    ensures Page([a, b], Some("b"), 0, Some(1)) == [b]
    ensures Page([a, a, b], Some("b"), 0, Some(1)) == [] && Matching([a, a, b], Some("b")) == [b]
  {
    MatchingParts([a, a], [b], Some("b"));
    MatchingParts([a], [b], Some("b"));
    assert [a, a] + [b] == [a, a, b] && [a] + [b] == [a, b];
    assert Window([a, a, b], 0, Some(1)) == [a, a] && Window([a, b], 0, Some(1)) == [a, b];
    NoneMatch([a], Some("b"));
    NoneMatch([a, a], Some("b"));
    assert [b][1..] == [] && Matching([b], Some("b")) == [b];
  }

  lemma {:induction false} NoneMatch(log: seq<Record>, kind: Option<string>)
    requires forall x :: x in log ==> !Passes(x, kind)
    ensures Matching(log, kind) == []
  {
    if log != [] {
      NoneMatch(log[1..], kind);
    }
  }

  // ------------------------------------------------- a page, step by step

  /** The page as it is when the records before this one have been looked at. */
  ghost predicate Paged(log: seq<Record>, current: nat, kind: Option<string>, start: nat, size: Option<nat>,
                        page: seq<Record>)
  {
    current <= |log| && page == Page(log[..current], kind, start, size)
  }

  lemma PageNone(log: seq<Record>, kind: Option<string>, start: nat, size: Option<nat>)
    ensures Paged(log, 0, kind, start, size, [])
  {
  }

  lemma PageNow(log: seq<Record>, current: nat, kind: Option<string>, start: nat, size: Option<nat>, page: seq<Record>)
    requires Paged(log, current, kind, start, size, page)
    ensures current <= |log| && page == Page(log[..current], kind, start, size)
  {
  }

  lemma PageAll(log: seq<Record>, kind: Option<string>, start: nat, size: Option<nat>, page: seq<Record>)
    requires Paged(log, |log|, kind, start, size, page)
    ensures page == Page(log, kind, start, size)
  {
    assert log[..|log|] == log;
  }

  /** The window that the first records fill. */
  lemma WindowPrefix(log: seq<Record>, n: nat, start: nat, size: Option<nat>)
    requires n <= |log|
    ensures Window(log[..n], start, size) <= Window(log, start, size)
    ensures n < |log| && n >= start && (size.None? || n <= start + size.value) ==>
              Window(log[..n + 1], start, size) == Window(log[..n], start, size) + [log[n]]
    ensures n < |log| && !(n >= start && (size.None? || n <= start + size.value)) ==>
              Window(log[..n + 1], start, size) == Window(log[..n], start, size)
    ensures size.Some? && n > start + size.value ==> Window(log, start, size) == Window(log[..n], start, size)
  {
  }

  /** One more record looked at: it is on the page, or is passed over, or ends the page. */
  lemma PageStep(log: seq<Record>, current: nat, kind: Option<string>, start: nat, size: Option<nat>, page: seq<Record>)
    requires current < |log| && Paged(log, current, kind, start, size, page)
    ensures var x := log[current];
            if Passes(x, kind) && current >= start then
              if size.Some? && (current > start + size.value || |page| == size.value) then
                page == Page(log, kind, start, size)
              else Paged(log, current + 1, kind, start, size, page + [x])
            else Paged(log, current + 1, kind, start, size, page)
  {
    if !Passes(log[current], kind) || current < start || size.None? {
      PageGrows(log, current, kind, start, size, page);
    } else if current > start + size.value {
      WindowPrefix(log, current, start, size);
    } else if |page| >= size.value {
      PageFull(log, current, kind, start, size, page);
    } else {
      PageGrows(log, current, kind, start, size, page);
    }
  }

  /** A record in the window. */
  lemma PageGrows(log: seq<Record>, current: nat, kind: Option<string>, start: nat, size: Option<nat>,
                  page: seq<Record>)
    requires current < |log| && Paged(log, current, kind, start, size, page)
    requires current < start || size.None? || (current <= start + size.value && |page| < size.value)
             || !Passes(log[current], kind)
    ensures Paged(log, current + 1, kind, start, size,
                  if Passes(log[current], kind) && current >= start then page + [log[current]] else page)
  {
    hide Window;
    var x, window := log[current], Window(log[..current], start, size);
    WindowPrefix(log, current, start, size);
    MatchingParts(window, [x], kind);
    assert Matching([x], kind) == if Passes(x, kind) then [x] else [];
    hide Matching;
  }

  /** A page that has its size already. */
  lemma PageFull(log: seq<Record>, current: nat, kind: Option<string>, start: nat, size: Option<nat>, page: seq<Record>)
    requires Paged(log, current, kind, start, size, page) && size.Some? && |page| == size.value
    ensures page == Page(log, kind, start, size)
  {
    hide Window;
    var window, whole := Window(log[..current], start, size), Window(log, start, size);
    WindowPrefix(log, current, start, size);
    assert window + whole[|window|..] == whole;
    MatchingParts(window, whole[|window|..], kind);
    hide Matching;
  }

  /** A call with these arguments reads no further than the record at current. */
  ghost predicate StopsAt(log: seq<Record>, current: nat, kind: Option<string>, start: nat, size: Option<nat>) {
    && current < |log| && Passes(log[current], kind) && current >= start
    && size.Some? && (current > start + size.value || |Page(log[..current], kind, start, size)| == size.value)
  }

  ghost predicate Stops(log: seq<Record>, kind: Option<string>, start: nat, size: Option<nat>) {
    exists current: nat :: StopsAt(log, current, kind, start, size)
  }

  /** A call that stops among the first n records gives the page of the whole log. */
  lemma StoppedPage(log: seq<Record>, n: nat, kind: Option<string>, start: nat, size: Option<nat>)
    requires n <= |log| && Stops(log[..n], kind, start, size)
    ensures Page(log[..n], kind, start, size) == Page(log, kind, start, size)
  {
    var front := log[..n];
    var current: nat :| StopsAt(front, current, kind, start, size);
    assert front[..current] == log[..current];
    hide Page;
    PageStep(front, current, kind, start, size, Page(log[..current], kind, start, size));
    PageStep(log, current, kind, start, size, Page(log[..current], kind, start, size));
  }

  /**
   * What a call gives of a log written as these lines: its page, if all lines that it comes to are
   * clear; otherwise the page of the records in front of the first that is not, and then an error.
   */
  ghost predicate Served(log: seq<Record>, lines: seq<seq<Byte>>, kind: Option<string>, start: nat, size: Option<nat>,
                         data: seq<Record>, ending: Ending)
  {
    && |lines| == |log|
    && var n := FirstUnclear(lines);
       if n == |lines| || Stops(log[..n], kind, start, size)
       then data == Page(log, kind, start, size) && ending == Done
       else data == Page(log[..n], kind, start, size) && ending == BadRecord(Cut(lines[n]))
  }

  /** A page read of the records that the file gives, and the error behind them unless it stopped before. */
  lemma PageServed(log: seq<Record>, lines: seq<seq<Byte>>, kind: Option<string>, start: nat, size: Option<nat>,
                   page: seq<Record>, stopped: bool, ending: Ending)
    requires |lines| == |log|
    requires var n := FirstUnclear(lines);
      && page == Page(log[..n], kind, start, size) && (stopped <==> Stops(log[..n], kind, start, size))
      && ending == if n == |lines| then Done else BadRecord(Cut(lines[n]))
    ensures Served(log, lines, kind, start, size, page, if stopped then Done else ending)
  {
    hide Page, Stops, FirstUnclear;
    var n := FirstUnclear(lines);
    if stopped {
      StoppedPage(log, n, kind, start, size);
    }
    assert n == |lines| ==> log[..n] == log;
  }

  /** Without a size a call reads everything. */
  lemma ServedWhole(log: seq<Record>, lines: seq<seq<Byte>>, data: seq<Record>, ending: Ending)
    requires Served(log, lines, None, 0, None, data, ending)
    ensures var n := FirstUnclear(lines);
      data == log[..n] && ending == if n == |lines| then Done else BadRecord(Cut(lines[n]))
  {
    var n := FirstUnclear(lines);
    WholePage(log, 0, None);
    WholePage(log[..n], 0, None);
    assert !Stops(log[..n], None, 0, None);
    assert n == |lines| ==> log[..n] == log;
  }

  lemma RowKnown(t: Table, row: Row, record: Record)
    requires Stands(t, row, record)
    ensures forall k :: k in row ==> k in t.names
  {
  }

  lemma NoRows(t: Table, log: seq<Record>)
    requires AllStand(t, [], log)
    ensures log == []
  {
  }
}
