// The fields and files of the result log as one value, and what its steps do to it
// (loads/db/_python.py).

module LogState {
  import opened Bytes
  import opened Collections
  import opened KeyTable
  import opened LogSpec
  import opened RecordFile
  import opened Wrappers

  /** The fields, the files of the directory by run, and the rows in the record files. */
  datatype State = State(
    buffer: map<string, seq<Record>>, errors: map<string, seq<Record>>, counts: map<string, map<string, int>>,
    headers: map<string, map<int, string>>, keyHeaders: map<string, map<string, int>>,
    recordFiles: map<string, seq<Byte>>, errorFiles: map<string, seq<Row>>,
    countFiles: map<string, map<string, int>>, headerFiles: map<string, map<int, string>>,
    rows: map<string, seq<Row>>)

  function TableOf(st: State, run: string): Table {
    Table(Of(st.headers, run, map[]), Of(st.keyHeaders, run, map[]))
  }

  /** What there is of one run. */
  ghost function View(st: State, run: string): RunLog {
    RunLog(Of(st.buffer, run, []), Of(st.errors, run, []), Of(st.counts, run, map[]), TableOf(st, run),
           Of(st.rows, run, []), Look(st.recordFiles, run), Look(st.errorFiles, run), Look(st.countFiles, run),
           Look(st.headerFiles, run))
  }

  /** Every run has kept what was added to it. */
  ghost predicate AllFaithful(st: State, added: map<string, seq<Record>>, pack: Row -> seq<Byte>) {
    forall run :: Faithful(View(st, run), Of(added, run, []), pack)
  }

  lemma FaithfulAt(st: State, added: map<string, seq<Record>>, pack: Row -> seq<Byte>, run: string)
    requires AllFaithful(st, added, pack)
    ensures Faithful(View(st, run), Of(added, run, []), pack)
  {
  }

  /** There are queues for the runs that something was added to, and files for no others. */
  ghost predicate Known(st: State, added: map<string, seq<Record>>) {
    && st.errors.Keys <= st.buffer.Keys == added.Keys
    && st.countFiles.Keys <= st.buffer.Keys && st.headerFiles.Keys <= st.buffer.Keys
  }

  /** Everything is in the files. */
  ghost predicate AllSaved(st: State) {
    forall run :: run in st.buffer ==> Saved(View(st, run))
  }

  /** The other runs have not changed. */
  ghost predicate SameElsewhere(st: State, after: State, run: string) {
    forall r :: r != run ==> View(after, r) == View(st, r)
  }

  // ------------------------------------------------------------- adding

  function WithRecord(st: State, run: string, x: Record): State
    requires Addable(x)
  {
    st.(buffer := st.buffer[run := Of(st.buffer, run, []) + [x]],
        errors := if IsError(x) then st.errors[run := Of(st.errors, run, []) + [x]] else st.errors,
        counts := st.counts[run := Bumped(Of(st.counts, run, map[]), x)])
  }

  lemma RecordView(st: State, run: string, x: Record)
    requires Addable(x)
    ensures View(WithRecord(st, run, x), run) == Added(View(st, run), x)
    ensures SameElsewhere(st, WithRecord(st, run, x), run)
  {
  }

  /** A change of one run that keeps it faithful to its log. */
  lemma OneFaithful(st: State, added: map<string, seq<Record>>, pack: Row -> seq<Byte>, run: string, after: State,
                    log: seq<Record>)
    requires AllFaithful(st, added, pack) && SameElsewhere(st, after, run) && Faithful(View(after, run), log, pack)
    ensures AllFaithful(after, added[run := log], pack)
  {
    hide Faithful, View;
    forall r ensures Faithful(View(after, r), Of(added[run := log], r, []), pack) {
      if r != run {
        assert View(after, r) == View(st, r);
      }
    }
  }

  lemma AddedLog(st: State, added: map<string, seq<Record>>, pack: Row -> seq<Byte>, run: string, x: Record)
    requires AllFaithful(st, added, pack) && Known(st, added) && Addable(x)
    ensures var log, after := Of(added, run, []) + [x], WithRecord(st, run, x);
            AllFaithful(after, added[run := log], pack) && Known(after, added[run := log])
  {
    hide Faithful, View, SameElsewhere, AllFaithful;
    RecordView(st, run, x);
    FaithfulAt(st, added, pack, run);
    AddedFaithful(View(st, run), Of(added, run, []), pack, x);
    OneFaithful(st, added, pack, run, WithRecord(st, run, x), Of(added, run, []) + [x]);
  }

  // ---------------------------------------------------------- flushing

  function WithTable(st: State, run: string, t: Table): State {
    st.(headers := st.headers[run := t.names], keyHeaders := st.keyHeaders[run := t.codes])
  }

  lemma SameTable(st: State, run: string)
    requires run in st.headers && run in st.keyHeaders
    ensures WithTable(st, run, TableOf(st, run)) == st
  {
  }

  /** Writing the tables that there are changes none of them. */
  lemma TablesSame(st: State, run: string, after: State)
    requires after == WithTable(st, run, TableOf(st, run))
    ensures forall r :: TableOf(after, r) == TableOf(st, r)
  {
  }

  lemma TableNow(st: State, run: string, t: Table)
    ensures TableOf(WithTable(st, run, t), run) == t
  {
  }

  lemma TableTwice(st: State, run: string, t: Table, later: Table)
    ensures WithTable(WithTable(st, run, t), run, later) == WithTable(st, run, later)
  {
    assert st.headers[run := t.names][run := later.names] == st.headers[run := later.names];
    assert st.keyHeaders[run := t.codes][run := later.codes] == st.keyHeaders[run := later.codes];
  }

  /** Rows at the end of the record file of a run. */
  function WithPacked(st: State, run: string, more: seq<Row>, pack: Row -> seq<Byte>): State {
    st.(recordFiles := st.recordFiles[run := Of(st.recordFiles, run, []) + Written(Packed(more, pack))])
  }

  /** Rows at the end of the error file of a run. */
  function WithErrorRows(st: State, run: string, more: seq<Row>): State {
    st.(errorFiles := st.errorFiles[run := Of(st.errorFiles, run, []) + more])
  }

  /** A queue has been written, to the one file or the other. */
  function Dumped(st: State, run: string, later: Table, more: seq<Row>, compress: bool, pack: Row -> seq<Byte>): State {
    var grown := WithTable(st, run, later);
    if compress then WithPacked(grown, run, more, pack) else WithErrorRows(grown, run, more)
  }

  function DumpedQueue(st: State, run: string, queue: seq<Record>, later: Table, more: seq<Row>, compress: bool,
                       pack: Row -> seq<Byte>): State
  {
    if queue == [] then st else Dumped(st, run, later, more, compress, pack)
  }

  /** The errors of a run have been written. */
  function ErrorsFlushed(st: State, run: string, later: Table, more: seq<Row>, pack: Row -> seq<Byte>): State {
    var queue := Of(st.errors, run, []);
    DumpedQueue(st, run, queue, later, more, false, pack).(errors := st.errors[run := []])
  }

  /** The records of a run have been written, with the counts and the names. */
  function RecordsFlushed(st: State, run: string, later: Table, more: seq<Row>, pack: Row -> seq<Byte>): State {
    var queue := Of(st.buffer, run, []);
    var after := DumpedQueue(st, run, queue, later, more, true, pack);
    after.(buffer := st.buffer[run := []], rows := st.rows[run := Of(st.rows, run, []) + more],
           countFiles := st.countFiles[run := Of(st.counts, run, map[])],
           headerFiles := st.headerFiles[run := TableOf(after, run).names])
  }

  /** What writing a queue leaves as it was. */
  lemma DumpedElsewhere(st: State, run: string, queue: seq<Record>, later: Table, more: seq<Row>, compress: bool,
                        pack: Row -> seq<Byte>)
    ensures var after := DumpedQueue(st, run, queue, later, more, compress, pack);
            && after.buffer == st.buffer && after.errors == st.errors && after.counts == st.counts
            && after.countFiles == st.countFiles && after.headerFiles == st.headerFiles && after.rows == st.rows
  {
  }

  lemma RecordsFlushedFrom(st: State, mid: State, run: string, later: Table, more: seq<Row>, pack: Row -> seq<Byte>)
    requires mid == DumpedQueue(st, run, Of(st.buffer, run, []), later, more, true, pack) && later == TableOf(mid, run)
    ensures RecordsFlushed(st, run, later, more, pack) ==
            mid.(buffer := mid.buffer[run := []], rows := mid.rows[run := Of(mid.rows, run, []) + more],
                 countFiles := mid.countFiles[run := Of(mid.counts, run, map[])],
                 headerFiles := mid.headerFiles[run := Of(mid.headers, run, map[])])
  {
    DumpedElsewhere(st, run, Of(st.buffer, run, []), later, more, true, pack);
    hide DumpedQueue;
  }

  /** The rows of a queue; when it is empty nothing happens. */
  ghost predicate Rows(st: State, run: string, queue: seq<Record>, later: Table, more: seq<Row>) {
    Compresses(TableOf(st, run), later, queue, more) && (queue == [] ==> later == TableOf(st, run))
  }

  lemma ErrorsView(st: State, run: string, later: Table, more: seq<Row>, pack: Row -> seq<Byte>)
    requires Rows(st, run, Of(st.errors, run, []), later, more)
    ensures View(ErrorsFlushed(st, run, later, more, pack), run) == ErrorsDumped(View(st, run), later, more)
  {
    hide Mutual, Extends, Stands, AllStand, Compresses, Written, Packed;
    if Of(st.errors, run, []) == [] {
      assert later == TableOf(st, run);
    }
  }

  lemma DumpedView(st: State, run: string, queue: seq<Record>, later: Table, more: seq<Row>, compress: bool,
                   pack: Row -> seq<Byte>, r: string)
    requires r != run
    ensures View(DumpedQueue(st, run, queue, later, more, compress, pack), r) == View(st, r)
  {
    hide Written, Packed;
  }

  lemma ErrorsElsewhere(st: State, run: string, later: Table, more: seq<Row>, pack: Row -> seq<Byte>)
    ensures SameElsewhere(st, ErrorsFlushed(st, run, later, more, pack), run)
  {
    hide DumpedQueue;
    forall r | r != run ensures View(ErrorsFlushed(st, run, later, more, pack), r) == View(st, r) {
      DumpedView(st, run, Of(st.errors, run, []), later, more, false, pack, r);
    }
  }

  lemma RecordsView(st: State, run: string, later: Table, more: seq<Row>, pack: Row -> seq<Byte>)
    requires Rows(st, run, Of(st.buffer, run, []), later, more)
    ensures View(RecordsFlushed(st, run, later, more, pack), run) ==
            SavedNow(RecordsDumped(View(st, run), later, more, pack))
  {
    hide Mutual, Extends, Stands, Written, Packed;
  }

  lemma RecordsElsewhere(st: State, run: string, later: Table, more: seq<Row>, pack: Row -> seq<Byte>)
    ensures SameElsewhere(st, RecordsFlushed(st, run, later, more, pack), run)
  {
    hide DumpedQueue;
    forall r | r != run ensures View(RecordsFlushed(st, run, later, more, pack), r) == View(st, r) {
      DumpedView(st, run, Of(st.buffer, run, []), later, more, true, pack, r);
    }
  }

  /** The counts and the names are saved. */
  function SavedNow(s: RunLog): RunLog {
    s.(savedCounts := Some(s.counts), savedNames := Some(s.table.names))
  }

  lemma SameLog(added: map<string, seq<Record>>, run: string)
    requires run in added
    ensures added[run := Of(added, run, [])] == added
  {
  }

  /** Writing the errors of a run loses nothing. */
  lemma ErrorsFlushedFaithful(st: State, added: map<string, seq<Record>>, pack: Row -> seq<Byte>, run: string,
                              later: Table, more: seq<Row>)
    requires AllFaithful(st, added, pack) && Known(st, added) && run in st.errors
    requires Rows(st, run, Of(st.errors, run, []), later, more)
    ensures var after := ErrorsFlushed(st, run, later, more, pack);
            AllFaithful(after, added, pack) && Known(after, added) && SameElsewhere(st, after, run)
            && View(after, run).errors == []
  {
    var s, after, log := View(st, run), ErrorsFlushed(st, run, later, more, pack), Of(added, run, []);
    ErrorsView(st, run, later, more, pack);
    ErrorsElsewhere(st, run, later, more, pack);
    hide Faithful, View, SameElsewhere, AllFaithful, Compresses;
    FaithfulAt(st, added, pack, run);
    ErrorsDumpedFaithful(s, log, pack, later, more);
    OneFaithful(st, added, pack, run, after, log);
    SameLog(added, run);
  }

  lemma RecordsKnown(st: State, added: map<string, seq<Record>>, pack: Row -> seq<Byte>, run: string, later: Table,
                     more: seq<Row>)
    requires Known(st, added) && run in st.buffer
    ensures Known(RecordsFlushed(st, run, later, more, pack), added)
  {
    DumpedElsewhere(st, run, Of(st.buffer, run, []), later, more, true, pack);
    hide DumpedQueue, TableOf;
  }

  /** Writing the records of a run loses nothing. */
  lemma RecordsFlushedFaithful(st: State, added: map<string, seq<Record>>, pack: Row -> seq<Byte>, run: string,
                               later: Table, more: seq<Row>)
    requires AllFaithful(st, added, pack) && Known(st, added) && run in st.buffer
    requires Rows(st, run, Of(st.buffer, run, []), later, more)
    ensures var after := RecordsFlushed(st, run, later, more, pack);
            AllFaithful(after, added, pack) && Known(after, added) && SameElsewhere(st, after, run)
            && (View(st, run).errors == [] ==> Saved(View(after, run)))
  {
    var s, after, log := View(st, run), RecordsFlushed(st, run, later, more, pack), Of(added, run, []);
    RecordsView(st, run, later, more, pack);
    RecordsElsewhere(st, run, later, more, pack);
    RecordsKnown(st, added, pack, run, later, more);
    SameLog(added, run);
    hide Faithful, View, SameElsewhere, AllFaithful, Compresses, Known, RecordsFlushed;
    FaithfulAt(st, added, pack, run);
    RecordsDumpedFaithful(s, log, pack, later, more);
    OneFaithful(st, added, pack, run, after, log);
  }

  /** The errors of the other runs have been written. */
  ghost predicate ErrorsDone(st: State, todo: set<string>) {
    forall run :: run !in todo ==> View(st, run).errors == []
  }

  /** The other runs are all in the files. */
  ghost predicate SavedExcept(st: State, todo: set<string>) {
    forall run :: run in st.buffer && run !in todo ==> Saved(View(st, run))
  }

  lemma ErrorsStep(st: State, after: State, todo: set<string>, run: string)
    requires ErrorsDone(st, todo) && SameElsewhere(st, after, run) && View(after, run).errors == []
    ensures ErrorsDone(after, todo - {run})
  {
    hide View;
  }

  lemma SavedStep(st: State, after: State, todo: set<string>, run: string)
    requires ErrorsDone(st, {}) && SavedExcept(st, todo) && SameElsewhere(st, after, run)
    requires after.buffer.Keys == st.buffer.Keys && Saved(View(after, run))
    ensures ErrorsDone(after, {}) && SavedExcept(after, todo - {run})
  {
    hide View;
    forall r ensures View(after, r).errors == [] {
      if r != run {
        assert View(after, r) == View(st, r);
      }
    }
    forall r | r in after.buffer && r !in todo - {run} ensures Saved(View(after, r)) {
      if r != run {
        assert View(after, r) == View(st, r);
      }
    }
  }

  lemma ErrorsUnknown(st: State, added: map<string, seq<Record>>)
    requires Known(st, added)
    ensures ErrorsDone(st, st.errors.Keys)
  {
  }

  lemma ErrorsNow(st: State, run: string)
    requires ErrorsDone(st, {})
    ensures View(st, run).errors == []
  {
  }

  lemma AllSavedNow(st: State)
    requires SavedExcept(st, {})
    ensures AllSaved(st)
  {
  }

  /** The queued records have a run id. */
  lemma QueuesIdentified(st: State, added: map<string, seq<Record>>, pack: Row -> seq<Byte>, run: string)
    requires AllFaithful(st, added, pack)
    ensures Identified(Of(st.buffer, run, [])) && Identified(Of(st.errors, run, [])) && Mutual(TableOf(st, run))
  {
    FaithfulAt(st, added, pack, run);
    var log := Of(added, run, []);
    assert forall x :: x in Of(st.buffer, run, []) ==> x in log;
    assert forall x :: x in Of(st.errors, run, []) ==> x in Errors(log);
  }

  ghost predicate Identified(queue: seq<Record>) {
    forall x :: x in queue ==> "run_id" in x
  }

  /** One more record of a queue has its row. */
  lemma RowAdded(t: Table, mid: Table, later: Table, queue: seq<Record>, i: nat, more: seq<Row>, row: Row)
    requires i < |queue| && Compresses(t, mid, queue[..i], more)
    requires Mutual(later) && Extends(mid, later) && Stands(later, row, queue[i])
    ensures Compresses(t, later, queue[..i + 1], more + [row])
  {
    hide Mutual;
    forall k | 0 <= k < i ensures Stands(later, more[k], queue[k]) {
      assert queue[..i][k] == queue[k];
      StandsOn(mid, later, more[k], queue[k]);
    }
    ExtendsOn(t, mid, later);
    hide Extends, Stands;
  }

  lemma UpdateTwice<V>(m: map<string, V>, run: string, a: V, b: V)
    ensures m[run := a][run := b] == m[run := b]
  {
  }

  /** One more row at the end of the record file. */
  function FilePacked(st: State, run: string, row: Row, pack: Row -> seq<Byte>): State {
    st.(recordFiles := st.recordFiles[run := Of(st.recordFiles, run, []) + pack(row) + END])
  }

  lemma FirstPacked(st: State, run: string, later: Table, row: Row, pack: Row -> seq<Byte>)
    ensures FilePacked(WithTable(st, run, later), run, row, pack) == Dumped(st, run, later, [row], true, pack)
  {
    assert Packed([row], pack) == [pack(row)];
    WrittenOne(pack(row));
    var file := Of(st.recordFiles, run, []);
    assert file + pack(row) + END == file + (pack(row) + END);
  }

  lemma NextPacked(st: State, run: string, mid: Table, later: Table, more: seq<Row>, row: Row, pack: Row -> seq<Byte>)
    ensures FilePacked(WithTable(Dumped(st, run, mid, more, true, pack), run, later), run, row, pack)
            == Dumped(st, run, later, more + [row], true, pack)
  {
    var file, packed := Of(st.recordFiles, run, []), Written(Packed(more, pack));
    assert Packed(more + [row], pack) == Packed(more, pack) + [pack(row)];
    WrittenAppend(Packed(more, pack), pack(row));
    assert file + packed + pack(row) + END == file + (packed + pack(row) + END);
    UpdateTwice(st.recordFiles, run, file + packed, file + packed + pack(row) + END);
    UpdateTwice(st.headers, run, mid.names, later.names);
    UpdateTwice(st.keyHeaders, run, mid.codes, later.codes);
  }

  lemma FirstLogged(st: State, run: string, later: Table, row: Row, pack: Row -> seq<Byte>)
    ensures WithErrorRows(WithTable(st, run, later), run, [row]) == Dumped(st, run, later, [row], false, pack)
  {
  }

  lemma NextLogged(st: State, run: string, mid: Table, later: Table, more: seq<Row>, row: Row, pack: Row -> seq<Byte>)
    ensures WithErrorRows(WithTable(Dumped(st, run, mid, more, false, pack), run, later), run, [row])
            == Dumped(st, run, later, more + [row], false, pack)
  {
    var file := Of(st.errorFiles, run, []);
    assert file + more + [row] == file + (more + [row]);
    UpdateTwice(st.errorFiles, run, file + more, file + more + [row]);
    UpdateTwice(st.headers, run, mid.names, later.names);
    UpdateTwice(st.keyHeaders, run, mid.codes, later.codes);
  }

  /** One more row at the end of the file, and the table that it needs. */
  function RowWritten(st: State, run: string, later: Table, row: Row, compress: bool, pack: Row -> seq<Byte>): State {
    if compress then FilePacked(WithTable(st, run, later), run, row, pack)
    else WithErrorRows(WithTable(st, run, later), run, [row])
  }

  lemma RowDumped(st: State, run: string, done: seq<Record>, mid: Table, later: Table, more: seq<Row>, row: Row,
                  compress: bool, pack: Row -> seq<Byte>)
    requires |more| == |done|
    ensures RowWritten(DumpedQueue(st, run, done, mid, more, compress, pack), run, later, row, compress, pack)
            == Dumped(st, run, later, more + [row], compress, pack)
  {
    hide WithTable, FilePacked, WithErrorRows, Dumped;
    if done == [] {
      FirstPacked(st, run, later, row, pack);
      FirstLogged(st, run, later, row, pack);
      assert more + [row] == [row];
    } else {
      NextPacked(st, run, mid, later, more, row, pack);
      NextLogged(st, run, mid, later, more, row, pack);
    }
  }

  // ----------------------------------------------------------- reading

  lemma SavedNowOrNever(st: State, added: map<string, seq<Record>>, run: string)
    requires Known(st, added) && AllSaved(st)
    ensures run in st.buffer ==> Saved(View(st, run))
    ensures run !in st.buffer ==> run !in added && run !in st.countFiles && run !in st.headerFiles
  {
  }

  /** A saved run, read back from its record file. */
  lemma SavedRecords(st: State, added: map<string, seq<Record>>, pack: Row -> seq<Byte>, run: string)
    requires AllFaithful(st, added, pack) && Known(st, added) && AllSaved(st)
    ensures var log := Of(added, run, []);
            && Mutual(TableOf(st, run)) && AllStand(TableOf(st, run), Of(st.rows, run, []), log)
            && (run in st.recordFiles ==> st.recordFiles[run] == Written(Packed(Of(st.rows, run, []), pack)))
            && (run !in st.recordFiles ==> log == [])
  {
    FaithfulAt(st, added, pack, run);
    SavedNowOrNever(st, added, run);
    hide Mutual, Stands, Written, Packed, AllSaved, AllFaithful;
  }

  lemma FaithfulErrors(s: RunLog, log: seq<Record>, pack: Row -> seq<Byte>)
    requires Faithful(s, log, pack)
    ensures AllAddable(log) && Mutual(s.table) && Holds(s.table, s.errorRows.UnwrapOr([]), s.errors, Errors(log))
    ensures log == [] ==> s.errors == []
  {
  }

  lemma HoldsAll(t: Table, rows: seq<Row>, log: seq<Record>)
    requires Holds(t, rows, [], log)
    ensures AllStand(t, rows, log)
  {
  }

  lemma SavedQueue(st: State, added: map<string, seq<Record>>, pack: Row -> seq<Byte>, run: string)
    requires AllFaithful(st, added, pack) && Known(st, added) && AllSaved(st)
    ensures View(st, run).errors == []
  {
    SavedNowOrNever(st, added, run);
    hide Faithful, AllSaved, Known;
    FaithfulAt(st, added, pack, run);
    hide AllFaithful;
    FaithfulErrors(View(st, run), Of(added, run, []), pack);
  }

  lemma ErrorParts(st: State, run: string)
    ensures View(st, run).table == TableOf(st, run)
    ensures View(st, run).errorRows.UnwrapOr([]) == Of(st.errorFiles, run, [])
  {
  }

  /** A saved run, read back from its error file. */
  lemma SavedErrors(st: State, added: map<string, seq<Record>>, pack: Row -> seq<Byte>, run: string)
    requires AllFaithful(st, added, pack) && Known(st, added) && AllSaved(st)
    ensures AllAddable(Of(added, run, []))
    ensures Mutual(TableOf(st, run))
            && AllStand(TableOf(st, run), Of(st.errorFiles, run, []), Errors(Of(added, run, [])))
  {
    hide *;
    var s, log := View(st, run), Of(added, run, []);
    SavedQueue(st, added, pack, run);
    FaithfulAt(st, added, pack, run);
    FaithfulErrors(s, log, pack);
    ErrorParts(st, run);
    HoldsAll(s.table, s.errorRows.UnwrapOr([]), Errors(log));
  }

  /** A saved run's counts. */
  lemma SavedCounts(st: State, added: map<string, seq<Record>>, pack: Row -> seq<Byte>, run: string)
    requires AllFaithful(st, added, pack) && Known(st, added) && AllSaved(st)
    ensures AllAddable(Of(added, run, []))
    ensures if run in st.countFiles then st.countFiles[run] == Counts(Of(added, run, [])) else Of(added, run, []) == []
  {
    SavedNowOrNever(st, added, run);
    FaithfulAt(st, added, pack, run);
    hide AllSaved, AllFaithful;
    hide Faithful;
  }

  /** A saved run's names. */
  lemma SavedNames(st: State, added: map<string, seq<Record>>, run: string)
    requires Known(st, added) && AllSaved(st)
    ensures run in st.headerFiles ==> st.headerFiles[run] == TableOf(st, run).names
  {
    SavedNowOrNever(st, added, run);
    hide AllSaved;
  }

  lemma SavedOrToDo(st: State)
    ensures SavedExcept(st, st.buffer.Keys)
  {
  }

  lemma NothingKept(st: State)
    requires |st.buffer| == 0
    ensures AllSaved(st)
  {
    assert st.buffer.Keys == {};
  }

  /** Equal tables, and nothing else changed. */
  lemma SameViews(st: State, after: State, added: map<string, seq<Record>>, pack: Row -> seq<Byte>)
    requires forall run :: TableOf(after, run) == TableOf(st, run)
    requires after == st.(headers := after.headers, keyHeaders := after.keyHeaders)
    ensures AllFaithful(st, added, pack) ==> AllFaithful(after, added, pack)
    ensures AllSaved(st) ==> AllSaved(after)
    ensures Known(st, added) ==> Known(after, added)
  {
    hide Faithful, Saved;
    forall run ensures View(after, run) == View(st, run) {
      assert TableOf(after, run) == TableOf(st, run);
    }
  }
}
