// The result log of the broker (loads/db/_python.py): records are queued in memory, and written
// to files from time to time with their keys replaced by numbers.

module ResultLog {
  import opened Bytes
  import opened Collections
  import opened KeyTable
  import opened LogSpec
  import opened LogState
  import opened RecordFile
  import opened Wrappers

  /** A new code is one more than the largest. */
  method NextCode(names: map<int, string>, ghost t: Table) returns (code: int)
    requires Mutual(t) && names == t.names
    ensures code == |names|
  {
    LastCode(t);
    if names.Keys == {} {
      return 0;
    }
    hide Mutual;
    var last :| last in names && forall k :: k in names ==> k <= last;
    return last + 1;
  }

  class BrokerDB {
    /** json and zlib, and their inverses. */
    const pack: Row -> seq<Byte>
    const unpack: seq<Byte> -> Option<Row>

    var buffer: map<string, seq<Record>>
    var errors: map<string, seq<Record>>
    var counts: map<string, map<string, int>>
    var headers: map<string, map<int, string>>
    var keyHeaders: map<string, map<string, int>>
    var dirty: bool

    /** The files of the directory, by run. */
    var recordFiles: map<string, seq<Byte>>
    var errorFiles: map<string, seq<Row>>
    var countFiles: map<string, map<string, int>>
    var headerFiles: map<string, map<int, string>>

    /** Every record added so far, and the rows in the record files. */
    ghost var added: map<string, seq<Record>>
    ghost var rows: map<string, seq<Row>>

    ghost function St(): State
      reads this
    {
      State(buffer, errors, counts, headers, keyHeaders, recordFiles, errorFiles, countFiles, headerFiles, rows)
    }

    ghost function Log(run: string): seq<Record>
      reads this
    {
      Of(added, run, [])
    }

    /** Every run has kept what was added to it. When nothing is dirty, all of it is in the files. */
    ghost predicate Valid()
      reads this
    {
      && Lossless(pack, unpack)
      && AllFaithful(St(), added, pack) && Known(St(), added)
      && (!dirty ==> AllSaved(St()))
    }

    /** A log in an empty directory. */
    constructor (pack: Row -> seq<Byte>, unpack: seq<Byte> -> Option<Row>)
      requires Lossless(pack, unpack)
      ensures Valid() && added == map[] && this.pack == pack && this.unpack == unpack
    {
      this.pack, this.unpack := pack, unpack;
      buffer, errors, counts, headers, keyHeaders := map[], map[], map[], map[], map[];
      recordFiles, errorFiles, countFiles, headerFiles := map[], map[], map[], map[];
      added, rows, dirty := map[], map[], false;
    }

    // ------------------------------------------------------------ adding

    method Add(data: Record)
      requires Valid() && Addable(data)
      modifies this
      ensures Valid() && dirty
      ensures added == old(added)[data["run_id"].text := old(Log(data["run_id"].text)) + [data]]
    {
      hide AllFaithful, Lossless, Known, AllSaved, Addable;
      AddableRun(data);
      var run := data["run_id"].text;
      AddedLog(St(), added, pack, run, data);
      added := added[run := Log(run) + [data]];
      counts := counts[run := Bumped(Of(counts, run, map[]), data)];
      buffer := buffer[run := Of(buffer, run, []) + [data]];
      if IsError(data) {
        errors := errors[run := Of(errors, run, []) + [data]];
      }
      dirty := true;
      assert St() == WithRecord(old(St()), run, data);
    }

    // ---------------------------------------------------------- flushing

    /** The code of a key, which may be new. */
    method CodeOf(run: string, key: string) returns (code: int)
      requires Mutual(TableOf(St(), run)) && run in headers && run in keyHeaders
      modifies this`headers, this`keyHeaders, this`dirty
      ensures var later := TableOf(St(), run);
              && Mutual(later) && Extends(old(TableOf(St(), run)), later)
              && code in later.names && later.names[code] == key
              && St() == WithTable(old(St()), run, later)
    {
      hide Mutual, Extends;
      ghost var st, t := St(), TableOf(St(), run);
      if key in keyHeaders[run] {
        ExtendsItself(t);
        CodeKnown(t, key);
        SameTable(st, run);
        return keyHeaders[run][key];
      }
      dirty := true;
      code := NextCode(headers[run], t);
      KeyAdded(t, key);
      headers := headers[run := headers[run][code := key]];
      keyHeaders := keyHeaders[run := keyHeaders[run][key := code]];
      assert St() == WithTable(st, run, WithKey(t, key, code));
      TableNow(st, run, WithKey(t, key, code));
    }

    method CompressHeaders(run: string, data: Record) returns (result: Row)
      requires Mutual(TableOf(St(), run))
      modifies this`headers, this`keyHeaders, this`dirty
      ensures var later := TableOf(St(), run);
              && Mutual(later) && Extends(old(TableOf(St(), run)), later) && Stands(later, result, data)
              && St() == WithTable(old(St()), run, later)
    {
      hide Mutual, Extends, Stands, Part;
      ghost var before := TableOf(St(), run);
      // looking into a defaultdict makes the entry
      headers := headers[run := Of(headers, run, map[])];
      keyHeaders := keyHeaders[run := Of(keyHeaders, run, map[])];
      result := map[];
      ghost var done: Record := map[];
      var todo := data.Keys;
      ExtendsItself(before);
      StandsNone(before);
      PartNone(data);
      while todo != {}
        invariant todo <= data.Keys && Part(data, done, todo) && run in headers && run in keyHeaders
        invariant Compressing(before, TableOf(St(), run), result, done)
        invariant St() == WithTable(old(St()), run, TableOf(St(), run))
        decreases |todo|
      {
        var key := Pick(todo);
        ghost var t := TableOf(St(), run);
        var code := CodeOf(run, key);
        Compressed(before, t, TableOf(St(), run), result, done, code, data[key]);
        TableTwice(old(St()), run, t, TableOf(St(), run));
        result := result[code := data[key]];
        PartOne(data, done, todo, key);
        done := done[key := data[key]];
        todo := todo - {key};
      }
      PartAll(data, done);
    }

    /** _dump_queue: the queue goes to the record file, or to the error file when not compressed. */
    method DumpQueue(run: string, queue: seq<Record>, compress: bool) returns (ghost more: seq<Row>)
      requires Mutual(TableOf(St(), run)) && Identified(queue)
      modifies this`headers, this`keyHeaders, this`dirty, this`recordFiles, this`errorFiles
      ensures var later := TableOf(St(), run);
              && Rows(old(St()), run, queue, later, more)
              && St() == DumpedQueue(old(St()), run, queue, later, more, compress, pack)
    {
      more := [];
      if queue == [] {
        return;
      }
      var i := 0;
      while i < |queue|
        invariant 0 <= i <= |queue|
        invariant Compresses(old(TableOf(St(), run)), TableOf(St(), run), queue[..i], more)
        invariant St() == DumpedQueue(old(St()), run, queue[..i], TableOf(St(), run), more, compress, pack)
      {
        more := DumpOne(run, queue, i, compress, old(St()), more);
        i := i + 1;
      }
      assert queue[..|queue|] == queue;
    }

    /** One turn of the loop of _dump_queue. */
    method DumpOne(run: string, queue: seq<Record>, i: nat, compress: bool, ghost st: State, ghost done: seq<Row>)
      returns (ghost more: seq<Row>)
      requires i < |queue| && Identified(queue) && Compresses(TableOf(st, run), TableOf(St(), run), queue[..i], done)
      requires St() == DumpedQueue(st, run, queue[..i], TableOf(St(), run), done, compress, pack)
      modifies this`headers, this`keyHeaders, this`dirty, this`recordFiles, this`errorFiles
      ensures Compresses(TableOf(st, run), TableOf(St(), run), queue[..i + 1], more)
      ensures St() == Dumped(st, run, TableOf(St(), run), more, compress, pack)
    {
      hide Mutual, Extends, Stands, Dumped, DumpedQueue;
      var line := queue[i];
      if "run_id" !in line {
        line := line["run_id" := Text(run)];
      }
      ghost var before := St();
      ghost var t := TableOf(before, run);
      var row := CompressHeaders(run, line);
      if compress {
        recordFiles := recordFiles[run := Of(recordFiles, run, []) + pack(row) + END];
      } else {
        errorFiles := errorFiles[run := Of(errorFiles, run, []) + [row]];
      }
      ghost var later := TableOf(St(), run);
      assert St() == RowWritten(before, run, later, row, compress, pack);
      RowDumped(st, run, queue[..i], t, later, done, row, compress, pack);
      RowAdded(TableOf(st, run), t, later, queue, i, done, row);
      more := done + [row];
    }

    method FlushErrors(run: string)
      requires AllFaithful(St(), added, pack) && Known(St(), added) && run in errors
      modifies this`headers, this`keyHeaders, this`dirty, this`recordFiles, this`errorFiles, this`errors
      ensures AllFaithful(St(), added, pack) && Known(St(), added) && SameElsewhere(old(St()), St(), run)
      ensures View(St(), run).errors == [] && errors.Keys == old(errors.Keys)
    {
      hide AllFaithful, Known, SameElsewhere, View, Rows, Mutual, Identified, DumpedQueue, TableOf;
      QueuesIdentified(St(), added, pack, run);
      ghost var st := St();
      var more := DumpQueue(run, errors[run], false);
      ghost var later := TableOf(St(), run);
      ErrorsFlushedFaithful(st, added, pack, run, later, more);
      errors := errors[run := []];
      DumpedElsewhere(st, run, st.errors[run], later, more, false, pack);
      assert St() == ErrorsFlushed(st, run, later, more, pack);
    }

    method FlushRecords(run: string)
      requires AllFaithful(St(), added, pack) && Known(St(), added) && run in buffer
      modifies this`headers, this`keyHeaders, this`dirty, this`recordFiles, this`errorFiles, this`buffer, this`rows
      modifies this`countFiles, this`headerFiles
      ensures AllFaithful(St(), added, pack) && Known(St(), added) && SameElsewhere(old(St()), St(), run)
      ensures old(View(St(), run)).errors == [] ==> Saved(View(St(), run))
      ensures buffer.Keys == old(buffer.Keys)
    {
      hide AllFaithful, Known, SameElsewhere, View, Rows, Mutual, Identified, DumpedQueue, Saved, RecordsFlushed;
      assert buffer[run] == Of(buffer, run, []);
      hide Of;
      QueuesIdentified(St(), added, pack, run);
      ghost var st := St();
      var more := DumpQueue(run, buffer[run], true);
      ghost var later, mid := TableOf(St(), run), St();
      RecordsFlushedFaithful(st, added, pack, run, later, more);
      buffer := buffer[run := []];
      rows := rows[run := Of(rows, run, []) + more];
      countFiles := countFiles[run := Of(counts, run, map[])];
      headerFiles := headerFiles[run := Of(headers, run, map[])];
      RecordsFlushedFrom(st, mid, run, later, more, pack);
      assert St() == RecordsFlushed(st, run, later, more, pack);
    }

    method FlushAllErrors()
      requires AllFaithful(St(), added, pack) && Known(St(), added)
      modifies this`headers, this`keyHeaders, this`dirty, this`recordFiles, this`errorFiles, this`errors
      ensures AllFaithful(St(), added, pack) && Known(St(), added) && ErrorsDone(St(), {})
    {
      hide AllFaithful, Known, SameElsewhere, View, ErrorsDone;
      ErrorsUnknown(St(), added);
      var todo := errors.Keys;
      while todo != {}
        invariant todo <= errors.Keys
        invariant AllFaithful(St(), added, pack) && Known(St(), added) && ErrorsDone(St(), todo)
        decreases |todo|
      {
        var run := Pick(todo);
        ghost var st := St();
        FlushErrors(run);
        ErrorsStep(st, St(), todo, run);
        todo := todo - {run};
      }
    }

    method FlushAllRecords()
      requires AllFaithful(St(), added, pack) && Known(St(), added) && ErrorsDone(St(), {})
      modifies this`headers, this`keyHeaders, this`dirty, this`recordFiles, this`errorFiles, this`buffer, this`rows
      modifies this`countFiles, this`headerFiles
      ensures AllFaithful(St(), added, pack) && Known(St(), added) && AllSaved(St())
    {
      hide AllFaithful, Known, SameElsewhere, View, ErrorsDone, SavedExcept, Saved, AllSaved;
      SavedOrToDo(St());
      var todo := buffer.Keys;
      while todo != {}
        invariant todo <= buffer.Keys
        invariant AllFaithful(St(), added, pack) && Known(St(), added) && ErrorsDone(St(), {})
                  && SavedExcept(St(), todo)
        decreases |todo|
      {
        var run := Pick(todo);
        ghost var st := St();
        ErrorsNow(st, run);
        FlushRecords(run);
        SavedStep(st, St(), todo, run);
        todo := todo - {run};
      }
      AllSavedNow(St());
    }

    /** Afterwards all that was added is in the files. */
    method Flush()
      requires Valid()
      modifies this
      ensures Valid() && added == old(added) && AllSaved(St())
    {
      hide AllFaithful, Lossless, AllSaved, ErrorsDone;
      if !dirty {
        return;
      }
      if |buffer| == 0 {
        NothingKept(St());
        return;
      }
      FlushAllErrors();
      FlushAllRecords();
      dirty := false;
    }

    // ----------------------------------------------------------- reading

    /** _update_headers: in one process there is nothing in the file that is not known. */
    method UpdateHeaders(run: string)
      requires Mutual(TableOf(St(), run)) && (run in headerFiles ==> headerFiles[run] == TableOf(St(), run).names)
      modifies this`headers, this`keyHeaders
      ensures forall r :: TableOf(St(), r) == old(TableOf(St(), r))
    {
      if run !in headerFiles {
        return;
      }
      ghost var st, t := St(), TableOf(St(), run);
      hide Mutual;
      headers := headers[run := Of(headers, run, map[]) + headerFiles[run]];
      assert headers[run] == t.names;
      keyHeaders := keyHeaders[run := Of(keyHeaders, run, map[])];
      var todo := headers[run].Keys;
      while todo != {}
        invariant todo <= t.names.Keys && St() == WithTable(st, run, t)
        decreases |todo|
      {
        var key := Pick(todo);
        KeyKnown(t, key);
        UpdateTwice(st.keyHeaders, run, t.codes, t.codes);
        keyHeaders := keyHeaders[run := keyHeaders[run][headers[run][key] := key]];
        todo := todo - {key};
      }
      TablesSame(st, run, St());
    }

    /**
     * _batch, on the rows that the file is read as; start is 0 when it is not given. It may stop
     * before it has come to the end of the rows.
     */
    method Batch(run: string, found: seq<Row>, kind: Option<string>, start: nat, size: Option<nat>,
                 ghost log: seq<Record>)
      returns (page: seq<Record>, stopped: bool)
      requires Mutual(TableOf(St(), run)) && AllStand(TableOf(St(), run), found, log)
      ensures page == Page(log, kind, start, size) && (stopped <==> Stops(log, kind, start, size))
    {
      hide Page, Mutual, Stands, Paged;
      page := [];
      PageNone(log, kind, start, size);
      for current := 0 to |found|
        invariant Paged(log, current, kind, start, size, page)
        invariant forall k: nat :: k < current ==> !StopsAt(log, k, kind, start, size)
      {
        RowKnown(TableOf(St(), run), found[current], log[current]);
        var record := Uncompress(Of(headers, run, map[]), found[current], TableOf(St(), run));
        StandsForOne(TableOf(St(), run), found[current], record, log[current]);
        PageStep(log, current, kind, start, size, page);
        PageNow(log, current, kind, start, size, page);
        if Passes(record, kind) && current >= start {
          if size.Some? && (current > start + size.value || |page| == size.value) {
            assert StopsAt(log, current, kind, start, size);
            return page, true;
          }
          page := page + [record];
        }
      }
      PageAll(log, kind, start, size, page);
      return page, false;
    }

    /**
     * get_data, not grouped: the records added, filtered and paged, as long as their rows are clear.
     * A row with the end marker inside is an error where the reading comes to it.
     */
    method GetData(run: string, kind: Option<string>, start: Option<nat>, size: Option<nat>)
      returns (data: seq<Record>, ending: Ending)
      requires Valid()
      modifies this
      ensures Valid() && added == old(added)
      ensures AllStand(TableOf(St(), run), Of(rows, run, []), Log(run))
      ensures Served(Log(run), Packed(Of(rows, run, []), pack), kind, start.UnwrapOr(0), size, data, ending)
    {
      hide Page, Mutual, AllStand, AllFaithful, AllSaved, Lossless, Stops, Served, FirstUnclear, ReadBack;
      Flush();
      SavedRecords(St(), added, pack, run);
      ghost var all, lines := Of(rows, run, []), Packed(Of(rows, run, []), pack);
      if run !in recordFiles {
        NothingServed(TableOf(St(), run), all, Log(run), pack, kind, start.UnwrapOr(0), size);
        return [], Done;
      }
      SavedNames(St(), added, run);
      ghost var st := St();
      UpdateHeaders(run);
      SameViews(st, St(), added, pack);
      var reading := ReadZFile(recordFiles[run], unpack);
      FileRead(all, pack, unpack);
      ghost var front := FrontRead(TableOf(St(), run), all, Log(run), pack, reading);
      var page, stopped := Batch(run, reading.records, kind, start.UnwrapOr(0), size, front);
      PageServed(Log(run), lines, kind, start.UnwrapOr(0), size, page, stopped, reading.ending);
      return page, if stopped then Done else reading.ending;
    }

    lemma TablesMutual(run: string)
      requires Valid()
      ensures Mutual(TableOf(St(), run))
    {
      hide Faithful, Mutual, Lossless;
      FaithfulAt(St(), added, pack, run);
      FaithfulMutual(View(St(), run), Log(run), pack);
    }

    /** get_errors: the same, of the records of the types addError and addFailure. */
    method GetErrors(run: string, start: Option<nat>, size: Option<nat>) returns (data: seq<Record>)
      requires Valid()
      modifies this
      ensures Valid() && added == old(added) && AllAddable(Log(run))
      ensures data == Page(Errors(Log(run)), None, start.UnwrapOr(0), size)
      ensures Errors(Log(run)) == Reported(Log(run))
      ensures forall x :: x in data ==>
                x in Log(run) && "data_type" in x
                && (x["data_type"] == Text("addError") || x["data_type"] == Text("addFailure"))
    {
      hide Page, Mutual, AllStand, AllFaithful, AllSaved, Lossless, AllAddable, Errors;
      Flush();
      SavedErrors(St(), added, pack, run);
      ErrorsMeaning(Log(run));
      PageMembers(Errors(Log(run)), None, start.UnwrapOr(0), size);
      if run !in errorFiles {
        NoRows(TableOf(St(), run), Errors(Log(run)));
        PageNone(Errors(Log(run)), None, start.UnwrapOr(0), size);
        PageAll(Errors(Log(run)), None, start.UnwrapOr(0), size, []);
        return [];
      }
      SavedNames(St(), added, run);
      ghost var st := St();
      UpdateHeaders(run);
      SameViews(st, St(), added, pack);
      var page, _ := Batch(run, errorFiles[run], None, start.UnwrapOr(0), size, Errors(Log(run)));
      return page;
    }

    method GetCounts(run: string) returns (saved: map<string, int>)
      requires Valid()
      modifies this
      ensures Valid() && added == old(added) && AllAddable(Log(run))
      ensures saved == Counts(Log(run))
    {
      hide AllFaithful, AllSaved, Lossless;
      Flush();
      SavedCounts(St(), added, pack, run);
      if run !in countFiles {
        return map[];
      }
      return countFiles[run];
    }
  }

  /** What is done to a log: records come in, the timer flushes, somebody reads. */
  datatype Op = AddRecord(data: Record) | TimedFlush | Reading(run: string, kind: Option<string>)

  predicate AllAddableOps(ops: seq<Op>) {
    forall i :: 0 <= i < |ops| && ops[i].AddRecord? ==> Addable(ops[i].data)
  }

  /** The records of a run among those added. */
  function AddedFor(ops: seq<Op>, run: string): seq<Record>
    requires AllAddableOps(ops)
  {
    if ops == [] then [] else
    var last := ops[|ops| - 1];
    AddedFor(ops[..|ops| - 1], run) + if last.AddRecord? && last.data["run_id"].text == run then [last.data] else []
  }

  /** The rows of the records, under some table. */
  ghost predicate RowsOf(rows: seq<Row>, log: seq<Record>) {
    exists t :: Mutual(t) && AllStand(t, rows, log)
  }

  /**
   * Whatever the order in which records were added and queues flushed: what is read in the end
   * are the records added for the run, in their order, the errors among them, and their counts. The
   * records stop with an error at the first whose compressed row has the end marker inside.
   */
  method Session(pack: Row -> seq<Byte>, unpack: seq<Byte> -> Option<Row>, ops: seq<Op>, run: string)
    returns (data: seq<Record>, ending: Ending, errors: seq<Record>, counts: map<string, int>, ghost rows: seq<Row>)
    requires Lossless(pack, unpack) && AllAddableOps(ops)
    ensures RowsOf(rows, AddedFor(ops, run)) && |rows| == |AddedFor(ops, run)|
    ensures var n := FirstUnclear(Packed(rows, pack));
      && data == AddedFor(ops, run)[..n]
      && ending == if n == |rows| then Done else BadRecord(Cut(pack(rows[n])))
    ensures AllAddable(AddedFor(ops, run))
    ensures errors == Reported(AddedFor(ops, run)) && counts == Counts(AddedFor(ops, run))
    ensures forall x :: x in errors <==>
              x in AddedFor(ops, run) && "data_type" in x
              && (x["data_type"] == Text("addError") || x["data_type"] == Text("addFailure"))
  {
    hide Lossless, Addable, Page, Errors, Counts, AllAddable, BrokerDB.Valid, AddedFor, Served, Mutual, AllStand;
    hide FirstUnclear;
    var db := new BrokerDB(pack, unpack);
    NothingAdded(run);
    for i := 0 to |ops|
      invariant fresh(db) && db.Valid() && AllAddableOps(ops[..i]) && db.Log(run) == AddedFor(ops[..i], run)
    {
      AddedOne(ops, i, run);
      match ops[i] {
        case AddRecord(x) => db.Add(x);
        case TimedFlush => db.Flush();
        case Reading(other, kind) => var _, _ := db.GetData(other, kind, None, None);
      }
    }
    assert ops[..|ops|] == ops;
    data, ending := db.GetData(run, None, None, None);
    rows := Of(db.rows, run, []);
    db.TablesMutual(run);
    RowsCount(TableOf(db.St(), run), rows, db.Log(run));
    ServedWhole(db.Log(run), Packed(rows, pack), data, ending);
    counts := db.GetCounts(run);
    errors := db.GetErrors(run, None, None);
    EverythingOnOnePage(Errors(db.Log(run)));
    ErrorsMeaning(db.Log(run));
  }

  lemma RowsCount(t: Table, rows: seq<Row>, log: seq<Record>)
    requires Mutual(t) && AllStand(t, rows, log)
    ensures RowsOf(rows, log) && |rows| == |log|
  {
  }

  /** Nothing has been written, and nothing is served. */
  lemma NothingServed(t: Table, rows: seq<Row>, log: seq<Record>, pack: Row -> seq<Byte>, kind: Option<string>,
                      start: nat, size: Option<nat>)
    requires AllStand(t, rows, log) && log == []
    ensures Served(log, Packed(rows, pack), kind, start, size, [], Done)
  {
  }

  /** The rows that the reading gives are those of the first records. */
  lemma FrontRead(t: Table, rows: seq<Row>, log: seq<Record>, pack: Row -> seq<Byte>, reading: RecordFile.Reading<Row>)
    returns (front: seq<Record>)
    requires AllStand(t, rows, log) && reading == ReadBack(Packed(rows, pack), rows)
    ensures var lines, n := Packed(rows, pack), FirstUnclear(Packed(rows, pack));
      && |lines| == |log| && front == log[..n] && AllStand(t, reading.records, front)
      && reading.ending == if n == |lines| then Done else BadRecord(Cut(lines[n]))
  {
    hide Stands;
    front := log[..FirstUnclear(Packed(rows, pack))];
  }

  lemma NothingAdded(run: string)
    ensures AddedFor([], run) == []
  {
  }

  lemma AddedOne(ops: seq<Op>, i: nat, run: string)
    requires AllAddableOps(ops) && i < |ops|
    ensures AllAddableOps(ops[..i]) && AllAddableOps(ops[..i + 1])
    ensures ops[i].AddRecord? ==> Addable(ops[i].data) && "run_id" in ops[i].data && ops[i].data["run_id"].Text?
    ensures AddedFor(ops[..i + 1], run) ==
            AddedFor(ops[..i], run)
            + if ops[i].AddRecord? && ops[i].data["run_id"].text == run then [ops[i].data] else []
  {
    assert ops[..i + 1][..i] == ops[..i];
  }

  lemma EverythingOnOnePage(log: seq<Record>)
    ensures Page(log, None, 0, None) == log
  {
    WholePage(log, 0, None);
  }
}
