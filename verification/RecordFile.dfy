// The record file of the result log: compressed records, each followed by an end marker, read
// back in chunks of 1024 bytes (loads/db/_python.py).

module RecordFile {
  import opened Bytes
  import opened Wrappers

  /** The two bytes a compressed record starts with, and the two written after it. */
  const START: seq<Byte> := [0x78, 0x9C]
  const END: seq<Byte> := [0x78, 0x8C]
  const CHUNK := 1024

  /** How reading ends: at the end of the file, in an error, or never. */
  datatype Ending = Done | BadRecord(line: seq<Byte>) | Diverges

  /** The records that were given out before. */
  datatype Reading<T> = Reading(records: seq<T>, ending: Ending)

  // ------------------------------------------------------------- markers

  predicate At(data: seq<Byte>, k: nat, marker: seq<Byte>)
    requires |marker| == 2
  {
    k + 2 <= |data| && data[k] == marker[0] && data[k + 1] == marker[1]
  }

  /** str.find: the first place from pos on, or -1. */
  function Find(data: seq<Byte>, marker: seq<Byte>, pos: nat): (r: int)
    requires |marker| == 2
    ensures r == -1 || (pos <= r && At(data, r, marker))
    ensures forall k: nat :: pos <= k && (r == -1 || k < r) ==> !At(data, k, marker)
    decreases |data| - pos
  {
    if pos + 2 > |data| then -1 else if At(data, pos, marker) then pos else Find(data, marker, pos + 1)
  }

  /** The first complete record: where it starts, and where its end marker is. */
  function First(data: seq<Byte>, pos: nat): (r: Option<(nat, nat)>)
    ensures r.Some? ==> pos <= r.value.0 && r.value.0 + 2 <= r.value.1 && r.value.1 + 2 <= |data|
  {
    var start := Find(data, START, pos);
    if start == -1 then None else
    var end := Find(data, END, start + 1);
    if end == -1 then None else Some((start, end))
  }

  /** What First says, without saying how it searches. */
  ghost predicate IsFirst(data: seq<Byte>, pos: nat, start: nat, end: nat) {
    && pos <= start < end && At(data, start, START) && At(data, end, END)
    && (forall k: nat :: pos <= k < start ==> !At(data, k, START))
    && (forall k: nat :: start < k < end ==> !At(data, k, END))
  }

  lemma FirstIs(data: seq<Byte>, pos: nat, start: nat, end: nat)
    ensures First(data, pos) == Some((start, end)) <==> IsFirst(data, pos, start, end)
  {
  }

  /** More data behind does not change the first complete record. */
  lemma FirstStays(data: seq<Byte>, pos: nat, more: seq<Byte>)
    requires First(data, pos).Some?
    ensures First(data + more, pos) == First(data, pos)
  {
    var (start, end) := First(data, pos).value;
    FirstIs(data, pos, start, end);
    forall k: nat, marker: seq<Byte> | |marker| == 2 && k <= end
      ensures At(data + more, k, marker) == At(data, k, marker)
    {
    }
    FirstIs(data + more, pos, start, end);
  }

  /** Searching from pos on is searching what is left of the data there. */
  lemma FirstShifts(data: seq<Byte>, pos: nat)
    requires pos <= |data|
    ensures First(data, pos).Some? <==> First(data[pos..], 0).Some?
    ensures First(data, pos).Some? ==>
      First(data, pos).value == (First(data[pos..], 0).value.0 + pos, First(data[pos..], 0).value.1 + pos)
  {
    FindShifts(data, START, pos, pos);
    var start := Find(data, START, pos);
    if start != -1 {
      FindShifts(data, END, pos, start + 1);
    }
  }

  lemma {:induction false} FindShifts(data: seq<Byte>, marker: seq<Byte>, cut: nat, pos: nat)
    requires |marker| == 2 && cut <= pos && cut <= |data|
    ensures var r := Find(data[cut..], marker, pos - cut);
            Find(data, marker, pos) == if r == -1 then -1 else r + cut
    decreases |data| - pos
  {
    if pos + 2 <= |data| {
      assert At(data, pos, marker) == At(data[cut..], pos - cut, marker);
      FindShifts(data, marker, cut, pos + 1);
    }
  }

  // ------------------------------------------------- reading a whole file

  function Prepend<T>(records: seq<T>, r: Reading<T>): Reading<T> {
    Reading(records + r.records, r.ending)
  }

  /** All the records of the data, one after another; unpack undoes the compression. */
  function ReadAll<T>(data: seq<Byte>, unpack: seq<Byte> -> Option<T>): (r: Reading<T>)
    decreases |data|
  {
    match First(data, 0)
    case None => Reading([], if data == [] then Done else Diverges)
    case Some((start, end)) =>
      match unpack(data[start..end])
      case None => Reading([], BadRecord(data[start..end]))
      case Some(record) => Prepend([record], ReadAll(data[end + 2..], unpack))
  }

  lemma PrependTwice<T>(a: seq<T>, b: seq<T>, r: Reading<T>)
    ensures Prepend(a, Prepend(b, r)) == Prepend(a + b, r)
  {
    assert a + (b + r.records) == (a + b) + r.records;
  }

  /** One record read from the middle of a chunk, whatever comes after the chunk. */
  lemma RecordRead<T>(data: seq<Byte>, pos: nat, more: seq<Byte>, unpack: seq<Byte> -> Option<T>)
    requires pos <= |data| && First(data, pos).Some?
    ensures var (start, end) := First(data, pos).value;
            ReadAll(data[pos..] + more, unpack) ==
            match unpack(data[start..end])
            case None => Reading([], BadRecord(data[start..end]))
            case Some(record) => Prepend([record], ReadAll(data[end + 2..] + more, unpack))
  {
    hide First;
    var (start, end) := First(data, pos).value;
    FirstShifts(data, pos);
    FirstStays(data[pos..], 0, more);
    var all := data[pos..] + more;
    assert all[start - pos..end - pos] == data[start..end];
    assert all[end - pos + 2..] == data[end + 2..] + more;
  }

  /** The reading still to come begins with the records found in data up to pos. */
  ghost predicate ReadUpTo<T>(goal: Reading<T>, data: seq<Byte>, pos: nat, more: seq<Byte>,
                              unpack: seq<Byte> -> Option<T>, records: seq<T>)
  {
    pos <= |data| && goal == Prepend(records, ReadAll(data[pos..] + more, unpack))
  }

  lemma ReadUpToStart<T>(data: seq<Byte>, more: seq<Byte>, unpack: seq<Byte> -> Option<T>)
    ensures ReadUpTo(ReadAll(data + more, unpack), data, 0, more, unpack, [])
  {
    assert data[0..] == data;
  }

  lemma NoRecordAtEnd(data: seq<Byte>)
    ensures First(data, |data|) == None
  {
  }

  lemma RecordAdded<T>(goal: Reading<T>, data: seq<Byte>, pos: nat, more: seq<Byte>, unpack: seq<Byte> -> Option<T>,
                       records: seq<T>, start: nat, end: nat, record: Option<T>)
    requires ReadUpTo(goal, data, pos, more, unpack, records) && First(data, pos) == Some((start, end))
    requires record == unpack(data[start..end])
    ensures record.None? ==> goal == Reading(records, BadRecord(data[start..end]))
    ensures record.Some? ==> ReadUpTo(goal, data, end + 2, more, unpack, records + [record.value])
  {
    RecordRead(data, pos, more, unpack);
    if record.Some? {
      PrependTwice(records, [record.value], ReadAll(data[end + 2..] + more, unpack));
    }
  }

  /** Where the next record is cut out. Without a start, the slice from -1 is empty. */
  method NextRecord(data: seq<Byte>, pos: nat) returns (at: Option<(nat, nat)>)
    requires pos <= |data|
    ensures at == First(data, pos)
  {
    var start := Find(data, START, pos);
    var end := Find(data, END, start + 1);
    if end == -1 || start == end {
      return None;
    }
    if Slice(data, start, end) == [] {
      return None;
    }
    return Some((start, end));
  }

  /**
   * The inner loop of read_zfile: the complete records of a chunk, up to pos, or the first one
   * that does not unpack. Whatever is in the rest of the file, these are its first records.
   */
  method ReadChunk<T>(data: seq<Byte>, unpack: seq<Byte> -> Option<T>, ghost more: seq<Byte>)
    returns (records: seq<T>, pos: nat, bad: Option<seq<Byte>>)
    ensures bad.Some? ==> ReadAll(data + more, unpack) == Reading(records, BadRecord(bad.value))
    ensures bad.None? ==> pos <= |data| && First(data, pos) == None
                          && ReadUpTo(ReadAll(data + more, unpack), data, pos, more, unpack, records)
  {
    hide ReadUpTo, ReadAll, First;
    ghost var goal := ReadAll(data + more, unpack);
    records, pos := [], 0;
    ReadUpToStart(data, more, unpack);
    NoRecordAtEnd(data);
    while pos < |data|
      invariant pos <= |data| && ReadUpTo(goal, data, pos, more, unpack, records)
    {
      var at := NextRecord(data, pos);
      if at.None? {
        return records, pos, None;
      }
      var (start, end) := at.value;
      var line := data[start..end];
      var record := unpack(line);
      RecordAdded(goal, data, pos, more, unpack, records, start, end, record);
      if record.None? {
        return records, pos, Some(line);
      }
      records, pos := records + [record.value], end + 2;
    }
    return records, pos, None;
  }

  /** goal begins with the records, and goes on with what there is in data. */
  ghost predicate ReadSoFar<T>(goal: Reading<T>, records: seq<T>, data: seq<Byte>, unpack: seq<Byte> -> Option<T>) {
    goal == Prepend(records, ReadAll(data, unpack))
  }

  lemma ReadSoFarStart<T>(file: seq<Byte>, unpack: seq<Byte> -> Option<T>)
    ensures ReadSoFar(ReadAll(file, unpack), [], [] + file, unpack)
  {
    assert [] + file == file;
  }

  /** The records of one more chunk. */
  lemma ChunkRead<T>(goal: Reading<T>, records: seq<T>, data: seq<Byte>, f: seq<Byte>, unpack: seq<Byte> -> Option<T>,
                     found: seq<T>, pos: nat, bad: Option<seq<Byte>>)
    requires ReadSoFar(goal, records, data + f, unpack)
    requires if bad.Some? then ReadAll(data + f, unpack) == Reading(found, BadRecord(bad.value))
             else ReadUpTo(ReadAll(data + f, unpack), data, pos, f, unpack, found)
    ensures bad.Some? ==> goal == Reading(records + found, BadRecord(bad.value))
    ensures bad.None? ==> pos <= |data| && ReadSoFar(goal, records + found, data[pos..] + f, unpack)
  {
    if bad.None? {
      PrependTwice(records, found, ReadAll(data[pos..] + f, unpack));
    }
  }

  /** Nothing more to read at the end of the file. */
  lemma NothingRead<T>(goal: Reading<T>, records: seq<T>, data: seq<Byte>, unpack: seq<Byte> -> Option<T>)
    requires ReadSoFar(goal, records, data, unpack) && First(data, 0) == None
    ensures goal == Reading(records, if data == [] then Done else Diverges)
  {
  }

  /**
   * read_zfile. At the end of a file that stops in the middle of a record it goes on for ever,
   * with the same data and nothing more to read; that is the outcome Diverges here. Wherever
   * the chunks end, in the middle of a marker too, the records are those of the whole file.
   */
  method ReadZFile<T>(file: seq<Byte>, unpack: seq<Byte> -> Option<T>) returns (r: Reading<T>)
    ensures r == ReadAll(file, unpack)
  {
    hide ReadSoFar, ReadUpTo, ReadAll, First;
    var records, remaining, f := [], [], file;
    ghost var goal := ReadAll(file, unpack);
    ReadSoFarStart(file, unpack);
    while true
      invariant ReadSoFar(goal, records, remaining + f, unpack)
      decreases |f|, |remaining|
    {
      var chunk := if |f| < CHUNK then f else f[..CHUNK];
      var data := remaining + chunk;
      assert remaining + f == data + f[|chunk|..];
      f := f[|chunk|..];
      if data == [] {
        NothingRead(goal, records, data + f, unpack);
        return Reading(records, Done);
      }
      var found, pos, bad := ReadChunk(data, unpack, f);
      ChunkRead(goal, records, data, f, unpack, found, pos, bad);
      records := records + found;
      if bad.Some? {
        return Reading(records, BadRecord(bad.value));
      }
      if chunk == [] && pos == 0 {
        assert data[pos..] + f == data && data[0..] == data;
        NothingRead(goal, records, data, unpack);
        return Reading(records, Diverges);
      }
      remaining := if pos < |data| then data[pos..] else [];
      assert remaining == data[pos..];
    }
  }

  /** data[start:end] with Python's count from the end for a negative start. */
  function Slice(data: seq<Byte>, start: int, end: nat): seq<Byte>
    requires -1 <= start <= |data| && end <= |data|
  {
    var first := if start < 0 then (if |data| == 0 then 0 else |data| - 1) else start;
    if first < end then data[first..end] else []
  }

  // -------------------------------------------------- what was written

  /** A compressed record that the end marker can be found behind. */
  ghost predicate Clear(line: seq<Byte>) {
    At(line, 0, [0x78, 0x9C]) && forall k: nat :: !At(line, k, [0x78, 0x8C])
  }

  /** Each line followed by the end marker. */
  function Written(lines: seq<seq<Byte>>): seq<Byte> {
    if lines == [] then [] else lines[0] + [0x78, 0x8C] + Written(lines[1..])
  }

  lemma WrittenOne(line: seq<Byte>)
    ensures Written([line]) == line + END
  {
    assert [line][1..] == [];
    assert Written([line]) == line + END + [];
  }

  lemma {:induction false} WrittenAppend(lines: seq<seq<Byte>>, line: seq<Byte>)
    ensures Written(lines + [line]) == Written(lines) + line + END
  {
    if lines == [] {
      assert [line][1..] == [];
    } else {
      assert (lines + [line])[1..] == lines[1..] + [line];
      WrittenAppend(lines[1..], line);
    }
  }

  /** The lines themselves, as read without unpacking. */
  function Raw(line: seq<Byte>): Option<seq<Byte>> {
    Some(line)
  }

  /** A clear line is found in front of whatever is behind it. */
  lemma ClearFirst(line: seq<Byte>, tail: seq<Byte>)
    requires Clear(line)
    ensures First(line + END + tail, 0) == Some((0, |line|))
  {
    var all := line + END + tail;
    forall k: nat | 0 < k < |line| ensures !At(all, k, END) {
      assert !At(line, k, END);
    }
    FirstIs(all, 0, 0, |line|);
  }

  lemma ClearRead<T>(line: seq<Byte>, tail: seq<Byte>, unpack: seq<Byte> -> Option<T>, record: T)
    requires Clear(line) && unpack(line) == Some(record)
    ensures ReadAll(line + END + tail, unpack) == Prepend([record], ReadAll(tail, unpack))
  {
    ClearFirst(line, tail);
    var all := line + END + tail;
    assert all[0..|line|] == line && all[|line| + 2..] == tail;
  }

  /** Lines unpacked one by one. */
  ghost predicate Unpacks<T>(lines: seq<seq<Byte>>, unpack: seq<Byte> -> Option<T>, records: seq<T>) {
    |lines| == |records| && forall i :: 0 <= i < |lines| ==> unpack(lines[i]) == Some(records[i])
  }

  /** Clear lines are read back, and so is everything before a tail that is cut short. */
  lemma {:induction false} ReadsWritten<T>(lines: seq<seq<Byte>>, tail: seq<Byte>, unpack: seq<Byte> -> Option<T>,
                                           records: seq<T>)
    requires Unpacks(lines, unpack, records) && forall line :: line in lines ==> Clear(line)
    requires First(tail, 0) == None
    ensures ReadAll(Written(lines) + tail, unpack) == Reading(records, if tail == [] then Done else Diverges)
  {
    if lines == [] {
      assert Written(lines) + tail == tail;
    } else {
      var rest := Written(lines[1..]) + tail;
      assert Written(lines) + tail == lines[0] + END + rest;
      ReadsWritten(lines[1..], tail, unpack, records[1..]);
      ClearRead(lines[0], rest, unpack, records[0]);
      assert records == [records[0]] + records[1..];
    }
  }

  // ------------------------------------ what is read of lines of any kind

  /** A line that unpacks as a whole only, as a compressed stream with its checksum does. */
  ghost predicate Whole<T>(line: seq<Byte>, unpack: seq<Byte> -> Option<T>) {
    At(line, 0, [0x78, 0x9C]) && forall k :: 0 <= k < |line| ==> unpack(line[..k]) == None
  }

  ghost predicate AllWhole<T>(lines: seq<seq<Byte>>, unpack: seq<Byte> -> Option<T>) {
    forall i :: 0 <= i < |lines| ==> Whole(lines[i], unpack)
  }

  /** The line up to the first end marker in it. */
  function Cut(line: seq<Byte>): seq<Byte> {
    var k := Find(line, END, 1);
    if k == -1 then line else line[..k]
  }

  /** The first line that is not clear; the number of lines if there is none. */
  ghost function FirstUnclear(lines: seq<seq<Byte>>): (i: nat)
    ensures i <= |lines|
    ensures forall k :: 0 <= k < i ==> Clear(lines[k])
    ensures i < |lines| ==> !Clear(lines[i])
  {
    if lines == [] || !Clear(lines[0]) then 0 else 1 + FirstUnclear(lines[1..])
  }

  /** What is read of written lines: their records, up to the first line that is not clear. */
  ghost function ReadBack<T>(lines: seq<seq<Byte>>, records: seq<T>): Reading<T>
    requires |lines| == |records|
  {
    var i := FirstUnclear(lines);
    Reading(records[..i], if i == |lines| then Done else BadRecord(Cut(lines[i])))
  }

  /** A line with the end marker in it is cut there. */
  lemma UnclearFirst(line: seq<Byte>, tail: seq<Byte>)
    requires At(line, 0, START) && !Clear(line)
    ensures |Cut(line)| < |line| && Cut(line) == line[..|Cut(line)|]
    ensures First(line + END + tail, 0) == Some((0, |Cut(line)|))
  {
    var all, k := line + END + tail, Find(line, END, 1);
    assert !At(line, 0, END);
    forall i: nat | 0 < i <= k ensures At(all, i, END) == At(line, i, END) {
    }
    FirstIs(all, 0, 0, k);
  }

  lemma UnclearRead<T>(line: seq<Byte>, tail: seq<Byte>, unpack: seq<Byte> -> Option<T>)
    requires Whole(line, unpack) && !Clear(line)
    ensures ReadAll(line + END + tail, unpack) == Reading([], BadRecord(Cut(line)))
  {
    UnclearFirst(line, tail);
    var all, k := line + END + tail, |Cut(line)|;
    assert all[0..k] == line[..k];
  }

  lemma ReadBackStep<T>(lines: seq<seq<Byte>>, records: seq<T>)
    requires |lines| == |records| > 0
    ensures ReadBack(lines, records) ==
            if Clear(lines[0]) then Prepend([records[0]], ReadBack(lines[1..], records[1..]))
            else Reading([], BadRecord(Cut(lines[0])))
  {
    hide Clear, Cut;
    if Clear(lines[0]) {
      var i := FirstUnclear(lines[1..]);
      assert records[..i + 1] == [records[0]] + records[1..][..i];
    }
  }

  lemma NothingReadBack<T>(unpack: seq<Byte> -> Option<T>)
    ensures ReadAll(Written([]), unpack) == ReadBack([], [])
  {
  }

  /** All records are read back exactly when every line is clear. */
  lemma AllReadBack<T>(lines: seq<seq<Byte>>, records: seq<T>)
    requires |lines| == |records|
    ensures ReadBack(lines, records) == Reading(records, Done) <==> forall line :: line in lines ==> Clear(line)
  {
    hide Clear, Cut;
    var i := FirstUnclear(lines);
    assert i < |lines| ==> lines[i] in lines;
    assert i == |lines| ==> records[..i] == records;
  }

  /**
   * What read_zfile makes of a file of written records, whatever the compression, as long as no
   * beginning of a compressed record unpacks by itself: the records, up to the first that has the
   * end marker inside; there it raises an error. All are read back exactly when none has.
   */
  lemma {:induction false} WrittenReadBack<T>(lines: seq<seq<Byte>>, unpack: seq<Byte> -> Option<T>, records: seq<T>)
    requires Unpacks(lines, unpack, records) && AllWhole(lines, unpack)
    ensures ReadAll(Written(lines), unpack) == ReadBack(lines, records)
    ensures ReadAll(Written(lines), unpack) == Reading(records, Done) <==> forall line :: line in lines ==> Clear(line)
  {
    hide Clear, Whole, First, Cut, ReadBack;
    AllReadBack(lines, records);
    if lines == [] {
      NothingReadBack(unpack);
    } else {
      var rest := Written(lines[1..]);
      WrittenReadBack(lines[1..], unpack, records[1..]);
      ReadBackStep(lines, records);
      assert Whole(lines[0], unpack);
      if Clear(lines[0]) {
        ClearRead(lines[0], rest, unpack, records[0]);
      } else {
        UnclearRead(lines[0], rest, unpack);
      }
    }
  }

  /**
   * What zlib makes of the record {"0": "r620", "1": "addSuccess"}, a success in the run r620: the
   * end marker stands in the checksum.
   */
  const MARKED: seq<Byte> := [
    120, 156, 171, 86, 50, 80, 178, 82, 80, 42, 50, 51, 50, 80, 210, 81, 80, 50, 4, 113, 18, 83, 82, 130, 75, 147, 147,
    83, 139, 139, 149, 106, 1, 120, 140, 8, 118]

  lemma MarkedCut()
    ensures !Clear(MARKED) && Cut(MARKED) == MARKED[..33]
  {
    assert At(MARKED, 33, END);
    assert forall k :: 1 <= k < 33 ==> !At(MARKED, k, END);
    assert Find(MARKED, END, 1) == 33;
  }

  /** That record cannot be read back: reading its file is an error without a record. */
  lemma MarkerInside<T>(unpack: seq<Byte> -> Option<T>, record: T)
    requires unpack(MARKED) == Some(record) && forall k :: 0 <= k < |MARKED| ==> unpack(MARKED[..k]) == None
    ensures ReadAll(Written([MARKED]), unpack) == Reading([], BadRecord(MARKED[..33]))
  {
    hide Clear, Cut, ReadAll, Written;
    MarkedCut();
    WrittenReadBack([MARKED], unpack, [record]);
  }

  /** Reading never ends exactly when, after the complete records, part of one is left over. */
  lemma {:induction false} EndsIff<T>(data: seq<Byte>, unpack: seq<Byte> -> Option<T>)
    ensures ReadAll(data, unpack).ending == Diverges <==>
            LeftOver(data) != [] && forall line :: line in ReadAll(data, Raw).records ==> unpack(line).Some?
    decreases |data|
  {
    if First(data, 0).Some? {
      var (start, end) := First(data, 0).value;
      var line := data[start..end];
      assert ReadAll(data, Raw).records == [line] + ReadAll(data[end + 2..], Raw).records;
      EndsIff(data[end + 2..], unpack);
    }
  }

  /** What follows the last complete record. */
  function LeftOver(data: seq<Byte>): seq<Byte>
    decreases |data|
  {
    match First(data, 0)
    case None => data
    case Some((_, end)) => LeftOver(data[end + 2..])
  }
}
