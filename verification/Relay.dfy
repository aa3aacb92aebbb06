// The relay that sends results in batches (loads/results/zmqrelay.py), and what arrives.

module Relay {
  import opened Messages
  import opened TestResults

  type Batch = map<Kind, seq<Message>>

  function Flatten(parts: seq<seq<Message>>): seq<Message> {
    if parts == [] then [] else parts[0] + Flatten(parts[1..])
  }

  lemma {:induction false} FlattenLast(parts: seq<seq<Message>>, last: seq<Message>)
    ensures Flatten(parts + [last]) == Flatten(parts) + last
  {
    if parts == [] {
      assert [last][1..] == [];
    } else {
      assert (parts + [last])[1..] == parts[1..] + [last];
      FlattenLast(parts[1..], last);
    }
  }

  /** Each batch has the messages of one part of the stream, grouped by kind. */
  ghost predicate Batches(sent: seq<Batch>, parts: seq<seq<Message>>) {
    |sent| == |parts| && forall i :: 0 <= i < |sent| ==> Groups(sent[i], parts[i])
  }

  class SummarizedTestResult {
    var data: seq<Message>
    var sent: seq<Batch>

    /** Every message so far, and the parts of them that the batches have. */
    ghost var pushed: seq<Message>
    ghost var parts: seq<seq<Message>>

    /** Each message is in exactly one batch or still in the queue, in order. */
    ghost predicate Valid()
      reads this
    {
      Batches(sent, parts) && pushed == Flatten(parts) + data
    }

    constructor ()
      ensures Valid() && pushed == [] && sent == []
    {
      data, sent, pushed, parts := [], [], [], [];
    }

    method Push(m: Message)
      requires Valid()
      modifies this
      ensures Valid() && pushed == old(pushed) + [m] && sent == old(sent)
    {
      data := data + [m];
      pushed := pushed + [m];
    }

    /** _dump_data: nothing happens when the timer finds the queue empty. */
    method DumpData(loop: bool)
      requires Valid()
      modifies this
      ensures Valid() && pushed == old(pushed) && data == []
      ensures sent == old(sent) <==> old(data) == [] && loop
      ensures old(sent) <= sent
    {
      if data == [] && loop {
        return;
      }
      hide Groups, Flatten;
      ghost var part := data;
      var counts := GroupQueue();
      FlattenLast(parts, part);
      sent := sent + [counts];
      parts := parts + [part];
    }

    /** The loop of _dump_data: takes what there is in the queue. */
    method GroupQueue() returns (counts: Batch)
      modifies this`data
      ensures Groups(counts, old(data)) && data == []
    {
      hide Groups, KindOf;
      counts := map[];
      ghost var part: seq<Message> := [];
      GroupsNone();
      while data != []
        invariant Groups(counts, part) && part + data == old(data)
        decreases |data|
      {
        var m := data[0];
        GroupsOne(counts, part, m);
        counts := counts[KindOf(m) := (if KindOf(m) in counts then counts[KindOf(m)] else []) + [m]];
        part := part + [m];
        data := data[1..];
      }
      assert part == part + data;
    }

    /** Everything is sent in the end. */
    method Close()
      requires Valid()
      modifies this
      ensures Valid() && pushed == old(pushed) && Flatten(parts) == pushed
    {
      while data != []
        invariant Valid() && pushed == old(pushed)
        decreases |data|
      {
        DumpData(false);
      }
    }
  }

  /**
   * What arrives at the results object: one batch after another. Wherever the stream was cut,
   * and in whichever order each batch gives its kinds, the results are those of the calls
   * themselves.
   */
  method Receive(results: TestResult, agent: string, sent: seq<Batch>, ghost parts: seq<seq<Message>>)
    requires results.Valid() && Batches(sent, parts)
    modifies results, results.tests.Values
    ensures results.Valid() && fresh(results.tests.Values - old(results.tests.Values))
    ensures results.Value() == ApplyAll(old(results.Value()), agent, Flatten(parts))
  {
    hide ApplyAll, Groups;
    assert parts[..0] == [];
    ApplyNone(results.Value(), agent);
    for i := 0 to |sent|
      invariant results.Valid() && fresh(results.tests.Values - old(results.tests.Values))
      invariant results.Value() == ApplyAll(old(results.Value()), agent, Flatten(parts[..i]))
    {
      results.Batch(agent, sent[i], parts[i]);
      assert parts[..i + 1] == parts[..i] + [parts[i]];
      FlattenLast(parts[..i], parts[i]);
      ApplyParts(old(results.Value()), agent, Flatten(parts[..i]), parts[i]);
    }
    assert parts[..|sent|] == parts;
  }

  /**
   * From the calls to the results: whatever was pushed, once the relay is closed. So the sockets, the
   * bytes, the hits, and every test's errors, failures, successes and end are those of the calls.
   */
  method RelayAll(agent: string, ms: seq<Message>, dumps: seq<bool>) returns (results: TestResult)
    requires |dumps| == |ms|
    ensures fresh(results) && fresh(results.tests.Values) && results.Valid()
    ensures results.Value() == ApplyAll(EMPTY, agent, ms)
    ensures results.received == SizesOf(ms) && results.hits == HitsOf(ms, agent)
    ensures results.opens == SocketsOpened(ms) && results.closes == SocketsClosed(ms)
    ensures forall test, status ::
      var key := Key(test, status, agent);
      (key in results.tests <==> Mentioned(ms, test, status))
      && (key in results.tests ==>
            results.tests[key].Data() == StreamTest(ms, test, status))
  {
    hide ApplyAll, Mentioned, StreamTest, SizesOf, HitsOf, SocketsOpened, SocketsClosed, Batches, Flatten;
    var relay := new SummarizedTestResult();
    for i := 0 to |ms|
      invariant fresh(relay) && relay.Valid() && relay.pushed == ms[..i]
    {
      relay.Push(ms[i]);
      if dumps[i] {
        relay.DumpData(true);
      }
    }
    assert ms[..|ms|] == ms;
    relay.Close();
    results := new TestResult();
    Receive(results, agent, relay.sent, relay.parts);
    StreamTotals(EMPTY, agent, ms);
    forall test, status
      ensures var key := Key(test, status, agent);
        (key in results.tests <==> Mentioned(ms, test, status))
        && (key in results.tests ==> results.tests[key].Data() == StreamTest(ms, test, status))
    {
      FromNothing(agent, ms, test, status);
    }
  }
}
