// The collected results of a run (loads/results/base.py).

module TestResults {
  import opened Collections
  import opened Messages

  /** The source's class Test; whether it has ended, not when. */
  class Test {
    const name: string
    const hit: int
    const user: int
    var errors: seq<string>
    var failures: seq<string>
    var success: int
    var finished: bool

    constructor (name: string, hit: int, user: int)
      ensures Data() == TestData(name, hit, user, [], [], 0, false)
    {
      this.name, this.hit, this.user := name, hit, user;
      errors, failures, success, finished := [], [], 0, false;
    }

    function Data(): TestData
      reads this
    {
      TestData(name, hit, user, errors, failures, success, finished)
    }
  }

  class TestResult {
    var hits: seq<(string, string)>
    var tests: map<Key, Test>
    var opens: int
    var closes: int
    var received: int

    constructor ()
      ensures Valid() && Value() == EMPTY && tests == map[]
    {
      hits, tests := [], map[];
      opens, closes, received := 0, 0, 0;
      new;
      assert Value().tests == map[];
    }

    /** No two keys share a test. */
    ghost predicate Valid()
      reads this
    {
      forall k, l :: k in tests && l in tests && k != l ==> tests[k] != tests[l]
    }

    ghost function TestsData(): (r: map<Key, TestData>)
      reads this`tests, tests.Values
      ensures r.Keys == tests.Keys
    {
      map k | k in tests :: tests[k].Data()
    }

    ghost function Value(): Summary
      reads this, tests.Values
    {
      Summary(TestsData(), hits, opens, closes, received)
    }

    method StartTest(test: string, status: Status, agent: string)
      requires Valid()
      modifies this`tests
      ensures Valid() && Key(test, status, agent) in tests && fresh(tests.Values - old(tests.Values))
      ensures Value() == Apply(old(Value()), agent, Message.StartTest(test, status))
    {
      var key := Key(test, status, agent);
      if key !in tests {
        var t := new Test(test, status.hit, status.user);
        tests := tests[key := t];
      }
      assert TestsData() == old(TestsData())[key := Found(old(Value()), key)];
    }

    method GetTest(test: string, status: Status, agent: string) returns (t: Test)
      requires Valid()
      modifies this`tests
      ensures Valid() && fresh(tests.Values - old(tests.Values))
      ensures Key(test, status, agent) in tests && t == tests[Key(test, status, agent)]
      ensures Value() == Apply(old(Value()), agent, Message.StartTest(test, status))
    {
      var key := Key(test, status, agent);
      if key !in tests {
        StartTest(test, status, agent);
      } else {
        assert TestsData() == old(TestsData())[key := Found(old(Value()), key)];
      }
      return tests[key];
    }

    /** A change of one test. */
    twostate lemma OneTest(key: Key)
      requires old(Valid()) && tests == old(tests) && key in tests
      requires hits == old(hits) && opens == old(opens) && closes == old(closes) && received == old(received)
      requires forall t :: t in tests.Values && t != tests[key] ==> unchanged(t)
      ensures Value() == old(Value()).(tests := old(TestsData())[key := tests[key].Data()])
    {
      forall k | k in tests ensures TestsData()[k] == old(TestsData())[key := tests[key].Data()][k] {
        if k != key {
          assert tests[k] in tests.Values && tests[k] != tests[key] && unchanged(tests[k]);
          assert tests[k].Data() == old(tests[k].Data());
        }
      }
      assert TestsData() == old(TestsData())[key := tests[key].Data()];
    }

    method StopTest(test: string, status: Status, agent: string)
      requires Valid()
      modifies this`tests, tests.Values
      ensures Valid() && fresh(tests.Values - old(tests.Values))
      ensures Value() == Apply(old(Value()), agent, Message.StopTest(test, status))
    {
      hide Apply, Found;
      AfterStart(Value(), agent, Message.StopTest(test, status));
      var t := GetTest(test, status, agent);
      label Got:
      t.finished := true;
      OneTest@Got(Key(test, status, agent));
    }

    method AddError(test: string, exc: string, status: Status, agent: string)
      requires Valid()
      modifies this`tests, tests.Values
      ensures Valid() && fresh(tests.Values - old(tests.Values))
      ensures Value() == Apply(old(Value()), agent, Message.AddError(test, status, exc))
    {
      hide Apply, Found;
      AfterStart(Value(), agent, Message.AddError(test, status, exc));
      var t := GetTest(test, status, agent);
      label Got:
      t.errors := t.errors + [exc];
      OneTest@Got(Key(test, status, agent));
    }

    method AddFailure(test: string, exc: string, status: Status, agent: string)
      requires Valid()
      modifies this`tests, tests.Values
      ensures Valid() && fresh(tests.Values - old(tests.Values))
      ensures Value() == Apply(old(Value()), agent, Message.AddFailure(test, status, exc))
    {
      hide Apply, Found;
      AfterStart(Value(), agent, Message.AddFailure(test, status, exc));
      var t := GetTest(test, status, agent);
      label Got:
      t.failures := t.failures + [exc];
      OneTest@Got(Key(test, status, agent));
    }

    method AddSuccess(test: string, status: Status, agent: string)
      requires Valid()
      modifies this`tests, tests.Values
      ensures Valid() && fresh(tests.Values - old(tests.Values))
      ensures Value() == Apply(old(Value()), agent, Message.AddSuccess(test, status))
    {
      hide Apply, Found;
      AfterStart(Value(), agent, Message.AddSuccess(test, status));
      var t := GetTest(test, status, agent);
      label Got:
      t.success := t.success + 1;
      OneTest@Got(Key(test, status, agent));
    }

    method CallAboutTest(agent: string, m: Message)
      requires Valid() && AboutTest(m)
      modifies this`tests, tests.Values
      ensures Valid() && fresh(tests.Values - old(tests.Values))
      ensures Value() == Apply(old(Value()), agent, m)
    {
      hide Apply;
      match m {
        case StartTest(test, status) => StartTest(test, status, agent);
        case StopTest(test, status) => StopTest(test, status, agent);
        case AddError(test, status, exc) => AddError(test, exc, status, agent);
        case AddFailure(test, status, exc) => AddFailure(test, exc, status, agent);
        case AddSuccess(test, status) => AddSuccess(test, status, agent);
      }
    }

    /** The call that a message of a batch stands for. */
    method Call(agent: string, m: Message)
      requires Valid()
      modifies this, tests.Values
      ensures Valid() && fresh(tests.Values - old(tests.Values))
      ensures Value() == Apply(old(Value()), agent, m)
    {
      hide Found, Effect, KeyOf, TestsData;
      if AboutTest(m) {
        CallAboutTest(agent, m);
        return;
      }
      match m {
        case AddHit(hit) => hits := hits + [(hit, agent)];
        case SocketOpen => opens := opens + 1;
        case SocketClose => closes := closes + 1;
        case SocketMessage(size) => received := received + size;
        case _ =>
      }
    }

    /** The calls of a list of messages, in its order. */
    method CallAll(agent: string, ms: seq<Message>)
      requires Valid()
      modifies this, tests.Values
      ensures Valid() && fresh(tests.Values - old(tests.Values))
      ensures Value() == ApplyAll(old(Value()), agent, ms)
    {
      hide Apply;
      assert ms[..0] == [];
      for i := 0 to |ms|
        invariant Valid() && fresh(tests.Values - old(tests.Values))
        invariant Value() == ApplyAll(old(Value()), agent, ms[..i])
      {
        ApplyLast(old(Value()), agent, ms, i);
        Call(agent, ms[i]);
      }
      assert ms[..|ms|] == ms;
    }

    /**
     * batch: the messages kind by kind, in any order of the kinds. The results are those of
     * the calls in the order in which they were made.
     */
    method Batch(agent: string, counts: map<Kind, seq<Message>>, ghost ms: seq<Message>)
      requires Valid() && Groups(counts, ms)
      modifies this, tests.Values
      ensures Valid() && fresh(tests.Values - old(tests.Values))
      ensures Value() == ApplyAll(old(Value()), agent, ms)
    {
      hide ApplyAll, Replaying, Groups;
      ghost var done: seq<Message> := [];
      var todo := counts.Keys;
      ReplayingNone(counts);
      ApplyNone(Value(), agent);
      while todo != {}
        invariant Valid() && fresh(tests.Values - old(tests.Values)) && todo <= counts.Keys
        invariant Replaying(counts, done, todo) && Value() == ApplyAll(old(Value()), agent, done)
        decreases |todo|
      {
        var kind := Pick(todo);
        ReplayedGroup(counts, ms, done, todo, kind);
        ApplyParts(old(Value()), agent, done, counts[kind]);
        CallAll(agent, counts[kind]);
        done := done + counts[kind];
        todo := todo - {kind};
      }
      ReplayedAll(counts, ms, done);
      OrderOfKinds(old(Value()), agent, ms, done);
    }
  }
}
