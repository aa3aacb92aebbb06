// What the calls of a test run do to the results, as values (loads/results/base.py).

module Messages {

  /** The four numbers that come with every call about a test. */
  datatype Status = Status(hit: int, user: int, currentHit: int, currentUser: int)

  datatype Message =
    | StartTestRun
    | StopTestRun
    | StartTest(test: string, status: Status)
    | StopTest(test: string, status: Status)
    | AddError(test: string, status: Status, exc: string)
    | AddFailure(test: string, status: Status, exc: string)
    | AddSuccess(test: string, status: Status)
    | AddHit(hit: string)
    | SocketOpen
    | SocketClose
    | SocketMessage(size: int)

  /** The name of the method that a message calls. */
  datatype Kind =
    RunStarted | RunStopped | Started | Stopped | Erred | Failed | Succeeded | Hit | Opened | Closed | Received

  function KindOf(m: Message): Kind {
    match m
    case StartTestRun => RunStarted
    case StopTestRun => RunStopped
    case StartTest(_, _) => Started
    case StopTest(_, _) => Stopped
    case AddError(_, _, _) => Erred
    case AddFailure(_, _, _) => Failed
    case AddSuccess(_, _) => Succeeded
    case AddHit(_) => Hit
    case SocketOpen => Opened
    case SocketClose => Closed
    case SocketMessage(_) => Received
  }

  /** _get_key. */
  datatype Key = Key(test: string, status: Status, agent: string)

  /** What is known of a test; whether it has ended, not when. */
  datatype TestData = TestData(name: string, hit: int, user: int, errors: seq<string>, failures: seq<string>,
                               success: int, finished: bool)

  datatype Summary = Summary(tests: map<Key, TestData>, hits: seq<(string, string)>, opens: int, closes: int,
                             received: int)

  const EMPTY := Summary(map[], [], 0, 0, 0)

  function NewTest(key: Key): TestData {
    TestData(key.test, key.status.hit, key.status.user, [], [], 0, false)
  }

  function Found(s: Summary, key: Key): TestData {
    if key in s.tests then s.tests[key] else NewTest(key)
  }

  predicate AboutTest(m: Message) {
    m.StartTest? || m.StopTest? || m.AddError? || m.AddFailure? || m.AddSuccess?
  }

  function KeyOf(m: Message, agent: string): Key
    requires AboutTest(m)
  {
    Key(m.test, m.status, agent)
  }

  function Effect(m: Message, d: TestData): TestData {
    match m
    case StopTest(_, _) => d.(finished := true)
    case AddError(_, _, exc) => d.(errors := d.errors + [exc])
    case AddFailure(_, _, exc) => d.(failures := d.failures + [exc])
    case AddSuccess(_, _) => d.(success := d.success + 1)
    case _ => d
  }

  /** One call. The start and the end of the run only set clock values. */
  function Apply(s: Summary, agent: string, m: Message): Summary {
    match m
    case AddHit(hit) => s.(hits := s.hits + [(hit, agent)])
    case SocketOpen => s.(opens := s.opens + 1)
    case SocketClose => s.(closes := s.closes + 1)
    case SocketMessage(size) => s.(received := s.received + size)
    case StartTestRun => s
    case StopTestRun => s
    case _ => s.(tests := s.tests[KeyOf(m, agent) := Effect(m, Found(s, KeyOf(m, agent)))])
  }

  /** A test is made first when there is none. */
  lemma AfterStart(s: Summary, agent: string, m: Message)
    requires AboutTest(m)
    ensures var key := KeyOf(m, agent);
            var started := Apply(s, agent, StartTest(m.test, m.status));
            && key in started.tests
            && Apply(s, agent, m) == started.(tests := started.tests[key := Effect(m, started.tests[key])])
  {
    var key := KeyOf(m, agent);
    assert s.tests[key := Found(s, key)][key := Effect(m, Found(s, key))] == s.tests[key := Effect(m, Found(s, key))];
  }

  function ApplyAll(s: Summary, agent: string, ms: seq<Message>): Summary
    decreases |ms|
  {
    if ms == [] then s else ApplyAll(Apply(s, agent, ms[0]), agent, ms[1..])
  }

  lemma {:induction false} ApplyParts(s: Summary, agent: string, a: seq<Message>, b: seq<Message>)
    ensures ApplyAll(s, agent, a + b) == ApplyAll(ApplyAll(s, agent, a), agent, b)
    decreases |a|
  {
    if a == [] {
      assert a + b == b;
    } else {
      assert (a + b)[1..] == a[1..] + b;
      ApplyParts(Apply(s, agent, a[0]), agent, a[1..], b);
    }
  }

  lemma ApplyNone(s: Summary, agent: string)
    ensures ApplyAll(s, agent, []) == s
  {
  }

  lemma ApplyLast(s: Summary, agent: string, ms: seq<Message>, i: nat)
    requires i < |ms|
    ensures ApplyAll(s, agent, ms[..i + 1]) == Apply(ApplyAll(s, agent, ms[..i]), agent, ms[i])
  {
    hide Apply;
    ApplyParts(s, agent, ms[..i], [ms[i]]);
    assert ms[..i + 1] == ms[..i] + [ms[i]];
    assert [ms[i]][1..] == [];
  }

  // ------------------------------------------------ what a stream amounts to

  /** The sizes of the messages on the sockets, added up. */
  function SizesOf(ms: seq<Message>): int {
    if ms == [] then 0 else (if ms[0].SocketMessage? then ms[0].size else 0) + SizesOf(ms[1..])
  }

  function SocketsOpened(ms: seq<Message>): nat {
    if ms == [] then 0 else (if ms[0].SocketOpen? then 1 else 0) + SocketsOpened(ms[1..])
  }

  function SocketsClosed(ms: seq<Message>): nat {
    if ms == [] then 0 else (if ms[0].SocketClose? then 1 else 0) + SocketsClosed(ms[1..])
  }

  /** The hits with the agent that reports them. */
  function HitsOf(ms: seq<Message>, agent: string): seq<(string, string)> {
    if ms == [] then [] else (if ms[0].AddHit? then [(ms[0].hit, agent)] else []) + HitsOf(ms[1..], agent)
  }

  lemma OneTotal(s: Summary, agent: string, m: Message)
    ensures var after := Apply(s, agent, m);
      && after.received == s.received + (if m.SocketMessage? then m.size else 0)
      && after.opens == s.opens + (if m.SocketOpen? then 1 else 0)
      && after.closes == s.closes + (if m.SocketClose? then 1 else 0)
      && after.hits == s.hits + (if m.AddHit? then [(m.hit, agent)] else [])
  {
    hide Effect, Found;
    assert s.hits + [] == s.hits;
  }

  /** Sockets and hits of a stream: sums, counts, and the hits in order. */
  lemma {:induction false} StreamTotals(s: Summary, agent: string, ms: seq<Message>)
    ensures var after := ApplyAll(s, agent, ms);
      && after.received == s.received + SizesOf(ms)
      && after.opens == s.opens + SocketsOpened(ms) && after.closes == s.closes + SocketsClosed(ms)
      && after.hits == s.hits + HitsOf(ms, agent)
    decreases |ms|
  {
    hide Apply;
    if ms == [] {
      assert s.hits + [] == s.hits;
    } else {
      var m := ms[0];
      var own := if m.AddHit? then [(m.hit, agent)] else [];
      OneTotal(s, agent, m);
      StreamTotals(Apply(s, agent, m), agent, ms[1..]);
      assert s.hits + own + HitsOf(ms[1..], agent) == s.hits + (own + HitsOf(ms[1..], agent));
    }
  }

  /** The message is about this test with these numbers. */
  predicate IsAbout(m: Message, test: string, status: Status) {
    AboutTest(m) && m.test == test && m.status == status
  }

  function ErrorsOf(ms: seq<Message>, test: string, status: Status): seq<string> {
    if ms == [] then [] else
    (if ms[0].AddError? && IsAbout(ms[0], test, status) then [ms[0].exc] else []) + ErrorsOf(ms[1..], test, status)
  }

  function FailuresOf(ms: seq<Message>, test: string, status: Status): seq<string> {
    if ms == [] then [] else
    (if ms[0].AddFailure? && IsAbout(ms[0], test, status) then [ms[0].exc] else []) + FailuresOf(ms[1..], test, status)
  }

  function SuccessesOf(ms: seq<Message>, test: string, status: Status): nat {
    if ms == [] then 0 else
    (if ms[0].AddSuccess? && IsAbout(ms[0], test, status) then 1 else 0) + SuccessesOf(ms[1..], test, status)
  }

  ghost predicate Mentioned(ms: seq<Message>, test: string, status: Status) {
    exists m :: m in ms && IsAbout(m, test, status)
  }

  ghost predicate WasStopped(ms: seq<Message>, test: string, status: Status) {
    exists m :: m in ms && m.StopTest? && IsAbout(m, test, status)
  }

  /** What is known of a test before a stream: a test that is not known has its name and numbers, and nothing else. */
  function Before(s: Summary, agent: string, test: string, status: Status): TestData {
    var key := Key(test, status, agent);
    if key in s.tests then s.tests[key] else TestData(test, status.hit, status.user, [], [], 0, false)
  }

  function Extended(d: TestData, errors: seq<string>, failures: seq<string>, success: nat, finished: bool): TestData {
    TestData(d.name, d.hit, d.user, d.errors + errors, d.failures + failures, d.success + success,
             d.finished || finished)
  }

  /** One call, seen from one test. */
  lemma OneCall(s: Summary, agent: string, m: Message, test: string, status: Status)
    ensures var key, after := Key(test, status, agent), Apply(s, agent, m);
      && (key in after.tests <==> key in s.tests || IsAbout(m, test, status))
      && Before(after, agent, test, status)
         == Extended(Before(s, agent, test, status), ErrorsOf([m], test, status), FailuresOf([m], test, status),
                     SuccessesOf([m], test, status), m.StopTest? && IsAbout(m, test, status))
  {
    assert [m][1..] == [];
  }

  lemma FirstOf(ms: seq<Message>, test: string, status: Status)
    requires ms != []
    ensures ErrorsOf(ms, test, status) == ErrorsOf([ms[0]], test, status) + ErrorsOf(ms[1..], test, status)
    ensures FailuresOf(ms, test, status) == FailuresOf([ms[0]], test, status) + FailuresOf(ms[1..], test, status)
    ensures SuccessesOf(ms, test, status) == SuccessesOf([ms[0]], test, status) + SuccessesOf(ms[1..], test, status)
    ensures Mentioned(ms, test, status) <==> IsAbout(ms[0], test, status) || Mentioned(ms[1..], test, status)
    ensures WasStopped(ms, test, status) <==>
              (ms[0].StopTest? && IsAbout(ms[0], test, status)) || WasStopped(ms[1..], test, status)
  {
    hide IsAbout, Mentioned, WasStopped;
    FirstMentioned(ms, test, status);
    OfOne(ms[0], test, status);
  }

  lemma OfOne(m: Message, test: string, status: Status)
    ensures ErrorsOf([m], test, status) == if m.AddError? && IsAbout(m, test, status) then [m.exc] else []
    ensures FailuresOf([m], test, status) == if m.AddFailure? && IsAbout(m, test, status) then [m.exc] else []
    ensures SuccessesOf([m], test, status) == if m.AddSuccess? && IsAbout(m, test, status) then 1 else 0
  {
    hide IsAbout;
    assert [m][1..] == [];
  }

  lemma FirstMentioned(ms: seq<Message>, test: string, status: Status)
    requires ms != []
    ensures Mentioned(ms, test, status) <==> IsAbout(ms[0], test, status) || Mentioned(ms[1..], test, status)
    ensures WasStopped(ms, test, status) <==>
              (ms[0].StopTest? && IsAbout(ms[0], test, status)) || WasStopped(ms[1..], test, status)
  {
    hide IsAbout;
    assert forall m :: m in ms <==> m == ms[0] || m in ms[1..];
  }

  lemma ExtendedTwice(d: TestData, e1: seq<string>, f1: seq<string>, n1: nat, b1: bool, e2: seq<string>,
                      f2: seq<string>, n2: nat, b2: bool)
    ensures Extended(Extended(d, e1, f1, n1, b1), e2, f2, n2, b2) == Extended(d, e1 + e2, f1 + f2, n1 + n2, b1 || b2)
  {
    assert d.errors + e1 + e2 == d.errors + (e1 + e2) && d.failures + f1 + f2 == d.failures + (f1 + f2);
  }

  /**
   * A test after a stream of calls: it is known exactly if it was before or is mentioned, and its
   * errors, its failures, its successes and its end are those of the calls about it, in their order.
   */
  lemma {:induction false} StreamOfTest(s: Summary, agent: string, ms: seq<Message>, test: string, status: Status)
    ensures var key, after := Key(test, status, agent), ApplyAll(s, agent, ms);
      && (key in after.tests <==> key in s.tests || Mentioned(ms, test, status))
      && Before(after, agent, test, status)
         == Extended(Before(s, agent, test, status), ErrorsOf(ms, test, status), FailuresOf(ms, test, status),
                     SuccessesOf(ms, test, status), WasStopped(ms, test, status))
    decreases |ms|
  {
    if ms == [] {
      var d := Before(s, agent, test, status);
      assert Extended(d, [], [], 0, false) == d;
    } else {
      hide Apply, ErrorsOf, FailuresOf, SuccessesOf, Mentioned, WasStopped, IsAbout, Before, Extended;
      var m, mid, rest := ms[0], Apply(s, agent, ms[0]), ms[1..];
      OneCall(s, agent, m, test, status);
      StreamOfTest(mid, agent, rest, test, status);
      FirstOf(ms, test, status);
      ExtendedTwice(Before(s, agent, test, status), ErrorsOf([m], test, status), FailuresOf([m], test, status),
                    SuccessesOf([m], test, status), m.StopTest? && IsAbout(m, test, status),
                    ErrorsOf(rest, test, status), FailuresOf(rest, test, status), SuccessesOf(rest, test, status),
                    WasStopped(rest, test, status));
    }
  }

  /** A test as a stream leaves it that starts from nothing. */
  ghost function StreamTest(ms: seq<Message>, test: string, status: Status): TestData {
    TestData(test, status.hit, status.user, ErrorsOf(ms, test, status), FailuresOf(ms, test, status),
             SuccessesOf(ms, test, status), WasStopped(ms, test, status))
  }

  lemma FromNothing(agent: string, ms: seq<Message>, test: string, status: Status)
    ensures var key, after := Key(test, status, agent), ApplyAll(EMPTY, agent, ms);
      && (key in after.tests <==> Mentioned(ms, test, status))
      && (key in after.tests ==> after.tests[key] == StreamTest(ms, test, status))
  {
    StreamOfTest(EMPTY, agent, ms, test, status);
  }

  // ---------------------------------------------------- changing the order

  /** A call about a test changes that test. */
  function Touched(tests: map<Key, TestData>, key: Key, m: Message): map<Key, TestData> {
    tests[key := Effect(m, if key in tests then tests[key] else NewTest(key))]
  }

  lemma TouchedCommute(tests: map<Key, TestData>, k: Key, l: Key, a: Message, b: Message)
    requires KindOf(a) != KindOf(b)
    ensures Touched(Touched(tests, k, a), l, b) == Touched(Touched(tests, l, b), k, a)
  {
    hide KindOf;
    if k == l {
      EffectsCommute(a, b, if k in tests then tests[k] else NewTest(k));
      hide Effect;
    } else {
      hide Effect;
    }
  }

  lemma ApplyTouches(s: Summary, agent: string, m: Message)
    requires AboutTest(m)
    ensures Apply(s, agent, m) == s.(tests := Touched(s.tests, KeyOf(m, agent), m))
  {
    hide Effect;
  }

  lemma TestsCommute(s: Summary, agent: string, a: Message, b: Message)
    requires KindOf(a) != KindOf(b) && AboutTest(a) && AboutTest(b)
    ensures Apply(Apply(s, agent, a), agent, b) == Apply(Apply(s, agent, b), agent, a)
  {
    hide Apply, Touched, KindOf;
    ApplyTouches(s, agent, a);
    ApplyTouches(s, agent, b);
    ApplyTouches(Apply(s, agent, a), agent, b);
    ApplyTouches(Apply(s, agent, b), agent, a);
    TouchedCommute(s.tests, KeyOf(a, agent), KeyOf(b, agent), a, b);
  }

  lemma EffectsCommute(a: Message, b: Message, d: TestData)
    requires KindOf(a) != KindOf(b)
    ensures Effect(a, Effect(b, d)) == Effect(b, Effect(a, d))
  {
  }

  /** Calls of different methods can change places. */
  lemma Commute(s: Summary, agent: string, a: Message, b: Message)
    requires KindOf(a) != KindOf(b)
    ensures Apply(Apply(s, agent, a), agent, b) == Apply(Apply(s, agent, b), agent, a)
  {
    if AboutTest(a) && AboutTest(b) {
      TestsCommute(s, agent, a, b);
    }
  }

  /** The messages of one kind, in their order. */
  function OfKind(ms: seq<Message>, kind: Kind): (r: seq<Message>)
    ensures forall m :: m in r ==> KindOf(m) == kind
    ensures |r| <= |ms|
  {
    if ms == [] then [] else (if KindOf(ms[0]) == kind then [ms[0]] else []) + OfKind(ms[1..], kind)
  }

  lemma {:induction false} OfKindParts(a: seq<Message>, b: seq<Message>, kind: Kind)
    ensures OfKind(a + b, kind) == OfKind(a, kind) + OfKind(b, kind)
  {
    if a == [] {
      assert a + b == b;
    } else {
      assert (a + b)[1..] == a[1..] + b;
      OfKindParts(a[1..], b, kind);
    }
  }

  /** The same messages of each kind, in the same order; the kinds may be mixed differently. */
  ghost predicate SameKinds(a: seq<Message>, b: seq<Message>) {
    forall kind :: OfKind(a, kind) == OfKind(b, kind)
  }

  /** A message moved in front of messages of other kinds. */
  lemma {:induction false} MovedToFront(s: Summary, agent: string, before: seq<Message>, m: Message)
    requires OfKind(before, KindOf(m)) == []
    ensures ApplyAll(s, agent, before + [m]) == ApplyAll(Apply(s, agent, m), agent, before)
    decreases |before|
  {
    if before == [] {
      assert before + [m] == [m] && [m][1..] == [];
    } else {
      assert (before + [m])[1..] == before[1..] + [m];
      MovedToFront(Apply(s, agent, before[0]), agent, before[1..], m);
      Commute(s, agent, before[0], m);
    }
  }

  /** Where the first message of a kind is. */
  lemma {:induction false} FirstOfKind(ms: seq<Message>, kind: Kind) returns (j: nat)
    requires OfKind(ms, kind) != []
    ensures j < |ms| && ms[j] == OfKind(ms, kind)[0] && OfKind(ms[..j], kind) == []
  {
    OfKindNone(kind);
    hide OfKind, KindOf;
    assert ms != [];
    var head, tail := ms[0], ms[1..];
    assert ms == [head] + tail;
    OfKindFirst(head, tail, kind);
    if KindOf(head) == kind {
      j := 0;
    } else {
      var k := FirstOfKind(tail, kind);
      j := k + 1;
      OfKindFirst(head, tail[..k], kind);
      assert ms[..j] == [head] + tail[..k];
    }
  }

  lemma OfKindNone(kind: Kind)
    ensures OfKind([], kind) == []
  {
  }

  lemma OfKindAround(a: seq<Message>, m: Message, b: seq<Message>, kind: Kind)
    requires OfKind(a, KindOf(m)) == []
    ensures OfKind(a + ([m] + b), kind) == if kind == KindOf(m) then [m] + OfKind(a + b, kind) else OfKind(a + b, kind)
  {
    hide OfKind, KindOf;
    OfKindParts(a, [m] + b, kind);
    OfKindFirst(m, b, kind);
    OfKindParts(a, b, kind);
    var y := OfKind(b, kind);
    if kind == KindOf(m) {
      assert [] + ([m] + y) == [m] + ([] + y);
    }
  }

  /** Without the first message of a kind, the other messages are the same. */
  lemma WithoutFirst(ms: seq<Message>, j: nat, kind: Kind)
    requires j < |ms| && OfKind(ms[..j], KindOf(ms[j])) == []
    ensures OfKind(ms, kind) == if kind == KindOf(ms[j]) then [ms[j]] + OfKind(ms[..j] + ms[j + 1..], kind)
                                else OfKind(ms[..j] + ms[j + 1..], kind)
  {
    hide OfKind, KindOf;
    OfKindAround(ms[..j], ms[j], ms[j + 1..], kind);
    assert ms == ms[..j] + ([ms[j]] + ms[j + 1..]);
  }

  lemma OfKindFirst(m: Message, ms: seq<Message>, kind: Kind)
    ensures OfKind([m] + ms, kind) == if kind == KindOf(m) then [m] + OfKind(ms, kind) else OfKind(ms, kind)
  {
    assert ([m] + ms)[1..] == ms;
  }

  lemma TakenOutOfKind(a: seq<Message>, b: seq<Message>, j: nat, kind: Kind)
    requires a != [] && j < |b| && b[j] == a[0] && OfKind(b[..j], KindOf(a[0])) == []
    requires OfKind(a, kind) == OfKind(b, kind)
    ensures OfKind(a[1..], kind) == OfKind(b[..j] + b[j + 1..], kind)
  {
    hide OfKind, KindOf;
    WithoutFirst(b, j, kind);
    OfKindFirst(a[0], a[1..], kind);
    assert a == [a[0]] + a[1..];
    if kind == KindOf(a[0]) {
      assert OfKind(a, kind)[1..] == OfKind(a[1..], kind);
    }
  }

  /** Taking the first message out of both. */
  lemma TakenOut(a: seq<Message>, b: seq<Message>, j: nat)
    requires a != [] && j < |b| && b[j] == a[0] && OfKind(b[..j], KindOf(a[0])) == [] && SameKinds(a, b)
    ensures SameKinds(a[1..], b[..j] + b[j + 1..])
  {
    forall kind ensures OfKind(a[1..], kind) == OfKind(b[..j] + b[j + 1..], kind) {
      TakenOutOfKind(a, b, j, kind);
    }
  }

  /** The results depend only on the messages of each kind. */
  lemma {:induction false} OrderOfKinds(s: Summary, agent: string, a: seq<Message>, b: seq<Message>)
    requires SameKinds(a, b)
    ensures ApplyAll(s, agent, a) == ApplyAll(s, agent, b)
    decreases |a|
  {
    hide Apply;
    if a == [] {
      assert b != [] ==> OfKind(a, KindOf(b[0])) == OfKind(b, KindOf(b[0]));
    } else {
      var m := a[0];
      assert OfKind(a, KindOf(m)) == OfKind(b, KindOf(m));
      var j := FirstOfKind(b, KindOf(m));
      var before, after := b[..j], b[j + 1..];
      assert b == (before + [m]) + after;
      ApplyParts(s, agent, before + [m], after);
      MovedToFront(s, agent, before, m);
      ApplyParts(Apply(s, agent, m), agent, before, after);
      TakenOut(a, b, j);
      OrderOfKinds(Apply(s, agent, m), agent, a[1..], before + after);
    }
  }

  /** Two errors of a test, whatever the results so far, change places only if they have the same text. */
  lemma SameKindMatters(s: Summary, agent: string, test: string, status: Status, x: string, y: string)
    ensures var a, b := AddError(test, status, x), AddError(test, status, y);
            Apply(Apply(s, agent, a), agent, b) == Apply(Apply(s, agent, b), agent, a) <==> x == y
  {
    var key := Key(test, status, agent);
    var a, b := AddError(test, status, x), AddError(test, status, y);
    var before := Found(s, key).errors;
    var ab, ba := Apply(Apply(s, agent, a), agent, b), Apply(Apply(s, agent, b), agent, a);
    assert ab.tests[key].errors == before + [x] + [y] && ab.tests[key].errors[|before|] == x;
    assert ba.tests[key].errors == before + [y] + [x] && ba.tests[key].errors[|before|] == y;
  }

  // --------------------------------------------------------------- batches

  /** The messages of a batch, grouped by kind. */
  ghost predicate Groups(counts: map<Kind, seq<Message>>, ms: seq<Message>) {
    forall kind :: OfKind(ms, kind) == if kind in counts then counts[kind] else []
  }

  lemma GroupsNone()
    ensures Groups(map[], [])
  {
  }

  lemma GroupsOne(counts: map<Kind, seq<Message>>, ms: seq<Message>, m: Message)
    requires Groups(counts, ms)
    ensures var list := if KindOf(m) in counts then counts[KindOf(m)] else [];
            Groups(counts[KindOf(m) := list + [m]], ms + [m])
  {
    forall kind ensures OfKind(ms + [m], kind) == OfKind(ms, kind) + if kind == KindOf(m) then [m] else [] {
      OfKindParts(ms, [m], kind);
      assert [m][1..] == [];
    }
  }

  /** Replaying the groups of a batch one after another: the messages so far, and the groups to come. */
  ghost predicate Replaying(counts: map<Kind, seq<Message>>, done: seq<Message>, todo: set<Kind>) {
    && (forall kind :: kind in counts && kind !in todo ==> OfKind(done, kind) == counts[kind])
    && (forall kind :: kind !in counts || kind in todo ==> OfKind(done, kind) == [])
  }

  lemma ReplayingNone(counts: map<Kind, seq<Message>>)
    ensures Replaying(counts, [], counts.Keys)
  {
  }

  lemma {:induction false} AllOfKind(ms: seq<Message>, kind: Kind)
    requires forall m :: m in ms ==> KindOf(m) == kind
    ensures OfKind(ms, kind) == ms
    ensures forall other :: other != kind ==> OfKind(ms, other) == []
  {
    if ms != [] {
      AllOfKind(ms[1..], kind);
    }
  }

  lemma ReplayedGroup(counts: map<Kind, seq<Message>>, ms: seq<Message>, done: seq<Message>, todo: set<Kind>,
                      kind: Kind)
    requires Groups(counts, ms) && Replaying(counts, done, todo) && kind in todo && kind in counts
    ensures Replaying(counts, done + counts[kind], todo - {kind})
  {
    hide OfKind;
    assert counts[kind] == OfKind(ms, kind);
    AllOfKind(counts[kind], kind);
    hide Groups;
    forall k: Kind ensures OfKind(done + counts[kind], k) == if k == kind then counts[kind] else OfKind(done, k) {
      OfKindParts(done, counts[kind], k);
    }
  }

  lemma ReplayedAll(counts: map<Kind, seq<Message>>, ms: seq<Message>, done: seq<Message>)
    requires Groups(counts, ms) && Replaying(counts, done, {})
    ensures SameKinds(ms, done)
  {
    forall kind ensures OfKind(ms, kind) == OfKind(done, kind) {
      if kind in counts {
        assert OfKind(done, kind) == counts[kind];
      }
    }
  }
}
