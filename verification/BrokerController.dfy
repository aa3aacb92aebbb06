// The agents of the broker and their runs (loads/transport/brokerctrl.py). Times are numbers
// given by the caller, and so is whether sending to an agent works.

module BrokerController {
  import opened BrokerLedger
  import opened BrokerState
  import opened Collections
  import opened Wrappers

  /** random.choice on the available agents, and the time at which the chosen one is checked. */
  datatype Try = Try(pick: nat, now: real)

  /** The loop of reserve_agents may need any number of tries; Looking is where the given ones end. */
  datatype Reservation = NotEnough | Reserved(agents: seq<string>) | Looking

  class Controller {
    const timeout: real
    var agents: map<string, string>
    var runs: map<string, Assignment>
    var agentTimes: map<string, real>
    /** The runs that test_ended was called for, and those published by clean. */
    var ended: seq<string>
    var published: seq<string>

    ghost function St(): State
      reads this
    {
      State(agents, runs, agentTimes, ended, published)
    }

    constructor (timeout: real)
      ensures St() == State(map[], map[], map[], [], []) && this.timeout == timeout
    {
      this.timeout := timeout;
      agents, runs, agentTimes, ended, published := map[], map[], map[], [], [];
    }

    method RemoveAgent(agent: string)
      modifies this
      ensures St() == Removed(old(St()), agent)
      ensures agents == old(agents) - {agent} && runs == old(runs) - {agent} && agentTimes == old(agentTimes) - {agent}
      ensures ended == old(ended) && published == old(published)
    {
      agents := agents - {agent};
      agentTimes := agentTimes - {agent};
      runs := runs - {agent};
    }

    method RegisterAgent(agent: string, info: string)
      requires Sound(St())
      modifies this`agents
      ensures Sound(St()) && agent in agents
      ensures agents == if agent in old(agents) then old(agents) else old(agents)[agent := info]
    {
      if agent !in agents {
        agents := agents[agent := info];
      }
    }

    method UnregisterAgent(agent: string)
      requires Sound(St())
      modifies this
      ensures Sound(St()) && NoMove(old(St()), St())
      ensures St() == if agent in old(agents) then Removed(old(St()), agent) else old(St())
    {
      if agent in agents {
        RemoveAgent(agent);
      }
    }

    method UnregisterAgents()
      requires Sound(St())
      modifies this
      ensures agents == map[] && runs == map[]
      ensures St() == RemovedAll(old(St()), old(agents.Keys))
    {
      hide Sound, NoMove, RemovedAll;
      var todo := agents.Keys;
      ghost var st, done := St(), {};
      RemovedNone(st);
      while todo != {}
        invariant todo == agents.Keys && todo + done == st.agents.Keys && Sound(St())
        invariant St() == RemovedAll(st, done)
        decreases |todo|
      {
        var agent := Pick(todo);
        RemovedOne(st, done, agent);
        UnregisterAgent(agent);
        todo, done := todo - {agent}, done + {agent};
      }
      NoAgentsNoRuns(St());
    }

    method Associate(run: string, chosen: seq<string>, when: real)
      modifies this`runs
      ensures runs == Assigned(old(runs), chosen, Assignment(run, when))
    {
      assert runs == Assigned(runs, chosen[..0], Assignment(run, when));
      for i := 0 to |chosen|
        invariant runs == Assigned(old(runs), chosen[..i], Assignment(run, when))
      {
        runs := runs[chosen[i] := Assignment(run, when)];
        assert chosen[..i + 1] == chosen[..i] + [chosen[i]];
      }
      assert chosen[..|chosen|] == chosen;
    }

    /** _check_agent. */
    predicate Responsive(agent: string, now: real)
      reads this
    {
      agent in agentTimes ==> now - agentTimes[agent] <= timeout
    }

    /** The loop of reserve_agents: different free agents, each found responsive. */
    method ChooseAgents(num: int, ghost free: set<string>, candidates: seq<string>, tries: seq<Try>)
      returns (r: Option<seq<string>>)
      requires multiset(candidates) == multiset(free) && num <= |candidates|
      ensures r.Some? ==> |r.value| == (if num < 0 then 0 else num) && Distinct(r.value)
      ensures r.Some? ==> forall a :: a in r.value ==> a in free && exists t :: t in tries && Responsive(a, t.now)
      ensures r.None? ==> |tries| < num || SlowOne(free, tries)
    {
      hide Distinct;
      var chosen, available := [], candidates;
      var t := 0;
      while |chosen| < num
        invariant t <= |tries| && |chosen| + |available| == |candidates| && |chosen| <= (if num < 0 then 0 else num)
        invariant multiset(chosen) + multiset(available) == multiset(free)
        invariant forall a :: a in chosen ==> exists t :: t in tries && Responsive(a, t.now)
        invariant |chosen| == t || SlowOne(free, tries)
        decreases |tries| - t
      {
        if t == |tries| {
          return None;
        }
        var k := tries[t].pick % |available|;
        AvailableFree(chosen, available, free, k);
        if Responsive(available[k], tries[t].now) {
          Taken(chosen, available, k);
          chosen := chosen + [available[k]];
          available := available[..k] + available[k + 1..];
        }
        t := t + 1;
      }
      ChosenFree(chosen, available, free);
      return Some(chosen);
    }

    /** Some free agent is not responsive at the time of some try. */
    ghost predicate SlowOne(free: set<string>, tries: seq<Try>)
      reads this
    {
      exists a, t :: a in free && t in tries && a in agentTimes && t.now - agentTimes[a] > timeout
    }

    /**
     * reserve_agents: as many agents as asked for, all different, all registered and without a
     * run, each found responsive; or nothing has changed. It gives up exactly when there are not
     * enough of them.
     */
    method ReserveAgents(num: int, run: string, tries: seq<Try>, when: real) returns (r: Reservation)
      requires Sound(St())
      modifies this`runs
      ensures Sound(St()) && NoMove(old(St()), St())
      ensures r == NotEnough <==> num > |agents.Keys - old(runs.Keys)|
      ensures r == Looking ==> |tries| < num || SlowOne(agents.Keys - runs.Keys, tries)
      ensures !r.Reserved? ==> runs == old(runs)
      ensures r.Reserved? ==>
        && |r.agents| == (if num < 0 then 0 else num) && Distinct(r.agents)
        && (forall a :: a in r.agents ==> a in agents && a !in old(runs))
        && (forall a :: a in r.agents ==>
              exists t :: t in tries && (a in agentTimes ==> t.now - agentTimes[a] <= timeout))
        && runs == Assigned(old(runs), r.agents, Assignment(run, when))
        && (forall a :: a in runs <==> a in old(runs) || a in r.agents)
        && (forall a :: a in runs ==> runs[a] == if a in r.agents then Assignment(run, when) else old(runs)[a])
    {
      hide Distinct;
      var available := Elements(agents.Keys - runs.Keys);
      ElementsCount(available, agents.Keys - runs.Keys);
      if num > |available| {
        return NotEnough;
      }
      var chosen := ChooseAgents(num, agents.Keys - runs.Keys, available, tries);
      if chosen.None? {
        return Looking;
      }
      Associate(run, chosen.value, when);
      return Reserved(chosen.value);
    }

    /** send_to_agent: an agent that cannot be reached is removed. */
    method SendToAgent(agent: string, fails: bool)
      requires Sound(St())
      modifies this
      ensures Sound(St()) && NoMove(old(St()), St())
      ensures St() == if fails then Removed(old(St()), agent) else old(St())
      ensures fails ==> agent !in agents && agent !in runs && agent !in agentTimes
    {
      if fails {
        RemoveAgent(agent);
      }
    }

    /** _terminate_run: the run is given back, and test_ended called, when nobody else has it. */
    method TerminateRun(agent: string) returns (over: Option<string>)
      requires Sound(St())
      modifies this
      ensures Sound(St()) && NoMove(old(St()), St())
      ensures St() == Terminated(old(St()), agent) && over == LastOf(old(St()), agent)
      ensures runs == old(runs) - {agent} && agentTimes == old(agentTimes) - {agent} && agents == old(agents)
      ensures over.Some? <==> agent in old(runs) && forall a :: a in runs ==> runs[a].run != old(runs)[agent].run
      ensures over.Some? ==> over.value == old(runs)[agent].run && ended == old(ended) + [over.value]
      ensures over.None? ==> ended == old(ended)
    {
      agentTimes := agentTimes - {agent};
      if agent !in runs {
        return None;
      }
      var run := runs[agent].run;
      runs := runs - {agent};
      var running := set a | a in runs :: runs[a].run;
      assert run in running <==> !Over(runs, run);
      if run !in running {
        ended := ended + [run];
        return Some(run);
      }
      return None;
    }

    /** An agent that is running nothing any more leaves its run; one that is has been heard of. */
    method UpdateStatus(agent: string, statuses: seq<string>, now: real) returns (over: Option<string>)
      requires Sound(St())
      modifies this
      ensures Sound(St()) && NoMove(old(St()), St())
      ensures "running" in statuses ==> over == None && St() == old(St()).(times := old(agentTimes)[agent := now])
      ensures "running" !in statuses ==> over == LastOf(old(St()), agent) && St() == Terminated(old(St()), agent)
      ensures "running" !in statuses ==> runs == old(runs) - {agent} && agentTimes == old(agentTimes) - {agent}
    {
      if "running" !in statuses {
        over := TerminateRun(agent);
        return;
      }
      agentTimes := agentTimes[agent := now];
      return None;
    }

    /** save_data: the run that the data belongs to. An agent without a run gets that of its data. */
    method SaveData(agent: string, info: string, run: string, when: real) returns (actual: string)
      requires Sound(St())
      modifies this
      ensures Sound(St()) && NoMove(old(St()), St())
      ensures agent in runs && actual == runs[agent].run
      ensures St() == Saved(old(St()), agent, info, run, when)
      ensures agents == if agent in old(agents) then old(agents) else old(agents)[agent := info]
      ensures runs == if agent in old(runs) then old(runs) else old(runs)[agent := Assignment(run, when)]
    {
      RegisterAgent(agent, info);
      if agent in runs {
        actual := runs[agent].run;
      } else {
        Associate(run, [agent], when);
        assert runs == old(runs)[agent := Assignment(run, when)];
        actual := run;
      }
    }

    /** clean; order is the order of the dictionary of runs, failing are the agents out of reach. */
    method Clean(now: real, order: seq<string>, failing: set<string>)
      requires Sound(St()) && Order(runs, order)
      modifies this
      ensures Sound(St()) && NoMove(old(St()), St())
      ensures St() == CleanedAll(old(St()), order, now, timeout, failing)
    {
      hide Order;
      assert order[..0] == [];
      for i := 0 to |order|
        invariant Sound(St()) && NoMove(old(St()), St())
        invariant St() == CleanedAll(old(St()), order[..i], now, timeout, failing)
      {
        CleanedNext(old(St()), order, i, now, timeout, failing);
        CleanOne(order[i], now, order[i] in failing, failing);
      }
      assert order[..|order|] == order;
    }

    method CleanOne(agent: string, now: real, fails: bool, ghost failing: set<string>)
      requires Sound(St()) && fails == (agent in failing)
      modifies this
      ensures Sound(St()) && St() == Cleaned(old(St()), agent, now, timeout, failing)
    {
      hide Terminated, LastOf, Sound, NoMove, Removed;
      CleanedSound(St(), agent, now, timeout, failing);
      if agent in agentTimes && now - agentTimes[agent] > timeout {
        SendToAgent(agent, fails);
        var over := TerminateRun(agent);
        if over.Some? {
          published := published + [over.value];
        }
      } else {
        if agent !in agentTimes {
          agentTimes := agentTimes[agent := now];
        }
        TimesSound(old(St()), St());
        SendToAgent(agent, fails);
      }
    }
  }

  /** What can happen to the controller. */
  datatype Event =
    | Register(agent: string, info: string)
    | Unregister(agent: string)
    | UnregisterAll
    | Reserve(num: int, run: string, tries: seq<Try>, when: real)
    | Send(agent: string, fails: bool)
    | Status(agent: string, statuses: seq<string>, now: real)
    | Data(agent: string, info: string, run: string, when: real)
    | CleaningPass(now: real, failing: set<string>)

  /** The two ways to give a run to an agent. */
  predicate Gives(event: Event, run: string) {
    (event.Reserve? || event.Data?) && event.run == run
  }

  ghost predicate GivenBetween(events: seq<Event>, first: int, second: int, run: string) {
    exists i :: 0 <= first < i < second <= |events| && Gives(events[i], run)
  }

  /** No agent is unregistered, and none is out of reach. */
  predicate Reaches(event: Event) {
    match event
    case Unregister(_) => false
    case UnregisterAll => false
    case Send(_, fails) => !fails
    case CleaningPass(_, failing) => failing == {}
    case _ => true
  }

  /**
   * What every event keeps: agents with a run stay registered and in their run, a run ends only with
   * its last agent, only Reserve and Data open one, and none is dropped as long as agents are reached.
   */
  ghost predicate Lawful(st: State, event: Event, after: State) {
    && Sound(after) && NoMove(st, after) && EndsOnce(st, after)
    && (forall run :: Opens(st, after, run) ==> Gives(event, run))
    && (Reaches(event) ==> DropsNone(st, after))
  }

  method HappenReserve(c: Controller, num: int, run: string, tries: seq<Try>, when: real)
    requires Sound(c.St())
    modifies c
    ensures Lawful(old(c.St()), Reserve(num, run, tries, when), c.St())
  {
    hide Sound, NoMove, EndsOnce, Opens, DropsNone, Assigned;
    ghost var st := c.St();
    var r := c.ReserveAgents(num, run, tries, when);
    NothingEnded(st, c.St());
    if r.Reserved? {
      AgentsAssigned(st, c.St(), r.agents, run, when);
    } else {
      RunsKept(st, c.St());
    }
  }

  method HappenStatus(c: Controller, agent: string, statuses: seq<string>, now: real)
    requires Sound(c.St())
    modifies c
    ensures Lawful(old(c.St()), Event.Status(agent, statuses, now), c.St())
  {
    hide Sound, NoMove, EndsOnce, Opens, DropsNone, Terminated;
    ghost var st := c.St();
    var _ := c.UpdateStatus(agent, statuses, now);
    if "running" in statuses {
      NothingEnded(st, c.St());
      RunsKept(st, c.St());
    } else {
      TerminatedEnds(st, agent);
    }
  }

  method HappenPass(c: Controller, now: real, failing: set<string>)
    requires Sound(c.St())
    modifies c
    ensures Lawful(old(c.St()), CleaningPass(now, failing), c.St())
  {
    hide Sound, NoMove, EndsOnce, Opens, DropsNone, CleanedAll;
    ghost var st := c.St();
    var order := Elements(c.runs.Keys);
    ElementsOrder(order, c.runs);
    c.Clean(now, order, failing);
    PassEnds(st, order, now, c.timeout, failing);
  }

  method Happen(c: Controller, event: Event)
    requires Sound(c.St())
    modifies c
    ensures Lawful(old(c.St()), event, c.St())
  {
    hide Sound, NoMove, EndsOnce, Opens, DropsNone, Terminated, CleanedAll, Assigned, Saved, Removed, RemovedAll;
    ghost var st := c.St();
    match event {
      case Register(agent, info) =>
        NoMoveSame(c.St());
        c.RegisterAgent(agent, info);
        RunsSame(st, c.St());
        NothingEnded(st, c.St());
        RunsKept(st, c.St());
      case Unregister(agent) =>
        c.UnregisterAgent(agent);
        AgentGone(st, c.St(), agent);
      case UnregisterAll =>
        c.UnregisterAgents();
        NobodyLeft(st, c.St(), st.agents.Keys);
      case Reserve(num, run, tries, when) => HappenReserve(c, num, run, tries, when);
      case Send(agent, fails) =>
        c.SendToAgent(agent, fails);
        AgentGone(st, c.St(), agent);
      case Status(agent, statuses, now) =>
        HappenStatus(c, agent, statuses, now);
      case Data(agent, info, run, when) =>
        var _ := c.SaveData(agent, info, run, when);
        DataSaved(st, agent, info, run, when);
      case CleaningPass(now, failing) =>
        HappenPass(c, now, failing);
    }
  }

  lemma AgentGone(st: State, after: State, agent: string)
    requires after == st || after == Removed(st, agent)
    ensures EndsOnce(st, after) && forall run :: !Opens(st, after, run)
    ensures after == st ==> DropsNone(st, after)
  {
    NothingEnded(st, after);
    RunsTaken(st, after);
  }

  lemma AgentsAssigned(st: State, after: State, chosen: seq<string>, run: string, when: real)
    requires after.runs == Assigned(st.runs, chosen, Assignment(run, when))
    requires forall a :: a in chosen ==> a !in st.runs
    ensures DropsNone(st, after) && forall r :: Opens(st, after, r) ==> r == run
  {
    RunsGiven(st, after, run);
  }

  lemma DataSaved(st: State, agent: string, info: string, run: string, when: real)
    ensures var after := Saved(st, agent, info, run, when);
      EndsOnce(st, after) && DropsNone(st, after) && forall r :: Opens(st, after, r) ==> r == run
  {
    var after := Saved(st, agent, info, run, when);
    NothingEnded(st, after);
    RunsGiven(st, after, run);
  }

  /**
   * Over any history every step is lawful, and the endings of every run are accounted for: with the
   * times it was dropped, and with its being held now, they are the times it was opened. While agents
   * are reached none is dropped. So a run ends again only after it was given to an agent again.
   */
  method Run(timeout: real, events: seq<Event>) returns (c: Controller, ghost history: seq<State>)
    ensures fresh(c) && |history| == |events| + 1 && history[|events|] == c.St()
    ensures forall i :: 0 <= i <= |events| ==> Sound(history[i])
    ensures forall i :: 0 <= i < |events| ==> Lawful(history[i], events[i], history[i + 1])
    ensures forall run ::
      Endings(c.St(), run) + Dropped(history, run) + (if Over(c.runs, run) then 0 else 1) == Openings(history, run)
    ensures (forall i :: 0 <= i < |events| ==> Reaches(events[i])) ==> forall run :: Dropped(history, run) == 0
    ensures forall run, first: nat, second: nat ::
      first < second && EndsAt(history, first, run) && EndsAt(history, second, run) ==>
        GivenBetween(events, first, second, run)
  {
    hide Lawful, Opens, Ends, Endings, EndsOnce, DropsNone;
    c := new Controller(timeout);
    history := [c.St()];
    for i := 0 to |events|
      invariant fresh(c) && |history| == i + 1 && history[0] == State(map[], map[], map[], [], [])
      invariant history[i] == c.St()
      invariant forall k :: 0 <= k <= i ==> Sound(history[k])
      invariant forall k :: 0 <= k < i ==> Lawful(history[k], events[k], history[k + 1])
    {
      Happen(c, events[i]);
      LawfulSound(history[i], events[i], c.St());
      history := history + [c.St()];
    }
    RunsAccounted(history, events);
  }

  lemma LawfulSound(st: State, event: Event, after: State)
    requires Lawful(st, event, after)
    ensures Sound(after)
  {
  }

  lemma LawfulEnds(history: seq<State>, events: seq<Event>)
    requires |history| == |events| + 1
    requires forall i :: 0 <= i < |events| ==> Lawful(history[i], events[i], history[i + 1])
    ensures EachEndsOnce(history)
    ensures (forall i :: 0 <= i < |events| ==> Reaches(events[i])) ==>
      forall i :: 0 <= i < |history| - 1 ==> DropsNone(history[i], history[i + 1])
    ensures forall i, run :: 0 <= i < |events| && Opens(history[i], history[i + 1], run) ==> Gives(events[i], run)
  {
    hide EndsOnce, DropsNone, Opens;
  }

  lemma RunsAccounted(history: seq<State>, events: seq<Event>)
    requires |history| == |events| + 1 && history[0] == State(map[], map[], map[], [], [])
    requires forall i :: 0 <= i < |events| ==> Lawful(history[i], events[i], history[i + 1])
    ensures var now := history[|events|]; forall run ::
      Endings(now, run) + Dropped(history, run) + (if Over(now.runs, run) then 0 else 1) == Openings(history, run)
    ensures (forall i :: 0 <= i < |events| ==> Reaches(events[i])) ==> forall run :: Dropped(history, run) == 0
    ensures forall run, first: nat, second: nat ::
      first < second && EndsAt(history, first, run) && EndsAt(history, second, run) ==>
        GivenBetween(events, first, second, run)
  {
    hide Lawful, Opens, Ends, EndsAt, Endings, EachEndsOnce, Dropped, Openings, DropsNone, Over;
    LawfulEnds(history, events);
    forall run
      ensures var now := history[|events|];
        Endings(now, run) + Dropped(history, run) + (if Over(now.runs, run) then 0 else 1) == Openings(history, run)
      ensures (forall i :: 0 <= i < |events| ==> Reaches(events[i])) ==> Dropped(history, run) == 0
    {
      Ledger(history, run);
      if forall i :: 0 <= i < |events| ==> Reaches(events[i]) {
        NoneDropped(history, run);
      }
    }
    forall run, first: nat, second: nat |
      first < second && EndsAt(history, first, run) && EndsAt(history, second, run)
      ensures GivenBetween(events, first, second, run)
    {
      EndsInside(history, second, run);
      OpenedBetween(history, run, first, second);
      var i :| first < i < second && Opens(history[i], history[i + 1], run);
      assert Gives(events[i], run);
    }
  }

  lemma NoMoveSame(st: State)
    ensures NoMove(st, st)
  {
  }

  lemma RunsSame(st: State, after: State)
    requires after.runs == st.runs
    ensures NoMove(st, after)
  {
  }

  lemma NobodyLeft(st: State, after: State, gone: set<string>)
    requires Sound(st) && after == RemovedAll(st, gone) && after.runs == map[]
    ensures Sound(after) && NoMove(st, after) && EndsOnce(st, after) && forall run :: !Opens(st, after, run)
  {
    NothingEnded(st, after);
    RunsTaken(st, after);
  }

  lemma ElementsOrder(order: seq<string>, runs: map<string, Assignment>)
    requires multiset(order) == multiset(runs.Keys)
    ensures Order(runs, order)
  {
    ChosenFree(order, [], runs.Keys);
    forall a | a in runs ensures a in order {
      assert a in multiset(runs.Keys);
      assert a in multiset(order);
    }
  }

  lemma Taken(chosen: seq<string>, available: seq<string>, k: nat)
    requires k < |available|
    ensures multiset(chosen + [available[k]]) + multiset(available[..k] + available[k + 1..]) ==
            multiset(chosen) + multiset(available)
  {
    assert available == available[..k] + [available[k]] + available[k + 1..];
  }

  lemma AvailableFree(chosen: seq<string>, available: seq<string>, free: set<string>, k: nat)
    requires multiset(chosen) + multiset(available) == multiset(free) && k < |available|
    ensures available[k] in free
  {
    assert multiset(free)[available[k]] > 0;
  }

  /** The chosen are different and free. */
  lemma ChosenFree(chosen: seq<string>, available: seq<string>, free: set<string>)
    requires multiset(chosen) + multiset(available) == multiset(free)
    ensures Distinct(chosen) && forall a :: a in chosen ==> a in free
  {
    forall i, j | 0 <= i < j < |chosen| ensures chosen[i] != chosen[j] {
      assert chosen == chosen[..i] + [chosen[i]] + chosen[i + 1..j] + [chosen[j]] + chosen[j + 1..];
      assert chosen[i] == chosen[j] ==> multiset(chosen)[chosen[i]] >= 2;
      assert multiset(free)[chosen[i]] <= 1;
    }
    forall a | a in chosen ensures a in free {
      assert multiset(chosen)[a] > 0;
      assert multiset(free)[a] > 0;
    }
  }
}
