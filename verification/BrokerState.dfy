// The agents and runs of the broker as a value, and what a cleaning pass does to them
// (loads/transport/brokerctrl.py).

module BrokerState {
  import opened Wrappers

  /** The run of an agent, and when it was given to it. */
  datatype Assignment = Assignment(run: string, when: real)

  /** The dictionaries, the runs that test_ended was called for, and those published as finished. */
  datatype State = State(
    agents: map<string, string>, runs: map<string, Assignment>, times: map<string, real>,
    ended: seq<string>, published: seq<string>)

  /** Agents with a run are registered, and what was published as finished has ended, as often. */
  ghost predicate Sound(st: State) {
    st.runs.Keys <= st.agents.Keys && multiset(st.published) <= multiset(st.ended)
  }

  /** No agent goes from one run to another. */
  ghost predicate NoMove(st: State, after: State) {
    forall a :: a in st.runs && a in after.runs ==> after.runs[a].run == st.runs[a].run
  }

  function Removed(st: State, agent: string): State {
    st.(agents := st.agents - {agent}, runs := st.runs - {agent}, times := st.times - {agent})
  }

  /** Nobody has the run. */
  ghost predicate Over(runs: map<string, Assignment>, run: string) {
    forall a :: a in runs ==> runs[a].run != run
  }

  /** What _terminate_run does: the run ends with its last agent. */
  ghost function Terminated(st: State, agent: string): State {
    var off := st.(times := st.times - {agent});
    if agent !in st.runs then off else
    var run := st.runs[agent].run;
    var left := off.(runs := st.runs - {agent});
    if Over(left.runs, run) then left.(ended := left.ended + [run]) else left
  }

  /** What _terminate_run gives back. */
  ghost function LastOf(st: State, agent: string): Option<string> {
    if agent in st.runs && Over(st.runs - {agent}, st.runs[agent].run) then Some(st.runs[agent].run) else None
  }

  lemma NoAgentsNoRuns(st: State)
    requires Sound(st) && st.agents.Keys == {}
    ensures st.agents == map[] && st.runs == map[]
  {
    assert st.runs.Keys == {};
  }

  function RemovedAll(st: State, gone: set<string>): State {
    st.(agents := st.agents - gone, runs := st.runs - gone, times := st.times - gone)
  }

  lemma RemovedNone(st: State)
    ensures RemovedAll(st, {}) == st
  {
    assert st.agents - {} == st.agents && st.runs - {} == st.runs && st.times - {} == st.times;
  }

  lemma RemovedOne(st: State, gone: set<string>, agent: string)
    ensures Removed(RemovedAll(st, gone), agent) == RemovedAll(st, gone + {agent})
  {
    assert st.agents - gone - {agent} == st.agents - (gone + {agent});
    assert st.runs - gone - {agent} == st.runs - (gone + {agent});
    assert st.times - gone - {agent} == st.times - (gone + {agent});
  }

  /** The runs after some agents were given one. */
  function Assigned(runs: map<string, Assignment>, chosen: seq<string>, run: Assignment): map<string, Assignment> {
    map a | a in runs.Keys + (set x | x in chosen) :: if a in chosen then run else runs[a]
  }

  /** What save_data does: the agent is registered, and has a run. */
  function Saved(st: State, agent: string, info: string, run: string, when: real): State {
    st.(agents := if agent in st.agents then st.agents else st.agents[agent := info],
        runs := if agent in st.runs then st.runs else st.runs[agent := Assignment(run, when)])
  }

  /**
   * Data that comes late brings an agent back into its run, which then ends once more:
   * test_ended is called twice for it.
   */
  lemma EndsTwice(agent: string, run: string, when: real, info: string)
    ensures var start := Saved(State(map[], map[], map[], [], []), agent, info, run, when);
            var again := Saved(Terminated(start, agent), agent, info, run, when);
            Terminated(again, agent).ended == [run, run]
  {
    var start := Saved(State(map[], map[], map[], [], []), agent, info, run, when);
    assert (start.runs - {agent}).Keys == {};
    var off := Terminated(start, agent);
    assert off.ended == [run];
    var again := Saved(off, agent, info, run, when);
    assert (again.runs - {agent}).Keys == {};
  }

  // ------------------------------------------------------- a cleaning pass

  predicate Late(st: State, agent: string, now: real, timeout: real) {
    agent in st.times && now - st.times[agent] > timeout
  }

  /** What is done for one agent; sending to the failing agents does not work. */
  ghost function Cleaned(st: State, agent: string, now: real, timeout: real, failing: set<string>): State {
    if Late(st, agent, now, timeout) then
      var told := if agent in failing then Removed(st, agent) else st;
      var off := Terminated(told, agent);
      if LastOf(told, agent).Some? then off.(published := off.published + [LastOf(told, agent).value]) else off
    else
      var timed := if agent in st.times then st else st.(times := st.times[agent := now]);
      if agent in failing then Removed(timed, agent) else timed
  }

  ghost function CleanedAll(st: State, order: seq<string>, now: real, timeout: real, failing: set<string>): State {
    if order == [] then st else
    var n := |order| - 1;
    Cleaned(CleanedAll(st, order[..n], now, timeout, failing), order[n], now, timeout, failing)
  }

  lemma CleanedNext(st: State, order: seq<string>, i: nat, now: real, timeout: real, failing: set<string>)
    requires i < |order|
    ensures CleanedAll(st, order[..i + 1], now, timeout, failing) ==
            Cleaned(CleanedAll(st, order[..i], now, timeout, failing), order[i], now, timeout, failing)
  {
    assert order[..i + 1][..i] == order[..i];
  }

  lemma CleanedSound(st: State, agent: string, now: real, timeout: real, failing: set<string>)
    requires Sound(st)
    ensures Sound(Cleaned(st, agent, now, timeout, failing))
  {
    var told := if agent in failing then Removed(st, agent) else st;
    assert Sound(told);
  }

  lemma TimesSound(st: State, after: State)
    requires Sound(st) && after == st.(times := after.times)
    ensures Sound(after)
  {
  }

  /** The agents that a pass takes out of their runs. */
  predicate Gone(st: State, agent: string, now: real, timeout: real, failing: set<string>) {
    Late(st, agent, now, timeout) || agent in failing
  }

  /** The order in which a pass goes through the agents with a run: each of them once. */
  ghost predicate Order(runs: map<string, Assignment>, order: seq<string>) {
    && (forall a :: a in runs <==> a in order)
    && (forall i, j :: 0 <= i < j < |order| ==> order[i] != order[j])
  }

  /** At this place of the order the run is found to be over. */
  ghost predicate FinishedAt(st: State, order: seq<string>, i: nat, run: string, now: real, timeout: real,
                             failing: set<string>)
  {
    && i < |order| && order[i] in st.runs && st.runs[order[i]].run == run
    && Late(st, order[i], now, timeout) && order[i] !in failing
    && forall a :: a in st.runs && st.runs[a].run == run ==> a in order[..i + 1] && Gone(st, a, now, timeout, failing)
  }

  ghost predicate Distinct(s: seq<string>) {
    forall i, j :: 0 <= i < j < |s| ==> s[i] != s[j]
  }

  // The state in the middle of a pass, when the agents of order have been dealt with.

  ghost predicate RunsBetween(st: State, order: seq<string>, mid: State, now: real, timeout: real,
                              failing: set<string>)
  {
    && (forall a :: a in mid.runs <==> a in st.runs && !(a in order && Gone(st, a, now, timeout, failing)))
    && (forall a :: a in mid.runs ==> mid.runs[a] == st.runs[a])
  }

  ghost predicate AgentsBetween(st: State, order: seq<string>, mid: State, failing: set<string>) {
    && (forall a :: a in mid.agents <==> a in st.agents && !(a in order && a in failing))
    && (forall a :: a in mid.agents ==> mid.agents[a] == st.agents[a])
  }

  ghost predicate TimesBetween(st: State, order: seq<string>, mid: State, now: real, timeout: real,
                               failing: set<string>)
  {
    && (forall a :: a !in order ==>
          (a in mid.times <==> a in st.times) && (a in st.times ==> mid.times[a] == st.times[a]))
    && (forall a :: a in order && Gone(st, a, now, timeout, failing) ==> a !in mid.times)
    && (forall a :: a in order && !Gone(st, a, now, timeout, failing) ==>
          a in mid.times && mid.times[a] == if a in st.times then st.times[a] else now)
  }

  ghost predicate NewsBetween(st: State, order: seq<string>, mid: State, news: seq<string>, now: real, timeout: real,
                              failing: set<string>)
  {
    && mid.published == st.published + news && mid.ended == st.ended + news && Distinct(news)
    && (forall r :: r in news <==> exists i: nat :: FinishedAt(st, order, i, r, now, timeout, failing))
  }

  ghost predicate Between(st: State, order: seq<string>, mid: State, news: seq<string>, now: real, timeout: real,
                          failing: set<string>)
  {
    && RunsBetween(st, order, mid, now, timeout, failing) && AgentsBetween(st, order, mid, failing)
    && TimesBetween(st, order, mid, now, timeout, failing) && NewsBetween(st, order, mid, news, now, timeout, failing)
  }

  lemma BetweenNone(st: State, now: real, timeout: real, failing: set<string>)
    ensures Between(st, [], st, [], now, timeout, failing)
  {
  }

  lemma NextRuns(st: State, order: seq<string>, agent: string, mid: State, now: real, timeout: real,
                 failing: set<string>)
    requires RunsBetween(st, order, mid, now, timeout, failing) && agent !in order
    requires TimesBetween(st, order, mid, now, timeout, failing)
    ensures RunsBetween(st, order + [agent], Cleaned(mid, agent, now, timeout, failing), now, timeout, failing)
  {
    assert Late(mid, agent, now, timeout) == Late(st, agent, now, timeout);
    assert forall a :: a in order + [agent] <==> a in order || a == agent;
  }

  lemma NextAgents(st: State, order: seq<string>, agent: string, mid: State, now: real, timeout: real,
                   failing: set<string>)
    requires AgentsBetween(st, order, mid, failing)
    ensures AgentsBetween(st, order + [agent], Cleaned(mid, agent, now, timeout, failing), failing)
  {
    assert forall a :: a in order + [agent] <==> a in order || a == agent;
  }

  lemma NextTimes(st: State, order: seq<string>, agent: string, mid: State, now: real, timeout: real,
                  failing: set<string>)
    requires TimesBetween(st, order, mid, now, timeout, failing) && agent !in order
    ensures TimesBetween(st, order + [agent], Cleaned(mid, agent, now, timeout, failing), now, timeout, failing)
  {
    assert Late(mid, agent, now, timeout) == Late(st, agent, now, timeout);
    assert forall a :: a in order + [agent] <==> a in order || a == agent;
  }

  /** The news of one step: the run of the agent, when it is found to be over. */
  ghost function NewsOf(mid: State, agent: string, now: real, timeout: real, failing: set<string>): seq<string> {
    if Late(mid, agent, now, timeout) && agent !in failing && LastOf(mid, agent).Some? then [LastOf(mid, agent).value]
    else []
  }

  lemma CleanedNews(mid: State, agent: string, now: real, timeout: real, failing: set<string>)
    ensures var news := NewsOf(mid, agent, now, timeout, failing);
            var after := Cleaned(mid, agent, now, timeout, failing);
            after.published == mid.published + news && after.ended == mid.ended + news
  {
  }

  /** A run is found to be over at the next agent exactly when nobody else has it any more. */
  lemma NextFinished(st: State, order: seq<string>, agent: string, mid: State, run: string, now: real, timeout: real,
                     failing: set<string>)
    requires RunsBetween(st, order, mid, now, timeout, failing) && TimesBetween(st, order, mid, now, timeout, failing)
    requires agent !in order && agent in st.runs
    ensures FinishedAt(st, order + [agent], |order|, run, now, timeout, failing) <==>
            run in NewsOf(mid, agent, now, timeout, failing)
  {
    assert (order + [agent])[..|order| + 1] == order + [agent];
    assert agent in mid.runs && mid.runs[agent] == st.runs[agent];
    if run == st.runs[agent].run {
      OverThen(st, order, agent, mid, now, timeout, failing);
      assert run in NewsOf(mid, agent, now, timeout, failing) <==>
             Late(mid, agent, now, timeout) && agent !in failing && Over(mid.runs - {agent}, run);
    }
  }

  lemma OverThen(st: State, order: seq<string>, agent: string, mid: State, now: real, timeout: real,
                 failing: set<string>)
    requires RunsBetween(st, order, mid, now, timeout, failing) && agent !in order && agent in st.runs
    ensures Over(mid.runs - {agent}, st.runs[agent].run) <==>
            forall a :: a in st.runs && st.runs[a].run == st.runs[agent].run && a != agent ==>
                          a in order && Gone(st, a, now, timeout, failing)
  {
    hide Gone;
    var run := st.runs[agent].run;
    forall a | a in st.runs && st.runs[a].run == run && a != agent
      ensures a in mid.runs - {agent} <==> !(a in order && Gone(st, a, now, timeout, failing))
      ensures a in mid.runs - {agent} ==> (mid.runs - {agent})[a].run == run
    {
    }
  }

  lemma FinishedEarlier(st: State, order: seq<string>, agent: string, i: nat, run: string, now: real, timeout: real,
                        failing: set<string>)
    requires i < |order|
    ensures FinishedAt(st, order + [agent], i, run, now, timeout, failing) <==>
            FinishedAt(st, order, i, run, now, timeout, failing)
  {
    assert (order + [agent])[..i + 1] == order[..i + 1];
  }

  lemma NextNews(st: State, order: seq<string>, agent: string, mid: State, news: seq<string>, now: real, timeout: real,
                 failing: set<string>)
    requires Between(st, order, mid, news, now, timeout, failing) && agent !in order && agent in st.runs
    ensures var more, cleaned := NewsOf(mid, agent, now, timeout, failing), Cleaned(mid, agent, now, timeout, failing);
            NewsBetween(st, order + [agent], cleaned, news + more, now, timeout, failing)
  {
    var more := NewsOf(mid, agent, now, timeout, failing);
    CleanedNews(mid, agent, now, timeout, failing);
    hide Cleaned, RunsBetween, TimesBetween, AgentsBetween, NewsOf, LastOf, Late;
    forall r ensures r in news + more <==>
                     exists i: nat :: FinishedAt(st, order + [agent], i, r, now, timeout, failing)
    {
      AllFinished(st, order, agent, r, now, timeout, failing);
      NextFinished(st, order, agent, mid, r, now, timeout, failing);
    }
    forall r | r in more ensures r !in news {
      NextFinished(st, order, agent, mid, r, now, timeout, failing);
    }
    NewsShort(mid, agent, now, timeout, failing);
    DistinctMore(news, more);
    assert st.published + news + more == st.published + (news + more);
    assert st.ended + news + more == st.ended + (news + more);
  }

  lemma DistinctMore(news: seq<string>, more: seq<string>)
    requires Distinct(news) && |more| <= 1 && forall r :: r in more ==> r !in news
    ensures Distinct(news + more)
  {
    if more != [] {
      assert more[0] in more;
    }
  }

  lemma NewsShort(mid: State, agent: string, now: real, timeout: real, failing: set<string>)
    ensures |NewsOf(mid, agent, now, timeout, failing)| <= 1
  {
  }

  lemma AllFinished(st: State, order: seq<string>, agent: string, run: string, now: real, timeout: real,
                    failing: set<string>)
    ensures (exists i: nat :: FinishedAt(st, order + [agent], i, run, now, timeout, failing)) <==>
            || (exists i: nat :: FinishedAt(st, order, i, run, now, timeout, failing))
            || FinishedAt(st, order + [agent], |order|, run, now, timeout, failing)
  {
    forall i: nat ensures FinishedAt(st, order + [agent], i, run, now, timeout, failing) <==>
                          || FinishedAt(st, order, i, run, now, timeout, failing)
                          || (i == |order| && FinishedAt(st, order + [agent], |order|, run, now, timeout, failing))
    {
      if i < |order| {
        FinishedEarlier(st, order, agent, i, run, now, timeout, failing);
      }
    }
  }

  /** A step of a pass. */
  lemma NextBetween(st: State, order: seq<string>, agent: string, mid: State, news: seq<string>, now: real,
                    timeout: real, failing: set<string>)
    requires Between(st, order, mid, news, now, timeout, failing) && agent !in order && agent in st.runs
    ensures Between(st, order + [agent], Cleaned(mid, agent, now, timeout, failing),
                    news + NewsOf(mid, agent, now, timeout, failing), now, timeout, failing)
  {
    hide NewsBetween, NewsOf, Cleaned, RunsBetween, AgentsBetween, TimesBetween;
    NextNews(st, order, agent, mid, news, now, timeout, failing);
    NextRuns(st, order, agent, mid, now, timeout, failing);
    NextAgents(st, order, agent, mid, now, timeout, failing);
    NextTimes(st, order, agent, mid, now, timeout, failing);
  }

  /** The whole pass, or the beginning of it. */
  lemma {:induction false} PassSoFar(st: State, order: seq<string>, now: real, timeout: real, failing: set<string>)
    returns (news: seq<string>)
    requires Distinct(order) && forall a :: a in order ==> a in st.runs
    ensures Between(st, order, CleanedAll(st, order, now, timeout, failing), news, now, timeout, failing)
  {
    hide Between, Cleaned, NewsOf;
    if order == [] {
      news := [];
      BetweenNone(st, now, timeout, failing);
    } else {
      var n := |order| - 1;
      var before := PassSoFar(st, order[..n], now, timeout, failing);
      var mid := CleanedAll(st, order[..n], now, timeout, failing);
      assert order == order[..n] + [order[n]];
      NextBetween(st, order[..n], order[n], mid, before, now, timeout, failing);
      news := before + NewsOf(mid, order[n], now, timeout, failing);
    }
  }

  /** All agents of a run are out of it, and one of them had it. */
  ghost predicate AllGone(st: State, run: string, now: real, timeout: real, failing: set<string>) {
    && (exists a :: a in st.runs && st.runs[a].run == run)
    && (forall a :: a in st.runs && st.runs[a].run == run ==> Gone(st, a, now, timeout, failing))
  }

  /**
   * What a cleaning pass does, whatever the order it goes in. Agents that are late or could
   * not be reached have lost their runs; only those that could not be reached are forgotten.
   * The timer of the others runs from the last time they were heard of, or from now.
   * The runs that are published are published once, and test_ended was called for each.
   * A run is published exactly when all of its agents are gone and the last one to go was
   * told so; when everybody can be reached, that is when all of its agents are late.
   */
  lemma CleanPass(st: State, order: seq<string>, now: real, timeout: real, failing: set<string>)
    returns (news: seq<string>)
    requires Order(st.runs, order)
    ensures var after := CleanedAll(st, order, now, timeout, failing);
            && (forall a :: a in after.runs <==>
                  a in st.runs && !((a in st.times && now - st.times[a] > timeout) || a in failing))
            && (forall a :: a in after.runs ==> after.runs[a] == st.runs[a])
            && (forall a :: a in after.runs ==>
                  a in after.times && after.times[a] == if a in st.times then st.times[a] else now)
            && (forall a :: a in st.runs && a !in after.runs ==> a !in after.times)
            && (forall a :: a !in st.runs ==>
                  (a in after.times <==> a in st.times) && (a in st.times ==> after.times[a] == st.times[a]))
            && after.agents == st.agents - (failing * st.runs.Keys)
            && after.published == st.published + news && after.ended == st.ended + news && Distinct(news)
    ensures forall r :: r in news <==> exists i: nat :: FinishedAt(st, order, i, r, now, timeout, failing)
    ensures failing !! st.runs.Keys ==> forall r :: r in news <==> AllGone(st, r, now, timeout, failing)
  {
    news := PassSoFar(st, order, now, timeout, failing);
    var after := CleanedAll(st, order, now, timeout, failing);
    hide CleanedAll;
    assert after.agents.Keys == (st.agents - (failing * st.runs.Keys)).Keys;
    hide RunsBetween, AgentsBetween, TimesBetween;
    if failing !! st.runs.Keys {
      forall r ensures r in news <==> AllGone(st, r, now, timeout, failing) {
        FinishedIff(st, order, r, now, timeout, failing);
      }
    }
  }

  /** An agent that the first pass finds in its run for the first time, and that is silent until the second. */
  ghost predicate Silent(st: State, mid: State, later: State, agent: string, failing: set<string>) {
    && agent in st.runs && agent !in st.times && agent !in failing
    && agent in later.runs && agent in mid.times && agent in later.times && later.times[agent] == mid.times[agent]
  }

  /**
   * The timer of an agent that was never heard of starts with the first pass. When a pass more than the
   * timeout later has still not heard of it, it loses its run, whatever happened to others between.
   */
  lemma SilentAgentGone(st: State, order: seq<string>, now: real, failing: set<string>, later: State,
                        order2: seq<string>, now2: real, failing2: set<string>, timeout: real, agent: string)
    requires Order(st.runs, order) && Order(later.runs, order2) && now2 - now > timeout
    requires Silent(st, CleanedAll(st, order, now, timeout, failing), later, agent, failing)
    ensures later.times[agent] == now
    ensures agent !in CleanedAll(later, order2, now2, timeout, failing2).runs
  {
    var _ := CleanPass(st, order, now, timeout, failing);
    var _ := CleanPass(later, order2, now2, timeout, failing2);
  }

  /** A run all of whose agents are silent like that ends with the second pass, and is published. */
  lemma SilentRunEnds(st: State, order: seq<string>, now: real, failing: set<string>, later: State,
                      order2: seq<string>, now2: real, failing2: set<string>, timeout: real, run: string)
    returns (news: seq<string>)
    requires Order(st.runs, order) && Order(later.runs, order2) && now2 - now > timeout
    requires failing2 !! later.runs.Keys && !Over(later.runs, run)
    requires forall a :: a in later.runs && later.runs[a].run == run ==>
               Silent(st, CleanedAll(st, order, now, timeout, failing), later, a, failing)
    ensures var after := CleanedAll(later, order2, now2, timeout, failing2);
      && Over(after.runs, run) && run in news
      && after.published == later.published + news && after.ended == later.ended + news
  {
    news := CleanPass(later, order2, now2, timeout, failing2);
    forall a | a in later.runs && later.runs[a].run == run
      ensures Gone(later, a, now2, timeout, failing2)
    {
      SilentAgentGone(st, order, now, failing, later, order2, now2, failing2, timeout, a);
    }
    assert AllGone(later, run, now2, timeout, failing2);
  }

  /** Without failures a run is found to be over, sooner or later, when all of its agents are late. */
  lemma FinishedIff(st: State, order: seq<string>, run: string, now: real, timeout: real, failing: set<string>)
    requires Order(st.runs, order) && failing !! st.runs.Keys
    ensures (exists i: nat :: FinishedAt(st, order, i, run, now, timeout, failing)) <==>
            AllGone(st, run, now, timeout, failing)
  {
    if AllGone(st, run, now, timeout, failing) {
      var i := LastWith(st, order, run, |order|);
      assert FinishedAt(st, order, i, run, now, timeout, failing);
    }
  }

  /** The last agent with a run, among the first n of the order. */
  lemma {:induction false} LastWith(st: State, order: seq<string>, run: string, n: nat) returns (i: nat)
    requires n <= |order| && forall a :: a in order ==> a in st.runs
    requires exists k :: 0 <= k < n && st.runs[order[k]].run == run
    ensures i < n && st.runs[order[i]].run == run
    ensures forall k :: 0 <= k < n && st.runs[order[k]].run == run ==> order[k] in order[..i + 1]
  {
    if st.runs[order[n - 1]].run == run {
      i := n - 1;
    } else {
      i := LastWith(st, order, run, n - 1);
    }
  }

  /** The only agent of a run, late and out of reach: the run is gone, and nobody is told. */
  lemma NeverPublished(agent: string, info: string, run: string, heard: real, now: real, timeout: real)
    requires now - heard > timeout
    ensures var st := State(map[agent := info], map[agent := Assignment(run, heard)], map[agent := heard], [], []);
            var after := CleanedAll(st, [agent], now, timeout, {agent});
            after.runs == map[] && after.published == [] && after.ended == []
  {
    var st := State(map[agent := info], map[agent := Assignment(run, heard)], map[agent := heard], [], []);
    assert [agent][..0] == [];
    assert CleanedAll(st, [], now, timeout, {agent}) == st;
    assert CleanedAll(st, [agent], now, timeout, {agent}) == Cleaned(st, agent, now, timeout, {agent});
    assert (st.runs - {agent}).Keys == {};
  }
}
