// How often a run ends: the endings of a run, counted against the steps that open it, over any
// history of the broker (loads/transport/brokerctrl.py).

module BrokerLedger {
  import opened BrokerState

  /** How often test_ended was called for the run. */
  ghost function Endings(st: State, run: string): nat {
    multiset(st.ended)[run]
  }

  /** A step that gives the run to an agent while nobody has it. */
  ghost predicate Opens(st: State, after: State, run: string) {
    Over(st.runs, run) && !Over(after.runs, run)
  }

  /** A step that takes the run from the last that had it. */
  ghost predicate Closes(st: State, after: State, run: string) {
    !Over(st.runs, run) && Over(after.runs, run)
  }

  ghost predicate Ends(st: State, after: State, run: string) {
    Endings(after, run) == Endings(st, run) + 1
  }

  /** The run is taken from the last that had it, and test_ended is not called. */
  ghost predicate Drops(st: State, after: State, run: string) {
    Closes(st, after, run) && !Ends(st, after, run)
  }

  /** A step ends a run only when it takes it from the last that had it, and then once. */
  ghost predicate EndsOnce(st: State, after: State) {
    forall run :: Endings(after, run) == Endings(st, run) || (Ends(st, after, run) && Closes(st, after, run))
  }

  ghost predicate DropsNone(st: State, after: State) {
    forall run :: !Drops(st, after, run)
  }

  // --------------------------------------------------------- what steps do

  lemma NothingEnded(st: State, after: State)
    requires after.ended == st.ended
    ensures EndsOnce(st, after)
  {
  }

  lemma RunsKept(st: State, after: State)
    requires after.runs == st.runs
    ensures DropsNone(st, after) && forall run :: !Opens(st, after, run)
  {
  }

  lemma RunsTaken(st: State, after: State)
    requires forall a :: a in after.runs ==> a in st.runs && after.runs[a] == st.runs[a]
    ensures forall run :: !Opens(st, after, run)
  {
    forall run | Over(st.runs, run)
      ensures Over(after.runs, run)
    {
    }
  }

  /** Agents that have none are given a run. */
  lemma RunsGiven(st: State, after: State, given: string)
    requires forall a :: a in st.runs ==> a in after.runs && after.runs[a] == st.runs[a]
    requires forall a :: a in after.runs && a !in st.runs ==> after.runs[a].run == given
    ensures DropsNone(st, after) && forall run :: Opens(st, after, run) ==> run == given
  {
    forall run | !Over(st.runs, run)
      ensures !Over(after.runs, run)
    {
      var a :| a in st.runs && st.runs[a].run == run;
      assert a in after.runs;
    }
  }

  /** _terminate_run ends the run of the agent exactly when nobody else has it. */
  lemma TerminatedEnds(st: State, agent: string)
    ensures EndsOnce(st, Terminated(st, agent)) && DropsNone(st, Terminated(st, agent))
    ensures forall run :: !Opens(st, Terminated(st, agent), run)
  {
    var after := Terminated(st, agent);
    RunsTaken(st, after);
    if agent in st.runs {
      var own := st.runs[agent].run;
      assert !Over(st.runs, own);
      forall run | run != own && !Over(st.runs, run)
        ensures !Over(after.runs, run)
      {
        var a :| a in st.runs && st.runs[a].run == run;
        assert a in after.runs;
      }
    }
  }

  lemma {:induction false} OnceIn(news: seq<string>, run: string)
    requires Distinct(news)
    ensures multiset(news)[run] == if run in news then 1 else 0
  {
    if news != [] {
      assert news == [news[0]] + news[1..];
      OnceIn(news[1..], run);
      assert multiset(news)[run] == multiset([news[0]])[run] + multiset(news[1..])[run];
    }
  }

  /** A cleaning pass ends a run only if it takes all agents from it, whoever is out of reach. */
  lemma PassEnds(st: State, order: seq<string>, now: real, timeout: real, failing: set<string>)
    requires Order(st.runs, order)
    ensures EndsOnce(st, CleanedAll(st, order, now, timeout, failing))
    ensures failing !! st.runs.Keys ==> DropsNone(st, CleanedAll(st, order, now, timeout, failing))
    ensures forall run :: !Opens(st, CleanedAll(st, order, now, timeout, failing), run)
  {
    var news := CleanPass(st, order, now, timeout, failing);
    var after := CleanedAll(st, order, now, timeout, failing);
    hide CleanedAll;
    RunsTaken(st, after);
    forall run
      ensures Endings(after, run) == Endings(st, run) + if run in news then 1 else 0
      ensures run in news ==> Closes(st, after, run)
      ensures failing !! st.runs.Keys && Closes(st, after, run) ==> run in news
    {
      OnceIn(news, run);
      assert multiset(st.ended + news)[run] == multiset(st.ended)[run] + multiset(news)[run];
      if run in news {
        NewsCloses(st, order, run, after, now, timeout, failing);
      }
      if failing !! st.runs.Keys && Closes(st, after, run) {
        ClosedAllGone(st, run, after, now, timeout, failing);
      }
    }
  }

  lemma NewsCloses(st: State, order: seq<string>, run: string, after: State, now: real, timeout: real,
                   failing: set<string>)
    requires exists i: nat :: FinishedAt(st, order, i, run, now, timeout, failing)
    requires forall a :: a in after.runs <==> a in st.runs && !Gone(st, a, now, timeout, failing)
    requires forall a :: a in after.runs ==> after.runs[a] == st.runs[a]
    ensures Closes(st, after, run)
  {
    var i: nat :| FinishedAt(st, order, i, run, now, timeout, failing);
    assert order[i] in st.runs && st.runs[order[i]].run == run;
  }

  lemma ClosedAllGone(st: State, run: string, after: State, now: real, timeout: real, failing: set<string>)
    requires Closes(st, after, run)
    requires forall a :: a in after.runs <==> a in st.runs && !Gone(st, a, now, timeout, failing)
    requires forall a :: a in after.runs ==> after.runs[a] == st.runs[a]
    ensures AllGone(st, run, now, timeout, failing)
  {
    forall a | a in st.runs && st.runs[a].run == run
      ensures Gone(st, a, now, timeout, failing)
    {
    }
  }

  // ------------------------------------------------------------ the ledger

  /** A step of the history ends the run. */
  ghost predicate EndsAt(history: seq<State>, i: int, run: string) {
    0 <= i < |history| - 1 && Ends(history[i], history[i + 1], run)
  }

  /** The steps of a history that open the run. */
  ghost function Openings(history: seq<State>, run: string): nat {
    if |history| < 2 then 0 else
    var n := |history| - 1;
    Openings(history[..n], run) + if Opens(history[n - 1], history[n], run) then 1 else 0
  }

  /** The steps of a history that drop it. */
  ghost function Dropped(history: seq<State>, run: string): nat {
    if |history| < 2 then 0 else
    var n := |history| - 1;
    Dropped(history[..n], run) + if Drops(history[n - 1], history[n], run) then 1 else 0
  }

  lemma EndsInside(history: seq<State>, i: int, run: string)
    requires EndsAt(history, i, run)
    ensures 0 <= i < |history| - 1
  {
  }

  ghost predicate EachEndsOnce(history: seq<State>) {
    forall i :: 0 <= i < |history| - 1 ==> EndsOnce(history[i], history[i + 1])
  }

  /**
   * Every opening of a run is accounted for: it has ended, or was dropped, or is held now. So a run
   * ends at most as often as it is opened.
   */
  lemma {:induction false} Ledger(history: seq<State>, run: string)
    requires history != [] && history[0].runs == map[] && history[0].ended == []
    requires EachEndsOnce(history)
    ensures var now := history[|history| - 1];
      Endings(now, run) + Dropped(history, run) + (if Over(now.runs, run) then 0 else 1) == Openings(history, run)
    decreases |history|
  {
    var n := |history| - 1;
    if n > 0 {
      var before := history[..n];
      assert before[|before| - 1] == history[n - 1];
      assert EachEndsOnce(before) by {
        forall i | 0 <= i < |before| - 1
          ensures EndsOnce(before[i], before[i + 1])
        {
          assert EndsOnce(history[i], history[i + 1]);
        }
      }
      Ledger(before, run);
      assert EndsOnce(history[n - 1], history[n - 1 + 1]);
    }
  }

  /** A history in which no step drops a run drops none. */
  lemma {:induction false} NoneDropped(history: seq<State>, run: string)
    requires forall i :: 0 <= i < |history| - 1 ==> DropsNone(history[i], history[i + 1])
    ensures Dropped(history, run) == 0
    decreases |history|
  {
    var n := |history| - 1;
    if n > 0 {
      var before := history[..n];
      forall i | 0 <= i < |before| - 1
        ensures DropsNone(before[i], before[i + 1])
      {
        assert DropsNone(history[i], history[i + 1]);
      }
      NoneDropped(before, run);
      assert DropsNone(history[n - 1], history[n - 1 + 1]);
    }
  }

  /** Between two endings of a run there is a step that opens it again. */
  lemma OpenedBetween(history: seq<State>, run: string, first: nat, second: nat)
    requires EachEndsOnce(history) && first < second && EndsAt(history, first, run) && EndsAt(history, second, run)
    ensures exists i :: first < i < second && Opens(history[i], history[i + 1], run)
  {
    assert EndsOnce(history[first], history[first + 1]) && EndsOnce(history[second], history[second + 1]);
    OpenedOnTheWay(history, run, first + 1, second);
  }

  lemma {:induction false} OpenedOnTheWay(history: seq<State>, run: string, i: nat, k: nat)
    requires i <= k < |history| && Over(history[i].runs, run) && !Over(history[k].runs, run)
    ensures exists j :: i <= j < k && Opens(history[j], history[j + 1], run)
    decreases k - i
  {
    if Over(history[i + 1].runs, run) {
      OpenedOnTheWay(history, run, i + 1, k);
    } else {
      assert Opens(history[i], history[i + 1], run);
    }
  }
}
