/** `run_scheduling`: refuse an empty process table, otherwise run the scheduler
    the algorithm menu names and report per-process waiting and turnaround times,
    their averages and the Gantt list. */
module Engine {
  import opened Processes
  import opened Sorting
  import Fcfs
  import NonPreemptive
  import Srtf
  import RoundRobin

  /** The five entries of the algorithm menu. */
  datatype Algorithm = FirstCome | ShortestJob | ShortestRemaining | RoundRobinSlices | PriorityFirst

  /** The menu label of each algorithm. */
  function Label(a: Algorithm): string {
    match a
    case FirstCome => "FCFS"
    case ShortestJob => "SJF Non-Preemptive"
    case ShortestRemaining => "SJF Preemptive"
    case RoundRobinSlices => "Round Robin"
    case PriorityFirst => "Priority"
  }

  /** The dispatch chain on the chosen label: it names an algorithm exactly when
      it is that algorithm's menu label, and any other label names none. */
  function Parse(choice: string): (r: Option<Algorithm>)
    ensures r.Some? ==> Label(r.value) == choice
    ensures forall a :: Label(a) == choice ==> r == Some(a)
  {
    if choice == "FCFS" then Some(FirstCome)
    else if choice == "SJF Non-Preemptive" then Some(ShortestJob)
    else if choice == "SJF Preemptive" then Some(ShortestRemaining)
    else if choice == "Round Robin" then Some(RoundRobinSlices)
    else if choice == "Priority" then Some(PriorityFirst)
    else None
  }

  /** What a press of the run button produces: the empty-table warning, nothing
      for a label outside the menu, or a schedule. */
  datatype Outcome =
    | NoProcesses
    | NoAlgorithm
    | Schedule(waiting: seq<int>, turnaround: seq<int>, gantt: seq<Segment>, avgWaiting: real, avgTurnaround: real)

  /** The averages the results table shows: exact means of the two metric lists. */
  method Report(ps: seq<Proc>, waiting: seq<int>, turnaround: seq<int>, gantt: seq<Segment>) returns (out: Outcome)
    requires |ps| > 0 && |waiting| == |turnaround| == |ps|
    requires forall i :: 0 <= i < |ps| ==> turnaround[i] == waiting[i] + ps[i].burst
    ensures out == Schedule(waiting, turnaround, gantt, Mean(waiting), Mean(turnaround))
    ensures out.avgTurnaround == out.avgWaiting + Mean(Bursts(ps))
  {
    TotalsAddUp(waiting, turnaround, ps);
    out := Schedule(waiting, turnaround, gantt, Mean(waiting), Mean(turnaround));
  }

  // --------------------------------------------- what each algorithm returns

  /** FCFS: every row of the arrival order is dispatched by the recurrence of
      `Fcfs.Dispatched`, for some list of completion times. */
  ghost predicate FcfsDispatches(ps: seq<Proc>, waiting: seq<int>, turnaround: seq<int>, completion: seq<int>,
                                 gantt: seq<Segment>) {
    && |gantt| == |ps|
    && forall k :: 0 <= k < |ps| ==> Fcfs.Dispatched(ps, ArrivalOrder(ps), waiting, turnaround, completion, gantt, k)
  }

  /** SJF non-preemptive and priority scheduling: `picks` orders the sorted
      table, and the k-th entry is the rule's pick at its start. */
  ghost predicate RulePicks(ps: seq<Proc>, rule: NonPreemptive.Rule, picks: seq<nat>, gantt: seq<Segment>) {
    && IsPermutation(picks, |ps|) && |gantt| == |ps|
    && forall k :: 0 <= k < |ps| ==> NonPreemptive.Scheduled(Pick(ps, NonPreemptive.SortOrder(ps, rule)), rule, picks, gantt, k)
  }

  /** A row's times read off the chart: turnaround ends at its last finish,
      waiting is turnaround less burst. */
  ghost predicate TimesFromChart(ps: seq<Proc>, waiting: seq<int>, turnaround: seq<int>, gantt: seq<Segment>) {
    && |waiting| == |turnaround| == |ps|
    && forall i :: 0 <= i < |ps| ==>
         turnaround[i] == LastEnd(gantt, ps[i].name) - ps[i].arrival && waiting[i] == turnaround[i] - ps[i].burst
  }

  /** Turnaround is burst plus waiting, row by row. */
  ghost predicate BurstPlusWaiting(ps: seq<Proc>, waiting: seq<int>, turnaround: seq<int>) {
    && |waiting| == |turnaround| == |ps|
    && forall i :: 0 <= i < |ps| ==> turnaround[i] == ps[i].burst + waiting[i]
  }

  /** SJF preemptive as the source runs it: the chart of a unit trace that obeys
      the shortest-remaining-time rule over the arrival-sorted table, with the
      remaining times copied from the bursts in input order; each sorted row's
      waiting time comes from its last finish. */
  ghost predicate SrtfRun(ps: seq<Proc>, units: seq<Option<nat>>, waiting: seq<int>, turnaround: seq<int>,
                          gantt: seq<Segment>) {
    && Srtf.Trace(Pick(ps, ArrivalOrder(ps)), Bursts(ps), units)
    && gantt == Srtf.Chart(Pick(ps, ArrivalOrder(ps)), units)
    && BurstPlusWaiting(ps, waiting, turnaround)
    && forall j :: 0 <= j < |ps| ==> Srtf.RowDone(ps, ArrivalOrder(ps), Bursts(ps), gantt, waiting, j)
  }

  /** Round robin: the last state of the complete run of turns holds the
      waiting times and the chart. */
  ghost predicate RoundRobinRun(ps: seq<Proc>, quantum: int, states: seq<RoundRobin.State>, waiting: seq<int>,
                                turnaround: seq<int>, gantt: seq<Segment>) {
    && RoundRobin.Completed(ps, quantum, states)
    && states[|states| - 1].waiting == waiting && states[|states| - 1].gantt == gantt
    && BurstPlusWaiting(ps, waiting, turnaround)
  }

  /** The results algorithm `a` gives for the table. */
  ghost predicate Produces(ps: seq<Proc>, a: Algorithm, quantum: int, waiting: seq<int>, turnaround: seq<int>,
                           gantt: seq<Segment>) {
    match a
    case FirstCome => exists completion :: FcfsDispatches(ps, waiting, turnaround, completion, gantt)
    case ShortestJob =>
      (exists picks :: RulePicks(ps, NonPreemptive.ShortestBurst, picks, gantt))
      && TimesFromChart(ps, waiting, turnaround, gantt)
    case ShortestRemaining => exists units :: SrtfRun(ps, units, waiting, turnaround, gantt)
    case RoundRobinSlices => exists states :: RoundRobinRun(ps, quantum, states, waiting, turnaround, gantt)
    case PriorityFirst =>
      (exists picks :: RulePicks(ps, NonPreemptive.HighestPriority, picks, gantt))
      && TimesFromChart(ps, waiting, turnaround, gantt)
  }

  /** The call `run_scheduling` makes for algorithm `a` on a non-empty table.
      FCFS, SJF and priority scheduling come back for any table with unique
      names; SJF preemptive and round robin need positive bursts, and round
      robin a quantum of at least 1. */
  method RunAlgorithm(ps: seq<Proc>, a: Algorithm, quantum: int)
    returns (waiting: seq<int>, turnaround: seq<int>, gantt: seq<Segment>)
    requires UniqueNames(ps) && ps != []
    requires a == ShortestRemaining || a == RoundRobinSlices ==> PositiveBursts(ps)
    requires a == RoundRobinSlices ==> quantum >= 1
    ensures Produces(ps, a, quantum, waiting, turnaround, gantt)
    ensures |waiting| == |turnaround| == |ps|
    ensures forall i :: 0 <= i < |ps| ==> waiting[i] >= 0 && turnaround[i] == waiting[i] + ps[i].burst
  {
    match a {
      case FirstCome =>
        var completion;
        waiting, turnaround, completion, gantt := Fcfs.Fcfs(ps);
        assert FcfsDispatches(ps, waiting, turnaround, completion, gantt);
      case ShortestJob =>
        ghost var picks, runs;
        waiting, turnaround, gantt, picks, runs := NonPreemptive.Run(ps, NonPreemptive.ShortestBurst);
        assert RulePicks(ps, NonPreemptive.ShortestBurst, picks, gantt);
      case ShortestRemaining =>
        var order;
        ghost var units;
        waiting, turnaround, gantt, order, units := Srtf.SjfPreemptiveAsWritten(ps);
        forall i | 0 <= i < |ps| ensures waiting[i] >= 0 {
          var j := PositionOf(order, |ps|, i);
          assert Srtf.RowDone(ps, order, Bursts(ps), gantt, waiting, j);
        }
        assert SrtfRun(ps, units, waiting, turnaround, gantt);
      case RoundRobinSlices =>
        ghost var runs, states;
        waiting, turnaround, gantt, runs, states := RoundRobin.RoundRobin(ps, quantum);
        assert RoundRobinRun(ps, quantum, states, waiting, turnaround, gantt);
      case PriorityFirst =>
        ghost var picks, runs;
        waiting, turnaround, gantt, picks, runs := NonPreemptive.Run(ps, NonPreemptive.HighestPriority);
        assert RulePicks(ps, NonPreemptive.HighestPriority, picks, gantt);
    }
  }

  /** `run_scheduling`. Every scheduler looks rows up by name, so names are
      unique; the preemptive ones come back only when every burst is positive,
      and round robin only with a quantum of at least 1. */
  method RunScheduling(ps: seq<Proc>, choice: string, quantum: int) returns (out: Outcome)
    requires UniqueNames(ps)
    requires choice == "SJF Preemptive" || choice == "Round Robin" ==> PositiveBursts(ps)
    requires choice == "Round Robin" ==> quantum >= 1
    ensures out.NoProcesses? <==> ps == []
    ensures out.NoAlgorithm? <==> ps != [] && Parse(choice).None?
    ensures ps != [] && Parse(choice).Some? ==>
      out.Schedule? && Produces(ps, Parse(choice).value, quantum, out.waiting, out.turnaround, out.gantt)
    ensures out.Schedule? ==> |out.waiting| == |out.turnaround| == |ps|
    ensures out.Schedule? ==> forall i :: 0 <= i < |ps| ==>
      out.waiting[i] >= 0 && out.turnaround[i] == out.waiting[i] + ps[i].burst
    ensures out.Schedule? ==>
      out.avgWaiting == Mean(out.waiting) && out.avgTurnaround == Mean(out.turnaround)
      && out.avgTurnaround == out.avgWaiting + Mean(Bursts(ps))
  {
    if ps == [] {
      return NoProcesses;
    }
    var algorithm := Parse(choice);
    if algorithm.None? {
      return NoAlgorithm;
    }
    var waiting, turnaround, gantt := RunAlgorithm(ps, algorithm.value, quantum);
    out := Report(ps, waiting, turnaround, gantt);
  }
}
