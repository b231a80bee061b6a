/** Non-preemptive selection scheduling: shortest job first (by burst) and
    priority scheduling (by priority number) share one loop. The table is sorted
    by arrival (for priority: by arrival, then priority); at each decision point
    the first row, in table order, of least rank among the arrived and unfinished
    rows runs to completion; when none has arrived the clock advances by one. */
module NonPreemptive {
  import opened Processes
  import opened Sorting

  /** The field a selection scan minimises. */
  datatype Rule = ShortestBurst | HighestPriority

  function Rank(p: Proc, rule: Rule): int {
    match rule
    case ShortestBurst => p.burst
    case HighestPriority => p.priority
  }

  /** Row `j` of the sorted table has arrived by `t` and is not completed. */
  predicate Ready(s: seq<Proc>, completed: seq<bool>, t: int, j: int) {
    0 <= j < |s| && j < |completed| && !completed[j] && s[j].arrival <= t
  }

  /** `j` is the row the scan picks at time `t`: ready, of least rank among the
      ready rows, and the first such row in table order. */
  ghost predicate IsPick(s: seq<Proc>, rule: Rule, completed: seq<bool>, t: int, j: int) {
    && Ready(s, completed, t, j)
    && forall i :: 0 <= i < |s| && Ready(s, completed, t, i) ==>
         Rank(s[j], rule) <= Rank(s[i], rule) && (i < j ==> Rank(s[j], rule) < Rank(s[i], rule))
  }

  /** The scan over the table: `-1` when nothing is ready, else the pick. */
  method SelectNext(s: seq<Proc>, rule: Rule, completed: seq<bool>, t: int) returns (idx: int)
    requires |completed| == |s|
    ensures idx == -1 <==> forall i :: 0 <= i < |s| ==> !Ready(s, completed, t, i)
    ensures idx != -1 ==> IsPick(s, rule, completed, t, idx)
  {
    idx := -1;
    var least: Option<int> := None;
    for i := 0 to |s|
      invariant idx == -1 <==> least.None?
      invariant least.None? <==> forall j :: 0 <= j < i ==> !Ready(s, completed, t, j)
      invariant idx != -1 ==>
        && 0 <= idx < i && Ready(s, completed, t, idx) && least == Some(Rank(s[idx], rule))
        && forall j :: 0 <= j < i && Ready(s, completed, t, j) ==>
             Rank(s[idx], rule) <= Rank(s[j], rule) && (j < idx ==> Rank(s[idx], rule) < Rank(s[j], rule))
    {
      if s[i].arrival <= t && !completed[i] {
        assert Ready(s, completed, t, i);
        if Below(Rank(s[i], rule), least) {
          least := Some(Rank(s[i], rule));
          idx := i;
        }
      }
    }
  }

  /** The rows already completed before the k-th pick. */
  ghost function DoneBefore(picks: seq<nat>, k: nat, n: nat): (c: seq<bool>)
    requires k <= |picks|
    ensures |c| == n && forall j :: 0 <= j < n ==> (c[j] <==> j in picks[..k])
  {
    seq(n, j requires 0 <= j < n => j in picks[..k])
  }

  /** The k-th Gantt entry is the k-th pick: it started at or after the end of the
      previous entry, later only while no unfinished row had arrived, the scan
      picked it at its start time from the rows not yet completed, and it ran
      for its whole burst. */
  ghost predicate Scheduled(s: seq<Proc>, rule: Rule, picks: seq<nat>, gantt: seq<Segment>, k: nat) {
    && k < |picks| && k < |gantt| && picks[k] < |s|
    && var free := if k == 0 then 0 else End(gantt[k - 1]);
       var start := gantt[k].start;
       && free <= start
       && (free < start ==> forall j :: 0 <= j < |s| && j !in picks[..k] ==> s[j].arrival >= start)
       && IsPick(s, rule, DoneBefore(picks, k, |s|), start, picks[k])
       && gantt[k] == Segment(s[picks[k]].name, start, s[picks[k]].burst)
  }

  /** Number of rows not yet completed. */
  function Pending(c: seq<bool>): (r: nat)
    ensures r <= |c|
  {
    if c == [] then 0 else Pending(c[..|c| - 1]) + (if c[|c| - 1] then 0 else 1)
  }

  lemma {:induction false} PendingMark(c: seq<bool>, j: nat)
    requires j < |c| && !c[j]
    ensures Pending(c[j := true]) == Pending(c) - 1
  {
    var m := |c| - 1;
    if j < m {
      assert c[j := true][..m] == c[..m][j := true];
      PendingMark(c[..m], j);
    } else {
      assert c[j := true][..m] == c[..m];
    }
  }

  lemma {:induction false} PendingAll(n: nat)
    ensures Pending(seq(n, _ => false)) == n
  {
    if n > 0 {
      assert seq(n, _ => false)[..n - 1] == seq(n - 1, _ => false);
      PendingAll(n - 1);
    }
  }

  lemma {:induction false} PendingNone(c: seq<bool>)
    requires false !in c
    ensures Pending(c) == 0
  {
    if c != [] {
      assert forall j :: 0 <= j < |c| - 1 ==> c[..|c| - 1][j] == c[j];
      PendingNone(c[..|c| - 1]);
    }
  }

  /** `picks` lists exactly the completed rows, each once. */
  ghost predicate Tally(completed: seq<bool>, picks: seq<nat>) {
    && (forall k :: 0 <= k < |picks| ==> picks[k] < |completed|)
    && (forall j :: 0 <= j < |completed| ==> (completed[j] <==> j in picks))
    && Pending(completed) == |completed| - |picks|
  }

  /** The clock is at the end of the last entry, or later only while no
      unfinished row has arrived. */
  ghost predicate Clock(s: seq<Proc>, completed: seq<bool>, gantt: seq<Segment>, elapsed: int)
    requires |completed| == |s|
  {
    var free := if |gantt| == 0 then 0 else End(gantt[|gantt| - 1]);
    free == elapsed || (free < elapsed && forall j :: 0 <= j < |s| && !completed[j] ==> s[j].arrival >= elapsed)
  }

  /** Every pick so far has its Gantt entry and its metrics. */
  ghost predicate History(ps: seq<Proc>, order: seq<nat>, s: seq<Proc>, rule: Rule,
                          waiting: seq<int>, turnaround: seq<int>, gantt: seq<Segment>, picks: seq<nat>)
    requires |order| == |s| == |ps| == |waiting| == |turnaround| && |gantt| == |picks|
    requires forall k :: 0 <= k < |order| ==> order[k] < |ps|
    requires forall k :: 0 <= k < |picks| ==> picks[k] < |ps|
  {
    && (forall k :: 0 <= k < |picks| ==> Scheduled(s, rule, picks, gantt, k))
    && (forall k :: 0 <= k < |picks| ==>
          var i := order[picks[k]];
          && turnaround[i] == End(gantt[k]) - ps[i].arrival
          && waiting[i] == turnaround[i] - ps[i].burst)
    && Busy(gantt) == Sum(Pick(Bursts(s), picks))
  }

  /** What holds of the loop state after every iteration. */
  ghost predicate Progress(ps: seq<Proc>, order: seq<nat>, s: seq<Proc>, rule: Rule, completed: seq<bool>,
                           waiting: seq<int>, turnaround: seq<int>, gantt: seq<Segment>, picks: seq<nat>, elapsed: int)
  {
    && IsPermutation(order, |ps|) && s == Pick(ps, order)
    && |completed| == |waiting| == |turnaround| == |ps| && |gantt| == |picks|
    && Tally(completed, picks)
    && Clock(s, completed, gantt, elapsed)
    && History(ps, order, s, rule, waiting, turnaround, gantt, picks)
  }

  /** Running the pick `idx` to completion keeps `Progress`. */
  lemma Dispatch(ps: seq<Proc>, order: seq<nat>, s: seq<Proc>, rule: Rule, completed: seq<bool>,
                 waiting: seq<int>, turnaround: seq<int>, gantt: seq<Segment>, picks: seq<nat>, elapsed: int, idx: nat)
    requires Progress(ps, order, s, rule, completed, waiting, turnaround, gantt, picks, elapsed)
    requires IsPick(s, rule, completed, elapsed, idx)
    ensures var i := order[idx];
      var done := elapsed + s[idx].burst;
      Progress(ps, order, s, rule, completed[idx := true],
               waiting[i := done - s[idx].arrival - s[idx].burst], turnaround[i := done - s[idx].arrival],
               gantt + [Segment(s[idx].name, elapsed, s[idx].burst)], picks + [idx], done)
  {
    TallyMark(completed, picks, idx);
    HistoryMark(ps, order, s, rule, completed, waiting, turnaround, gantt, picks, elapsed, idx);
  }

  lemma HistoryMark(ps: seq<Proc>, order: seq<nat>, s: seq<Proc>, rule: Rule, completed: seq<bool>,
                    waiting: seq<int>, turnaround: seq<int>, gantt: seq<Segment>, picks: seq<nat>, elapsed: int, idx: nat)
    requires Progress(ps, order, s, rule, completed, waiting, turnaround, gantt, picks, elapsed)
    requires IsPick(s, rule, completed, elapsed, idx)
    ensures idx !in picks
    ensures var i := order[idx];
      var done := elapsed + s[idx].burst;
      History(ps, order, s, rule, waiting[i := done - s[idx].arrival - s[idx].burst], turnaround[i := done - s[idx].arrival],
              gantt + [Segment(s[idx].name, elapsed, s[idx].burst)], picks + [idx])
  {
    var p1 := picks + [idx];
    var g1 := gantt + [Segment(s[idx].name, elapsed, s[idx].burst)];
    forall k | 0 <= k < |p1| ensures Scheduled(s, rule, p1, g1, k) {
      if k < |picks| {
        ScheduledFrame(s, rule, picks, gantt, k, idx, g1[|picks|]);
      } else {
        ScheduledNext(s, rule, completed, gantt, picks, elapsed, idx);
      }
    }
    MetricsMark(ps, order, s, rule, waiting, turnaround, gantt, picks, idx, elapsed + s[idx].burst);
    BusyMark(s, gantt, picks, idx, g1[|picks|]);
  }

  lemma BusyMark(s: seq<Proc>, gantt: seq<Segment>, picks: seq<nat>, idx: nat, x: Segment)
    requires idx < |s| && x.duration == s[idx].burst
    requires forall k :: 0 <= k < |picks| ==> picks[k] < |s|
    requires Busy(gantt) == Sum(Pick(Bursts(s), picks))
    ensures Busy(gantt + [x]) == Sum(Pick(Bursts(s), picks + [idx]))
  {
    AppendSegment(gantt, x, "");
    assert Pick(Bursts(s), picks + [idx]) == Pick(Bursts(s), picks) + [s[idx].burst];
    SumConcat(Pick(Bursts(s), picks), [s[idx].burst]);
    assert Sum([s[idx].burst]) == s[idx].burst by { assert [s[idx].burst][..0] == []; }
  }

  lemma TallyMark(completed: seq<bool>, picks: seq<nat>, idx: nat)
    requires Tally(completed, picks) && idx < |completed| && !completed[idx]
    ensures Tally(completed[idx := true], picks + [idx])
  {
    var p1 := picks + [idx];
    forall j | 0 <= j < |completed| ensures completed[idx := true][j] <==> j in p1 {
      assert j in p1 <==> j in picks || j == idx;
    }
    PendingMark(completed, idx);
  }

  /** An earlier Gantt entry stays scheduled when a pick is appended. */
  lemma ScheduledFrame(s: seq<Proc>, rule: Rule, picks: seq<nat>, gantt: seq<Segment>, k: nat, idx: nat, x: Segment)
    requires Scheduled(s, rule, picks, gantt, k)
    ensures Scheduled(s, rule, picks + [idx], gantt + [x], k)
  {
    var p1, g1 := picks + [idx], gantt + [x];
    assert p1[..k] == picks[..k];
    assert DoneBefore(p1, k, |s|) == DoneBefore(picks, k, |s|);
    assert g1[k] == gantt[k] && (k > 0 ==> g1[k - 1] == gantt[k - 1]);
  }

  /** The entry for the pick the scan just made is scheduled. */
  lemma ScheduledNext(s: seq<Proc>, rule: Rule, completed: seq<bool>, gantt: seq<Segment>, picks: seq<nat>,
                      elapsed: int, idx: nat)
    requires |completed| == |s| && |gantt| == |picks|
    requires Tally(completed, picks) && Clock(s, completed, gantt, elapsed)
    requires IsPick(s, rule, completed, elapsed, idx)
    ensures Scheduled(s, rule, picks + [idx], gantt + [Segment(s[idx].name, elapsed, s[idx].burst)], |picks|)
  {
    var p1 := picks + [idx];
    assert p1[..|picks|] == picks;
    assert DoneBefore(p1, |picks|, |s|) == completed;
  }

  /** Recording the metrics of the pick leaves those of earlier picks alone. */
  lemma MetricsMark(ps: seq<Proc>, order: seq<nat>, s: seq<Proc>, rule: Rule, waiting: seq<int>, turnaround: seq<int>,
                    gantt: seq<Segment>, picks: seq<nat>, idx: nat, done: int)
    requires IsPermutation(order, |ps|) && s == Pick(ps, order)
    requires |waiting| == |turnaround| == |ps| && |gantt| == |picks| && idx < |ps| && idx !in picks
    requires forall k :: 0 <= k < |picks| ==> picks[k] < |ps|
    requires History(ps, order, s, rule, waiting, turnaround, gantt, picks)
    ensures var i := order[idx];
      var p1 := picks + [idx];
      var g1 := gantt + [Segment(s[idx].name, done - s[idx].burst, s[idx].burst)];
      var t1 := turnaround[i := done - s[idx].arrival];
      var w1 := waiting[i := done - s[idx].arrival - s[idx].burst];
      forall k :: 0 <= k < |p1| ==>
        var i' := order[p1[k]];
        && t1[i'] == End(g1[k]) - ps[i'].arrival && w1[i'] == t1[i'] - ps[i'].burst
  {
    var i := order[idx];
    forall k | 0 <= k < |picks| ensures order[picks[k]] != i {
      assert picks[k] != idx;
    }
  }

  /** With nothing ready the clock ticks: `Progress` is kept, and some unfinished
      row arrives later, so the latest arrival is still ahead. */
  lemma Idle(ps: seq<Proc>, order: seq<nat>, s: seq<Proc>, rule: Rule, completed: seq<bool>,
             waiting: seq<int>, turnaround: seq<int>, gantt: seq<Segment>, picks: seq<nat>, elapsed: int)
    requires Progress(ps, order, s, rule, completed, waiting, turnaround, gantt, picks, elapsed)
    requires false in completed
    requires forall i :: 0 <= i < |s| ==> !Ready(s, completed, elapsed, i)
    ensures Progress(ps, order, s, rule, completed, waiting, turnaround, gantt, picks, elapsed + 1)
    ensures elapsed < MaxArrival(s)
  {
    var j :| 0 <= j < |completed| && !completed[j];
    assert !Ready(s, completed, elapsed, j);
    forall i | 0 <= i < |s| && !completed[i] ensures s[i].arrival >= elapsed + 1 {
      assert !Ready(s, completed, elapsed, i);
    }
  }

  /** One pass of the `while` loop: the scan, then either running the pick to
      completion or a one-unit tick of the clock. */
  method Step(ps: seq<Proc>, order: seq<nat>, processes: seq<Proc>, names: seq<string>, rule: Rule,
              completed: seq<bool>, waiting: seq<int>, turnaround: seq<int>, gantt: seq<Segment>,
              ghost picks: seq<nat>, elapsed: int)
    returns (completed': seq<bool>, waiting': seq<int>, turnaround': seq<int>, gantt': seq<Segment>,
             ghost picks': seq<nat>, elapsed': int)
    requires UniqueNames(ps) && names == Names(ps)
    requires Progress(ps, order, processes, rule, completed, waiting, turnaround, gantt, picks, elapsed)
    requires false in completed
    ensures Progress(ps, order, processes, rule, completed', waiting', turnaround', gantt', picks', elapsed')
    ensures Pending(completed') < Pending(completed) ||
      (Pending(completed') == Pending(completed) && elapsed < elapsed' && elapsed < MaxArrival(processes))
    ensures |picks| <= |picks'| && |gantt| <= |gantt'| && picks'[..|picks|] == picks && gantt'[..|gantt|] == gantt
    ensures (|picks'| == |picks| + 1 && Pending(completed') == Pending(completed) - 1) ||
      (picks' == picks && gantt' == gantt && waiting' == waiting && turnaround' == turnaround
       && completed' == completed && elapsed' == elapsed + 1 && elapsed < MaxArrival(processes))
  {
    var idx := SelectNext(processes, rule, completed, elapsed);
    if idx != -1 {
      completed', waiting', turnaround', gantt', picks', elapsed' :=
        RunPick(ps, order, processes, names, rule, completed, waiting, turnaround, gantt, picks, elapsed, idx);
      PendingMark(completed, idx);
      assert picks'[..|picks|] == picks && gantt'[..|gantt|] == gantt;
    } else {
      Idle(ps, order, processes, rule, completed, waiting, turnaround, gantt, picks, elapsed);
      completed', waiting', turnaround', gantt', picks', elapsed' := completed, waiting, turnaround, gantt, picks, elapsed + 1;
    }
  }

  /** The busy half of a pass: run the pick `idx` to completion, record its
      turnaround and waiting time under its input position, append its entry
      and mark it completed. */
  method RunPick(ps: seq<Proc>, order: seq<nat>, processes: seq<Proc>, names: seq<string>, rule: Rule,
                 completed: seq<bool>, waiting: seq<int>, turnaround: seq<int>, gantt: seq<Segment>,
                 ghost picks: seq<nat>, elapsed: int, idx: nat)
    returns (completed': seq<bool>, waiting': seq<int>, turnaround': seq<int>, gantt': seq<Segment>,
             ghost picks': seq<nat>, elapsed': int)
    requires UniqueNames(ps) && names == Names(ps)
    requires Progress(ps, order, processes, rule, completed, waiting, turnaround, gantt, picks, elapsed)
    requires IsPick(processes, rule, completed, elapsed, idx)
    ensures Progress(ps, order, processes, rule, completed', waiting', turnaround', gantt', picks', elapsed')
    ensures completed' == completed[idx := true] && picks' == picks + [idx]
    ensures gantt' == gantt + [Segment(processes[idx].name, elapsed, processes[idx].burst)]
    ensures elapsed' == elapsed + processes[idx].burst
  {
    Dispatch(ps, order, processes, rule, completed, waiting, turnaround, gantt, picks, elapsed, idx);
    elapsed' := elapsed;
    var arrival := processes[idx].arrival;
    if elapsed' < arrival {
      elapsed' := arrival;
    }
    var startTime := elapsed';
    elapsed' := elapsed' + processes[idx].burst;
    var completionTime := elapsed';
    IndexOfUnique(ps, order[idx]);
    var index := IndexOf(names, processes[idx].name);
    assert index == order[idx] && startTime == elapsed;
    turnaround' := turnaround[index := completionTime - processes[idx].arrival];
    waiting' := waiting[index := turnaround'[index] - processes[idx].burst];
    gantt' := gantt + [Segment(processes[idx].name, startTime, processes[idx].burst)];
    completed' := completed[idx := true];
    picks' := picks + [idx];
  }

  /** The loop over the sorted table `Pick(ps, order)`. Its results are
      indexed like the input; `picks` lists the sorted positions in the order
      they ran. */
  method RunSorted(ps: seq<Proc>, order: seq<nat>, rule: Rule)
    returns (waiting: seq<int>, turnaround: seq<int>, gantt: seq<Segment>, ghost picks: seq<nat>)
    requires UniqueNames(ps) && IsPermutation(order, |ps|)
    ensures |waiting| == |turnaround| == |ps| && |gantt| == |ps|
    ensures IsPermutation(picks, |ps|)
    ensures forall k :: 0 <= k < |ps| ==> Scheduled(Pick(ps, order), rule, picks, gantt, k)
    ensures forall k :: 0 <= k < |ps| ==>
      var i := order[picks[k]];
      && turnaround[i] == End(gantt[k]) - ps[i].arrival
      && waiting[i] == turnaround[i] - ps[i].burst
    ensures Busy(gantt) == Sum(Pick(Bursts(Pick(ps, order)), picks))
  {
    var n := |ps|;
    var processes := Pick(ps, order);
    var names := Names(ps);
    waiting := seq(n, _ => 0);
    turnaround := seq(n, _ => 0);
    gantt := [];
    picks := [];
    var completed := seq(n, _ => false);
    var elapsed := 0;
    Start(ps, order, rule);
    while false in completed
      invariant Progress(ps, order, processes, rule, completed, waiting, turnaround, gantt, picks, elapsed)
      decreases Pending(completed), MaxArrival(processes) - elapsed
    {
      completed, waiting, turnaround, gantt, picks, elapsed :=
        Step(ps, order, processes, names, rule, completed, waiting, turnaround, gantt, picks, elapsed);
    }
    Finish(ps, order, processes, rule, completed, waiting, turnaround, gantt, picks, elapsed);
  }

  /** Before the loop: nothing is completed, and the clock is at 0. */
  lemma Start(ps: seq<Proc>, order: seq<nat>, rule: Rule)
    requires IsPermutation(order, |ps|)
    ensures var n := |ps|;
      Progress(ps, order, Pick(ps, order), rule, seq(n, _ => false), seq(n, _ => 0), seq(n, _ => 0), [], [], 0)
  {
    PendingAll(|ps|);
  }

  /** When every row is completed, `picks` is a permutation of the table and
      every row has its entry and its metrics. */
  lemma Finish(ps: seq<Proc>, order: seq<nat>, s: seq<Proc>, rule: Rule, completed: seq<bool>,
               waiting: seq<int>, turnaround: seq<int>, gantt: seq<Segment>, picks: seq<nat>, elapsed: int)
    requires Progress(ps, order, s, rule, completed, waiting, turnaround, gantt, picks, elapsed)
    requires false !in completed
    ensures |waiting| == |turnaround| == |ps| && |gantt| == |ps|
    ensures IsPermutation(picks, |ps|)
    ensures forall k :: 0 <= k < |ps| ==> Scheduled(Pick(ps, order), rule, picks, gantt, k)
    ensures forall k :: 0 <= k < |ps| ==>
      var i := order[picks[k]];
      && turnaround[i] == End(gantt[k]) - ps[i].arrival
      && waiting[i] == turnaround[i] - ps[i].burst
    ensures Busy(gantt) == Sum(Pick(Bursts(Pick(ps, order)), picks))
  {
    PendingNone(completed);
    forall v | 0 <= v < |ps| ensures v in picks {
      assert completed[v];
    }
    forall a, b | 0 <= a < b < |ps| ensures picks[a] != picks[b] {
      assert Scheduled(s, rule, picks, gantt, b);
      assert picks[a] in picks[..b];
    }
  }

  // ------------------------------------------------------------ the schedulers

  /** The order the table is sorted into before the loop: by arrival for SJF,
      by (arrival, priority) for priority scheduling. */
  function SortOrder(ps: seq<Proc>, rule: Rule): (order: seq<nat>)
    ensures IsPermutation(order, |ps|)
  {
    match rule
    case ShortestBurst => ArrivalOrder(ps)
    case HighestPriority => StableOrder(ArrivalPriorityKeys(ps))
  }

  /** `sjf(preemptive=False)` with `ShortestBurst`, `priority_scheduling` with
      `HighestPriority`. Each row runs once, for its whole burst, after it
      arrived; entries do not overlap; each pick is the scan's choice at its
      start; a row's turnaround ends when its entry ends, its waiting time is
      the turnaround less the burst and is never negative; the timeline holds
      exactly the total burst. */
  method Run(ps: seq<Proc>, rule: Rule)
    returns (waiting: seq<int>, turnaround: seq<int>, gantt: seq<Segment>, ghost picks: seq<nat>, ghost runs: seq<nat>)
    requires UniqueNames(ps)
    ensures |waiting| == |turnaround| == |gantt| == |ps|
    ensures IsPermutation(picks, |ps|) && runs == Pick(SortOrder(ps, rule), picks) && IsPermutation(runs, |ps|)
    ensures forall k :: 0 <= k < |ps| ==> Scheduled(Pick(ps, SortOrder(ps, rule)), rule, picks, gantt, k)
    ensures forall k :: 0 <= k < |ps| ==>
      && gantt[k].name == ps[runs[k]].name && gantt[k].duration == ps[runs[k]].burst
      && ps[runs[k]].arrival <= gantt[k].start
    ensures Chronological(gantt)
    ensures forall i :: 0 <= i < |ps| ==>
      && turnaround[i] == LastEnd(gantt, ps[i].name) - ps[i].arrival
      && waiting[i] == turnaround[i] - ps[i].burst
      && waiting[i] >= 0
    ensures Busy(gantt) == Sum(Bursts(ps))
  {
    var order := SortOrder(ps, rule);
    waiting, turnaround, gantt, picks := RunSorted(ps, order, rule);
    runs := Pick(order, picks);
    ComposePermutation(order, picks, |ps|);
    RunShape(ps, order, rule, gantt, picks);
    RowsFromRuns(ps, runs, gantt, waiting, turnaround);
    assert Pick(Bursts(Pick(ps, order)), picks) == Pick(Bursts(ps), runs);
    SumPermuted(Bursts(ps), runs);
  }

  /** The entries of a finished run, read through the sort: each runs its row
      for its burst after the row arrived, one after another. */
  lemma RunShape(ps: seq<Proc>, order: seq<nat>, rule: Rule, gantt: seq<Segment>, picks: seq<nat>)
    requires IsPermutation(order, |ps|) && IsPermutation(picks, |ps|) && |gantt| == |ps|
    requires forall k :: 0 <= k < |ps| ==> Scheduled(Pick(ps, order), rule, picks, gantt, k)
    ensures forall k :: 0 <= k < |ps| ==>
      var runs := Pick(order, picks);
      && gantt[k].name == ps[runs[k]].name && gantt[k].duration == ps[runs[k]].burst
      && ps[runs[k]].arrival <= gantt[k].start
    ensures Chronological(gantt)
  {
    var s := Pick(ps, order);
    forall k | 0 <= k < |ps|
      ensures gantt[k].name == ps[order[picks[k]]].name && gantt[k].duration == ps[order[picks[k]]].burst
      ensures ps[order[picks[k]]].arrival <= gantt[k].start
    {
      assert Scheduled(s, rule, picks, gantt, k);
    }
    forall k | 0 < k < |gantt| ensures End(gantt[k - 1]) <= gantt[k].start {
      assert Scheduled(s, rule, picks, gantt, k);
    }
  }
}
