/** First come, first served: the process table sorted by arrival time, each
    process run to completion in that order. */
module Fcfs {
  import opened Processes
  import opened Sorting

  /** The k-th dispatched row, `order[k]`, started once the CPU was free (at the
      previous completion, or 0) and the process had arrived, and finished one burst
      later; its waiting time is the delay from arrival to start and its turnaround
      the time from arrival to completion. */
  ghost predicate Dispatched(ps: seq<Proc>, order: seq<nat>, waiting: seq<int>, turnaround: seq<int>,
                             completion: seq<int>, gantt: seq<Segment>, k: nat)
  {
    && k < |order| && k < |gantt| && order[k] < |ps|
    && (k > 0 ==> order[k - 1] < |ps|)
    && |waiting| == |turnaround| == |completion| == |ps|
    && var j := order[k];
       var free := if k == 0 then 0 else completion[order[k - 1]];
       && waiting[j] == Max(free, ps[j].arrival) - ps[j].arrival
       && completion[j] == Max(free, ps[j].arrival) + ps[j].burst
       && turnaround[j] == completion[j] - ps[j].arrival
       && gantt[k] == Segment(ps[j].name, ps[j].arrival, ps[j].burst)
  }

  /** Dispatching row `order[i]` rewrites only its own entries, so the rows
      dispatched before it keep their facts. */
  lemma DispatchedFrame(ps: seq<Proc>, order: seq<nat>, w0: seq<int>, t0: seq<int>, c0: seq<int>, g0: seq<Segment>,
                        w1: seq<int>, t1: seq<int>, c1: seq<int>, g1: seq<Segment>, i: nat)
    requires IsPermutation(order, |ps|) && i < |ps|
    requires |w0| == |t0| == |c0| == |w1| == |t1| == |c1| == |ps| && |g0| == i && |g1| == i + 1 && g1[..i] == g0
    requires forall j :: 0 <= j < |ps| && j != order[i] ==> w1[j] == w0[j] && t1[j] == t0[j] && c1[j] == c0[j]
    requires forall k :: 0 <= k < i ==> Dispatched(ps, order, w0, t0, c0, g0, k)
    ensures forall k :: 0 <= k < i ==> Dispatched(ps, order, w1, t1, c1, g1, k)
  {
    forall k | 0 <= k < i ensures Dispatched(ps, order, w1, t1, c1, g1, k) {
      assert Dispatched(ps, order, w0, t0, c0, g0, k);
      assert order[k] != order[i];
      assert k > 0 ==> order[k - 1] != order[i];
      assert g1[k] == g0[k];
    }
  }

  /** Once every position of the sorted table is dispatched, every input row has
      its metrics. */
  lemma EveryRowDispatched(ps: seq<Proc>, order: seq<nat>, waiting: seq<int>, turnaround: seq<int>,
                           completion: seq<int>, gantt: seq<Segment>)
    requires IsPermutation(order, |ps|) && |waiting| == |turnaround| == |completion| == |ps|
    requires forall k :: 0 <= k < |ps| ==> Dispatched(ps, order, waiting, turnaround, completion, gantt, k)
    ensures forall i :: 0 <= i < |ps| ==>
      && waiting[i] >= 0
      && turnaround[i] == waiting[i] + ps[i].burst
      && turnaround[i] == completion[i] - ps[i].arrival
  {
    forall i | 0 <= i < |ps|
      ensures waiting[i] >= 0 && turnaround[i] == waiting[i] + ps[i].burst
      ensures turnaround[i] == completion[i] - ps[i].arrival
    {
      assert i in order;
      var k :| 0 <= k < |ps| && order[k] == i;
      assert Dispatched(ps, order, waiting, turnaround, completion, gantt, k);
    }
  }

  /** Each dispatched process starts once the CPU is free and the process has
      arrived (the idle clamp), and finishes one burst later. Waiting time is the
      delay from arrival to start and never negative; turnaround is waiting plus
      burst, which is completion minus arrival. The Gantt entry records the
      arrival time where a start time would be expected. */
  method Fcfs(ps: seq<Proc>) returns (waiting: seq<int>, turnaround: seq<int>, completion: seq<int>, gantt: seq<Segment>)
    requires UniqueNames(ps)
    ensures |waiting| == |turnaround| == |completion| == |gantt| == |ps|
    ensures forall k :: 0 <= k < |ps| ==> Dispatched(ps, ArrivalOrder(ps), waiting, turnaround, completion, gantt, k)
    ensures forall i :: 0 <= i < |ps| ==>
      && waiting[i] >= 0
      && turnaround[i] == waiting[i] + ps[i].burst
      && turnaround[i] == completion[i] - ps[i].arrival
    ensures Busy(gantt) == Sum(Bursts(ps))
  {
    var order := ArrivalOrder(ps);
    waiting, turnaround, completion, gantt := RunInOrder(ps, order);
    forall k | 0 <= k < |ps| ensures gantt[k].duration == ps[order[k]].burst {
      assert Dispatched(ps, order, waiting, turnaround, completion, gantt, k);
    }
    BusyInOrder(ps, order, gantt);
    SumPermuted(Bursts(ps), order);
  }

  /** Entries that each last the burst of the row dispatched there hold, in
      total, the sum of those bursts. */
  lemma {:induction false} BusyInOrder(ps: seq<Proc>, order: seq<nat>, gantt: seq<Segment>)
    requires |gantt| == |order| && forall k :: 0 <= k < |order| ==> order[k] < |ps|
    requires forall k :: 0 <= k < |order| ==> gantt[k].duration == ps[order[k]].burst
    ensures Busy(gantt) == Sum(Pick(Bursts(ps), order))
  {
    if gantt != [] {
      var m := |gantt| - 1;
      BusyInOrder(ps, order[..m], gantt[..m]);
      assert Pick(Bursts(ps), order)[..m] == Pick(Bursts(ps), order[..m]);
    }
  }

  /** The loop of `Fcfs` over the sorted table `Pick(ps, order)`. */
  method RunInOrder(ps: seq<Proc>, order: seq<nat>) returns (waiting: seq<int>, turnaround: seq<int>, completion: seq<int>, gantt: seq<Segment>)
    requires UniqueNames(ps) && IsPermutation(order, |ps|)
    ensures |waiting| == |turnaround| == |completion| == |gantt| == |ps|
    ensures forall k :: 0 <= k < |ps| ==> Dispatched(ps, order, waiting, turnaround, completion, gantt, k)
    ensures forall i :: 0 <= i < |ps| ==>
      && waiting[i] >= 0
      && turnaround[i] == waiting[i] + ps[i].burst
      && turnaround[i] == completion[i] - ps[i].arrival
  {
    var n := |ps|;
    var processes := Pick(ps, order);
    var names := Names(ps);
    waiting := seq(n, _ => 0);
    turnaround := seq(n, _ => 0);
    completion := seq(n, _ => 0);
    var elapsed := 0;
    gantt := [];
    for i := 0 to n
      invariant |waiting| == |turnaround| == |completion| == n && |gantt| == i
      invariant elapsed == if i == 0 then 0 else completion[order[i - 1]]
      invariant forall k :: 0 <= k < i ==> Dispatched(ps, order, waiting, turnaround, completion, gantt, k)
    {
      IndexOfUnique(ps, order[i]);
      var idx := IndexOf(names, processes[i].name);
      ghost var (w0, t0, c0, g0) := (waiting, turnaround, completion, gantt);
      if elapsed < processes[i].arrival {
        elapsed := processes[i].arrival;
      }
      waiting := waiting[idx := elapsed - processes[i].arrival];
      elapsed := elapsed + processes[i].burst;
      completion := completion[idx := elapsed];
      turnaround := turnaround[idx := completion[idx] - processes[i].arrival];
      gantt := gantt + [Segment(processes[i].name, processes[i].arrival, processes[i].burst)];
      DispatchedFrame(ps, order, w0, t0, c0, g0, waiting, turnaround, completion, gantt, i);
      assert Dispatched(ps, order, waiting, turnaround, completion, gantt, i);
    }
    EveryRowDispatched(ps, order, waiting, turnaround, completion, gantt);
  }
}
