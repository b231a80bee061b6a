/** Shortest remaining time first (`sjf(preemptive=True)`): a loop of unit time
    steps over the arrival-sorted table. At each step a scan may hand the CPU to
    an arrived row whose remaining time is strictly below that of the row that
    ran last; the chosen row runs for one unit, and consecutive units of the same
    row are merged into one Gantt entry. */
module Srtf {
  import opened Processes
  import opened Sorting

  /** Row `j` may take the CPU at `t` from a holder whose remaining time is
      `bound`: it has arrived, it still has work, and strictly less than the holder. */
  predicate Eligible(s: seq<Proc>, rem: seq<int>, t: int, bound: Option<int>, j: int) {
    0 <= j < |s| && j < |rem| && s[j].arrival <= t && 0 < rem[j] && Below(rem[j], bound)
  }

  /** The selection scan. With no eligible row the carried state is unchanged (the
      holder keeps the CPU, or the CPU stays idle); otherwise the first eligible
      row of least remaining time takes it, and the bound becomes its remaining time. */
  method Scan(s: seq<Proc>, rem: seq<int>, t: int, minm: Option<int>, shortest: int, check: bool)
    returns (minm': Option<int>, shortest': int, check': bool)
    requires |rem| == |s|
    ensures (forall j :: 0 <= j < |s| ==> !Eligible(s, rem, t, minm, j)) ==>
      minm' == minm && shortest' == shortest && check' == check
    ensures (exists j :: 0 <= j < |s| && Eligible(s, rem, t, minm, j)) ==>
      && Eligible(s, rem, t, minm, shortest') && check' && minm' == Some(rem[shortest'])
      && forall j :: 0 <= j < |s| && Eligible(s, rem, t, minm, j) ==>
           rem[shortest'] <= rem[j] && (j < shortest' ==> rem[shortest'] < rem[j])
  {
    minm', shortest', check' := minm, shortest, check;
    ghost var found := false;
    for j := 0 to |s|
      invariant found <==> exists i :: 0 <= i < j && Eligible(s, rem, t, minm, i)
      invariant !found ==> minm' == minm && shortest' == shortest && check' == check
      invariant found ==>
        && 0 <= shortest' < j && Eligible(s, rem, t, minm, shortest') && check' && minm' == Some(rem[shortest'])
        && forall i :: 0 <= i < j && Eligible(s, rem, t, minm, i) ==>
             rem[shortest'] <= rem[i] && (i < shortest' ==> rem[shortest'] < rem[i])
    {
      if s[j].arrival <= t && Below(rem[j], minm') && rem[j] > 0 {
        assert Eligible(s, rem, t, minm, j);
        minm' := Some(rem[j]);
        shortest' := j;
        check' := true;
        found := true;
      }
    }
  }

  /** Recording one unit of `name` starting at `t`: the last entry grows by one
      when it belongs to `name`, otherwise a new one-unit entry is appended. */
  function Extend(g: seq<Segment>, name: string, t: int): (r: seq<Segment>)
    ensures |r| == if g != [] && g[|g| - 1].name == name then |g| else |g| + 1
    ensures r != [] && r[|r| - 1].name == name
    ensures r[..|r| - 1] == if |r| == |g| then g[..|g| - 1] else g
    ensures |r| == |g| ==> r[|r| - 1] == Segment(name, g[|g| - 1].start, g[|g| - 1].duration + 1)
    ensures |r| > |g| ==> r[|r| - 1] == Segment(name, t, 1)
  {
    if g != [] && g[|g| - 1].name == name then
      g[..|g| - 1] + [Segment(name, g[|g| - 1].start, g[|g| - 1].duration + 1)]
    else
      g + [Segment(name, t, 1)]
  }

  /** `Extend` adds one unit of work, all of it for `name`, and `name` now leaves
      the CPU at `t + 1`, provided the timeline was at `t` when it ends with `name`. */
  lemma {:induction false} ExtendWork(g: seq<Segment>, name: string, t: int, other: string)
    requires g != [] && g[|g| - 1].name == name ==> End(g[|g| - 1]) == t
    ensures Busy(Extend(g, name, t)) == Busy(g) + 1
    ensures WorkOf(Extend(g, name, t), other) == WorkOf(g, other) + (if other == name then 1 else 0)
    ensures LastEnd(Extend(g, name, t), other) == if other == name then t + 1 else LastEnd(g, other)
  {
    var r := Extend(g, name, t);
    if g != [] && g[|g| - 1].name == name {
      var m := |g| - 1;
      assert g == g[..m] + [g[m]];
      AppendSegment(g[..m], g[m], other);
      AppendSegment(g[..m], r[m], other);
      assert r == g[..m] + [r[m]];
    } else {
      AppendSegment(g, r[|g|], other);
    }
  }

  /** `Extend` keeps neighbours distinct and entries in time order, provided the
      timeline ended by `t`, and at `t` when its last entry is `name`'s. */
  lemma ExtendShape(g: seq<Segment>, name: string, t: int)
    requires Coalesced(g) && Chronological(g)
    requires g != [] ==> End(g[|g| - 1]) <= t && (g[|g| - 1].name == name ==> End(g[|g| - 1]) == t)
    ensures Coalesced(Extend(g, name, t)) && Chronological(Extend(g, name, t))
    ensures End(Extend(g, name, t)[|Extend(g, name, t)| - 1]) == t + 1
  {
    var r := Extend(g, name, t);
    var m := |r| - 1;
    assert forall k :: 0 <= k < m ==> r[k] == g[k] by {
      forall k | 0 <= k < m ensures r[k] == g[k] {
        assert r[k] == r[..m][k];
      }
    }
    forall k | 0 < k < |r| ensures r[k - 1].name != r[k].name && End(r[k - 1]) <= r[k].start {
      if k < m {
        assert r[k - 1] == g[k - 1] && r[k] == g[k];
      } else {
        assert r[k - 1] == g[k - 1];
      }
    }
  }

  // ------------------------------------------------------- counting finished rows

  /** Number of rows with no remaining time: the source's `complete` counter. */
  function Finished(rem: seq<int>): (c: nat)
    ensures c <= |rem|
  {
    if rem == [] then 0 else Finished(rem[..|rem| - 1]) + (if rem[|rem| - 1] == 0 then 1 else 0)
  }

  lemma {:induction false} FinishedStep(rem: seq<int>, j: nat)
    requires j < |rem| && rem[j] > 0
    ensures Finished(rem[j := rem[j] - 1]) == Finished(rem) + (if rem[j] == 1 then 1 else 0)
  {
    var m := |rem| - 1;
    if j < m {
      assert rem[j := rem[j] - 1][..m] == rem[..m][j := rem[j] - 1];
      FinishedStep(rem[..m], j);
    } else {
      assert rem[j := rem[j] - 1][..m] == rem[..m];
    }
  }

  /** The counter reaches `n` exactly when every remaining time is 0. */
  lemma {:induction false} FinishedAll(rem: seq<int>)
    ensures Finished(rem) == |rem| <==> forall j :: 0 <= j < |rem| ==> rem[j] == 0
  {
    if rem != [] {
      var m := |rem| - 1;
      FinishedAll(rem[..m]);
      assert forall j :: 0 <= j < m ==> rem[..m][j] == rem[j];
    }
  }

  // ------------------------------------------------------------ loop invariant

  /** The remaining times stay between 0 and their start values, the counter counts
      the finished rows, and the timeline holds exactly the work done. */
  ghost predicate Accounting(rem0: seq<int>, rem: seq<int>, complete: int, gantt: seq<Segment>) {
    && |rem| == |rem0|
    && (forall j :: 0 <= j < |rem| ==> 0 <= rem[j] <= rem0[j])
    && complete == Finished(rem)
    && Busy(gantt) + Sum(rem) == Sum(rem0)
  }

  /** The k-th entry belongs to row `runs[k]`, lasts at least a unit and starts
      after that row arrived; entries follow one another, neighbours differ, and
      the last one ended by `t`, at `t` if its row still has work. */
  ghost predicate Shape(s: seq<Proc>, rem: seq<int>, gantt: seq<Segment>, runs: seq<nat>, t: int)
    requires |rem| == |s|
  {
    && |runs| == |gantt|
    && (forall k :: 0 <= k < |gantt| ==>
          runs[k] < |s| && gantt[k].name == s[runs[k]].name && gantt[k].duration >= 1
          && s[runs[k]].arrival <= gantt[k].start)
    && Coalesced(gantt) && Chronological(gantt)
    && (gantt != [] ==>
          End(gantt[|gantt| - 1]) <= t && (rem[runs[|gantt| - 1]] > 0 ==> End(gantt[|gantt| - 1]) == t))
  }

  /** Each row has had the CPU for the work it has done, left it by `t`, and not
      before its arrival plus that work. */
  ghost predicate Work(s: seq<Proc>, rem0: seq<int>, rem: seq<int>, gantt: seq<Segment>, t: int)
    requires |rem0| == |rem| == |s|
  {
    && (forall j :: 0 <= j < |s| ==> WorkOf(gantt, s[j].name) == rem0[j] - rem[j])
    && (forall j :: 0 <= j < |s| ==> LastEnd(gantt, s[j].name) <= t)
    && (forall j :: 0 <= j < |s| && rem[j] < rem0[j] ==> LastEnd(gantt, s[j].name) >= s[j].arrival + rem0[j] - rem[j])
  }

  /** A finished row's waiting time: its finish less its burst and arrival, clamped at 0. */
  ghost predicate Results(s: seq<Proc>, order: seq<nat>, rem: seq<int>, gantt: seq<Segment>, waiting: seq<int>)
    requires |order| == |rem| == |s| && forall j :: 0 <= j < |order| ==> order[j] < |waiting|
  {
    forall j :: 0 <= j < |s| && rem[j] == 0 ==>
      waiting[order[j]] == Max(0, LastEnd(gantt, s[j].name) - s[j].burst - s[j].arrival)
  }

  /** What the loop leaves for table row `j` (input row `order[j]`): the chart
      gives that name exactly `rem0[j]` units, its last slice ends no earlier than
      arrival plus that work, and its waiting time is the last finish less burst
      and arrival, clamped at 0. */
  ghost predicate RowDone(ps: seq<Proc>, order: seq<nat>, rem0: seq<int>, gantt: seq<Segment>, waiting: seq<int>, j: int)
    requires 0 <= j < |order| == |rem0| && order[j] < |ps| && order[j] < |waiting|
  {
    && WorkOf(gantt, ps[order[j]].name) == rem0[j]
    && LastEnd(gantt, ps[order[j]].name) >= ps[order[j]].arrival + rem0[j]
    && waiting[order[j]] == Max(0, LastEnd(gantt, ps[order[j]].name) - ps[order[j]].burst - ps[order[j]].arrival)
  }

  /** `check` means some row holds the CPU: `shortest`, which has arrived and
      still has work, with `minm` its remaining time; otherwise `minm` is infinite. */
  ghost predicate Selector(s: seq<Proc>, rem: seq<int>, t: int, minm: Option<int>, shortest: int, check: bool)
    requires |rem| == |s|
  {
    && (check <==> minm.Some?)
    && (check ==> 0 <= shortest < |s| && minm == Some(rem[shortest]) && rem[shortest] > 0 && s[shortest].arrival <= t)
  }

  /** The facts about the inputs the loop relies on. */
  ghost predicate Setup(ps: seq<Proc>, order: seq<nat>, s: seq<Proc>, rem0: seq<int>) {
    && IsPermutation(order, |ps|) && s == Pick(ps, order) && UniqueNames(s)
    && |rem0| == |ps| && (forall j :: 0 <= j < |rem0| ==> rem0[j] > 0)
    && (forall j :: 0 <= j < |ps| ==> s[j].name in Names(ps) && IndexOf(Names(ps), s[j].name) == order[j])
  }

  ghost predicate Progress(ps: seq<Proc>, order: seq<nat>, s: seq<Proc>, rem0: seq<int>, rem: seq<int>, t: int,
                           minm: Option<int>, shortest: int, check: bool, complete: int,
                           waiting: seq<int>, gantt: seq<Segment>, runs: seq<nat>)
    requires Setup(ps, order, s, rem0)
  {
    && Accounting(rem0, rem, complete, gantt)
    && |waiting| == |ps|
    && Shape(s, rem, gantt, runs, t)
    && Work(s, rem0, rem, gantt, t)
    && Results(s, order, rem, gantt, waiting)
    && Selector(s, rem, t, minm, shortest, check)
  }

  // ------------------------------------------------------------ the unit trace

  /** Row `j` is ready at `u` under the remaining times `r`: it has arrived and
      still has work. */
  ghost predicate Ready(s: seq<Proc>, r: seq<int>, u: int, j: int) {
    0 <= j < |s| && j < |r| && s[j].arrival <= u && r[j] > 0
  }

  /** No row is ready at `u`. */
  ghost predicate Idle(s: seq<Proc>, r: seq<int>, u: int) {
    forall i :: 0 <= i < |s| ==> !Ready(s, r, u, i)
  }

  /** The shortest-remaining-time rule for the unit starting at `u`, under the
      remaining times `r`, when `h` is the row that ran the unit before and still
      has work: `j` is ready and no ready row has less remaining time; only a
      strictly shorter row preempts, so a ready holder with as little keeps the
      CPU; otherwise the first such row of the table takes it. */
  ghost predicate Picked(s: seq<Proc>, r: seq<int>, u: int, h: Option<nat>, j: nat) {
    && Ready(s, r, u, j)
    && (forall i :: Ready(s, r, u, i) ==> r[j] <= r[i])
    && (h.Some? && Ready(s, r, u, h.value) && r[h.value] == r[j] ==> h == Some(j))
    && (h != Some(j) ==> forall i :: 0 <= i < j && Ready(s, r, u, i) ==> r[j] < r[i])
  }

  /** The units a trace gives row `j`; entry `u` of a trace is the row that ran
      from `u` to `u + 1`, or `None` for an idle unit. */
  ghost function Count(units: seq<Option<nat>>, j: nat): nat {
    if units == [] then 0
    else Count(units[..|units| - 1], j) + (if units[|units| - 1] == Some(j) then 1 else 0)
  }

  /** The remaining times once the trace `units` has run, starting from `rem0`. */
  ghost function Left(rem0: seq<int>, units: seq<Option<nat>>): (r: seq<int>)
    ensures |r| == |rem0| && forall j :: 0 <= j < |r| ==> r[j] == rem0[j] - Count(units, j)
  {
    seq(|rem0|, j requires 0 <= j < |rem0| => rem0[j] - Count(units, j))
  }

  /** The row that ran the last unit of `units`, if it still has work under `r`. */
  ghost function Holder(units: seq<Option<nat>>, r: seq<int>): Option<nat> {
    if units != [] && units[|units| - 1].Some? && units[|units| - 1].value < |r| && r[units[|units| - 1].value] > 0
    then units[|units| - 1] else None
  }

  /** What a unit may be under the rule: idle only when no row is ready,
      otherwise given to the row `Picked` names. */
  ghost predicate Rule(s: seq<Proc>, r: seq<int>, u: int, h: Option<nat>, x: Option<nat>) {
    match x
    case None => Idle(s, r, u)
    case Some(j) => Picked(s, r, u, h, j)
  }

  /** Unit `u` of the trace obeys the rule, under the remaining times and the
      holder the units before it leave. */
  ghost predicate Follows(s: seq<Proc>, rem0: seq<int>, units: seq<Option<nat>>, u: int)
    requires 0 <= u < |units|
  {
    var r := Left(rem0, units[..u]);
    Rule(s, r, u, Holder(units[..u], r), units[u])
  }

  ghost predicate Trace(s: seq<Proc>, rem0: seq<int>, units: seq<Option<nat>>) {
    forall u :: 0 <= u < |units| ==> Follows(s, rem0, units, u)
  }

  /** The Gantt entries a trace makes: consecutive units of one row merge into
      one entry, idle units leave no entry. */
  ghost function Chart(s: seq<Proc>, units: seq<Option<nat>>): seq<Segment>
    decreases |units|
  {
    if units == [] then []
    else
      var m := |units| - 1;
      match units[m]
      case None => Chart(s, units[..m])
      case Some(j) => if j < |s| then Extend(Chart(s, units[..m]), s[j].name, m) else Chart(s, units[..m])
  }

  /** The loop state is what its trace so far has made of it: the clock counts
      the units, the remaining times and the chart follow from them, every unit
      obeys the rule, and `check` says that the last row to run still has work,
      which is then `shortest`. */
  ghost predicate Timeline(s: seq<Proc>, rem0: seq<int>, rem: seq<int>, t: int, shortest: int, check: bool,
                           gantt: seq<Segment>, units: seq<Option<nat>>) {
    && t == |units|
    && rem == Left(rem0, units)
    && gantt == Chart(s, units)
    && Trace(s, rem0, units)
    && (check <==> Holder(units, rem).Some?)
    && (check ==> Holder(units, rem).value == shortest)
  }

  lemma CountAppend(units: seq<Option<nat>>, x: Option<nat>, j: nat)
    ensures Count(units + [x], j) == Count(units, j) + (if x == Some(j) then 1 else 0)
  {
    assert (units + [x])[..|units|] == units;
  }

  /** Appending a unit leaves the earlier units' rule untouched. */
  lemma TracePrefix(s: seq<Proc>, rem0: seq<int>, units: seq<Option<nat>>, x: Option<nat>)
    requires Trace(s, rem0, units) && Follows(s, rem0, units + [x], |units|)
    ensures Trace(s, rem0, units + [x])
  {
    var units' := units + [x];
    forall u | 0 <= u < |units'| ensures Follows(s, rem0, units', u) {
      if u < |units| {
        assert units'[..u] == units[..u] && units'[u] == units[u];
        assert Follows(s, rem0, units, u);
      }
    }
  }

  /** The rule leaves no choice: at most one row is picked for a unit, and an
      idle unit excludes any pick. */
  lemma RuleUnique(s: seq<Proc>, r: seq<int>, u: int, h: Option<nat>, x: Option<nat>, y: Option<nat>)
    requires Rule(s, r, u, h, x) && Rule(s, r, u, h, y)
    ensures x == y
  {
  }

  /** A prefix of a trace that obeys the rule obeys it too. */
  lemma TraceInit(s: seq<Proc>, rem0: seq<int>, units: seq<Option<nat>>, m: nat)
    requires Trace(s, rem0, units) && m <= |units|
    ensures Trace(s, rem0, units[..m])
  {
    forall u | 0 <= u < m ensures Follows(s, rem0, units[..m], u) {
      assert units[..m][..u] == units[..u] && units[..m][u] == units[u];
      assert Follows(s, rem0, units, u);
    }
  }

  /** Two traces of the same length that obey the rule from the same start are
      the same trace: the rule determines the schedule. */
  lemma {:induction false} TraceUnique(s: seq<Proc>, rem0: seq<int>, a: seq<Option<nat>>, b: seq<Option<nat>>)
    requires Trace(s, rem0, a) && Trace(s, rem0, b) && |a| == |b|
    ensures a == b
  {
    if a != [] {
      var m := |a| - 1;
      TraceInit(s, rem0, a, m);
      TraceInit(s, rem0, b, m);
      TraceUnique(s, rem0, a[..m], b[..m]);
      assert Follows(s, rem0, a, m) && Follows(s, rem0, b, m);
      var r := Left(rem0, a[..m]);
      RuleUnique(s, r, m, Holder(a[..m], r), a[m], b[m]);
      assert a == a[..m] + [a[m]] && b == b[..m] + [b[m]];
    }
  }

  /** A prefix of a trace gives no row more units than the whole trace. */
  lemma {:induction false} CountPrefix(units: seq<Option<nat>>, m: nat, j: nat)
    requires m <= |units|
    ensures Count(units[..m], j) <= Count(units, j)
  {
    if m < |units| {
      var k := |units| - 1;
      assert units[..k][..m] == units[..m];
      CountPrefix(units[..k], m, j);
      assert Count(units, j) >= Count(units[..k], j);
    } else {
      assert units[..m] == units;
    }
  }

  /** After a prefix that has used up every row's work, no row is ready. */
  lemma SpentIdle(s: seq<Proc>, rem0: seq<int>, a: seq<Option<nat>>, c: seq<Option<nat>>, u: int)
    requires |a| <= |c| && c[..|a|] == a
    requires forall j :: 0 <= j < |rem0| ==> Count(a, j) == rem0[j]
    ensures Idle(s, Left(rem0, c), u)
  {
    forall j | 0 <= j < |s| ensures !Ready(s, Left(rem0, c), u, j) {
      if j < |rem0| {
        CountPrefix(c, |a|, j);
      }
    }
  }

  /** A unit that follows the rule while no row is ready is idle. */
  lemma IdleUnit(s: seq<Proc>, rem0: seq<int>, b: seq<Option<nat>>, m: int)
    requires 0 <= m < |b| && Follows(s, rem0, b, m) && Idle(s, Left(rem0, b[..m]), m)
    ensures b[m] == None
  {
  }

  /** An idle last unit leaves the chart and the counts as they were. */
  lemma DropIdle(s: seq<Proc>, b: seq<Option<nat>>)
    requires b != [] && b[|b| - 1] == None
    ensures Chart(s, b) == Chart(s, b[..|b| - 1])
    ensures forall j :: Count(b, j) == Count(b[..|b| - 1], j)
  {
  }

  /** Once the trace `a` has used up every row's work, the units the trace `b`
      adds after it are idle and leave the chart as it is. */
  lemma {:induction false} PadIdle(s: seq<Proc>, rem0: seq<int>, a: seq<Option<nat>>, b: seq<Option<nat>>)
    requires Trace(s, rem0, b) && |a| <= |b| && b[..|a|] == a
    requires forall j :: 0 <= j < |rem0| ==> Count(a, j) == rem0[j]
    ensures Chart(s, a) == Chart(s, b)
    decreases |b|
  {
    if |a| < |b| {
      var m := |b| - 1;
      var b' := b[..m];
      assert b'[..|a|] == a;
      SpentIdle(s, rem0, a, b', m);
      assert Follows(s, rem0, b, m);
      IdleUnit(s, rem0, b, m);
      DropIdle(s, b);
      TraceInit(s, rem0, b, m);
      PadIdle(s, rem0, a, b');
    } else {
      assert b == a;
    }
  }

  /** Two runs that obey the rule from the same start and give every row all its
      work draw the same chart: the schedule the rule makes is unique. */
  lemma ChartUnique(s: seq<Proc>, rem0: seq<int>, a: seq<Option<nat>>, b: seq<Option<nat>>)
    requires Trace(s, rem0, a) && Trace(s, rem0, b)
    requires forall j :: 0 <= j < |rem0| ==> Count(a, j) == rem0[j] && Count(b, j) == rem0[j]
    ensures Chart(s, a) == Chart(s, b)
  {
    if |a| <= |b| {
      TraceInit(s, rem0, b, |a|);
      TraceUnique(s, rem0, a, b[..|a|]);
      PadIdle(s, rem0, a, b);
    } else {
      TraceInit(s, rem0, a, |b|);
      TraceUnique(s, rem0, b, a[..|b|]);
      PadIdle(s, rem0, b, a);
    }
  }

  /** What the selection scan picks is what the rule picks: the first eligible
      row of least remaining time when there is one, otherwise the holder, and
      with no holder nothing is ready. */
  lemma ScanRule(s: seq<Proc>, rem: seq<int>, t: int, minm: Option<int>, shortest: int, check: bool,
                 h: Option<nat>, minm': Option<int>, shortest': int, check': bool)
    requires |rem| == |s| && Selector(s, rem, t, minm, shortest, check)
    requires (check <==> h.Some?) && (check ==> h.value == shortest)
    requires (forall j :: 0 <= j < |s| ==> !Eligible(s, rem, t, minm, j)) ==>
      minm' == minm && shortest' == shortest && check' == check
    requires (exists j :: 0 <= j < |s| && Eligible(s, rem, t, minm, j)) ==>
      && Eligible(s, rem, t, minm, shortest') && check' && minm' == Some(rem[shortest'])
      && forall j :: 0 <= j < |s| && Eligible(s, rem, t, minm, j) ==>
           rem[shortest'] <= rem[j] && (j < shortest' ==> rem[shortest'] < rem[j])
    ensures check' ==> 0 <= shortest' < |s| && Picked(s, rem, t, h, shortest')
    ensures !check' ==> Idle(s, rem, t)
  {
    if exists j :: 0 <= j < |s| && Eligible(s, rem, t, minm, j) {
      forall i | Ready(s, rem, t, i) ensures rem[shortest'] <= rem[i] && (i < shortest' ==> rem[shortest'] < rem[i]) {
        if !Eligible(s, rem, t, minm, i) {
          assert minm.Some? && rem[i] >= minm.value > rem[shortest'];
        }
      }
    } else if check {
      assert Ready(s, rem, t, shortest);
      forall i | Ready(s, rem, t, i) ensures rem[shortest] <= rem[i] {
        assert !Eligible(s, rem, t, minm, i);
      }
    } else {
      forall i | 0 <= i < |s| ensures !Ready(s, rem, t, i) {
        assert !Eligible(s, rem, t, minm, i);
      }
    }
  }

  /** An idle unit: the trace grows by `None` and nothing else changes. */
  lemma TimelineIdle(s: seq<Proc>, rem0: seq<int>, rem: seq<int>, t: int, shortest: int,
                     gantt: seq<Segment>, units: seq<Option<nat>>)
    requires Timeline(s, rem0, rem, t, shortest, false, gantt, units) && Idle(s, rem, t)
    ensures Timeline(s, rem0, rem, t + 1, shortest, false, gantt, units + [None])
  {
    var units' := units + [None];
    assert units'[..|units|] == units;
    forall j | 0 <= j < |rem0| ensures Left(rem0, units')[j] == rem[j] {
      CountAppend(units, None, j);
    }
    assert Left(rem0, units') == rem;
    TracePrefix(s, rem0, units, None);
  }

  /** A busy unit of the row `sh` the rule picks: the trace grows by `sh`, its
      remaining time drops by one and the chart grows by one unit of it. */
  lemma TimelineBusy(s: seq<Proc>, rem0: seq<int>, rem: seq<int>, t: int, shortest: int, check: bool,
                     gantt: seq<Segment>, units: seq<Option<nat>>, sh: nat, rem': seq<int>, check': bool,
                     gantt': seq<Segment>)
    requires Timeline(s, rem0, rem, t, shortest, check, gantt, units)
    requires Picked(s, rem, t, Holder(units, rem), sh)
    requires rem' == rem[sh := rem[sh] - 1] && check' == (rem'[sh] != 0)
    requires gantt' == Extend(gantt, s[sh].name, t)
    ensures Timeline(s, rem0, rem', t + 1, sh, check', gantt', units + [Some(sh)])
  {
    var units' := units + [Some(sh)];
    assert units'[..|units|] == units;
    forall j | 0 <= j < |rem0| ensures Left(rem0, units')[j] == rem'[j] {
      CountAppend(units, Some(sh), j);
    }
    assert Left(rem0, units') == rem';
    TracePrefix(s, rem0, units, Some(sh));
  }

  // -------------------------------------------------------------- one step

  /** One busy step of row `sh` at time `t` keeps every part of `Progress`. */
  lemma {:induction false} BusyStep(ps: seq<Proc>, order: seq<nat>, s: seq<Proc>, names: seq<string>, rem0: seq<int>, rem: seq<int>,
                 t: int, complete: int, waiting: seq<int>, gantt: seq<Segment>, runs: seq<nat>, sh: int,
                 rem': seq<int>, t': int, minm': Option<int>, check': bool, complete': int,
                 waiting': seq<int>, gantt': seq<Segment>, runs': seq<nat>)
    requires Setup(ps, order, s, rem0) && names == Names(ps)
    requires Accounting(rem0, rem, complete, gantt) && |waiting| == |ps|
    requires Shape(s, rem, gantt, runs, t) && Work(s, rem0, rem, gantt, t) && Results(s, order, rem, gantt, waiting)
    requires 0 <= sh < |s| && rem[sh] > 0 && s[sh].arrival <= t
    requires rem' == rem[sh := rem[sh] - 1] && t' == t + 1
    requires minm' == (if rem'[sh] == 0 then None else Some(rem'[sh])) && check' == (rem'[sh] != 0)
    requires complete' == if rem'[sh] == 0 then complete + 1 else complete
    requires gantt' == Extend(gantt, s[sh].name, t)
    requires runs' == if gantt != [] && gantt[|gantt| - 1].name == s[sh].name then runs else runs + [sh]
    requires waiting' == if rem'[sh] == 0
      then waiting[IndexOf(names, s[sh].name) := Max(0, t + 1 - s[sh].burst - s[sh].arrival)]
      else waiting
    ensures Progress(ps, order, s, rem0, rem', t', minm', sh, check', complete', waiting', gantt', runs')
    ensures Sum(rem') < Sum(rem)
  {
    var w := Max(0, t + 1 - s[sh].burst - s[sh].arrival);
    assert IndexOf(names, s[sh].name) == order[sh];
    assert waiting' == if rem'[sh] == 0 then waiting[order[sh] := w] else waiting;
    LastRunning(s, rem, gantt, runs, t, sh);
    BusyBook(s, rem0, rem, complete, gantt, runs, t, sh, rem', t', complete', gantt', runs');
    BusyTimes(order, s, rem0, rem, t, gantt, waiting, sh, w, rem', t', gantt', waiting');
  }


  /** When the timeline ends with row `sh`, which still has work, it ends at `t`. */
  lemma LastRunning(s: seq<Proc>, rem: seq<int>, gantt: seq<Segment>, runs: seq<nat>, t: int, sh: int)
    requires |rem| == |s| && UniqueNames(s) && Shape(s, rem, gantt, runs, t)
    requires 0 <= sh < |s| && rem[sh] > 0
    ensures gantt != [] && gantt[|gantt| - 1].name == s[sh].name ==> End(gantt[|gantt| - 1]) == t
  {
    DistinctNames(s);
  }

  /** The counting half of `BusyStep`: remaining work, completions and the
      shape of the timeline. */
  lemma BusyBook(s: seq<Proc>, rem0: seq<int>, rem: seq<int>, complete: int, gantt: seq<Segment>,
                 runs: seq<nat>, t: int, sh: int,
                 rem': seq<int>, t': int, complete': int, gantt': seq<Segment>, runs': seq<nat>)
    requires |rem| == |s| && UniqueNames(s)
    requires Accounting(rem0, rem, complete, gantt) && Shape(s, rem, gantt, runs, t)
    requires 0 <= sh < |s| && rem[sh] > 0 && s[sh].arrival <= t
    requires gantt != [] && gantt[|gantt| - 1].name == s[sh].name ==> End(gantt[|gantt| - 1]) == t
    requires rem' == rem[sh := rem[sh] - 1] && t' == t + 1
    requires complete' == if rem'[sh] == 0 then complete + 1 else complete
    requires gantt' == Extend(gantt, s[sh].name, t)
    requires runs' == if gantt != [] && gantt[|gantt| - 1].name == s[sh].name then runs else runs + [sh]
    ensures Accounting(rem0, rem', complete', gantt') && Shape(s, rem', gantt', runs', t') && Sum(rem') < Sum(rem)
  {
    StepAccounting(rem0, rem, complete, gantt, s[sh].name, t, sh, rem', complete', gantt');
    ShapeStep(s, rem, gantt, runs, t, sh, rem', t', gantt', runs');
    SumUpdate(rem, sh, rem[sh] - 1);
  }

  /** The timing half of `BusyStep`: work done, last finishes and waiting times. */
  lemma BusyTimes(order: seq<nat>, s: seq<Proc>, rem0: seq<int>, rem: seq<int>, t: int, gantt: seq<Segment>,
                  waiting: seq<int>, sh: int, w: int, rem': seq<int>, t': int, gantt': seq<Segment>, waiting': seq<int>)
    requires UniqueNames(s) && |rem0| == |rem| == |s| == |order| == |waiting| && IsPermutation(order, |waiting|)
    requires Work(s, rem0, rem, gantt, t) && forall j :: 0 <= j < |rem| ==> 0 <= rem[j] <= rem0[j]
    requires Results(s, order, rem, gantt, waiting)
    requires 0 <= sh < |s| && rem[sh] > 0 && s[sh].arrival <= t
    requires gantt != [] && gantt[|gantt| - 1].name == s[sh].name ==> End(gantt[|gantt| - 1]) == t
    requires w == Max(0, t + 1 - s[sh].burst - s[sh].arrival)
    requires rem' == rem[sh := rem[sh] - 1] && t' == t + 1 && gantt' == Extend(gantt, s[sh].name, t)
    requires waiting' == if rem'[sh] == 0 then waiting[order[sh] := w] else waiting
    ensures Work(s, rem0, rem', gantt', t') && Results(s, order, rem', gantt', waiting')
  {
    WorkStep(s, rem0, rem, gantt, t, sh, rem', t', gantt');
    ResultsStep(order, s, rem, t, gantt, waiting, sh, w, rem', gantt', waiting');
  }

  lemma StepAccounting(rem0: seq<int>, rem: seq<int>, complete: int, gantt: seq<Segment>, name: string, t: int, sh: int,
                        rem': seq<int>, complete': int, gantt': seq<Segment>)
    requires Accounting(rem0, rem, complete, gantt)
    requires gantt != [] && gantt[|gantt| - 1].name == name ==> End(gantt[|gantt| - 1]) == t
    requires 0 <= sh < |rem| && rem[sh] > 0
    requires rem' == rem[sh := rem[sh] - 1] && complete' == (if rem'[sh] == 0 then complete + 1 else complete)
    requires gantt' == Extend(gantt, name, t)
    ensures Accounting(rem0, rem', complete', gantt')
  {
    FinishedStep(rem, sh);
    SumUpdate(rem, sh, rem[sh] - 1);
    ExtendWork(gantt, name, t, name);
  }

  lemma ShapeStep(s: seq<Proc>, rem: seq<int>, gantt: seq<Segment>, runs: seq<nat>, t: int, sh: int,
                   rem': seq<int>, t': int, gantt': seq<Segment>, runs': seq<nat>)
    requires |rem| == |s| && UniqueNames(s) && Shape(s, rem, gantt, runs, t)
    requires 0 <= sh < |s| && rem[sh] > 0 && s[sh].arrival <= t
    requires rem' == rem[sh := rem[sh] - 1] && t' == t + 1
    requires gantt' == Extend(gantt, s[sh].name, t)
    requires runs' == if gantt != [] && gantt[|gantt| - 1].name == s[sh].name then runs else runs + [sh]
    ensures Shape(s, rem', gantt', runs', t')
  {
    var name := s[sh].name;
    var m := |gantt'| - 1;
    if gantt != [] && gantt[|gantt| - 1].name == name {
      DistinctNames(s);
      assert runs[|gantt| - 1] == sh;
    }
    ExtendShape(gantt, name, t);
    assert |runs'| == |gantt'| && runs'[m] == sh;
    forall k | 0 <= k < |gantt'|
      ensures runs'[k] < |s| && gantt'[k].name == s[runs'[k]].name && gantt'[k].duration >= 1
      ensures s[runs'[k]].arrival <= gantt'[k].start
    {
      if k < m {
        assert runs'[k] == runs[k] && gantt'[k] == gantt'[..m][k] == gantt[k];
      } else if |gantt'| == |gantt| {
        assert gantt'[k].start == gantt[k].start;
      }
    }
  }

  lemma WorkStep(s: seq<Proc>, rem0: seq<int>, rem: seq<int>, gantt: seq<Segment>, t: int, sh: int,
                  rem': seq<int>, t': int, gantt': seq<Segment>)
    requires |rem0| == |rem| == |s| && UniqueNames(s)
    requires 0 <= sh < |s| && (gantt != [] && gantt[|gantt| - 1].name == s[sh].name ==> End(gantt[|gantt| - 1]) == t)
    requires Work(s, rem0, rem, gantt, t) && forall j :: 0 <= j < |s| ==> rem[j] <= rem0[j]
    requires rem[sh] > 0 && s[sh].arrival <= t
    requires rem' == rem[sh := rem[sh] - 1] && t' == t + 1 && gantt' == Extend(gantt, s[sh].name, t)
    ensures Work(s, rem0, rem', gantt', t')
  {
    DistinctNames(s);
    forall j | 0 <= j < |s|
      ensures WorkOf(gantt', s[j].name) == rem0[j] - rem'[j]
      ensures LastEnd(gantt', s[j].name) <= t + 1
      ensures rem'[j] < rem0[j] ==> LastEnd(gantt', s[j].name) >= s[j].arrival + rem0[j] - rem'[j]
    {
      ExtendWork(gantt, s[sh].name, t, s[j].name);
      assert j != sh ==> s[j].name != s[sh].name;
    }
  }

  lemma ResultsStep(order: seq<nat>, s: seq<Proc>, rem: seq<int>, t: int,
                    gantt: seq<Segment>, waiting: seq<int>, sh: int, w: int,
                    rem': seq<int>, gantt': seq<Segment>, waiting': seq<int>)
    requires UniqueNames(s) && |order| == |rem| == |s| == |waiting| && IsPermutation(order, |waiting|)
    requires 0 <= sh < |s| && (gantt != [] && gantt[|gantt| - 1].name == s[sh].name ==> End(gantt[|gantt| - 1]) == t)
    requires Results(s, order, rem, gantt, waiting)
    requires rem[sh] > 0 && w == Max(0, t + 1 - s[sh].burst - s[sh].arrival)
    requires rem' == rem[sh := rem[sh] - 1] && gantt' == Extend(gantt, s[sh].name, t)
    requires waiting' == if rem'[sh] == 0 then waiting[order[sh] := w] else waiting
    ensures Results(s, order, rem', gantt', waiting')
  {
    DistinctNames(s);
    forall j | 0 <= j < |s| && rem'[j] == 0
      ensures waiting'[order[j]] == Max(0, LastEnd(gantt', s[j].name) - s[j].burst - s[j].arrival)
    {
      ExtendWork(gantt, s[sh].name, t, s[j].name);
      if j != sh {
        if j < sh {
          assert s[j].name != s[sh].name && order[j] != order[sh];
        } else {
          assert s[sh].name != s[j].name && order[sh] != order[j];
        }
      }
    }
  }

  /** An idle tick keeps `Progress`, and happens only before the latest arrival. */
  lemma IdleStep(ps: seq<Proc>, order: seq<nat>, s: seq<Proc>, rem0: seq<int>, rem: seq<int>, t: int,
                 minm: Option<int>, shortest: int, check: bool, complete: int,
                 waiting: seq<int>, gantt: seq<Segment>, runs: seq<nat>)
    requires Setup(ps, order, s, rem0)
    requires Progress(ps, order, s, rem0, rem, t, minm, shortest, check, complete, waiting, gantt, runs)
    requires !check && complete != |s|
    requires forall j :: 0 <= j < |s| ==> !Eligible(s, rem, t, minm, j)
    ensures Progress(ps, order, s, rem0, rem, t + 1, minm, shortest, check, complete, waiting, gantt, runs)
    ensures t < MaxArrival(s)
  {
    IdleLater(s, rem, t, minm, complete);
    IdleShape(s, rem, gantt, runs, t, minm);
    IdleWork(s, rem0, rem, gantt, t);
  }

  lemma IdleLater(s: seq<Proc>, rem: seq<int>, t: int, minm: Option<int>, complete: int)
    requires |rem| == |s| && complete == Finished(rem) && complete != |s| && minm.None?
    requires forall j :: 0 <= j < |s| ==> rem[j] >= 0 && !Eligible(s, rem, t, minm, j)
    ensures t < MaxArrival(s)
  {
    FinishedAll(rem);
    var j :| 0 <= j < |s| && rem[j] != 0;
    assert !Eligible(s, rem, t, minm, j);
  }

  lemma IdleShape(s: seq<Proc>, rem: seq<int>, gantt: seq<Segment>, runs: seq<nat>, t: int, minm: Option<int>)
    requires |rem| == |s| && Shape(s, rem, gantt, runs, t) && minm.None?
    requires forall j :: 0 <= j < |s| ==> !Eligible(s, rem, t, minm, j)
    ensures Shape(s, rem, gantt, runs, t + 1)
  {
    if gantt != [] {
      assert !Eligible(s, rem, t, minm, runs[|gantt| - 1]);
    }
  }

  lemma IdleWork(s: seq<Proc>, rem0: seq<int>, rem: seq<int>, gantt: seq<Segment>, t: int)
    requires |rem0| == |rem| == |s| && Work(s, rem0, rem, gantt, t)
    ensures Work(s, rem0, rem, gantt, t + 1)
  {
  }

  /** One pass of the `while` loop. */
  method Step(ps: seq<Proc>, order: seq<nat>, s: seq<Proc>, names: seq<string>, rem0: seq<int>,
              rem: seq<int>, t: int, minm: Option<int>, shortest: int, check: bool, complete: int,
              waiting: seq<int>, gantt: seq<Segment>, ghost runs: seq<nat>, ghost units: seq<Option<nat>>)
    returns (rem': seq<int>, t': int, minm': Option<int>, shortest': int, check': bool, complete': int,
             waiting': seq<int>, gantt': seq<Segment>, ghost runs': seq<nat>, ghost units': seq<Option<nat>>)
    requires Setup(ps, order, s, rem0) && names == Names(ps)
    requires Progress(ps, order, s, rem0, rem, t, minm, shortest, check, complete, waiting, gantt, runs)
    requires Timeline(s, rem0, rem, t, shortest, check, gantt, units)
    requires complete != |s|
    ensures Progress(ps, order, s, rem0, rem', t', minm', shortest', check', complete', waiting', gantt', runs')
    ensures Timeline(s, rem0, rem', t', shortest', check', gantt', units')
    ensures |units'| == |units| + 1 && units'[..|units|] == units && t' == t + 1
    ensures Sum(rem') < Sum(rem) || (Sum(rem') == Sum(rem) && t < t' && t < MaxArrival(s))
  {
    minm', shortest', check' := Scan(s, rem, t, minm, shortest, check);
    ScanRule(s, rem, t, minm, shortest, check, Holder(units, rem), minm', shortest', check');
    if !check' {
      IdleStep(ps, order, s, rem0, rem, t, minm, shortest, check, complete, waiting, gantt, runs);
      TimelineIdle(s, rem0, rem, t, shortest, gantt, units);
      rem', t', complete', waiting', gantt', runs', units' := rem, t + 1, complete, waiting, gantt, runs, units + [None];
      return;
    }
    assert 0 <= shortest' < |s| && rem[shortest'] > 0 && s[shortest'].arrival <= t;
    var sh: nat := shortest';
    rem', t', minm', check', complete', waiting', gantt', runs' :=
      Execute(s, names, sh, rem, t, complete, waiting, gantt, runs);
    BusyStep(ps, order, s, names, rem0, rem, t, complete, waiting, gantt, runs, sh,
             rem', t', minm', check', complete', waiting', gantt', runs');
    TimelineBusy(s, rem0, rem, t, shortest, check, gantt, units, sh, rem', check', gantt');
    units' := units + [Some(sh)];
  }

  /** The body of a busy step, once `shortest` is chosen: record the unit on the
      timeline, take it off the remaining time, carry the new remaining time as the
      bound (infinite once it reaches 0), and on completion write the waiting
      time, clamped at 0, to the row's input position. */
  method Execute(s: seq<Proc>, names: seq<string>, shortest: int, rem: seq<int>, t: int, complete: int,
                 waiting: seq<int>, gantt: seq<Segment>, ghost runs: seq<nat>)
    returns (rem': seq<int>, t': int, minm': Option<int>, check': bool, complete': int,
             waiting': seq<int>, gantt': seq<Segment>, ghost runs': seq<nat>)
    requires 0 <= shortest < |s| == |rem| && s[shortest].name in names && IndexOf(names, s[shortest].name) < |waiting|
    ensures rem' == rem[shortest := rem[shortest] - 1] && t' == t + 1
    ensures minm' == (if rem'[shortest] == 0 then None else Some(rem'[shortest])) && check' == (rem'[shortest] != 0)
    ensures complete' == if rem'[shortest] == 0 then complete + 1 else complete
    ensures gantt' == Extend(gantt, s[shortest].name, t)
    ensures runs' == if gantt != [] && gantt[|gantt| - 1].name == s[shortest].name then runs else runs + [shortest]
    ensures waiting' == if rem'[shortest] == 0
      then waiting[IndexOf(names, s[shortest].name) := Max(0, t + 1 - s[shortest].burst - s[shortest].arrival)]
      else waiting
  {
    rem', t', complete', waiting', gantt', runs' := rem, t, complete, waiting, gantt, runs;
    check' := true;
    if gantt' != [] && gantt'[|gantt'| - 1].name == s[shortest].name {
      var last := gantt'[|gantt'| - 1];
      gantt' := gantt'[..|gantt'| - 1] + [Segment(last.name, last.start, last.duration + 1)];
    } else {
      gantt' := gantt' + [Segment(s[shortest].name, t', 1)];
      runs' := runs' + [shortest];
    }
    rem' := rem'[shortest := rem'[shortest] - 1];
    minm' := Some(rem'[shortest]);
    if minm'.value == 0 {
      minm' := None;
    }
    if rem'[shortest] == 0 {
      complete' := complete' + 1;
      check' := false;
      var finishTime := t' + 1;
      var idx := IndexOf(names, s[shortest].name);
      waiting' := waiting'[idx := finishTime - s[shortest].burst - s[shortest].arrival];
      if waiting'[idx] < 0 {
        waiting' := waiting'[idx := 0];
      }
    }
    t' := t' + 1;
  }

  // --------------------------------------------------------------- the loop

  /** The unit-step loop over the sorted table `Pick(ps, order)`, starting from
      the remaining times `rem0` (indexed like the sorted table), then the
      turnaround pass over the input rows. Row `j` of the table gets exactly
      `rem0[j]` units, never before its arrival; entries follow one another in time
      and neighbours differ; a row's waiting time is its last finish less its
      burst and arrival, clamped at 0; turnaround is burst plus waiting. */
  method Run(ps: seq<Proc>, order: seq<nat>, rem0: seq<int>)
    returns (waiting: seq<int>, turnaround: seq<int>, gantt: seq<Segment>, ghost runs: seq<nat>,
             ghost units: seq<Option<nat>>)
    requires UniqueNames(ps) && IsPermutation(order, |ps|)
    requires |rem0| == |ps| && forall j :: 0 <= j < |rem0| ==> rem0[j] > 0
    ensures Trace(Pick(ps, order), rem0, units) && gantt == Chart(Pick(ps, order), units)
    ensures forall j :: 0 <= j < |ps| ==> Count(units, j) == rem0[j]
    ensures |waiting| == |turnaround| == |ps| && |runs| == |gantt|
    ensures forall k :: 0 <= k < |gantt| ==>
      && runs[k] < |ps| && gantt[k].name == ps[order[runs[k]]].name && gantt[k].duration >= 1
      && ps[order[runs[k]]].arrival <= gantt[k].start
    ensures Coalesced(gantt) && Chronological(gantt)
    ensures Busy(gantt) == Sum(rem0)
    ensures forall j :: 0 <= j < |ps| ==> RowDone(ps, order, rem0, gantt, waiting, j)
    ensures forall i :: 0 <= i < |ps| ==> turnaround[i] == ps[i].burst + waiting[i]
  {
    waiting, gantt, runs, units := Loop(ps, order, rem0);
    turnaround := AddBursts(ps, waiting);
  }

  // ------------------------------------------------------- the entry points

  /** `sjf(preemptive=True)` with the remaining times taken from the sorted
      table, so that each process gets exactly its own burst. Every process runs
      for exactly its burst, never before it arrives; entries follow one another
      in time and neighbours belong to different processes; the timeline holds
      the total burst; waiting is last finish less burst and arrival and is never
      negative; turnaround is burst plus waiting. */
  method SjfPreemptive(ps: seq<Proc>)
    returns (waiting: seq<int>, turnaround: seq<int>, gantt: seq<Segment>, ghost rows: seq<nat>,
             ghost units: seq<Option<nat>>)
    requires UniqueNames(ps) && PositiveBursts(ps)
    ensures Trace(Pick(ps, ArrivalOrder(ps)), Bursts(Pick(ps, ArrivalOrder(ps))), units)
    ensures gantt == Chart(Pick(ps, ArrivalOrder(ps)), units)
    ensures |waiting| == |turnaround| == |ps| && |rows| == |gantt|
    ensures forall k :: 0 <= k < |gantt| ==>
      && rows[k] < |ps| && gantt[k].name == ps[rows[k]].name && gantt[k].duration >= 1
      && ps[rows[k]].arrival <= gantt[k].start
    ensures Coalesced(gantt) && Chronological(gantt)
    ensures Busy(gantt) == Sum(Bursts(ps))
    ensures forall i :: 0 <= i < |ps| ==>
      && WorkOf(gantt, ps[i].name) == ps[i].burst
      && waiting[i] == LastEnd(gantt, ps[i].name) - ps[i].burst - ps[i].arrival
      && waiting[i] >= 0
      && turnaround[i] == ps[i].burst + waiting[i]
  {
    var order := ArrivalOrder(ps);
    var rem0 := Bursts(Pick(ps, order));
    ArrangeFacts(ps, order);
    ghost var runs;
    waiting, turnaround, gantt, runs, units := Run(ps, order, rem0);
    rows := Pick(order, runs);
    forall i | 0 <= i < |ps|
      ensures WorkOf(gantt, ps[i].name) == ps[i].burst
      ensures waiting[i] == LastEnd(gantt, ps[i].name) - ps[i].burst - ps[i].arrival >= 0
    {
      var j := PositionOf(order, |ps|, i);
      assert RowDone(ps, order, rem0, gantt, waiting, j);
    }
  }

  /** `sjf(preemptive=True)` as written: `remaining_time` copies `burst_times` in
      input order, but the loop reads it by position in the sorted table. Row `j`
      of the sorted table (input row `order[j]`) is therefore run for the burst of
      input row `j`, whichever process that is: `RowDone` with `Bursts(ps)` as the
      remaining times. */
  method SjfPreemptiveAsWritten(ps: seq<Proc>)
    returns (waiting: seq<int>, turnaround: seq<int>, gantt: seq<Segment>, order: seq<nat>,
             ghost units: seq<Option<nat>>)
    requires UniqueNames(ps) && PositiveBursts(ps)
    ensures order == ArrivalOrder(ps)
    ensures Trace(Pick(ps, order), Bursts(ps), units) && gantt == Chart(Pick(ps, order), units)
    ensures |waiting| == |turnaround| == |ps|
    ensures Coalesced(gantt) && Chronological(gantt)
    ensures Busy(gantt) == Sum(Bursts(ps))
    ensures forall j :: 0 <= j < |ps| ==> RowDone(ps, order, Bursts(ps), gantt, waiting, j)
    ensures forall i :: 0 <= i < |ps| ==> turnaround[i] == ps[i].burst + waiting[i]
  {
    order := ArrivalOrder(ps);
    ghost var runs;
    waiting, turnaround, gantt, runs, units := Run(ps, order, Bursts(ps));
  }

  /** Input already in arrival order: the sort moves nothing, so both versions
      hand the loop the same remaining times. */
  lemma AsWrittenAgreesWhenSorted(ps: seq<Proc>)
    requires ArrivalSorted(ps)
    ensures ArrivalOrder(ps) == Identity(|ps|)
    ensures Bursts(Pick(ps, ArrivalOrder(ps))) == Bursts(ps)
  {
    var keys := ArrivalKeys(ps);
    assert KeysSorted(keys) by {
      forall i, j | 0 <= i < j < |keys| ensures !KeyLess(keys[j], keys[i]) {
        assert keys[i] == Key(ps[i].arrival, 0) && keys[j] == Key(ps[j].arrival, 0);
      }
    }
    SortedIsUnchanged(keys);
  }

  /** Two processes entered out of arrival order: P1 (burst 5, arrives at 3),
      then P2 (burst 1, arrives at 0). */
  function OutOfOrder(): (ps: seq<Proc>)
    ensures |ps| == 2 && UniqueNames(ps) && PositiveBursts(ps)
  {
    [Proc("P1", 5, 3, 0), Proc("P2", 1, 0, 0)]
  }

  /** On that input, whatever the as-written version returns gives P2 five units
      of CPU although its burst is 1, and P1 one unit although its burst is 5. */
  lemma AsWrittenSwapsBursts(gantt: seq<Segment>, waiting: seq<int>)
    requires |waiting| == 2
    requires forall j :: 0 <= j < 2 ==>
      RowDone(OutOfOrder(), ArrivalOrder(OutOfOrder()), Bursts(OutOfOrder()), gantt, waiting, j)
    ensures WorkOf(gantt, "P2") == 5 != OutOfOrder()[1].burst
    ensures WorkOf(gantt, "P1") == 1 != OutOfOrder()[0].burst
  {
    var ps := OutOfOrder();
    var order := ArrivalOrder(ps);
    assert order[0] == 1 && order[1] == 0 by {
      assert order[0] < 2 && order[1] < 2 && order[0] != order[1];
      assert ps[order[0]].arrival <= ps[order[1]].arrival;
    }
    assert RowDone(ps, order, Bursts(ps), gantt, waiting, 0);
    assert RowDone(ps, order, Bursts(ps), gantt, waiting, 1);
  }

  /** The unit-step loop itself, up to the point where every row has finished. */
  method Loop(ps: seq<Proc>, order: seq<nat>, rem0: seq<int>)
    returns (waiting: seq<int>, gantt: seq<Segment>, ghost runs: seq<nat>, ghost units: seq<Option<nat>>)
    requires UniqueNames(ps) && IsPermutation(order, |ps|)
    requires |rem0| == |ps| && forall j :: 0 <= j < |rem0| ==> rem0[j] > 0
    ensures Trace(Pick(ps, order), rem0, units) && gantt == Chart(Pick(ps, order), units)
    ensures forall j :: 0 <= j < |ps| ==> Count(units, j) == rem0[j]
    ensures |waiting| == |ps| && |runs| == |gantt|
    ensures forall k :: 0 <= k < |gantt| ==>
      && runs[k] < |ps| && gantt[k].name == ps[order[runs[k]]].name && gantt[k].duration >= 1
      && ps[order[runs[k]]].arrival <= gantt[k].start
    ensures Coalesced(gantt) && Chronological(gantt)
    ensures Busy(gantt) == Sum(rem0)
    ensures forall j :: 0 <= j < |ps| ==> RowDone(ps, order, rem0, gantt, waiting, j)
  {
    var n := |ps|;
    var processes := Pick(ps, order);
    var names := Names(ps);
    ArrangeFacts(ps, order);
    var rem := rem0;
    var complete := 0;
    var t := 0;
    var minm: Option<int> := None;
    var shortest := 0;
    var check := false;
    waiting := seq(n, _ => 0);
    gantt := [];
    runs := [];
    units := [];
    Start(ps, order, processes, rem0);
    StartTrace(processes, rem0);
    while complete != n
      invariant Progress(ps, order, processes, rem0, rem, t, minm, shortest, check, complete, waiting, gantt, runs)
      invariant Timeline(processes, rem0, rem, t, shortest, check, gantt, units)
      decreases Sum(rem), MaxArrival(processes) - t
    {
      SumNonNegative(rem);
      rem, t, minm, shortest, check, complete, waiting, gantt, runs, units :=
        Step(ps, order, processes, names, rem0, rem, t, minm, shortest, check, complete, waiting, gantt, runs, units);
    }
    Finish(ps, order, processes, rem0, rem, t, complete, waiting, gantt, runs);
    FinishTrace(processes, rem0, rem, t, shortest, check, gantt, units);
  }

  /** Before the first unit the trace is empty: nothing has run and nobody holds the CPU. */
  lemma StartTrace(s: seq<Proc>, rem0: seq<int>)
    ensures Timeline(s, rem0, rem0, 0, 0, false, [], [])
  {
    assert Left(rem0, []) == rem0;
  }

  /** Once every row has finished, the trace has given each row all its units. */
  lemma FinishTrace(s: seq<Proc>, rem0: seq<int>, rem: seq<int>, t: int, shortest: int, check: bool,
                    gantt: seq<Segment>, units: seq<Option<nat>>)
    requires Timeline(s, rem0, rem, t, shortest, check, gantt, units) && Finished(rem) == |rem|
    ensures Trace(s, rem0, units) && gantt == Chart(s, units)
    ensures forall j :: 0 <= j < |rem0| ==> Count(units, j) == rem0[j]
  {
    FinishedAll(rem);
  }

  lemma {:induction false} FinishedNone(rem: seq<int>)
    requires forall j :: 0 <= j < |rem| ==> rem[j] > 0
    ensures Finished(rem) == 0
  {
    if rem != [] {
      FinishedNone(rem[..|rem| - 1]);
    }
  }

  /** Before the loop: every row has its whole remaining time, the clock is at 0,
      the timeline is empty and nobody holds the CPU. */
  lemma Start(ps: seq<Proc>, order: seq<nat>, s: seq<Proc>, rem0: seq<int>)
    requires UniqueNames(ps) && IsPermutation(order, |ps|) && s == Pick(ps, order)
    requires |rem0| == |ps| && forall j :: 0 <= j < |rem0| ==> rem0[j] > 0
    ensures Setup(ps, order, s, rem0)
    ensures Progress(ps, order, s, rem0, rem0, 0, None, 0, false, 0, seq(|ps|, _ => 0), [], [])
  {
    ArrangeFacts(ps, order);
    FinishedNone(rem0);
  }

  /** When the counter reaches `n` every remaining time is 0, so every row has
      had all its units and has its waiting time. */
  lemma Finish(ps: seq<Proc>, order: seq<nat>, s: seq<Proc>, rem0: seq<int>, rem: seq<int>, t: int,
               complete: int, waiting: seq<int>, gantt: seq<Segment>, runs: seq<nat>)
    requires |order| == |s| == |ps| == |rem0| == |waiting|
    requires (forall j :: 0 <= j < |order| ==> order[j] < |ps|) && s == Pick(ps, order)
    requires Accounting(rem0, rem, complete, gantt) && complete == |ps|
    requires forall j :: 0 <= j < |rem0| ==> rem0[j] > 0
    requires Shape(s, rem, gantt, runs, t) && Work(s, rem0, rem, gantt, t) && Results(s, order, rem, gantt, waiting)
    ensures |runs| == |gantt|
    ensures forall k :: 0 <= k < |gantt| ==>
      && runs[k] < |ps| && gantt[k].name == ps[order[runs[k]]].name && gantt[k].duration >= 1
      && ps[order[runs[k]]].arrival <= gantt[k].start
    ensures Coalesced(gantt) && Chronological(gantt)
    ensures Busy(gantt) == Sum(rem0)
    ensures forall j :: 0 <= j < |ps| ==> RowDone(ps, order, rem0, gantt, waiting, j)
  {
    FinishedAll(rem);
    SumNonNegative(rem);
    FinishShape(ps, order, s, rem, gantt, runs, t);
    FinishRows(ps, order, s, rem0, rem, gantt, waiting, t);
  }

  lemma FinishShape(ps: seq<Proc>, order: seq<nat>, s: seq<Proc>, rem: seq<int>, gantt: seq<Segment>, runs: seq<nat>, t: int)
    requires |order| == |s| == |ps| == |rem|
    requires (forall j :: 0 <= j < |order| ==> order[j] < |ps|) && s == Pick(ps, order)
    requires Shape(s, rem, gantt, runs, t)
    ensures |runs| == |gantt|
    ensures forall k :: 0 <= k < |gantt| ==>
      && runs[k] < |ps| && gantt[k].name == ps[order[runs[k]]].name && gantt[k].duration >= 1
      && ps[order[runs[k]]].arrival <= gantt[k].start
  {
    forall k | 0 <= k < |gantt|
      ensures gantt[k].name == ps[order[runs[k]]].name && ps[order[runs[k]]].arrival <= gantt[k].start
    {
      assert s[runs[k]] == ps[order[runs[k]]];
    }
  }

  lemma FinishRows(ps: seq<Proc>, order: seq<nat>, s: seq<Proc>, rem0: seq<int>, rem: seq<int>,
                   gantt: seq<Segment>, waiting: seq<int>, t: int)
    requires |order| == |s| == |ps| == |rem0| == |rem| == |waiting|
    requires (forall j :: 0 <= j < |order| ==> order[j] < |ps|) && s == Pick(ps, order)
    requires forall j :: 0 <= j < |rem| ==> rem[j] == 0 < rem0[j]
    requires Work(s, rem0, rem, gantt, t) && Results(s, order, rem, gantt, waiting)
    ensures forall j :: 0 <= j < |ps| ==> RowDone(ps, order, rem0, gantt, waiting, j)
  {
    forall j | 0 <= j < |ps|
      ensures WorkOf(gantt, ps[order[j]].name) == rem0[j]
      ensures LastEnd(gantt, ps[order[j]].name) >= ps[order[j]].arrival + rem0[j]
      ensures waiting[order[j]] == Max(0, LastEnd(gantt, ps[order[j]].name) - ps[order[j]].burst - ps[order[j]].arrival)
    {
      assert s[j] == ps[order[j]];
    }
  }
}
