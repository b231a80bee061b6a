/** The process table, the Gantt timeline and the sums the schedulers report. */
module Processes {

  /** `None` stands for the `float('inf')` sentinel of the selection loops. */
  datatype Option<T> = None | Some(value: T)

  /** One row of the four parallel lists `process_list`, `burst_times`,
      `arrival_times` and `priorities`. */
  datatype Proc = Proc(name: string, burst: int, arrival: int, priority: int)

  /** One Gantt entry: which process ran, from when, and for how long. */
  datatype Segment = Segment(name: string, start: int, duration: int)

  function End(g: Segment): int { g.start + g.duration }

  function Max(a: int, b: int): int { if a < b then b else a }

  /** `x < bound`, where a missing bound is the `float('inf')` sentinel. */
  predicate Below(x: int, bound: Option<int>) {
    bound.None? || x < bound.value
  }

  function Names(ps: seq<Proc>): (r: seq<string>)
    ensures |r| == |ps| && forall i {:trigger r[i]} :: 0 <= i < |ps| ==> r[i] == ps[i].name
  {
    seq(|ps|, i requires 0 <= i < |ps| => ps[i].name)
  }

  function Bursts(ps: seq<Proc>): (r: seq<int>)
    ensures |r| == |ps| && forall i :: 0 <= i < |ps| ==> r[i] == ps[i].burst
  {
    seq(|ps|, i requires 0 <= i < |ps| => ps[i].burst)
  }

  /** Two records never share a name. Stated on the entries of `Names(ps)`, so
      that the solver uses it only where `DistinctNames` asks for it. */
  ghost predicate UniqueNames(ps: seq<Proc>) {
    forall i, j :: 0 <= i < j < |Names(ps)| ==> Names(ps)[i] != Names(ps)[j]
  }

  /** Unique names, record by record. */
  lemma DistinctNames(ps: seq<Proc>)
    requires UniqueNames(ps)
    ensures forall i, j :: 0 <= i < |ps| && 0 <= j < |ps| && i != j ==> ps[i].name != ps[j].name
  {
    forall i, j | 0 <= i < |ps| && 0 <= j < |ps| && i != j ensures ps[i].name != ps[j].name {
      assert Names(ps)[i] == ps[i].name && Names(ps)[j] == ps[j].name;
    }
  }

  predicate PositiveBursts(ps: seq<Proc>) {
    forall i :: 0 <= i < |ps| ==> ps[i].burst > 0
  }

  /** Python's `list.index`: the position of the first occurrence. */
  function IndexOf(names: seq<string>, name: string): (r: nat)
    requires name in names
    ensures r < |names| && names[r] == name
    ensures forall i :: 0 <= i < r ==> names[i] != name
  {
    if names[0] == name then 0 else 1 + IndexOf(names[1..], name)
  }

  /** With unique names, looking a record's name up finds that record. */
  lemma IndexOfUnique(ps: seq<Proc>, i: nat)
    requires UniqueNames(ps) && i < |ps|
    ensures ps[i].name in Names(ps) && IndexOf(Names(ps), ps[i].name) == i
  {
    assert Names(ps)[i] == ps[i].name;
  }

  /** The latest arrival of the table; it bounds every idle stretch. */
  function MaxArrival(ps: seq<Proc>): (r: int)
    ensures forall i :: 0 <= i < |ps| ==> ps[i].arrival <= r
    ensures |ps| > 0 ==> exists i :: 0 <= i < |ps| && ps[i].arrival == r
  {
    if |ps| == 0 then 0
    else if |ps| == 1 then ps[0].arrival
    else
      var m := MaxArrival(ps[1..]);
      assert forall i :: 1 <= i < |ps| ==> ps[i] == ps[1..][i - 1];
      if ps[0].arrival >= m then ps[0].arrival else m
  }

  // ---------------------------------------------------------------- sums

  function Sum(s: seq<int>): int {
    if s == [] then 0 else Sum(s[..|s| - 1]) + s[|s| - 1]
  }

  lemma {:induction false} SumConcat(a: seq<int>, b: seq<int>)
    ensures Sum(a + b) == Sum(a) + Sum(b)
  {
    if b != [] {
      assert (a + b)[..|a + b| - 1] == a + b[..|b| - 1];
      SumConcat(a, b[..|b| - 1]);
    } else {
      assert a + b == a;
    }
  }

  /** Summing a table element by element: point update changes the sum by the difference. */
  lemma {:induction false} SumUpdate(s: seq<int>, i: nat, v: int)
    requires i < |s|
    ensures Sum(s[i := v]) == Sum(s) - s[i] + v
  {
    assert s == s[..i] + [s[i]] + s[i + 1..];
    assert s[i := v] == s[..i] + [v] + s[i + 1..];
    SumConcat(s[..i] + [s[i]], s[i + 1..]);
    SumConcat(s[..i], [s[i]]);
    SumConcat(s[..i] + [v], s[i + 1..]);
    SumConcat(s[..i], [v]);
    assert Sum([s[i]]) == s[i] by { assert [s[i]][..0] == []; }
    assert Sum([v]) == v by { assert [v][..0] == []; }
  }

  lemma {:induction false} SumNonNegative(s: seq<int>)
    requires forall i :: 0 <= i < |s| ==> s[i] >= 0
    ensures Sum(s) >= 0
    ensures Sum(s) == 0 <==> forall i :: 0 <= i < |s| ==> s[i] == 0
  {
    if s != [] {
      SumNonNegative(s[..|s| - 1]);
      assert forall i :: 0 <= i < |s| - 1 ==> s[..|s| - 1][i] == s[i];
    }
  }

  /** The entries of `s` at the positions `order` lists, in that order: the
      sorted process table, a sequence of bursts, or one order followed through
      another. */
  function Pick<T>(s: seq<T>, order: seq<nat>): (r: seq<T>)
    requires forall k :: 0 <= k < |order| ==> order[k] < |s|
    ensures |r| == |order| && forall k :: 0 <= k < |order| ==> r[k] == s[order[k]]
  {
    seq(|order|, k requires 0 <= k < |order| => s[order[k]])
  }

  /** `order` lists every position below `n` exactly once. */
  ghost predicate IsPermutation(order: seq<nat>, n: nat) {
    && |order| == n
    && (forall k :: 0 <= k < n ==> order[k] < n)
    && (forall v :: 0 <= v < n ==> v in order)
    && (forall a, b :: 0 <= a < b < n ==> order[a] != order[b])
  }

  /** Where a permutation holds the value `v`. */
  lemma PositionOf(order: seq<nat>, n: nat, v: nat) returns (k: nat)
    requires IsPermutation(order, n) && v < n
    ensures k < n && order[k] == v
  {
    assert v in order;
    k :| 0 <= k < |order| && order[k] == v;
  }

  /** Two permutations compose into a permutation. */
  lemma ComposePermutation(order: seq<nat>, picks: seq<nat>, n: nat)
    requires IsPermutation(order, n) && IsPermutation(picks, n)
    ensures IsPermutation(Pick(order, picks), n)
  {
    var r := Pick(order, picks);
    forall v | 0 <= v < n ensures v in r {
      assert v in order;
      var m :| 0 <= m < n && order[m] == v;
      assert m in picks;
      var k :| 0 <= k < n && picks[k] == m;
      assert r[k] == v;
    }
  }

  /** Dropping the entry that holds the largest position leaves a permutation of the rest. */
  lemma DropLargest(order: seq<nat>, n: nat) returns (k: nat)
    requires n > 0 && IsPermutation(order, n)
    ensures k < n && order[k] == n - 1
    ensures forall a :: 0 <= a < n && a != k ==> order[a] < n - 1
    ensures IsPermutation(order[..k] + order[k + 1..], n - 1)
  {
    k := PositionOf(order, n, n - 1);
    var rest := order[..k] + order[k + 1..];
    forall a | 0 <= a < n && a != k ensures order[a] < n - 1 {
      if a < k { assert order[a] != order[k]; } else { assert order[k] != order[a]; }
    }
    assert |rest| == n - 1;
    forall a | 0 <= a < n - 1 ensures rest[a] == order[if a < k then a else a + 1] {
      if a < k { assert rest[a] == order[..k][a]; } else { assert rest[a] == order[k + 1..][a - k]; }
    }
    forall v | 0 <= v < n - 1 ensures v in rest {
      var a := PositionOf(order, n, v);
      if a < k { assert rest[a] == v; } else { assert rest[a - 1] == v; }
    }
    forall a, b | 0 <= a < b < n - 1 ensures rest[a] != rest[b] {
      var i, j := if a < k then a else a + 1, if b < k then b else b + 1;
      assert i < j && rest[a] == order[i] && rest[b] == order[j];
    }
  }

  lemma PickConcat(s: seq<int>, a: seq<nat>, b: seq<nat>)
    requires forall k :: 0 <= k < |a| ==> a[k] < |s|
    requires forall k :: 0 <= k < |b| ==> b[k] < |s|
    ensures Pick(s, a + b) == Pick(s, a) + Pick(s, b)
  {
  }

  /** Picking from a table whose last entry is chosen once, at `k`. */
  lemma PickAroundLast(s: seq<int>, order: seq<nat>, k: nat)
    requires |s| > 0 && k < |order| && order[k] == |s| - 1
    requires forall a :: 0 <= a < |order| && a != k ==> order[a] < |s| - 1
    ensures Pick(s, order) == Pick(s[..|s| - 1], order[..k]) + [s[|s| - 1]] + Pick(s[..|s| - 1], order[k + 1..])
  {
    var t, before, after := s[..|s| - 1], order[..k], order[k + 1..];
    assert order == before + [order[k]] + after;
    PickConcat(s, before + [order[k]], after);
    PickConcat(s, before, [order[k]]);
    assert Pick(s, [order[k]]) == [s[|s| - 1]];
    PickPrefix(s, t, before);
    PickPrefix(s, t, after);
  }

  /** Picking only from a prefix of a table is picking from the prefix. */
  lemma PickPrefix(s: seq<int>, t: seq<int>, order: seq<nat>)
    requires t <= s && forall a :: 0 <= a < |order| ==> order[a] < |t|
    ensures Pick(s, order) == Pick(t, order)
  {
  }

  lemma SumAround(left: seq<int>, x: int, right: seq<int>)
    ensures Sum(left + [x] + right) == Sum(left + right) + x
  {
    SumConcat(left + [x], right);
    SumConcat(left, [x]);
    SumConcat(left, right);
    assert Sum([x]) == x by { assert [x][..0] == []; }
  }

  /** Rearranging a table does not change its sum. */
  lemma {:induction false} SumPermuted(s: seq<int>, order: seq<nat>)
    requires IsPermutation(order, |s|)
    ensures Sum(Pick(s, order)) == Sum(s)
  {
    var n := |s|;
    if n > 0 {
      var k := DropLargest(order, n);
      PickAroundLast(s, order, k);
      SumPermuted(s[..n - 1], order[..k] + order[k + 1..]);
      PickConcat(s[..n - 1], order[..k], order[k + 1..]);
      SumAround(Pick(s[..n - 1], order[..k]), s[n - 1], Pick(s[..n - 1], order[k + 1..]));
    }
  }

  /** The mean of a list of integer metrics as an exact rational. */
  function Mean(s: seq<int>): (r: real)
    requires |s| > 0
    ensures r * (|s| as real) == Sum(s) as real
  {
    (Sum(s) as real) / (|s| as real)
  }

  /** Turnaround = waiting + burst row by row makes the totals add up the same way. */
  lemma {:induction false} TotalsAddUp(waiting: seq<int>, turnaround: seq<int>, ps: seq<Proc>)
    requires |waiting| == |turnaround| == |ps|
    requires forall i :: 0 <= i < |ps| ==> turnaround[i] == waiting[i] + ps[i].burst
    ensures Sum(turnaround) == Sum(waiting) + Sum(Bursts(ps))
  {
    if ps != [] {
      var m := |ps| - 1;
      TotalsAddUp(waiting[..m], turnaround[..m], ps[..m]);
      assert Bursts(ps)[..m] == Bursts(ps[..m]);
    }
  }

  /** The closing pass of the preemptive schedulers: turnaround is burst plus
      waiting, row by row. */
  method AddBursts(ps: seq<Proc>, waiting: seq<int>) returns (turnaround: seq<int>)
    requires |waiting| == |ps|
    ensures |turnaround| == |ps| && forall i :: 0 <= i < |ps| ==> turnaround[i] == ps[i].burst + waiting[i]
  {
    turnaround := seq(|ps|, _ => 0);
    for i := 0 to |ps|
      invariant |turnaround| == |ps|
      invariant forall i' :: 0 <= i' < i ==> turnaround[i'] == ps[i'].burst + waiting[i']
    {
      turnaround := turnaround[i := ps[i].burst + waiting[i]];
    }
  }

  // ------------------------------------------------------------ timeline

  /** CPU time recorded in a timeline. */
  function Busy(g: seq<Segment>): int {
    if g == [] then 0 else Busy(g[..|g| - 1]) + g[|g| - 1].duration
  }

  /** CPU time a timeline gives to the process called `name`. */
  function WorkOf(g: seq<Segment>, name: string): int {
    if g == [] then 0
    else WorkOf(g[..|g| - 1], name) + (if g[|g| - 1].name == name then g[|g| - 1].duration else 0)
  }

  /** End of the last segment of `name`: the moment that process left the CPU. */
  function LastEnd(g: seq<Segment>, name: string): int {
    if g == [] then 0
    else if g[|g| - 1].name == name then End(g[|g| - 1])
    else LastEnd(g[..|g| - 1], name)
  }

  /** Segments follow one another in time without overlapping. */
  ghost predicate Chronological(g: seq<Segment>) {
    forall k {:trigger g[k]} :: 0 < k < |g| ==> End(g[k - 1]) <= g[k].start
  }

  /** No two neighbouring segments belong to the same process. */
  ghost predicate Coalesced(g: seq<Segment>) {
    forall k {:trigger g[k]} :: 0 < k < |g| ==> g[k - 1].name != g[k].name
  }

  /** A process's last segment ends when it leaves the CPU for good. */
  lemma {:induction false} LastEndAt(g: seq<Segment>, k: nat, name: string)
    requires k < |g| && g[k].name == name
    requires forall j :: k < j < |g| ==> g[j].name != name
    ensures LastEnd(g, name) == End(g[k])
  {
    if k < |g| - 1 {
      LastEndAt(g[..|g| - 1], k, name);
    }
  }

  /** When the k-th entry of a timeline runs row `runs[k]`, no row runs twice
      and names are unique, that entry is the row's last one. */
  lemma LastEndOfRun(ps: seq<Proc>, runs: seq<nat>, g: seq<Segment>, k: nat)
    requires UniqueNames(ps) && |runs| == |g| && k < |g|
    requires forall a :: 0 <= a < |runs| ==> runs[a] < |ps| && g[a].name == ps[runs[a]].name
    requires forall a, b :: 0 <= a < b < |runs| ==> runs[a] != runs[b]
    ensures LastEnd(g, ps[runs[k]].name) == End(g[k])
  {
    DistinctNames(ps);
    forall j | k < j < |g| ensures g[j].name != ps[runs[k]].name {
      assert runs[k] != runs[j];
    }
    LastEndAt(g, k, ps[runs[k]].name);
  }

  /** Per-row metrics from per-entry ones: when every row runs once, from an
      entry that ends its turnaround, each row's turnaround ends at the end of
      its last entry and its waiting time is never negative. */
  lemma RowsFromRuns(ps: seq<Proc>, runs: seq<nat>, g: seq<Segment>, waiting: seq<int>, turnaround: seq<int>)
    requires UniqueNames(ps) && IsPermutation(runs, |ps|)
    requires |g| == |waiting| == |turnaround| == |ps|
    requires forall k :: 0 <= k < |ps| ==>
      && g[k].name == ps[runs[k]].name && g[k].duration == ps[runs[k]].burst
      && ps[runs[k]].arrival <= g[k].start
    requires forall k :: 0 <= k < |ps| ==>
      && turnaround[runs[k]] == End(g[k]) - ps[runs[k]].arrival
      && waiting[runs[k]] == turnaround[runs[k]] - ps[runs[k]].burst
    ensures forall i :: 0 <= i < |ps| ==>
      && turnaround[i] == LastEnd(g, ps[i].name) - ps[i].arrival
      && waiting[i] == turnaround[i] - ps[i].burst
      && waiting[i] >= 0
  {
    forall i | 0 <= i < |ps| {
      RowFromRuns(ps, runs, g, waiting, turnaround, i);
    }
  }

  lemma {:induction false} RowFromRuns(ps: seq<Proc>, runs: seq<nat>, g: seq<Segment>, waiting: seq<int>, turnaround: seq<int>, i: nat)
    requires UniqueNames(ps) && IsPermutation(runs, |ps|) && i < |ps|
    requires |g| == |waiting| == |turnaround| == |ps|
    requires forall k :: 0 <= k < |ps| ==>
      && g[k].name == ps[runs[k]].name && g[k].duration == ps[runs[k]].burst
      && ps[runs[k]].arrival <= g[k].start
    requires forall k :: 0 <= k < |ps| ==>
      && turnaround[runs[k]] == End(g[k]) - ps[runs[k]].arrival
      && waiting[runs[k]] == turnaround[runs[k]] - ps[runs[k]].burst
    ensures turnaround[i] == LastEnd(g, ps[i].name) - ps[i].arrival
    ensures waiting[i] == turnaround[i] - ps[i].burst && waiting[i] >= 0
  {
    var k := PositionOf(runs, |ps|, i);
    LastEndOfRun(ps, runs, g, k);
  }

  lemma {:induction false} AppendSegment(g: seq<Segment>, x: Segment, name: string)
    ensures Busy(g + [x]) == Busy(g) + x.duration
    ensures WorkOf(g + [x], name) == WorkOf(g, name) + (if x.name == name then x.duration else 0)
    ensures LastEnd(g + [x], name) == if x.name == name then End(x) else LastEnd(g, name)
  {
    assert (g + [x])[..|g|] == g;
  }
}
