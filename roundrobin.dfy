/** Round robin (`round_robin`): the table stays in input order; a FIFO ready
    queue of row positions is fed by arrival scans, the head of the queue runs
    for at most one time quantum, and a row that still has work afterwards goes
    to the back of the queue behind the rows that arrived during its slice. */
module RoundRobin {
  import opened Processes

  // ------------------------------------------------------------ admission

  /** The arrival window of a scan: arrived by `t` and, for the scans after a
      slice that started at `after`, strictly later than `after`. */
  predicate Window(p: Proc, after: Option<int>, t: int) {
    (after.None? || after.value < p.arrival) && p.arrival <= t
  }

  /** The rows a scan admits, in the order it visits them: every row among the
      first `m` that lies in the window and whose name is not yet in `arrived`. */
  function Admissions(ps: seq<Proc>, after: Option<int>, t: int, arrived: seq<string>, m: nat): (r: seq<nat>)
    requires m <= |ps|
    ensures forall a :: 0 <= a < |r| ==> r[a] < m
  {
    if m == 0 then []
    else
      var r := Admissions(ps, after, t, arrived, m - 1);
      if Window(ps[m - 1], after, t) && ps[m - 1].name !in arrived then r + [m - 1] else r
  }

  /** A scan admits exactly the rows in the window not yet arrived, each once, in
      increasing position. */
  lemma {:induction false} AdmissionsFacts(ps: seq<Proc>, after: Option<int>, t: int, arrived: seq<string>, m: nat)
    requires m <= |ps|
    ensures var r := Admissions(ps, after, t, arrived, m);
      && (forall v: nat :: v in r <==> v < m && Window(ps[v], after, t) && ps[v].name !in arrived)
      && (forall a, b :: 0 <= a < b < |r| ==> r[a] < r[b])
  {
    if m > 0 {
      AdmissionsFacts(ps, after, t, arrived, m - 1);
    }
  }

  /** The names of the rows at the positions `rows`, in order. */
  function NamesAt(ps: seq<Proc>, rows: seq<nat>): (r: seq<string>)
    requires forall a :: 0 <= a < |rows| ==> rows[a] < |ps|
    ensures |r| == |rows|
  {
    if rows == [] then [] else NamesAt(ps, rows[..|rows| - 1]) + [ps[rows[|rows| - 1]].name]
  }

  /** Entry `a` of `NamesAt(ps, rows)` is the name of row `rows[a]`. */
  lemma {:induction false} NamesAtIndex(ps: seq<Proc>, rows: seq<nat>)
    requires forall a :: 0 <= a < |rows| ==> rows[a] < |ps|
    ensures forall a :: 0 <= a < |rows| ==> NamesAt(ps, rows)[a] == ps[rows[a]].name
  {
    if rows != [] {
      var init := rows[..|rows| - 1];
      NamesAtIndex(ps, init);
      assert forall a :: 0 <= a < |init| ==> init[a] == rows[a];
    }
  }

  /** One arrival scan: the admitted rows join the back of the ready queue in
      index order and their names join `arrived`. */
  method Admit(ps: seq<Proc>, after: Option<int>, t: int, ready: seq<nat>, arrived: seq<string>)
    returns (ready': seq<nat>, arrived': seq<string>)
    requires UniqueNames(ps)
    ensures ready' == ready + Admissions(ps, after, t, arrived, |ps|)
    ensures arrived' == arrived + NamesAt(ps, Admissions(ps, after, t, arrived, |ps|))
  {
    ready', arrived' := ready, arrived;
    for i := 0 to |ps|
      invariant ready' == ready + Admissions(ps, after, t, arrived, i)
      invariant arrived' == arrived + NamesAt(ps, Admissions(ps, after, t, arrived, i))
    {
      var admit := Window(ps[i], after, t) && ps[i].name !in arrived';
      var r, a := ready', arrived';
      if admit {
        ready' := ready' + [i];
        arrived' := arrived' + [ps[i].name];
      }
      AdmitStep(ps, after, t, ready, arrived, i, r, a, admit, ready', arrived');
    }
  }

  /** Visiting row `i` in `Admit` extends the scan's result by that one row. */
  lemma AdmitStep(ps: seq<Proc>, after: Option<int>, t: int, ready: seq<nat>, arrived: seq<string>, i: nat,
                  r: seq<nat>, a: seq<string>, admit: bool, r': seq<nat>, a': seq<string>)
    requires UniqueNames(ps) && i < |ps|
    requires r == ready + Admissions(ps, after, t, arrived, i)
    requires a == arrived + NamesAt(ps, Admissions(ps, after, t, arrived, i))
    requires admit == (Window(ps[i], after, t) && ps[i].name !in a)
    requires r' == (if admit then r + [i] else r) && a' == (if admit then a + [ps[i].name] else a)
    ensures r' == ready + Admissions(ps, after, t, arrived, i + 1)
    ensures a' == arrived + NamesAt(ps, Admissions(ps, after, t, arrived, i + 1))
  {
    var adm := Admissions(ps, after, t, arrived, i);
    ScanStep(ps, after, t, arrived, i);
    if admit {
      assert Admissions(ps, after, t, arrived, i + 1) == adm + [i];
      assert r' == ready + (adm + [i]);
      assert a' == arrived + (NamesAt(ps, adm) + [ps[i].name]);
    } else {
      assert Admissions(ps, after, t, arrived, i + 1) == adm;
    }
  }

  /** Visiting row `i`: the name test against the growing `arrived` list agrees
      with the test against the list the scan started from, and the admitted rows
      and the names grow by that row exactly when it passes. */
  lemma ScanStep(ps: seq<Proc>, after: Option<int>, t: int, arrived: seq<string>, i: nat)
    requires UniqueNames(ps) && i < |ps|
    ensures var adm := Admissions(ps, after, t, arrived, i);
      && (ps[i].name in arrived + NamesAt(ps, adm) <==> ps[i].name in arrived)
      && Admissions(ps, after, t, arrived, i + 1) ==
           (if Window(ps[i], after, t) && ps[i].name !in arrived then adm + [i] else adm)
      && NamesAt(ps, adm + [i]) == NamesAt(ps, adm) + [ps[i].name]
  {
    var adm := Admissions(ps, after, t, arrived, i);
    NamesIn(ps, arrived, adm);
    AdmissionsFacts(ps, after, t, arrived, i);
    assert i !in adm;
    assert (adm + [i])[..|adm|] == adm;
  }

  /** A row's name is among the names of `rows` exactly when the row is. */
  lemma NamesIn(ps: seq<Proc>, arrived: seq<string>, rows: seq<nat>)
    requires UniqueNames(ps) && forall a :: 0 <= a < |rows| ==> rows[a] < |ps|
    ensures forall i :: 0 <= i < |ps| ==>
      (ps[i].name in arrived + NamesAt(ps, rows) <==> ps[i].name in arrived || i in rows)
  {
    DistinctNames(ps);
    NamesAtIndex(ps, rows);
    forall i | 0 <= i < |ps| && ps[i].name in NamesAt(ps, rows) ensures i in rows {
      var a :| 0 <= a < |rows| && NamesAt(ps, rows)[a] == ps[i].name;
      assert ps[rows[a]].name == ps[i].name;
    }
    forall i | 0 <= i < |ps| && i in rows ensures ps[i].name in NamesAt(ps, rows) {
      var a :| 0 <= a < |rows| && rows[a] == i;
      assert NamesAt(ps, rows)[a] == ps[i].name;
    }
  }

  // ------------------------------------------------------------ the invariant

  /** Entry `a` of a list of positions. */
  ghost function At(s: seq<nat>, a: nat): nat
    requires a < |s|
  {
    s[a]
  }

  /** No position occurs twice. It is stated on `At` rather than on `s[a]` so
      that the solver compares only the entries a proof asks about;
      `DistinctIndex` gives it in index form. */
  ghost predicate Distinct(s: seq<nat>) {
    forall a, b :: 0 <= a < b < |s| ==> At(s, a) != At(s, b)
  }

  lemma DistinctIndex(s: seq<nat>)
    requires Distinct(s)
    ensures forall a, b :: 0 <= a < |s| && 0 <= b < |s| && a != b ==> s[a] != s[b]
  {
    forall a, b | 0 <= a < |s| && 0 <= b < |s| && a != b ensures s[a] != s[b] {
      if a < b { assert At(s, a) != At(s, b); } else { assert At(s, b) != At(s, a); }
    }
  }

  /** The positions listed in `s`. */
  ghost function Rows(s: seq<nat>): set<nat> {
    set v | v in s
  }

  /** `log` lists the positions admitted so far, in admission order; `arrived`
      holds their names and `admitted` the positions themselves, which is what
      the invariant below speaks of. */
  ghost predicate Tracks(ps: seq<Proc>, arrived: seq<string>, log: seq<nat>, admitted: set<nat>) {
    && (forall a :: 0 <= a < |log| ==> log[a] < |ps|)
    && arrived == NamesAt(ps, log)
    && admitted == Rows(log)
  }

  /** `adm` is what a scan over the window (`after`, `t`] adds: each row in the
      window that is not admitted yet, once. */
  ghost predicate Scanned(ps: seq<Proc>, after: Option<int>, t: int, admitted: set<nat>, adm: seq<nat>) {
    && Distinct(adm)
    && (forall a :: 0 <= a < |adm| ==> adm[a] < |ps|)
    && (forall v: nat :: v in adm <==> v < |ps| && Window(ps[v], after, t) && v !in admitted)
  }

  /** The ready queue holds admitted rows that still have work, each once, and
      every admitted row with work left is in it. */
  ghost predicate Queue(ps: seq<Proc>, rem: seq<int>, ready: seq<nat>, admitted: set<nat>)
    requires |rem| == |ps|
  {
    && (forall a :: 0 <= a < |ready| ==> ready[a] < |ps| && rem[ready[a]] > 0 && ready[a] in admitted)
    && Distinct(ready)
    && (forall i :: 0 <= i < |ps| && i in admitted && rem[i] > 0 ==> i in ready)
  }

  /** Admitted rows have arrived by `t`; rows not yet admitted are untouched. */
  ghost predicate Admission(ps: seq<Proc>, rem: seq<int>, admitted: set<nat>, t: int)
    requires |rem| == |ps|
  {
    && (forall i :: 0 <= i < |ps| && i in admitted ==> ps[i].arrival <= t)
    && (forall i :: 0 <= i < |ps| && i !in admitted ==> rem[i] == ps[i].burst)
  }

  /** The work done so far: the timeline gives each row its burst less what
      remains, all of it after the row's arrival and before `t`. */
  ghost predicate Work(ps: seq<Proc>, rem: seq<int>, gantt: seq<Segment>, t: int)
    requires |rem| == |ps|
  {
    forall i :: 0 <= i < |ps| ==>
      && 0 <= rem[i] <= ps[i].burst
      && WorkOf(gantt, ps[i].name) == ps[i].burst - rem[i]
      && LastEnd(gantt, ps[i].name) <= t
      && (rem[i] < ps[i].burst ==> LastEnd(gantt, ps[i].name) >= ps[i].arrival + ps[i].burst - rem[i])
  }

  /** A finished row's waiting time is its last finish less burst and arrival. */
  ghost predicate Results(ps: seq<Proc>, rem: seq<int>, gantt: seq<Segment>, waiting: seq<int>)
    requires |rem| == |waiting| == |ps|
  {
    forall i :: 0 <= i < |ps| && rem[i] == 0 ==>
      waiting[i] == LastEnd(gantt, ps[i].name) - ps[i].burst - ps[i].arrival
  }

  /** Entry `k` of the timeline runs row `runs[k]` for between one unit and one
      quantum, after the row arrived; entries follow one another in time and end
      by `t`. */
  ghost predicate Entries(ps: seq<Proc>, q: int, gantt: seq<Segment>, runs: seq<nat>, t: int) {
    && |runs| == |gantt|
    && (forall k :: 0 <= k < |gantt| ==>
          && runs[k] < |ps| && gantt[k].name == ps[runs[k]].name
          && 1 <= gantt[k].duration <= q && ps[runs[k]].arrival <= gantt[k].start)
    && Chronological(gantt)
    && (gantt != [] ==> End(gantt[|gantt| - 1]) <= t)
  }

  /** An entry shorter than the quantum finished its row and is that row's last. */
  ghost predicate ShortIsLast(q: int, rem: seq<int>, gantt: seq<Segment>, runs: seq<nat>)
    requires |runs| == |gantt| && forall k :: 0 <= k < |runs| ==> runs[k] < |rem|
  {
    forall k :: 0 <= k < |gantt| && gantt[k].duration < q ==>
      rem[runs[k]] == 0 && LastEnd(gantt, gantt[k].name) == End(gantt[k])
  }

  ghost predicate Shape(ps: seq<Proc>, q: int, rem: seq<int>, gantt: seq<Segment>, runs: seq<nat>, t: int)
    requires |rem| == |ps|
  {
    Entries(ps, q, gantt, runs, t) && ShortIsLast(q, rem, gantt, runs)
  }

  /** The queue half of the loop invariant of `round_robin`. */
  ghost predicate Order(ps: seq<Proc>, rem: seq<int>, t: int, ready: seq<nat>, admitted: set<nat>) {
    && |rem| == |ps|
    && Queue(ps, rem, ready, admitted)
    && Admission(ps, rem, admitted, t)
  }

  /** The record half: the timeline, the finished rows' waiting times, and the
      work still to do. */
  ghost predicate Record(ps: seq<Proc>, q: int, rem: seq<int>, t: int, waiting: seq<int>,
                         gantt: seq<Segment>, runs: seq<nat>) {
    && |rem| == |ps| && |waiting| == |ps|
    && Work(ps, rem, gantt, t)
    && Results(ps, rem, gantt, waiting)
    && Shape(ps, q, rem, gantt, runs, t)
    && Busy(gantt) + Sum(rem) == Sum(Bursts(ps))
  }

  /** The loop invariant of `round_robin`, over the state at the top of the loop. */
  ghost predicate Progress(ps: seq<Proc>, q: int, rem: seq<int>, t: int, waiting: seq<int>, gantt: seq<Segment>,
                           ready: seq<nat>, admitted: set<nat>, runs: seq<nat>)
  {
    Order(ps, rem, t, ready, admitted) && Record(ps, q, rem, t, waiting, gantt, runs)
  }

  /** `all(rt == 0 for rt in rem_burst_times)`. */
  predicate AllDone(rem: seq<int>) {
    forall i :: 0 <= i < |rem| ==> rem[i] == 0
  }

  // ------------------------------------------------------------ the scans

  lemma {:induction false} DistinctConcat(x: seq<nat>, y: seq<nat>)
    requires Distinct(x) && Distinct(y)
    requires forall a :: 0 <= a < |x| ==> x[a] !in y
    ensures Distinct(x + y)
  {
    DistinctIndex(x);
    DistinctIndex(y);
    forall a, b | 0 <= a < b < |x + y| ensures At(x + y, a) != At(x + y, b) {
      if a < |x| && b >= |x| {
        assert (x + y)[b] == y[b - |x|];
      }
    }
  }

  /** Listing two runs of positions one after the other lists their names one
      after the other. */
  lemma {:induction false} NamesAtConcat(ps: seq<Proc>, x: seq<nat>, y: seq<nat>)
    requires forall a :: 0 <= a < |x| ==> x[a] < |ps|
    requires forall a :: 0 <= a < |y| ==> y[a] < |ps|
    ensures forall a :: 0 <= a < |x + y| ==> (x + y)[a] < |ps|
    ensures NamesAt(ps, x + y) == NamesAt(ps, x) + NamesAt(ps, y)
  {
    if y == [] {
      assert x + y == x;
    } else {
      var init := y[..|y| - 1];
      NamesAtConcat(ps, x, init);
      assert (x + y)[..|x + y| - 1] == x + init;
    }
  }

  /** A scan admits each row in its window that is not admitted yet, once, and
      the name list, the log and the admitted set keep matching. */
  lemma ScanTracks(ps: seq<Proc>, after: Option<int>, t: int, arrived: seq<string>, log: seq<nat>, admitted: set<nat>)
    requires UniqueNames(ps) && Tracks(ps, arrived, log, admitted)
    ensures var adm := Admissions(ps, after, t, arrived, |ps|);
      && Scanned(ps, after, t, admitted, adm)
      && Tracks(ps, arrived + NamesAt(ps, adm), log + adm, admitted + Rows(adm))
  {
    var adm := Admissions(ps, after, t, arrived, |ps|);
    AdmissionsFacts(ps, after, t, arrived, |ps|);
    NamesIn(ps, [], log);
    assert [] + NamesAt(ps, log) == arrived;
    NamesAtConcat(ps, log, adm);
    assert Rows(log + adm) == Rows(log) + Rows(adm);
  }

  /** The scan at the top of the loop keeps the queue and the admission records
      honest, and afterwards every row that has arrived by `t` is admitted. */
  lemma HeadScan(ps: seq<Proc>, rem: seq<int>, ready: seq<nat>, admitted: set<nat>, adm: seq<nat>, t: int)
    requires PositiveBursts(ps) && |rem| == |ps|
    requires Queue(ps, rem, ready, admitted) && Admission(ps, rem, admitted, t)
    requires Scanned(ps, None, t, admitted, adm)
    ensures Queue(ps, rem, ready + adm, admitted + Rows(adm))
    ensures Admission(ps, rem, admitted + Rows(adm), t)
    ensures forall i :: 0 <= i < |ps| && ps[i].arrival <= t ==> i in admitted + Rows(adm)
  {
    var admitted' := admitted + Rows(adm);
    forall a | 0 <= a < |ready| ensures ready[a] !in adm {
      assert ready[a] in admitted;
    }
    DistinctConcat(ready, adm);
    forall a | 0 <= a < |ready + adm|
      ensures (ready + adm)[a] < |ps| && rem[(ready + adm)[a]] > 0 && (ready + adm)[a] in admitted'
    {
      if a >= |ready| {
        assert (ready + adm)[a] == adm[a - |ready|] && adm[a - |ready|] in adm;
      }
    }
  }

  /** Idling: when the scan leaves the queue empty while some row still has
      work, that row has not arrived yet, so the clock is below the last arrival. */
  lemma IdleBound(ps: seq<Proc>, rem: seq<int>, admitted: set<nat>, t: int)
    requires |rem| == |ps| && Queue(ps, rem, [], admitted) && !AllDone(rem)
    requires forall i :: 0 <= i < |rem| ==> rem[i] >= 0
    requires forall i :: 0 <= i < |ps| && ps[i].arrival <= t ==> i in admitted
    ensures t < MaxArrival(ps)
  {
    var i :| 0 <= i < |rem| && rem[i] != 0;
    assert i !in admitted;
  }

  /** Nothing in the invariant but the clock bound changes while the CPU idles. */
  lemma Later(ps: seq<Proc>, q: int, rem: seq<int>, t: int, waiting: seq<int>, gantt: seq<Segment>,
              ready: seq<nat>, admitted: set<nat>, runs: seq<nat>, t': int)
    requires Progress(ps, q, rem, t, waiting, gantt, ready, admitted, runs) && t <= t'
    ensures Progress(ps, q, rem, t', waiting, gantt, ready, admitted, runs)
  {
  }

  // ------------------------------------------------------------ one slice

  /** After the head of the queue runs for `d` units, the queue is the rest of
      it, then the rows admitted by the scan after the slice, then the head again
      if it has work left: still distinct admitted rows with work, and complete. */
  lemma SliceQueue(ps: seq<Proc>, q: int, rem: seq<int>, ready: seq<nat>, admitted: set<nat>,
                   t: int, d: int, t': int, adm: seq<nat>)
    requires PositiveBursts(ps) && |rem| == |ps|
    requires Queue(ps, rem, ready, admitted) && Admission(ps, rem, admitted, t) && ready != []
    requires d == if rem[ready[0]] > q then q else rem[ready[0]]
    requires 1 <= d && Scanned(ps, Some(t), t', admitted, adm)
    ensures var idx := ready[0];
      Queue(ps, rem[idx := rem[idx] - d], ready[1..] + adm + (if rem[idx] > q then [idx] else []), admitted + Rows(adm))
  {
    var idx := ready[0];
    var tail := if rem[idx] > q then [idx] else [];
    assert tail == if rem[idx := rem[idx] - d][idx] > 0 then [idx] else [];
    RequeueDistinct(ps, rem, ready, admitted, adm, tail);
    RequeueMembers(ps, rem, ready, admitted, adm, d, tail);
    RequeueComplete(ps, rem, ready, admitted, adm, d, tail);
  }

  lemma RequeueDistinct(ps: seq<Proc>, rem: seq<int>, ready: seq<nat>, admitted: set<nat>, adm: seq<nat>, tail: seq<nat>)
    requires |rem| == |ps| && Queue(ps, rem, ready, admitted) && ready != []
    requires Distinct(adm) && forall a :: 0 <= a < |adm| ==> adm[a] !in admitted
    requires tail == [] || tail == [ready[0]]
    ensures Distinct(ready[1..] + adm + tail)
  {
    var rest := ready[1..];
    DistinctIndex(ready);
    forall a | 0 <= a < |rest| ensures rest[a] !in adm {
      assert rest[a] == ready[a + 1];
      assert ready[a + 1] in admitted;
    }
    forall a, b | 0 <= a < b < |rest| ensures At(rest, a) != At(rest, b) {
      assert rest[a] == ready[a + 1] && rest[b] == ready[b + 1];
    }
    DistinctConcat(rest, adm);
    assert ready[0] !in adm by { assert ready[0] in admitted; }
    forall a | 0 <= a < |rest| ensures rest[a] != ready[0] {
      assert rest[a] == ready[a + 1];
    }
    DistinctConcat(rest + adm, tail);
  }

  lemma RequeueMembers(ps: seq<Proc>, rem: seq<int>, ready: seq<nat>, admitted: set<nat>, adm: seq<nat>, d: int, tail: seq<nat>)
    requires PositiveBursts(ps) && |rem| == |ps|
    requires Queue(ps, rem, ready, admitted) && ready != []
    requires forall i :: 0 <= i < |ps| && i !in admitted ==> rem[i] == ps[i].burst
    requires Distinct(ready[1..] + adm + tail)
    requires forall a :: 0 <= a < |adm| ==> adm[a] < |ps| && adm[a] !in admitted
    requires tail == (if rem[ready[0]] - d > 0 then [ready[0]] else [])
    ensures var rem' := rem[ready[0] := rem[ready[0]] - d];
      forall a :: 0 <= a < |ready[1..] + adm + tail| ==>
        var v := (ready[1..] + adm + tail)[a];
        v < |ps| && rem'[v] > 0 && v in admitted + Rows(adm)
  {
    var idx := ready[0];
    var rem' := rem[idx := rem[idx] - d];
    var rest := ready[1..];
    var r := rest + adm + tail;
    DistinctIndex(ready);
    forall a | 0 <= a < |r| ensures r[a] < |ps| && rem'[r[a]] > 0 && r[a] in admitted + Rows(adm) {
      if a < |rest| {
        assert r[a] == ready[a + 1];
        assert ready[a + 1] != ready[0];
      } else if a < |rest| + |adm| {
        assert r[a] == adm[a - |rest|] && adm[a - |rest|] in adm;
      } else {
        assert r[a] == idx;
      }
    }
  }

  lemma RequeueComplete(ps: seq<Proc>, rem: seq<int>, ready: seq<nat>, admitted: set<nat>, adm: seq<nat>, d: int, tail: seq<nat>)
    requires |rem| == |ps|
    requires Queue(ps, rem, ready, admitted) && ready != []
    requires tail == (if rem[ready[0]] - d > 0 then [ready[0]] else [])
    ensures var rem' := rem[ready[0] := rem[ready[0]] - d];
      forall i :: 0 <= i < |ps| && i in admitted + Rows(adm) && rem'[i] > 0 ==>
        i in ready[1..] + adm + tail
  {
    var idx := ready[0];
    var rem' := rem[idx := rem[idx] - d];
    var rest := ready[1..];
    var r := rest + adm + tail;
    forall i | 0 <= i < |ps| && i in admitted + Rows(adm) && rem'[i] > 0 ensures i in r {
      if i == idx {
        assert r[|r| - 1] == idx;
      } else if i in admitted {
        assert i in ready;
        var a :| 0 <= a < |ready| && ready[a] == i;
        assert a > 0 && rest[a - 1] == i;
        assert r[a - 1] == i;
      } else {
        assert i in adm;
        var a :| 0 <= a < |adm| && adm[a] == i;
        assert r[|rest| + a] == i;
      }
    }
  }

  /** The slice and the scan after it keep the admission records. */
  lemma SliceAdmission(ps: seq<Proc>, rem: seq<int>, admitted: set<nat>, t: int, idx: nat, d: int, t': int, adm: seq<nat>)
    requires |rem| == |ps| && idx < |ps| && idx in admitted
    requires Admission(ps, rem, admitted, t) && t <= t' && Scanned(ps, Some(t), t', admitted, adm)
    ensures Admission(ps, rem[idx := rem[idx] - d], admitted + Rows(adm), t')
  {
  }
  /** `d` units of row `idx` starting at `t`, after its arrival: its work grows by
      `d` and it now leaves the CPU at `t + d`. */
  lemma SliceWork(ps: seq<Proc>, rem: seq<int>, gantt: seq<Segment>, t: int, idx: nat, d: int,
                   rem': seq<int>, gantt': seq<Segment>, t': int)
    requires UniqueNames(ps) && |rem| == |ps| && idx < |ps|
    requires Work(ps, rem, gantt, t) && 1 <= d <= rem[idx] && ps[idx].arrival <= t
    requires rem' == rem[idx := rem[idx] - d] && gantt' == gantt + [Segment(ps[idx].name, t, d)] && t' == t + d
    ensures Work(ps, rem', gantt', t')
  {
    DistinctNames(ps);
    var x := Segment(ps[idx].name, t, d);
    forall i | 0 <= i < |ps|
      ensures WorkOf(gantt', ps[i].name) == WorkOf(gantt, ps[i].name) + (if i == idx then d else 0)
      ensures LastEnd(gantt', ps[i].name) == if i == idx then t + d else LastEnd(gantt, ps[i].name)
    {
      AppendSegment(gantt, x, ps[i].name);
    }
  }

  /** A row that finishes with this slice gets its waiting time from the slice's
      end; nobody else's waiting time or last finish changes. */
  lemma SliceResults(ps: seq<Proc>, q: int, rem: seq<int>, gantt: seq<Segment>, waiting: seq<int>, t: int, idx: nat, d: int,
                      rem': seq<int>, gantt': seq<Segment>, waiting': seq<int>)
    requires UniqueNames(ps) && |rem| == |waiting| == |ps| && idx < |ps|
    requires Results(ps, rem, gantt, waiting) && 1 <= d
    requires d == if rem[idx] > q then q else rem[idx]
    requires rem' == rem[idx := rem[idx] - d] && gantt' == gantt + [Segment(ps[idx].name, t, d)]
    requires waiting' == if rem[idx] > q then waiting else waiting[idx := t + d - ps[idx].burst - ps[idx].arrival]
    ensures Results(ps, rem', gantt', waiting')
  {
    DistinctNames(ps);
    var x := Segment(ps[idx].name, t, d);
    forall i | 0 <= i < |ps|
      ensures LastEnd(gantt', ps[i].name) == if i == idx then t + d else LastEnd(gantt, ps[i].name)
    {
      AppendSegment(gantt, x, ps[i].name);
    }
  }

  /** The new entry fits the timeline: at most a quantum, after the row's
      arrival, after the previous entry; a short one finishes its row. Earlier
      short entries belong to finished rows, which this slice does not touch. */
  lemma SliceShape(ps: seq<Proc>, q: int, rem: seq<int>, gantt: seq<Segment>, runs: seq<nat>, t: int, idx: nat, d: int,
                    rem': seq<int>, gantt': seq<Segment>, runs': seq<nat>, t': int)
    requires UniqueNames(ps) && |rem| == |ps| && idx < |ps|
    requires Shape(ps, q, rem, gantt, runs, t)
    requires 1 <= d <= rem[idx] && d <= q && (d < q ==> d == rem[idx]) && ps[idx].arrival <= t
    requires rem' == rem[idx := rem[idx] - d] && gantt' == gantt + [Segment(ps[idx].name, t, d)]
    requires runs' == runs + [idx] && t' == t + d
    ensures Shape(ps, q, rem', gantt', runs', t')
  {
    SliceEntries(ps, q, gantt, runs, t, idx, d);
    SliceShort(ps, q, rem, gantt, runs, t, idx, d);
  }

  lemma SliceEntries(ps: seq<Proc>, q: int, gantt: seq<Segment>, runs: seq<nat>, t: int, idx: nat, d: int)
    requires idx < |ps| && Entries(ps, q, gantt, runs, t)
    requires 1 <= d <= q && ps[idx].arrival <= t
    ensures Entries(ps, q, gantt + [Segment(ps[idx].name, t, d)], runs + [idx], t + d)
  {
    var g := gantt + [Segment(ps[idx].name, t, d)];
    assert forall k :: 0 <= k < |gantt| ==> g[k] == gantt[k];
  }

  lemma SliceShort(ps: seq<Proc>, q: int, rem: seq<int>, gantt: seq<Segment>, runs: seq<nat>, t: int, idx: nat, d: int)
    requires UniqueNames(ps) && |rem| == |ps| && idx < |ps|
    requires |runs| == |gantt| && forall k :: 0 <= k < |gantt| ==> runs[k] < |ps| && gantt[k].name == ps[runs[k]].name
    requires ShortIsLast(q, rem, gantt, runs)
    requires 1 <= d <= rem[idx] && (d < q ==> d == rem[idx])
    ensures ShortIsLast(q, rem[idx := rem[idx] - d], gantt + [Segment(ps[idx].name, t, d)], runs + [idx])
  {
    DistinctNames(ps);
    var x := Segment(ps[idx].name, t, d);
    var g := gantt + [x];
    forall k | 0 <= k < |gantt| && gantt[k].duration < q
      ensures LastEnd(g, gantt[k].name) == End(gantt[k])
    {
      assert runs[k] != idx;
      AppendSegment(gantt, x, gantt[k].name);
    }
    AppendSegment(gantt, x, x.name);
    assert forall k :: 0 <= k < |gantt| ==> g[k] == gantt[k];
  }

  /** The slice moves `d` units from the remaining work to the timeline. */
  lemma SliceBusy(ps: seq<Proc>, rem: seq<int>, gantt: seq<Segment>, idx: nat, t: int, d: int, rem': seq<int>, gantt': seq<Segment>)
    requires |rem| == |ps| && idx < |ps|
    requires Busy(gantt) + Sum(rem) == Sum(Bursts(ps))
    requires rem' == rem[idx := rem[idx] - d] && gantt' == gantt + [Segment(ps[idx].name, t, d)]
    ensures Busy(gantt') + Sum(rem') == Sum(Bursts(ps))
  {
    AppendSegment(gantt, Segment(ps[idx].name, t, d), ps[idx].name);
    SumUpdate(rem, idx, rem[idx] - d);
  }


  /** One slice keeps the queue half of the invariant. `ready` is the queue
      before the head was popped, `adm` what the scan after the slice admits. */
  lemma SliceOrder(ps: seq<Proc>, q: int, rem: seq<int>, t: int, ready: seq<nat>, admitted: set<nat>,
                   idx: nat, d: int, adm: seq<nat>)
    requires PositiveBursts(ps) && q >= 1
    requires Order(ps, rem, t, ready, admitted) && ready != [] && idx == ready[0]
    requires d == if rem[idx] > q then q else rem[idx]
    requires Scanned(ps, Some(t), t + d, admitted, adm)
    ensures Order(ps, rem[idx := rem[idx] - d], t + d,
                  ready[1..] + adm + (if rem[idx] > q then [idx] else []), admitted + Rows(adm))
  {
    assert idx in admitted && rem[idx] > 0;
    SliceQueue(ps, q, rem, ready, admitted, t, d, t + d, adm);
    SliceAdmission(ps, rem, admitted, t, idx, d, t + d, adm);
  }

  /** One slice of row `idx`, which has work left and has arrived, keeps the
      record half of the invariant and lowers the work still to do; the primed
      values are what `Slice` makes of the state. */
  lemma SliceRecord(ps: seq<Proc>, q: int, idx: nat, rem: seq<int>, t: int, waiting: seq<int>,
                    gantt: seq<Segment>, runs: seq<nat>, d: int,
                    rem': seq<int>, t': int, waiting': seq<int>, gantt': seq<Segment>, runs': seq<nat>)
    requires UniqueNames(ps) && q >= 1
    requires Record(ps, q, rem, t, waiting, gantt, runs)
    requires idx < |ps| && rem[idx] > 0 && ps[idx].arrival <= t
    requires d == (if rem[idx] > q then q else rem[idx])
    requires rem' == rem[idx := rem[idx] - d] && t' == t + d
    requires waiting' == (if rem[idx] > q then waiting else waiting[idx := t + d - ps[idx].burst - ps[idx].arrival])
    requires gantt' == gantt + [Segment(ps[idx].name, t, d)] && runs' == runs + [idx]
    ensures Record(ps, q, rem', t', waiting', gantt', runs') && 0 <= Sum(rem') < Sum(rem)
  {
    SliceTimes(ps, q, idx, rem, t, waiting, gantt, d, rem', t', waiting', gantt');
    SliceTally(ps, q, idx, rem, t, gantt, runs, d, rem', t', gantt', runs');
  }

  /** The time half of `SliceRecord`: work done, last finishes and waiting
      times, and the work still to do. */
  lemma SliceTimes(ps: seq<Proc>, q: int, idx: nat, rem: seq<int>, t: int, waiting: seq<int>,
                   gantt: seq<Segment>, d: int, rem': seq<int>, t': int, waiting': seq<int>, gantt': seq<Segment>)
    requires UniqueNames(ps) && q >= 1 && |rem| == |waiting| == |ps|
    requires Work(ps, rem, gantt, t) && Results(ps, rem, gantt, waiting)
    requires idx < |ps| && rem[idx] > 0 && ps[idx].arrival <= t
    requires d == (if rem[idx] > q then q else rem[idx])
    requires rem' == rem[idx := rem[idx] - d] && t' == t + d
    requires waiting' == (if rem[idx] > q then waiting else waiting[idx := t + d - ps[idx].burst - ps[idx].arrival])
    requires gantt' == gantt + [Segment(ps[idx].name, t, d)]
    ensures Work(ps, rem', gantt', t') && Results(ps, rem', gantt', waiting') && 0 <= Sum(rem') < Sum(rem)
  {
    SliceWork(ps, rem, gantt, t, idx, d, rem', gantt', t');
    SliceResults(ps, q, rem, gantt, waiting, t, idx, d, rem', gantt', waiting');
    SliceLowers(rem, idx, d, rem');
  }

  /** The timeline half of `SliceRecord`: the shape of the entries and the
      balance between busy time and work left. */
  lemma SliceTally(ps: seq<Proc>, q: int, idx: nat, rem: seq<int>, t: int, gantt: seq<Segment>,
                   runs: seq<nat>, d: int, rem': seq<int>, t': int, gantt': seq<Segment>, runs': seq<nat>)
    requires UniqueNames(ps) && q >= 1 && |rem| == |ps|
    requires Shape(ps, q, rem, gantt, runs, t) && Busy(gantt) + Sum(rem) == Sum(Bursts(ps))
    requires idx < |ps| && rem[idx] > 0 && ps[idx].arrival <= t
    requires d == (if rem[idx] > q then q else rem[idx])
    requires rem' == rem[idx := rem[idx] - d] && t' == t + d
    requires gantt' == gantt + [Segment(ps[idx].name, t, d)] && runs' == runs + [idx]
    ensures Shape(ps, q, rem', gantt', runs', t') && Busy(gantt') + Sum(rem') == Sum(Bursts(ps))
  {
    SliceShape(ps, q, rem, gantt, runs, t, idx, d, rem', gantt', runs', t');
    SliceBusy(ps, rem, gantt, idx, t, d, rem', gantt');
  }

  /** A slice lowers the work still to do, which stays non-negative. */
  lemma SliceLowers(rem: seq<int>, idx: nat, d: int, rem': seq<int>)
    requires idx < |rem| && 1 <= d <= rem[idx] && forall i :: 0 <= i < |rem| ==> rem[i] >= 0
    requires rem' == rem[idx := rem[idx] - d]
    ensures 0 <= Sum(rem') < Sum(rem)
  {
    SumUpdate(rem, idx, rem[idx] - d);
    SumNonNegative(rem');
  }

  /** The slice itself, the body of the loop once the queue is not empty: the
      head `idx` (already popped off `ready`) runs for a whole quantum when it
      needs more than one, and goes to the back of the queue after the rows that
      arrived during the slice; otherwise it runs to the end, and its waiting time
      is set from the finish. The ghost `d` names the slice's length and `adm` the
      rows the scan after the slice admits. */
  method Slice(ps: seq<Proc>, q: int, idx: nat, rem: seq<int>, t: int, waiting: seq<int>,
               gantt: seq<Segment>, ready: seq<nat>, arrived: seq<string>, ghost runs: seq<nat>,
               ghost d: int, ghost adm: seq<nat>)
    returns (rem': seq<int>, t': int, waiting': seq<int>, gantt': seq<Segment>,
             ready': seq<nat>, arrived': seq<string>, ghost runs': seq<nat>)
    requires UniqueNames(ps) && idx < |ps| && |rem| == |waiting| == |ps|
    requires d == (if rem[idx] > q then q else rem[idx])
    requires adm == Admissions(ps, Some(t), t + d, arrived, |ps|)
    ensures rem' == rem[idx := rem[idx] - d] && t' == t + d
    ensures waiting' == (if rem[idx] > q then waiting else waiting[idx := t + d - ps[idx].burst - ps[idx].arrival])
    ensures gantt' == gantt + [Segment(ps[idx].name, t, d)] && runs' == runs + [idx]
    ensures ready' == ready + adm + (if rem[idx] > q then [idx] else []) && arrived' == arrived + NamesAt(ps, adm)
  {
    var start := t;
    if rem[idx] > q {
      t' := t + q;
      rem' := rem[idx := rem[idx] - q];
      gantt' := gantt + [Segment(ps[idx].name, start, q)];
      ready', arrived' := Admit(ps, Some(start), t', ready, arrived);
      ready' := ready' + [idx];
      waiting' := waiting;
    } else {
      t' := t + rem[idx];
      gantt' := gantt + [Segment(ps[idx].name, start, rem[idx])];
      waiting' := waiting[idx := t' - ps[idx].burst - ps[idx].arrival];
      rem' := rem[idx := 0];
      ready', arrived' := Admit(ps, Some(start), t', ready, arrived);
    }
    runs' := runs + [idx];
  }

  /** One slice keeps the queue half of the invariant and the admission
      bookkeeping. `ready` is the queue before the head was popped; the primed
      values are what `Slice` makes of the state. */
  lemma SliceKeeps(ps: seq<Proc>, q: int, rem: seq<int>, t: int, ready: seq<nat>, arrived: seq<string>,
                   log: seq<nat>, admitted: set<nat>, idx: nat, d: int, adm: seq<nat>,
                   rem': seq<int>, t': int, ready': seq<nat>, arrived': seq<string>)
    requires UniqueNames(ps) && PositiveBursts(ps) && q >= 1 && ready != [] && idx == ready[0]
    requires Order(ps, rem, t, ready, admitted) && Tracks(ps, arrived, log, admitted)
    requires d == (if rem[idx] > q then q else rem[idx])
    requires adm == Admissions(ps, Some(t), t + d, arrived, |ps|)
    requires rem' == rem[idx := rem[idx] - d] && t' == t + d
    requires ready' == ready[1..] + adm + (if rem[idx] > q then [idx] else [])
    requires arrived' == arrived + NamesAt(ps, adm)
    ensures idx < |ps| && rem[idx] > 0 && ps[idx].arrival <= t
    ensures Tracks(ps, arrived', log + adm, admitted + Rows(adm))
    ensures Order(ps, rem', t', ready', admitted + Rows(adm))
  {
    ScanTracks(ps, Some(t), t + d, arrived, log, admitted);
    assert idx in admitted;
    SliceOrder(ps, q, rem, t, ready, admitted, idx, d, adm);
  }

  // ------------------------------------------------------------ the reference step

  /** The state `round_robin` carries from one turn of its loop to the next. */
  datatype State = State(rem: seq<int>, t: int, waiting: seq<int>, gantt: seq<Segment>,
                         ready: seq<nat>, arrived: seq<string>)

  /** A state a turn applies to: a remaining and a waiting time per row, and row
      positions in the queue. */
  predicate Fits(ps: seq<Proc>, st: State) {
    && |st.rem| == |ps| && |st.waiting| == |ps|
    && forall a :: 0 <= a < |st.ready| ==> st.ready[a] < |ps|
  }

  /** The busy half of a turn on a non-empty queue: the head `idx` runs for the
      quantum, or to its end when it has no more left; the rows that arrive
      during the slice join the queue, and then `idx` itself if it still has
      work; a finished row gets its waiting time from its finish. */
  function Serve(ps: seq<Proc>, q: int, st: State): (r: State)
    requires Fits(ps, st) && st.ready != []
    ensures Fits(ps, r)
  {
    var idx := st.ready[0];
    var d := if st.rem[idx] > q then q else st.rem[idx];
    var adm := Admissions(ps, Some(st.t), st.t + d, st.arrived, |ps|);
    State(st.rem[idx := st.rem[idx] - d], st.t + d,
          if st.rem[idx] > q then st.waiting else st.waiting[idx := st.t + d - ps[idx].burst - ps[idx].arrival],
          st.gantt + [Segment(ps[idx].name, st.t, d)],
          st.ready[1..] + adm + (if st.rem[idx] > q then [idx] else []),
          st.arrived + NamesAt(ps, adm))
  }

  /** One turn of the loop: the arrival scan, then a unit of idle time when the
      queue is still empty, otherwise `Serve`. */
  function Tick(ps: seq<Proc>, q: int, st: State): (r: State)
    requires Fits(ps, st)
    ensures Fits(ps, r)
  {
    var adm := Admissions(ps, None, st.t, st.arrived, |ps|);
    var st' := st.(ready := st.ready + adm, arrived := st.arrived + NamesAt(ps, adm));
    if st'.ready == [] then st'.(t := st.t + 1) else Serve(ps, q, st')
  }

  /** The state before the first turn. */
  function Initial(ps: seq<Proc>): State {
    State(Bursts(ps), 0, seq(|ps|, _ => 0), [], [], [])
  }

  /** `st'` is what one turn makes of `st`. */
  ghost predicate Turned(ps: seq<Proc>, q: int, st: State, st': State) {
    Fits(ps, st) && st' == Tick(ps, q, st)
  }

  /** Each state of `states` is the turn of the one before. */
  ghost predicate Chain(ps: seq<Proc>, q: int, states: seq<State>)
    decreases |states|
  {
    |states| <= 1 ||
      var m := |states| - 1;
      Chain(ps, q, states[..m]) && Turned(ps, q, states[m - 1], states[m])
  }

  /** Link `k` of a chain is a turn. */
  lemma {:induction false} ChainAt(ps: seq<Proc>, q: int, states: seq<State>, k: nat)
    requires Chain(ps, q, states) && 0 < k < |states|
    ensures Turned(ps, q, states[k - 1], states[k])
  {
    var m := |states| - 1;
    if k < m {
      ChainAt(ps, q, states[..m], k);
    }
  }

  /** Two runs from the same table agree state by state as far as both go. */
  lemma {:induction false} Agree(ps: seq<Proc>, q: int, a: seq<State>, b: seq<State>, k: nat)
    requires Completed(ps, q, a) && Completed(ps, q, b) && k < |a| && k < |b|
    ensures a[k] == b[k]
  {
    if k > 0 {
      Agree(ps, q, a, b, k - 1);
      ChainAt(ps, q, a, k);
      ChainAt(ps, q, b, k);
    }
  }

  /** A run is determined by the table and the quantum: both stop at the first
      state with no work left, and every turn is a function of the state before. */
  lemma CompletedUnique(ps: seq<Proc>, q: int, a: seq<State>, b: seq<State>)
    requires Completed(ps, q, a) && Completed(ps, q, b)
    ensures a == b
  {
    forall k | 0 <= k < |a| && k < |b| ensures a[k] == b[k] {
      Agree(ps, q, a, b, k);
    }
    assert |b| - 1 < |a| ==> a[|b| - 1] == b[|b| - 1];
    assert |a| - 1 < |b| ==> a[|a| - 1] == b[|a| - 1];
  }

  /** What `Slice` makes of the state, after the pop of `idx`, is `Serve`. */
  lemma SliceServes(ps: seq<Proc>, q: int, rem: seq<int>, t: int, waiting: seq<int>, gantt: seq<Segment>,
                    ready: seq<nat>, arrived: seq<string>, idx: nat, d: int, adm: seq<nat>,
                    rem': seq<int>, t': int, waiting': seq<int>, gantt': seq<Segment>,
                    ready': seq<nat>, arrived': seq<string>)
    requires Fits(ps, State(rem, t, waiting, gantt, ready, arrived)) && ready != [] && idx == ready[0]
    requires d == (if rem[idx] > q then q else rem[idx])
    requires adm == Admissions(ps, Some(t), t + d, arrived, |ps|)
    requires rem' == rem[idx := rem[idx] - d] && t' == t + d
    requires waiting' == (if rem[idx] > q then waiting else waiting[idx := t + d - ps[idx].burst - ps[idx].arrival])
    requires gantt' == gantt + [Segment(ps[idx].name, t, d)]
    requires ready' == ready[1..] + adm + (if rem[idx] > q then [idx] else []) && arrived' == arrived + NamesAt(ps, adm)
    ensures State(rem', t', waiting', gantt', ready', arrived') == Serve(ps, q, State(rem, t, waiting, gantt, ready, arrived))
  {
  }

  /** An idle turn: the scan admits nobody and the queue is empty, so the clock
      moves on by one unit. */
  lemma TickIdle(ps: seq<Proc>, q: int, rem: seq<int>, t: int, waiting: seq<int>, gantt: seq<Segment>,
                 ready: seq<nat>, arrived: seq<string>, ready1: seq<nat>, arrived1: seq<string>)
    requires Fits(ps, State(rem, t, waiting, gantt, ready, arrived))
    requires ready1 == ready + Admissions(ps, None, t, arrived, |ps|)
    requires arrived1 == arrived + NamesAt(ps, Admissions(ps, None, t, arrived, |ps|))
    requires ready1 == []
    ensures State(rem, t + 1, waiting, gantt, ready1, arrived1) == Tick(ps, q, State(rem, t, waiting, gantt, ready, arrived))
  {
  }

  /** A busy turn: after the scan the queue is not empty, and the turn is `Serve`
      of the state the scan leaves. */
  lemma TickBusy(ps: seq<Proc>, q: int, rem: seq<int>, t: int, waiting: seq<int>, gantt: seq<Segment>,
                 ready: seq<nat>, arrived: seq<string>, ready1: seq<nat>, arrived1: seq<string>, st': State)
    requires Fits(ps, State(rem, t, waiting, gantt, ready, arrived))
    requires ready1 == ready + Admissions(ps, None, t, arrived, |ps|)
    requires arrived1 == arrived + NamesAt(ps, Admissions(ps, None, t, arrived, |ps|))
    requires ready1 != [] && Fits(ps, State(rem, t, waiting, gantt, ready1, arrived1))
    requires st' == Serve(ps, q, State(rem, t, waiting, gantt, ready1, arrived1))
    ensures st' == Tick(ps, q, State(rem, t, waiting, gantt, ready, arrived))
  {
  }

  /** A chain ending in `st` extends by the turn of `st`. */
  lemma ChainStep(ps: seq<Proc>, q: int, states: seq<State>, st: State, st': State)
    requires Chain(ps, q, states) && states != [] && states[|states| - 1] == st && Turned(ps, q, st, st')
    ensures Chain(ps, q, states + [st'])
  {
    var states' := states + [st'];
    assert states'[..|states|] == states;
    assert states'[|states| - 1] == st && states'[|states|] == st';
  }

  /** The turns so far: a chain from the initial state to `st` in which every
      state still has work. */
  ghost predicate History(ps: seq<Proc>, q: int, states: seq<State>, st: State) {
    && states != [] && states[0] == Initial(ps) && Chain(ps, q, states)
    && states[|states| - 1] == st
    && forall k :: 0 <= k < |states| ==> !AllDone(states[k].rem)
  }

  /** A turn that leaves work extends the history. */
  lemma HistoryStep(ps: seq<Proc>, q: int, states: seq<State>, st: State, st': State)
    requires History(ps, q, states, st) && Turned(ps, q, st, st') && !AllDone(st'.rem)
    ensures History(ps, q, states + [st'], st')
  {
    ChainStep(ps, q, states, st, st');
    assert forall k :: 0 <= k < |states| ==> (states + [st'])[k] == states[k];
  }

  /** A whole run: a chain of turns from the initial state that stops at the
      first state with no work left. */
  ghost predicate Completed(ps: seq<Proc>, q: int, states: seq<State>) {
    && states != [] && states[0] == Initial(ps) && Chain(ps, q, states)
    && (forall k :: 0 <= k < |states| - 1 ==> !AllDone(states[k].rem))
    && AllDone(states[|states| - 1].rem)
  }

  /** A turn that leaves no work ends the history: only its last state is done. */
  lemma HistoryEnd(ps: seq<Proc>, q: int, states: seq<State>, st: State, st': State)
    requires History(ps, q, states, st) && Turned(ps, q, st, st') && AllDone(st'.rem)
    ensures Completed(ps, q, states + [st']) && (states + [st'])[|states|] == st'
  {
    ChainStep(ps, q, states, st, st');
    assert forall k :: 0 <= k < |states| ==> (states + [st'])[k] == states[k];
  }

  /** One turn of the loop: the arrival scan, then either a tick of idle time
      (the queue is empty, so some row has not arrived yet) or one slice. */
  method Step(ps: seq<Proc>, q: int, rem: seq<int>, t: int, waiting: seq<int>, gantt: seq<Segment>,
              ready: seq<nat>, arrived: seq<string>, ghost log: seq<nat>, ghost admitted: set<nat>, ghost runs: seq<nat>)
    returns (rem': seq<int>, t': int, waiting': seq<int>, gantt': seq<Segment>,
             ready': seq<nat>, arrived': seq<string>, ghost log': seq<nat>, ghost admitted': set<nat>,
             ghost runs': seq<nat>, busy: bool)
    requires UniqueNames(ps) && PositiveBursts(ps) && q >= 1
    requires Progress(ps, q, rem, t, waiting, gantt, ready, admitted, runs) && Tracks(ps, arrived, log, admitted)
    requires !AllDone(rem)
    ensures Turned(ps, q, State(rem, t, waiting, gantt, ready, arrived), State(rem', t', waiting', gantt', ready', arrived'))
    ensures busy <==> ready + Admissions(ps, None, t, arrived, |ps|) != []
    ensures Progress(ps, q, rem', t', waiting', gantt', ready', admitted', runs') && Tracks(ps, arrived', log', admitted')
    ensures !busy ==> rem' == rem && t < t' == t + 1 <= MaxArrival(ps)
    ensures busy ==> 0 <= Sum(rem') < Sum(rem)
  {
    ghost var adm := Admissions(ps, None, t, arrived, |ps|);
    ScanTracks(ps, None, t, arrived, log, admitted);
    var ready1, arrived1 := Admit(ps, None, t, ready, arrived);
    HeadScan(ps, rem, ready, admitted, adm, t);
    ghost var log1, admitted1 := log + adm, admitted + Rows(adm);
    if ready1 == [] {
      IdleBound(ps, rem, admitted1, t);
      Later(ps, q, rem, t, waiting, gantt, ready1, admitted1, runs, t + 1);
      TickIdle(ps, q, rem, t, waiting, gantt, ready, arrived, ready1, arrived1);
      rem', t', waiting', gantt', ready', arrived', log', admitted', runs', busy :=
        rem, t + 1, waiting, gantt, ready1, arrived1, log1, admitted1, runs, false;
    } else {
      rem', t', waiting', gantt', ready', arrived', log', admitted', runs' :=
        Turn(ps, q, rem, t, waiting, gantt, ready1, arrived1, log1, admitted1, runs);
      TickBusy(ps, q, rem, t, waiting, gantt, ready, arrived, ready1, arrived1,
               State(rem', t', waiting', gantt', ready', arrived'));
      busy := true;
    }
  }

  /** The busy half of a turn: pop the head of the non-empty queue and run one
      slice of it. */
  method Turn(ps: seq<Proc>, q: int, rem: seq<int>, t: int, waiting: seq<int>, gantt: seq<Segment>,
              ready: seq<nat>, arrived: seq<string>, ghost log: seq<nat>, ghost admitted: set<nat>, ghost runs: seq<nat>)
    returns (rem': seq<int>, t': int, waiting': seq<int>, gantt': seq<Segment>,
             ready': seq<nat>, arrived': seq<string>, ghost log': seq<nat>, ghost admitted': set<nat>,
             ghost runs': seq<nat>)
    requires UniqueNames(ps) && PositiveBursts(ps) && q >= 1 && ready != []
    requires Order(ps, rem, t, ready, admitted) && Record(ps, q, rem, t, waiting, gantt, runs)
    requires Tracks(ps, arrived, log, admitted)
    ensures State(rem', t', waiting', gantt', ready', arrived') == Serve(ps, q, State(rem, t, waiting, gantt, ready, arrived))
    ensures Order(ps, rem', t', ready', admitted') && Record(ps, q, rem', t', waiting', gantt', runs')
    ensures Tracks(ps, arrived', log', admitted') && 0 <= Sum(rem') < Sum(rem)
  {
    var idx := ready[0];
    ghost var d := if rem[idx] > q then q else rem[idx];
    ghost var adm := Admissions(ps, Some(t), t + d, arrived, |ps|);
    rem', t', waiting', gantt', ready', arrived', runs' :=
      Slice(ps, q, idx, rem, t, waiting, gantt, ready[1..], arrived, runs, d, adm);
    SliceServes(ps, q, rem, t, waiting, gantt, ready, arrived, idx, d, adm, rem', t', waiting', gantt', ready', arrived');
    SliceKeeps(ps, q, rem, t, ready, arrived, log, admitted, idx, d, adm, rem', t', ready', arrived');
    SliceRecord(ps, q, idx, rem, t, waiting, gantt, runs, d, rem', t', waiting', gantt', runs');
    log', admitted' := log + adm, admitted + Rows(adm);
  }

  // ------------------------------------------------------------ the whole run

  /** What `round_robin` leaves for input row `i`: the timeline gives its name
      exactly its burst, its last slice ends no earlier than arrival plus burst,
      and its waiting time is that last finish less burst and arrival. */
  ghost predicate Served(ps: seq<Proc>, gantt: seq<Segment>, waiting: seq<int>, i: int)
    requires 0 <= i < |ps| && |waiting| == |ps|
  {
    && WorkOf(gantt, ps[i].name) == ps[i].burst
    && LastEnd(gantt, ps[i].name) >= ps[i].arrival + ps[i].burst
    && waiting[i] == LastEnd(gantt, ps[i].name) - ps[i].burst - ps[i].arrival
  }

  /** The state before the first turn: every burst still to do, an empty queue,
      timeline and name list, and the clock at 0. */
  lemma Start(ps: seq<Proc>, q: int)
    requires PositiveBursts(ps) && q >= 1 && |ps| > 0
    ensures Progress(ps, q, Bursts(ps), 0, seq(|ps|, _ => 0), [], [], {}, [])
    ensures Tracks(ps, [], [], {}) && !AllDone(Bursts(ps))
  {
    assert Rows([]) == {};
    assert Bursts(ps)[0] != 0;
  }

  /** Once every remaining time is 0 the invariant gives the results. */
  lemma Finish(ps: seq<Proc>, q: int, rem: seq<int>, t: int, waiting: seq<int>, gantt: seq<Segment>,
               ready: seq<nat>, admitted: set<nat>, runs: seq<nat>)
    requires PositiveBursts(ps) && Progress(ps, q, rem, t, waiting, gantt, ready, admitted, runs) && AllDone(rem)
    ensures |waiting| == |ps| && |runs| == |gantt|
    ensures forall k :: 0 <= k < |gantt| ==>
      && runs[k] < |ps| && gantt[k].name == ps[runs[k]].name
      && 1 <= gantt[k].duration <= q && ps[runs[k]].arrival <= gantt[k].start
    ensures Chronological(gantt)
    ensures forall k :: 0 <= k < |gantt| && gantt[k].duration < q ==> LastEnd(gantt, gantt[k].name) == End(gantt[k])
    ensures Busy(gantt) == Sum(Bursts(ps))
    ensures forall i :: 0 <= i < |ps| ==> Served(ps, gantt, waiting, i)
  {
    SumNonNegative(rem);
    forall i | 0 <= i < |ps| ensures Served(ps, gantt, waiting, i) {
      assert rem[i] == 0;
    }
  }

  /** The per-process results in full: each process got its burst, its waiting
      time is its last finish less burst and arrival, hence never negative. */
  lemma Outcome(ps: seq<Proc>, gantt: seq<Segment>, waiting: seq<int>, turnaround: seq<int>)
    requires |waiting| == |turnaround| == |ps|
    requires forall i :: 0 <= i < |ps| ==> Served(ps, gantt, waiting, i)
    requires forall i :: 0 <= i < |ps| ==> turnaround[i] == ps[i].burst + waiting[i]
    ensures forall i :: 0 <= i < |ps| ==>
      && WorkOf(gantt, ps[i].name) == ps[i].burst
      && waiting[i] == LastEnd(gantt, ps[i].name) - ps[i].burst - ps[i].arrival
      && waiting[i] >= 0
      && turnaround[i] == ps[i].burst + waiting[i]
  {
    forall i | 0 <= i < |ps|
      ensures WorkOf(gantt, ps[i].name) == ps[i].burst
      ensures waiting[i] == LastEnd(gantt, ps[i].name) - ps[i].burst - ps[i].arrival && waiting[i] >= 0
    {
      assert Served(ps, gantt, waiting, i);
    }
  }

  /** The loop of `round_robin`, from the initial state until a busy turn leaves
      no work: the run is a chain of turns from the initial state that stops at
      the first state with no work left, and the loop invariant holds of that
      last state. */
  method Loop(ps: seq<Proc>, quantum: int)
    returns (waiting: seq<int>, gantt: seq<Segment>, ghost rem: seq<int>, ghost t: int, ghost ready: seq<nat>,
             ghost admitted: set<nat>, ghost runs: seq<nat>, ghost states: seq<State>)
    requires UniqueNames(ps) && PositiveBursts(ps) && quantum >= 1 && |ps| > 0
    ensures Completed(ps, quantum, states)
    ensures states[|states| - 1].waiting == waiting && states[|states| - 1].gantt == gantt
    ensures Progress(ps, quantum, rem, t, waiting, gantt, ready, admitted, runs) && AllDone(rem)
  {
    var rem' := Bursts(ps);
    var t' := 0;
    var ready': seq<nat> := [];
    var arrived: seq<string> := [];
    ghost var log: seq<nat> := [];
    ghost var admitted': set<nat> := {};
    waiting := seq(|ps|, _ => 0);
    gantt := [];
    runs := [];
    Start(ps, quantum);
    states := [State(rem', t', waiting, gantt, ready', arrived)];
    assert states[0] == Initial(ps);
    while true
      invariant Progress(ps, quantum, rem', t', waiting, gantt, ready', admitted', runs)
      invariant Tracks(ps, arrived, log, admitted') && !AllDone(rem')
      invariant History(ps, quantum, states, State(rem', t', waiting, gantt, ready', arrived))
      decreases Sum(rem'), MaxArrival(ps) - t'
    {
      ghost var before := State(rem', t', waiting, gantt, ready', arrived);
      var busy;
      rem', t', waiting, gantt, ready', arrived, log, admitted', runs, busy :=
        Step(ps, quantum, rem', t', waiting, gantt, ready', arrived, log, admitted', runs);
      if busy && AllDone(rem') {
        HistoryEnd(ps, quantum, states, before, State(rem', t', waiting, gantt, ready', arrived));
        states := states + [State(rem', t', waiting, gantt, ready', arrived)];
        break;
      }
      HistoryStep(ps, quantum, states, before, State(rem', t', waiting, gantt, ready', arrived));
      states := states + [State(rem', t', waiting, gantt, ready', arrived)];
    }
    rem, t, ready, admitted := rem', t', ready', admitted';
  }

  /** `round_robin`: admit the rows that have arrived, idle a unit when the queue
      is empty, otherwise run the head for at most one quantum; stop once every
      row has finished, then add each burst to its waiting time. The run is the
      chain of turns `states` from the initial state, stopped at the first state
      with no work left. */
  method RoundRobin(ps: seq<Proc>, quantum: int)
    returns (waiting: seq<int>, turnaround: seq<int>, gantt: seq<Segment>, ghost runs: seq<nat>,
             ghost states: seq<State>)
    requires UniqueNames(ps) && PositiveBursts(ps) && quantum >= 1 && |ps| > 0
    ensures Completed(ps, quantum, states)
    ensures states[|states| - 1].waiting == waiting && states[|states| - 1].gantt == gantt
    ensures |waiting| == |turnaround| == |ps| && |runs| == |gantt|
    ensures forall k :: 0 <= k < |gantt| ==>
      && runs[k] < |ps| && gantt[k].name == ps[runs[k]].name
      && 1 <= gantt[k].duration <= quantum && ps[runs[k]].arrival <= gantt[k].start
    ensures Chronological(gantt)
    ensures forall k :: 0 <= k < |gantt| && gantt[k].duration < quantum ==>
      LastEnd(gantt, gantt[k].name) == End(gantt[k])
    ensures Busy(gantt) == Sum(Bursts(ps))
    ensures forall i :: 0 <= i < |ps| ==>
      && WorkOf(gantt, ps[i].name) == ps[i].burst
      && waiting[i] == LastEnd(gantt, ps[i].name) - ps[i].burst - ps[i].arrival
      && waiting[i] >= 0
      && turnaround[i] == ps[i].burst + waiting[i]
  {
    ghost var rem, t, ready, admitted;
    waiting, gantt, rem, t, ready, admitted, runs, states := Loop(ps, quantum);
    Finish(ps, quantum, rem, t, waiting, gantt, ready, admitted, runs);
    turnaround := AddBursts(ps, waiting);
    Outcome(ps, gantt, waiting, turnaround);
  }
}
