/** Python's stable `list.sort(key=...)`, as used by the schedulers to order the
    process table by arrival time (and, for priority scheduling, by arrival then
    priority). The sort is modelled on positions: it yields the order in which
    the input rows appear in the sorted list. */
module Sorting {
  import opened Processes

  /** A sort key compared lexicographically, as Python compares tuples. Where the
      source sorts by arrival alone the second component is 0 for every row. */
  datatype Key = Key(major: int, minor: int)

  predicate KeyLess(a: Key, b: Key) {
    a.major < b.major || (a.major == b.major && a.minor < b.minor)
  }

  /** Row `i` comes before row `j` in a stable sort: its key is smaller, or the
      keys tie and `i` came first in the input. */
  predicate Precedes(keys: seq<Key>, i: nat, j: nat) {
    i < |keys| && j < |keys| && (KeyLess(keys[i], keys[j]) || (keys[i] == keys[j] && i < j))
  }

  ghost predicate Ascending(keys: seq<Key>, s: seq<nat>) {
    forall a, b :: 0 <= a < b < |s| ==> Precedes(keys, s[a], s[b])
  }

  function Insert(keys: seq<Key>, x: nat, s: seq<nat>): (r: seq<nat>)
    requires x < |keys| && x !in s
    requires forall a :: 0 <= a < |s| ==> s[a] < |keys|
    requires Ascending(keys, s)
    ensures |r| == |s| + 1
    ensures forall v :: v in r <==> v == x || v in s
    ensures Ascending(keys, r)
  {
    if s == [] then [x]
    else if Precedes(keys, x, s[0]) then [x] + s
    else
      var r' := Insert(keys, x, s[1..]);
      assert forall v :: v in r' ==> Precedes(keys, s[0], v);
      [s[0]] + r'
  }

  /** The sorted order of the rows `0 .. m - 1`. */
  function SortPrefix(keys: seq<Key>, m: nat): (r: seq<nat>)
    requires m <= |keys|
    ensures |r| == m
    ensures forall a :: 0 <= a < m ==> r[a] < m
    ensures forall v: nat :: v in r <==> v < m
    ensures Ascending(keys, r)
  {
    if m == 0 then []
    else
      var r := Insert(keys, m - 1, SortPrefix(keys, m - 1));
      assert forall a :: 0 <= a < m ==> r[a] in r;
      r
  }

  /** The order a stable sort puts the rows in: every row exactly once, by
      non-decreasing key, rows with equal keys in their input order. */
  function StableOrder(keys: seq<Key>): (order: seq<nat>)
    ensures IsPermutation(order, |keys|)
    ensures forall a, b :: 0 <= a < b < |keys| ==>
      !KeyLess(keys[order[b]], keys[order[a]]) &&
      (keys[order[a]] == keys[order[b]] ==> order[a] < order[b])
  {
    var r := SortPrefix(keys, |keys|);
    assert forall a, b :: 0 <= a < b < |keys| ==> Precedes(keys, r[a], r[b]);
    r
  }

  function Identity(n: nat): (r: seq<nat>)
    ensures |r| == n && forall k :: 0 <= k < n ==> r[k] == k
  {
    seq(n, k requires 0 <= k < n => k)
  }

  ghost predicate KeysSorted(keys: seq<Key>) {
    forall i, j :: 0 <= i < j < |keys| ==> !KeyLess(keys[j], keys[i])
  }

  lemma {:induction false} InsertLargest(keys: seq<Key>, x: nat, s: seq<nat>)
    requires x < |keys| && x !in s
    requires forall a :: 0 <= a < |s| ==> s[a] < |keys| && Precedes(keys, s[a], x)
    requires Ascending(keys, s)
    ensures Insert(keys, x, s) == s + [x]
  {
    if s != [] {
      InsertLargest(keys, x, s[1..]);
      assert [s[0]] + (s[1..] + [x]) == s + [x];
    }
  }

  /** Sorting rows that are already in key order leaves them where they are. */
  lemma {:induction false} SortedIsUnchanged(keys: seq<Key>)
    requires KeysSorted(keys)
    ensures StableOrder(keys) == Identity(|keys|)
  {
    PrefixUnchanged(keys, |keys|);
  }

  lemma {:induction false} PrefixUnchanged(keys: seq<Key>, m: nat)
    requires m <= |keys| && KeysSorted(keys)
    ensures SortPrefix(keys, m) == Identity(m)
  {
    if m > 0 {
      PrefixUnchanged(keys, m - 1);
      InsertLargest(keys, m - 1, Identity(m - 1));
      assert Identity(m - 1) + [m - 1] == Identity(m);
    }
  }

  // --------------------------------------------- the sorted process table

  function ArrivalKeys(ps: seq<Proc>): (keys: seq<Key>)
    ensures |keys| == |ps| && forall i :: 0 <= i < |ps| ==> keys[i] == Key(ps[i].arrival, 0)
  {
    seq(|ps|, i requires 0 <= i < |ps| => Key(ps[i].arrival, 0))
  }

  function ArrivalPriorityKeys(ps: seq<Proc>): (keys: seq<Key>)
    ensures |keys| == |ps| && forall i :: 0 <= i < |ps| ==> keys[i] == Key(ps[i].arrival, ps[i].priority)
  {
    seq(|ps|, i requires 0 <= i < |ps| => Key(ps[i].arrival, ps[i].priority))
  }

  /** The order that sorting the table by arrival puts the rows in (the sort is
      stable): a permutation, by non-decreasing arrival, ties in input order. */
  function ArrivalOrder(ps: seq<Proc>): (order: seq<nat>)
    ensures IsPermutation(order, |ps|)
    ensures forall a, b :: 0 <= a < b < |ps| ==>
      ps[order[a]].arrival <= ps[order[b]].arrival &&
      (ps[order[a]].arrival == ps[order[b]].arrival ==> order[a] < order[b])
  {
    var keys := ArrivalKeys(ps);
    var order := StableOrder(keys);
    assert forall a :: 0 <= a < |ps| ==> keys[order[a]] == Key(ps[order[a]].arrival, 0);
    order
  }

  /** The input lists are already in order of arrival. */
  ghost predicate ArrivalSorted(ps: seq<Proc>) {
    forall i, j :: 0 <= i < j < |ps| ==> ps[i].arrival <= ps[j].arrival
  }

  /** What the rest of the model needs about a rearranged table: names stay
      unique, `list.index` on a row's name gives back its input position, and
      the total burst is unchanged. */
  lemma ArrangeFacts(ps: seq<Proc>, order: seq<nat>)
    requires UniqueNames(ps) && IsPermutation(order, |ps|)
    ensures UniqueNames(Pick(ps, order))
    ensures forall k :: 0 <= k < |ps| ==>
      Pick(ps, order)[k].name in Names(ps) && IndexOf(Names(ps), Pick(ps, order)[k].name) == order[k]
    ensures Sum(Bursts(Pick(ps, order))) == Sum(Bursts(ps))
  {
    var r := Pick(ps, order);
    forall k | 0 <= k < |ps| ensures r[k].name in Names(ps) && IndexOf(Names(ps), r[k].name) == order[k] {
      IndexOfUnique(ps, order[k]);
    }
    DistinctNames(ps);
    forall i, j | 0 <= i < j < |Names(r)| ensures Names(r)[i] != Names(r)[j] {
      assert Names(r)[i] == ps[order[i]].name && Names(r)[j] == ps[order[j]].name;
    }
    assert Bursts(Pick(ps, order)) == Pick(Bursts(ps), order);
    SumPermuted(Bursts(ps), order);
  }
}
