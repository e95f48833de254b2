// watchpoint.c: two linked lists, the live watchpoints and the free ones, over
// one static pool of 32 nodes.  A pointer into the pool is the index of its node.
module Watchpoint {
  import opened Bits

  const NR_WP: nat := 32

  // ----- what the pool holds, as values -----

  datatype Entry = Entry(no: nat, expr: string, value: Word)

  /** The live watchpoints in list order and the numbers of the free nodes. */
  datatype Watches = Watches(live: seq<Entry>, spare: seq<nat>)

  /** Evaluating the expression may fail (bad token). */
  datatype Evaluated = Rejected | Accepted(value: Word)

  datatype Op = Create(expr: string, result: Evaluated) | Delete(no: int)

  /** The index of watchpoint `no`, or the length of the list. */
  function IndexOf(live: seq<Entry>, no: int): (k: nat)
    ensures k <= |live|
    ensures k < |live| ==> live[k].no == no
    ensures forall i :: 0 <= i < k ==> live[i].no != no
  {
    if live == [] || live[0].no == no then 0 else 1 + IndexOf(live[1..], no)
  }

  function Without<T>(s: seq<T>, k: nat): (r: seq<T>)
    requires k < |s|
    ensures |r| == |s| - 1 && forall m :: 0 <= m < |r| ==> r[m] == s[if m < k then m else m + 1]
  {
    s[..k] + s[k + 1..]
  }

  function Next(w: Watches, op: Op): Watches {
    match op
    case Create(expr, result) =>
      if result.Rejected? || w.spare == [] then w
      else Watches(w.live + [Entry(w.spare[0], expr, result.value)], w.spare[1..])
    case Delete(no) =>
      var k := IndexOf(w.live, no);
      if k == |w.live| then w else Watches(Without(w.live, k), [w.live[k].no] + w.spare)
  }

  // ----- the linked lists -----

  datatype Link = Null | At(index: nat)

  datatype Wp = Wp(no: nat, next: Link, expr: string, oldValue: Word)

  function LinkAt(nodes: seq<nat>, k: nat): Link {
    if k < |nodes| then At(nodes[k]) else Null
  }

  /** Node k of the list is followed by node k + 1, or by nothing. */
  predicate Chained(pool: seq<Wp>, nodes: seq<nat>, k: nat)
    requires k < |nodes|
  {
    nodes[k] < |pool| && pool[nodes[k]].next == LinkAt(nodes, k + 1)
  }

  /** `nodes` is the list starting at first, chained by next and ended by null. */
  predicate IsList(pool: seq<Wp>, first: Link, nodes: seq<nat>) {
    && first == LinkAt(nodes, 0)
    && (forall k :: 0 <= k < |nodes| ==> nodes[k] < |pool|)
    && (forall k :: 0 <= k < |nodes| ==> Chained(pool, nodes, k))
  }

  predicate Distinct(nodes: seq<nat>) {
    forall i, j :: 0 <= i < j < |nodes| ==> nodes[i] != nodes[j]
  }

  /** The two lists together hold every node of the pool, once, with its fixed number. */
  predicate HoldsAll(pool: seq<Wp>, nodes: seq<nat>) {
    && |pool| == NR_WP && |nodes| == NR_WP && Distinct(nodes)
    && (forall i :: 0 <= i < |pool| ==> pool[i].no == i && i in nodes)
    && (forall k :: 0 <= k < |nodes| ==> nodes[k] < NR_WP)
  }

  function EntryAt(pool: seq<Wp>, i: nat): Entry
    requires i < |pool|
  {
    Entry(pool[i].no, pool[i].expr, pool[i].oldValue)
  }

  function Entries(pool: seq<Wp>, nodes: seq<nat>): (es: seq<Entry>)
    requires forall k :: 0 <= k < |nodes| ==> nodes[k] < |pool|
    ensures |es| == |nodes| && forall k :: 0 <= k < |es| ==> es[k] == EntryAt(pool, nodes[k])
  {
    seq(|nodes|, k requires 0 <= k < |nodes| => EntryAt(pool, nodes[k]))
  }

  lemma ChainAt(pool: seq<Wp>, first: Link, nodes: seq<nat>, k: nat)
    requires IsList(pool, first, nodes) && k < |nodes|
    ensures nodes[k] < |pool| && pool[nodes[k]].next == LinkAt(nodes, k + 1)
  {
    assert Chained(pool, nodes, k);
  }

  lemma ListOutside(pool: seq<Wp>, i: nat, wp: Wp, first: Link, nodes: seq<nat>)
    requires i < |pool| && i !in nodes && IsList(pool, first, nodes)
    ensures IsList(pool[i := wp], first, nodes)
  {
    var pool' := pool[i := wp];
    forall k | 0 <= k < |nodes| ensures Chained(pool', nodes, k) {
      assert Chained(pool, nodes, k);
    }
  }

  lemma SameNumbers(pool: seq<Wp>, pool': seq<Wp>, nodes: seq<nat>)
    requires HoldsAll(pool, nodes)
    requires |pool'| == |pool| && forall i :: 0 <= i < |pool| ==> pool'[i].no == pool[i].no
    ensures HoldsAll(pool', nodes)
  {}

  lemma DistinctParts(a: seq<nat>, b: seq<nat>)
    requires Distinct(a + b)
    ensures Distinct(a) && Distinct(b)
    ensures forall i, j :: 0 <= i < |a| && 0 <= j < |b| ==> a[i] != b[j]
  {
    var c := a + b;
    forall i, j | 0 <= i < j < |a| ensures a[i] != a[j] {
      assert c[i] != c[j];
    }
    forall i, j | 0 <= i < j < |b| ensures b[i] != b[j] {
      assert c[|a| + i] != c[|a| + j];
    }
    forall i, j | 0 <= i < |a| && 0 <= j < |b| ensures a[i] != b[j] {
      assert c[i] != c[|a| + j];
    }
  }

  /** Element k of the first list moved to the front of the second. */
  lemma MovedNodes(a: seq<nat>, b: seq<nat>, k: nat)
    requires k < |a| && Distinct(a + b)
    ensures Distinct(Without(a, k) + ([a[k]] + b))
    ensures forall x :: x in a + b ==> x in Without(a, k) + ([a[k]] + b)
  {
    DistinctParts(a, b);
    var c := Without(a, k) + ([a[k]] + b);
    forall i, j | 0 <= i < j < |c| ensures c[i] != c[j] {
      assert c[i] == if i < k then a[i] else if i < |a| - 1 then a[i + 1] else if i == |a| - 1 then a[k] else b[i - |a|];
      assert c[j] == if j < k then a[j] else if j < |a| - 1 then a[j + 1] else if j == |a| - 1 then a[k] else b[j - |a|];
    }
    forall x | x in a + b ensures x in c {
      if x in a {
        var m :| 0 <= m < |a| && a[m] == x;
        assert c[if m < k then m else if m == k then |a| - 1 else m - 1] == x;
      } else {
        var m :| 0 <= m < |b| && b[m] == x;
        assert c[|a| + m] == x;
      }
    }
  }

  lemma HoldsAllMoved(pool: seq<Wp>, a: seq<nat>, b: seq<nat>, k: nat)
    requires k < |a| && HoldsAll(pool, a + b)
    ensures HoldsAll(pool, Without(a, k) + ([a[k]] + b))
  {
    MovedNodes(a, b, k);
    var c := Without(a, k) + ([a[k]] + b);
    forall m | 0 <= m < |c| ensures c[m] < NR_WP {
      assert c[m] == if m < k then (a + b)[m] else if m < |a| - 1 then (a + b)[m + 1]
                     else if m == |a| - 1 then (a + b)[k] else (a + b)[m];
    }
  }

  /** Linking a new last node. */
  lemma AppendedList(pool: seq<Wp>, first: Link, nodes: seq<nat>, temp: nat)
    requires nodes != [] && IsList(pool, first, nodes) && Distinct(nodes)
    requires temp < |pool| && temp !in nodes && pool[temp].next == Null
    ensures var last := nodes[|nodes| - 1];
            IsList(pool[last := pool[last].(next := At(temp))], first, nodes + [temp])
  {
    var last := nodes[|nodes| - 1];
    var pool' := pool[last := pool[last].(next := At(temp))];
    var longer := nodes + [temp];
    forall k | 0 <= k < |longer| ensures longer[k] < |pool'| && Chained(pool', longer, k) {
      if k < |nodes| {
        assert Chained(pool, nodes, k);
        assert k < |nodes| - 1 ==> nodes[k] != last;
      }
    }
  }

  /** Linking around node k > 0. */
  lemma BypassedList(pool: seq<Wp>, first: Link, nodes: seq<nat>, k: nat)
    requires 0 < k < |nodes| && IsList(pool, first, nodes) && Distinct(nodes)
    ensures var before := nodes[k - 1];
            IsList(pool[before := pool[before].(next := pool[nodes[k]].next)], first, Without(nodes, k))
  {
    var before := nodes[k - 1];
    var pool' := pool[before := pool[before].(next := pool[nodes[k]].next)];
    var rest := Without(nodes, k);
    assert Chained(pool, nodes, k);
    forall m | 0 <= m < |rest| ensures rest[m] < |pool'| && Chained(pool', rest, m) {
      var o := if m < k then m else m + 1;
      assert rest[m] == nodes[o] && Chained(pool, nodes, o);
      assert o != k - 1 ==> nodes[o] != before;
    }
  }

  lemma FirstDropped(pool: seq<Wp>, first: Link, nodes: seq<nat>)
    requires nodes != [] && IsList(pool, first, nodes)
    ensures IsList(pool, pool[nodes[0]].next, nodes[1..]) && Without(nodes, 0) == nodes[1..]
  {
    assert Chained(pool, nodes, 0);
    forall k | 0 <= k < |nodes[1..]| ensures nodes[1..][k] < |pool| && Chained(pool, nodes[1..], k) {
      assert nodes[1..][k] == nodes[k + 1] && Chained(pool, nodes, k + 1);
    }
  }

  lemma Pushed(pool: seq<Wp>, first: Link, nodes: seq<nat>, wp: nat)
    requires IsList(pool, first, nodes) && wp < |pool| && pool[wp].next == first
    ensures IsList(pool, At(wp), [wp] + nodes)
  {
    var longer := [wp] + nodes;
    forall k | 0 <= k < |longer| ensures longer[k] < |pool| && Chained(pool, longer, k) {
      if k > 0 {
        assert longer[k] == nodes[k - 1] && Chained(pool, nodes, k - 1);
      }
    }
  }

  lemma IndexIs(live: seq<Entry>, no: int, k: nat)
    requires k <= |live| && (k < |live| ==> live[k].no == no) && forall i :: 0 <= i < k ==> live[i].no != no
    ensures IndexOf(live, no) == k
  {
  }

  /** 0, 1, ..., 31 */
  function AllNumbers(): (ns: seq<nat>)
    ensures |ns| == NR_WP && forall i :: 0 <= i < NR_WP ==> ns[i] == i
  {
    seq(NR_WP, i => i)
  }

  lemma FreshPool(pool: seq<Wp>)
    requires |pool| == NR_WP
    requires forall k :: 0 <= k < NR_WP ==> pool[k].no == k && pool[k].next == LinkAt(AllNumbers(), k + 1)
    ensures Consistent(pool, Null, At(0), [], AllNumbers())
  {
    var ns := AllNumbers();
    assert IsList(pool, At(0), ns) && IsList(pool, Null, []);
    hide IsList, LinkAt;
    assert [] + ns == ns;
    assert HoldsAll(pool, ns) by {
      forall i | 0 <= i < |pool| ensures i in ns {
        assert ns[i] == i;
      }
    }
    hide HoldsAll, AllNumbers;
  }

  // ----- the pool after each operation, as a value -----

  predicate Consistent(pool: seq<Wp>, head: Link, free: Link, live: seq<nat>, spare: seq<nat>) {
    IsList(pool, head, live) && IsList(pool, free, spare) && HoldsAll(pool, live + spare)
  }

  function LinkedBehind(pool: seq<Wp>, live: seq<nat>, t: nat): seq<Wp>
    requires forall k :: 0 <= k < |live| ==> live[k] < |pool|
  {
    if live == [] then pool
    else var last := live[|live| - 1]; pool[last := pool[last].(next := At(t))]
  }

  lemma LinkedBehindKeeps(pool: seq<Wp>, head: Link, live: seq<nat>, t: nat, other: Link, nodes: seq<nat>)
    requires IsList(pool, head, live) && Distinct(live) && t < |pool| && t !in live && pool[t].next == Null
    requires IsList(pool, other, nodes) && forall i, j :: 0 <= i < |live| && 0 <= j < |nodes| ==> live[i] != nodes[j]
    ensures var pool' := LinkedBehind(pool, live, t);
            && IsList(pool', LinkAt(live + [t], 0), live + [t]) && IsList(pool', other, nodes)
            && |pool'| == |pool| && forall i :: 0 <= i < |pool| ==> EntryAt(pool', i) == EntryAt(pool, i)
  {
    if live != [] {
      AppendedList(pool, head, live, t);
      var last := live[|live| - 1];
      ListOutside(pool, last, pool[last].(next := At(t)), other, nodes);
    }
  }

  lemma NodesInPool(p: seq<Wp>, live: seq<nat>, spare: seq<nat>)
    requires HoldsAll(p, live + spare)
    ensures forall k :: 0 <= k < |live| ==> live[k] < |p| && p[live[k]].no == live[k]
    ensures forall k :: 0 <= k < |spare| ==> spare[k] < |p| && p[spare[k]].no == spare[k]
    ensures Distinct(live) && Distinct(spare)
    ensures forall i, j :: 0 <= i < |live| && 0 <= j < |spare| ==> live[i] != spare[j]
  {
    DistinctParts(live, spare);
    assert forall k :: 0 <= k < |live| ==> live[k] == (live + spare)[k];
    assert forall k :: 0 <= k < |spare| ==> spare[k] == (live + spare)[|live| + k];
  }

  lemma CreateLists(p0: seq<Wp>, head: Link, free: Link, live: seq<nat>, spare: seq<nat>, node: Wp)
    requires IsList(p0, head, live) && IsList(p0, free, spare) && spare != [] && Distinct(live) && Distinct(spare)
    requires forall i, j :: 0 <= i < |live| && 0 <= j < |spare| ==> live[i] != spare[j]
    requires node.next == Null
    ensures var t := spare[0];
            var p1 := p0[t := node];
            var p2 := LinkedBehind(p1, live, t);
            && IsList(p1, head, live)
            && IsList(p2, LinkAt(live + [t], 0), live + [t]) && IsList(p2, p0[t].next, spare[1..])
            && |p2| == |p0| && forall i :: 0 <= i < |p0| ==> EntryAt(p2, i) == EntryAt(p1, i)
  {
    var t := spare[0];
    var rest := spare[1..];
    FirstDropped(p0, free, spare);
    assert t !in rest by {
      assert forall k :: 0 <= k < |rest| ==> rest[k] == spare[k + 1];
    }
    hide IsList, Distinct, LinkedBehind, LinkAt;
    ListOutside(p0, t, node, head, live);
    ListOutside(p0, t, node, p0[t].next, rest);
    LinkedBehindKeeps(p0[t := node], head, live, t, p0[t].next, rest);
  }

  /** A create on a consistent pool with a free node. */
  lemma CreateKeeps(p0: seq<Wp>, head: Link, free: Link, live: seq<nat>, spare: seq<nat>, str: string, value: Word)
    requires Consistent(p0, head, free, live, spare) && spare != []
    ensures spare[0] < |p0|
    ensures var t := spare[0];
            var p1 := p0[t := Wp(p0[t].no, Null, str, value)];
            var p2 := LinkedBehind(p1, live, t);
            && IsList(p1, head, live)
            && Consistent(p2, LinkAt(live + [t], 0), p0[t].next, live + [t], spare[1..])
            && Entries(p2, live + [t]) == Entries(p0, live) + [Entry(t, str, value)]
  {
    hide IsList, Distinct, HoldsAll, LinkedBehind;
    NodesInPool(p0, live, spare);
    var t := spare[0];
    var node := Wp(p0[t].no, Null, str, value);
    CreateLists(p0, head, free, live, spare, node);
    var p2 := LinkedBehind(p0[t := node], live, t);
    assert live + [t] + spare[1..] == live + spare;
    forall i | 0 <= i < |p0| ensures p2[i].no == p0[i].no {
      assert EntryAt(p2, i) == EntryAt(p0[t := node], i);
    }
    SameNumbers(p0, p2, live + spare);
    forall k | 0 <= k < |live| ensures EntryAt(p2, live[k]) == EntryAt(p0, live[k]) {
      assert live[k] != t;
    }
    assert EntryAt(p2, t) == EntryAt(p0[t := node], t) == Entry(t, str, value);
  }

  function Bypassed(pool: seq<Wp>, live: seq<nat>, k: nat): (pool': seq<Wp>)
    requires k < |live| && forall i :: 0 <= i < |live| ==> live[i] < |pool|
    ensures |pool'| == |pool|
  {
    if k == 0 then pool
    else pool[live[k - 1] := pool[live[k - 1]].(next := pool[live[k]].next)]
  }

  lemma BypassedKeeps(pool: seq<Wp>, head: Link, live: seq<nat>, k: nat, other: Link, nodes: seq<nat>)
    requires IsList(pool, head, live) && Distinct(live) && k < |live|
    requires IsList(pool, other, nodes) && forall i, j :: 0 <= i < |live| && 0 <= j < |nodes| ==> live[i] != nodes[j]
    ensures var pool' := Bypassed(pool, live, k);
            && IsList(pool', LinkAt(Without(live, k), 0), Without(live, k)) && IsList(pool', other, nodes)
            && |pool'| == |pool| && forall i :: 0 <= i < |pool| ==> EntryAt(pool', i) == EntryAt(pool, i)
  {
    if k == 0 {
      FirstDropped(pool, head, live);
    } else {
      BypassedList(pool, head, live, k);
      ListOutside(pool, live[k - 1], pool[live[k - 1]].(next := pool[live[k]].next), other, nodes);
    }
  }

  lemma BypassKeepsNumber(p0: seq<Wp>, live: seq<nat>, k: nat)
    requires k < |live| && forall i :: 0 <= i < |live| ==> live[i] < |p0|
    ensures |Bypassed(p0, live, k)| == |p0| && Bypassed(p0, live, k)[live[k]].no == p0[live[k]].no
  {}

  lemma DeleteLists(p0: seq<Wp>, head: Link, free: Link, live: seq<nat>, spare: seq<nat>, k: nat, node: Wp)
    requires IsList(p0, head, live) && IsList(p0, free, spare) && k < |live| && Distinct(live)
    requires forall i, j :: 0 <= i < |live| && 0 <= j < |spare| ==> live[i] != spare[j]
    requires node.next == free
    ensures var wp, rest := live[k], Without(live, k);
            var p1 := Bypassed(p0, live, k);
            var p2 := p1[wp := node];
            && IsList(p2, LinkAt(rest, 0), rest) && IsList(p2, At(wp), [wp] + spare)
            && |p2| == |p0| && forall i :: 0 <= i < |p0| && i != wp ==> EntryAt(p2, i) == EntryAt(p0, i)
  {
    hide Without;
    var wp, rest := live[k], Without(live, k);
    assert forall m :: 0 <= m < |rest| ==> rest[m] != wp;
    hide IsList, Distinct, Bypassed;
    BypassedKeeps(p0, head, live, k, free, spare);
    var p1 := Bypassed(p0, live, k);
    ListOutside(p1, wp, node, LinkAt(rest, 0), rest);
    ListOutside(p1, wp, node, free, spare);
    Pushed(p1[wp := node], free, spare, wp);
  }

  /** A delete of live node k. */
  lemma DeleteKeeps(p0: seq<Wp>, head: Link, free: Link, live: seq<nat>, spare: seq<nat>, k: nat)
    requires Consistent(p0, head, free, live, spare) && k < |live|
    ensures forall i :: 0 <= i < |live| ==> live[i] < |p0|
    ensures var wp, rest := live[k], Without(live, k);
            var p2 := Bypassed(p0, live, k)[wp := Wp(p0[wp].no, free, "", 0)];
            && Consistent(p2, LinkAt(rest, 0), At(wp), rest, [wp] + spare)
            && Entries(p2, rest) == Without(Entries(p0, live), k)
  {
    hide IsList, Distinct, HoldsAll, Bypassed, Without;
    NodesInPool(p0, live, spare);
    var wp, rest := live[k], Without(live, k);
    var node := Wp(p0[wp].no, free, "", 0);
    DeleteLists(p0, head, free, live, spare, k, node);
    var p2 := Bypassed(p0, live, k)[wp := node];
    HoldsAllMoved(p0, live, spare, k);
    forall i | 0 <= i < |p0| ensures p2[i].no == p0[i].no {
      assert i != wp ==> EntryAt(p2, i) == EntryAt(p0, i);
    }
    SameNumbers(p0, p2, rest + ([wp] + spare));
    DeletedEntries(p0, p2, live, k);
  }

  lemma DeletedEntries(p0: seq<Wp>, p2: seq<Wp>, live: seq<nat>, k: nat)
    requires k < |live| && Distinct(live) && |p2| == |p0| && forall i :: 0 <= i < |live| ==> live[i] < |p0|
    requires forall i :: 0 <= i < |p0| && i != live[k] ==> EntryAt(p2, i) == EntryAt(p0, i)
    ensures forall m :: 0 <= m < |Without(live, k)| ==> Without(live, k)[m] < |p2|
    ensures Entries(p2, Without(live, k)) == Without(Entries(p0, live), k)
  {
    var rest := Without(live, k);
    forall m | 0 <= m < |rest| ensures rest[m] < |p2| && EntryAt(p2, rest[m]) == Without(Entries(p0, live), k)[m] {
      var o := if m < k then m else m + 1;
      assert rest[m] == live[o] && live[o] != live[k];
    }
  }

  // ----- freeing a node that is not live -----

  /** The last live node gets the successor of wp. */
  function Misdirected(pool: seq<Wp>, last: nat, wp: nat): seq<Wp>
    requires last < |pool| && wp < |pool|
  {
    pool[last := pool[last].(next := pool[wp].next)]
  }

  function FreedAgain(pool: seq<Wp>, last: nat, free: Link, wp: nat): seq<Wp>
    requires last < |pool| && wp < |pool|
  {
    Misdirected(pool, last, wp)[wp := Wp(pool[wp].no, free, "", 0)]
  }

  lemma MisdirectedKeepsNumber(pool: seq<Wp>, last: nat, wp: nat)
    requires last < |pool| && wp < |pool|
    ensures |Misdirected(pool, last, wp)| == |pool| && Misdirected(pool, last, wp)[wp].no == pool[wp].no
  {}

  lemma NotLiveIsSpare(p: seq<Wp>, live: seq<nat>, spare: seq<nat>, wp: nat)
    requires HoldsAll(p, live + spare) && wp < NR_WP && wp !in live
    ensures wp in spare
  {
    hide Distinct;
    assert wp in live + spare;
  }

  /** Every node of `cycle` is followed by another one. */
  predicate NeverEnds(pool: seq<Wp>, cycle: seq<nat>) {
    forall i :: i in cycle ==> i < |pool| && pool[i].next.At? && pool[i].next.index in cycle
  }

  lemma {:induction false} StaysInCycle(pool: seq<Wp>, first: nat, nodes: seq<nat>, cycle: seq<nat>, k: nat)
    requires NeverEnds(pool, cycle) && first in cycle && IsList(pool, At(first), nodes) && k < |nodes|
    ensures nodes[k] in cycle
    decreases k
  {
    if k > 0 {
      StaysInCycle(pool, first, nodes, cycle, k - 1);
      ChainAt(pool, At(first), nodes, k - 1);
    }
  }

  lemma FreedAgainCycles(p: seq<Wp>, free: Link, spare: seq<nat>, last: nat, m: nat)
    requires IsList(p, free, spare) && Distinct(spare) && m < |spare| && last !in spare && last < |p| && spare[m] < |p|
    ensures NeverEnds(FreedAgain(p, last, free, spare[m]), spare[..m + 1])
  {
    var wp, cycle := spare[m], spare[..m + 1];
    var p' := FreedAgain(p, last, free, wp);
    ChainAt(p, free, spare, 0);
    assert free == At(spare[0]);
    hide IsList;
    forall i | i in cycle ensures i < |p'| && p'[i].next.At? && p'[i].next.index in cycle {
      var j :| 0 <= j <= m && spare[j] == i;
      ChainAt(p, free, spare, j);
      if j == m {
        assert cycle[0] == spare[0];
      } else {
        assert i != last && i != wp && cycle[j + 1] == spare[j + 1];
      }
    }
  }

  lemma CycleIsNoList(pool: seq<Wp>, first: nat, nodes: seq<nat>, cycle: seq<nat>)
    requires NeverEnds(pool, cycle) && first in cycle
    ensures !IsList(pool, At(first), nodes)
  {
    if IsList(pool, At(first), nodes) {
      assert nodes != [];
      hide IsList;
      StaysInCycle(pool, first, nodes, cycle, |nodes| - 1);
      ChainAt(pool, At(first), nodes, |nodes| - 1);
      assert false;
    }
  }

  /** Freeing a node twice makes the free list cyclic: it is no longer a list of
      any nodes at all. */
  lemma FreeingTwiceBreaksTheFreeList(p: seq<Wp>, head: Link, free: Link, live: seq<nat>, spare: seq<nat>, m: nat, nodes: seq<nat>)
    requires Consistent(p, head, free, live, spare) && live != [] && m < |spare|
    ensures live[|live| - 1] < |p| && spare[m] < |p|
    ensures !IsList(FreedAgain(p, live[|live| - 1], free, spare[m]), At(spare[m]), nodes)
  {
    var last, wp := live[|live| - 1], spare[m];
    NodesInPool(p, live, spare);
    hide IsList, HoldsAll, FreedAgain, Distinct;
    FreedAgainCycles(p, free, spare, last, m);
    assert spare[..m + 1][m] == wp;
    CycleIsNoList(FreedAgain(p, last, free, wp), wp, nodes, spare[..m + 1]);
  }

  /** The two lists hold the watchpoints w. */
  ghost predicate Holds(pool: seq<Wp>, head: Link, free: Link, live: seq<nat>, spare: seq<nat>, w: Watches) {
    Consistent(pool, head, free, live, spare) && w == Watches(Entries(pool, live), spare)
  }

  lemma CreateHolds(p0: seq<Wp>, head: Link, free: Link, live: seq<nat>, spare: seq<nat>, w: Watches, str: string, result: Evaluated)
    requires Holds(p0, head, free, live, spare, w) && spare != [] && result.Accepted?
    ensures spare[0] < |p0|
    ensures var t := spare[0];
            var p1 := p0[t := Wp(p0[t].no, Null, str, result.value)];
            && IsList(p1, head, live)
            && Holds(LinkedBehind(p1, live, t), LinkAt(live + [t], 0), p0[t].next, live + [t], spare[1..],
                     Next(w, Create(str, result)))
  {
    CreateKeeps(p0, head, free, live, spare, str, result.value);
    hide Consistent, IsList, Entries, LinkedBehind;
  }

  lemma FullPool(w: Watches, str: string, result: Evaluated)
    requires w.spare == []
    ensures Next(w, Create(str, result)) == w
  {}

  lemma FirstNode(nodes: seq<nat>)
    ensures LinkAt(nodes, 0) == if nodes == [] then Null else At(nodes[0])
  {}

  class Pool {
    const pool: array<Wp>
    var head: Link
    var free: Link
    ghost var live: seq<nat>
    ghost var spare: seq<nat>

    /** Both lists are acyclic and disjoint, and together they hold the pool. */
    ghost predicate Valid()
      reads this, pool
    {
      Consistent(pool[..], head, free, live, spare)
    }

    ghost function State(): Watches
      requires Valid()
      reads this, pool
    {
      Watches(Entries(pool[..], live), spare)
    }

    lemma StateIs()
      requires Valid()
      ensures Holds(pool[..], head, free, live, spare, State()) && State().spare == spare
    {
      hide Consistent, Entries;
    }

    lemma StateFrom(w: Watches)
      requires Holds(pool[..], head, free, live, spare, w)
      ensures Valid() && State() == w
    {
      hide Consistent, Entries;
    }

    /** init_wp_pool: every node free, linked in the order of the pool. */
    constructor ()
      ensures Valid() && State() == Watches([], AllNumbers())
      ensures fresh(pool)
    {
      pool := new Wp[NR_WP](_ => Wp(0, Null, "", 0));
      head, free := Null, At(0);
      live, spare := [], AllNumbers();
      new;
      var i := 0;
      while i < NR_WP
        invariant 0 <= i <= NR_WP
        invariant head == Null && free == At(0) && live == [] && spare == AllNumbers()
        invariant forall k :: 0 <= k < i ==> pool[k].no == k && pool[k].next == LinkAt(spare, k + 1)
      {
        pool[i] := pool[i].(no := i);
        pool[i] := pool[i].(next := if i == NR_WP - 1 then Null else At(i + 1));
        i := i + 1;
      }
      FreshPool(pool[..]);
    }

    /** new_wp: takes the first free node. */
    method NewWp() returns (temp: Link)
      requires Valid()
      modifies this`free, this`spare, pool
      ensures temp == LinkAt(old(spare), 0)
      ensures temp.Null? ==> pool[..] == old(pool[..]) && spare == old(spare) && free == old(free)
      ensures temp.At? ==> && temp.index < pool.Length && free == old(pool[..])[temp.index].next
                           && pool[..] == old(pool[..])[temp.index := old(pool[..])[temp.index].(next := Null)]
                           && spare == old(spare)[1..]
    {
      if free == Null {
        return Null;
      }
      temp := free;
      free := pool[free.index].next;
      pool[temp.index] := pool[temp.index].(next := Null);
      spare := spare[1..];
    }

    /** The end of create_watchpoint: links a node behind the last live one. */
    method Append(temp: nat)
      requires IsList(pool[..], head, live)
      modifies this`head, pool
      ensures head == LinkAt(live + [temp], 0)
      ensures pool[..] == LinkedBehind(old(pool[..]), live, temp)
    {
      ghost var p, first := pool[..], head;
      assert IsList(p, first, live);
      hide IsList;
      if head == Null {
        head := At(temp);
      } else {
        ChainAt(p, first, live, 0);
        var t := head.index;
        ghost var k := 0;
        while pool[t].next != Null
          invariant 0 <= k < |live| && t == live[k] && t < pool.Length && p[t].next == LinkAt(live, k + 1)
          modifies {}
          decreases |live| - k
        {
          t := pool[t].next.index;
          k := k + 1;
          ChainAt(p, first, live, k);
        }
        pool[t] := pool[t].(next := At(temp));
      }
    }

    /** The first part of create_watchpoint: a new node with its contents. */
    method Take(str: string, value: Word) returns (temp: Link)
      requires Valid()
      modifies this`free, this`spare, pool
      ensures temp == LinkAt(old(spare), 0)
      ensures temp.Null? ==> pool[..] == old(pool[..]) && spare == old(spare) && free == old(free)
      ensures temp.At? ==> && temp.index < pool.Length && free == old(pool[..])[temp.index].next
                           && pool[..] == old(pool[..])[temp.index := Wp(old(pool[..])[temp.index].no, Null, str, value)]
                           && spare == old(spare)[1..]
    {
      hide Consistent;
      temp := NewWp();
      if temp != Null {
        var t := temp.index;
        pool[t] := pool[t].(expr := str);
        pool[t] := pool[t].(oldValue := value);
      }
    }

    /** create_watchpoint, given the result of evaluating its expression. */
    method CreateWatchpoint(str: string, result: Evaluated)
      requires Valid()
      modifies this, pool
      ensures Valid() && State() == Next(old(State()), Create(str, result))
    {
      if result.Rejected? {
        return;
      }
      hide *;
      StateIs();
      ghost var w := State();
      FirstNode(spare);
      if spare == [] {
        FullPool(w, str, result);
      } else {
        CreateHolds(pool[..], head, free, live, spare, w, str, result);
      }
      var temp := Take(str, result.value);
      if temp == Null {
        StateFrom(w);
        return;
      }
      Append(temp.index);
      live := live + [temp.index];
      StateFrom(Next(w, Create(str, result)));
    }

    /** The search and unlinking in free_wp, for the live node at position k, or
        for k = |live| a node that is not live: then the search runs to the last
        live node, which gets the successor of wp all the same. */
    method Unlink(wp: nat, ghost k: nat)
      requires IsList(pool[..], head, live) && Distinct(live) && k <= |live| && wp < pool.Length
      requires if k < |live| then wp == live[k] else wp !in live && live != []
      modifies this`head, pool
      ensures k < |old(live)| ==> pool[..] == Bypassed(old(pool[..]), live, k) && head == LinkAt(Without(live, k), 0)
      ensures k == |old(live)| ==> pool[..] == Misdirected(old(pool[..]), live[k - 1], wp) && head == old(head)
    {
      ghost var p, first := pool[..], head;
      assert forall i :: 0 <= i < |live| && live[i] == wp ==> i == k;
      if k < |live| { ChainAt(p, first, live, k); }
      ChainAt(p, first, live, 0);
      hide IsList, Distinct, Without;
      if head == At(wp) {
        assert k == 0;
        head := pool[wp].next;
      } else {
        var temp := head.index;
        ghost var j := 0;
        while pool[temp].next != Null && pool[temp].next != At(wp)
          invariant 0 <= j < k && temp == live[j] && temp < pool.Length && p[temp].next == LinkAt(live, j + 1)
          modifies {}
          decreases k - j
        {
          temp := pool[temp].next.index;
          j := j + 1;
          ChainAt(p, first, live, j);
        }
        assert j == k - 1;
        pool[temp] := pool[temp].(next := pool[wp].next);
      }
    }

    /** The end of free_wp: clears the node and pushes it on the free list. */
    method Push(wp: nat)
      requires wp < pool.Length
      modifies this`free, pool
      ensures pool[..] == old(pool[..])[wp := Wp(old(pool[wp]).no, old(free), "", 0)] && free == At(wp)
    {
      pool[wp] := pool[wp].(next := Null);
      pool[wp] := pool[wp].(expr := "");
      pool[wp] := pool[wp].(oldValue := 0);
      pool[wp] := pool[wp].(next := free);
      free := At(wp);
    }

    /** free_wp.  A live node is unlinked and pushed on the free list.  A node that
        is not live, for which the original only prints an error, is pushed again
        (with no live node at all the original follows a null pointer). */
    method FreeWp(wp: nat, ghost k: nat)
      requires Valid() && k <= |live| && wp < NR_WP
      requires if k < |live| then wp == live[k] else wp !in live && live != []
      modifies this, pool
      ensures k < |old(live)| ==> Valid() && State() == Watches(Without(old(State()).live, k), [wp] + old(spare))
      ensures k == |old(live)| ==> && wp in old(spare) && live == old(live) && head == old(head)
                                   && pool[..] == FreedAgain(old(pool[..]), live[k - 1], old(free), wp) && free == At(wp)
    {
      ghost var p0 := pool[..];
      NodesInPool(p0, live, spare);
      if k < |live| {
        DeleteKeeps(p0, head, free, live, spare, k);
      } else {
        NotLiveIsSpare(p0, live, spare, wp);
        MisdirectedKeepsNumber(p0, live[k - 1], wp);
      }
      hide IsList, Distinct, HoldsAll, Bypassed, Entries, Without, Misdirected;
      Unlink(wp, k);
      Push(wp);
      if k < |live| {
        BypassKeepsNumber(p0, live, k);
        live, spare := Without(live, k), [wp] + spare;
      }
    }

    /** delete_watchpoint */
    method DeleteWatchpoint(no: int)
      requires Valid()
      modifies this, pool
      ensures Valid() && State() == Next(old(State()), Delete(no))
    {
      ghost var p, first := pool[..], head;
      assert IsList(p, first, live);
      NodesInPool(p, live, spare);
      hide IsList, HoldsAll, Distinct, Without;
      var temp := head;
      ghost var k := 0;
      while temp != Null
        invariant 0 <= k <= |live| && temp == LinkAt(live, k)
        invariant forall i :: 0 <= i < k ==> live[i] != no
        modifies {}
        decreases |live| - k
      {
        ChainAt(p, first, live, k);
        if pool[temp.index].no == no {
          break;
        }
        temp := pool[temp.index].next;
        k := k + 1;
      }
      IndexIs(Entries(p, live), no, k);
      hide Consistent, IndexOf;
      if temp != Null {
        FreeWp(temp.index, k);
      }
    }
  }
}
