// What any sequence of creates and deletes leaves in the watchpoint pool.
module WatchpointHistory {
  import opened Watchpoint

  /** The state after the first n operations on a fresh pool. */
  function After(ops: seq<Op>, n: nat): Watches
    requires n <= |ops|
    decreases n
  {
    if n == 0 then Watches([], AllNumbers()) else Next(After(ops, n - 1), ops[n - 1])
  }

  /** Operation t created a watchpoint. */
  predicate Creates(ops: seq<Op>, t: nat)
    requires t < |ops|
  {
    ops[t].Create? && ops[t].result.Accepted? && After(ops, t).spare != []
  }

  /** The number it was given. */
  function NumberOf(ops: seq<Op>, t: nat): nat
    requires t < |ops| && Creates(ops, t)
  {
    After(ops, t).spare[0]
  }

  function Nos(live: seq<Entry>): (ns: seq<nat>)
    ensures |ns| == |live| && forall k :: 0 <= k < |live| ==> ns[k] == live[k].no
  {
    seq(|live|, k requires 0 <= k < |live| => live[k].no)
  }

  ghost predicate Whole(w: Watches) {
    |w.live| + |w.spare| == NR_WP && Distinct(Nos(w.live) + w.spare)
  }

  lemma NextIsWhole(w: Watches, op: Op)
    requires Whole(w)
    ensures Whole(Next(w, op))
  {
    var w' := Next(w, op);
    match op {
      case Create(expr, result) =>
        if w' != w {
          assert Nos(w'.live) + w'.spare == Nos(w.live) + w.spare;
        }
      case Delete(no) =>
        if w' != w {
          var k := IndexOf(w.live, no);
          MovedNodes(Nos(w.live), w.spare, k);
          assert Nos(Without(w.live, k)) == Without(Nos(w.live), k);
        }
    }
  }

  lemma {:induction false} AlwaysWhole(ops: seq<Op>, n: nat)
    requires n <= |ops|
    ensures Whole(After(ops, n))
    decreases n
  {
    if n > 0 {
      AlwaysWhole(ops, n - 1);
      NextIsWhole(After(ops, n - 1), ops[n - 1]);
    } else {
      assert Nos([]) + AllNumbers() == AllNumbers();
    }
  }

  /** A create with a valid expression fails only when all 32 watchpoints are live. */
  lemma CreateFailsOnlyWhenFull(ops: seq<Op>, n: nat)
    requires n < |ops| && ops[n].Create? && ops[n].result.Accepted?
    ensures After(ops, n + 1) == After(ops, n) <==> |After(ops, n).live| == 32
  {
    AlwaysWhole(ops, n);
    var w := After(ops, n);
    assert After(ops, n + 1) == Next(w, ops[n]);
    if w.spare != [] {
      assert |After(ops, n + 1).live| == |w.live| + 1;
    }
  }

  // ----- when each live watchpoint was created -----

  /** The times at which the live watchpoints were created, in list order. */
  function Born(ops: seq<Op>, n: nat): (times: seq<nat>)
    requires n <= |ops|
    ensures |times| == |After(ops, n).live|
    decreases n
  {
    if n == 0 then []
    else
      var before := After(ops, n - 1);
      match ops[n - 1]
      case Create(_, result) =>
        if Creates(ops, n - 1) then Born(ops, n - 1) + [n - 1] else Born(ops, n - 1)
      case Delete(no) =>
        var k := IndexOf(before.live, no);
        if k == |before.live| then Born(ops, n - 1) else Without(Born(ops, n - 1), k)
  }

  /** Entry k was made by the create at time Born[k]. */
  ghost predicate MadeAt(ops: seq<Op>, e: Entry, t: nat) {
    && t < |ops| && Creates(ops, t)
    && e == Entry(NumberOf(ops, t), ops[t].expr, ops[t].result.value)
  }

  /** Creation times are increasing, past, and match the entries. */
  ghost predicate Chronicle(ops: seq<Op>, live: seq<Entry>, times: seq<nat>, n: nat) {
    && |live| == |times|
    && (forall i, j :: 0 <= i < j < |times| ==> times[i] < times[j])
    && (forall k :: 0 <= k < |times| ==> times[k] < n && MadeAt(ops, live[k], times[k]))
  }

  lemma ChronicleAppend(ops: seq<Op>, live: seq<Entry>, times: seq<nat>, n: nat, e: Entry)
    requires Chronicle(ops, live, times, n) && MadeAt(ops, e, n)
    ensures Chronicle(ops, live + [e], times + [n], n + 1)
  {
    hide MadeAt;
  }

  lemma ChronicleWithout(ops: seq<Op>, live: seq<Entry>, times: seq<nat>, n: nat, k: nat)
    requires Chronicle(ops, live, times, n) && k < |times|
    ensures Chronicle(ops, Without(live, k), Without(times, k), n + 1)
  {
    hide MadeAt, Without;
  }

  lemma ChronicleLater(ops: seq<Op>, live: seq<Entry>, times: seq<nat>, n: nat)
    requires Chronicle(ops, live, times, n)
    ensures Chronicle(ops, live, times, n + 1)
  {
    hide MadeAt;
  }

  /** The live list is in creation order, and every entry is as it was created. */
  lemma {:induction false} LiveListIsInCreationOrder(ops: seq<Op>, n: nat)
    requires n <= |ops|
    ensures Chronicle(ops, After(ops, n).live, Born(ops, n), n)
    decreases n
  {
    if n > 0 {
      hide *;
      LiveListIsInCreationOrder(ops, n - 1);
      if ops[n - 1].Create? {
        CreateKeepsChronicle(ops, n - 1);
      } else {
        DeleteKeepsChronicle(ops, n - 1);
      }
    }
  }

  lemma CreateKeepsChronicle(ops: seq<Op>, n: nat)
    requires n < |ops| && ops[n].Create? && Chronicle(ops, After(ops, n).live, Born(ops, n), n)
    ensures Chronicle(ops, After(ops, n + 1).live, Born(ops, n + 1), n + 1)
  {
    hide MadeAt, Chronicle;
    var live, times := After(ops, n).live, Born(ops, n);
    ChronicleLater(ops, live, times, n);
    if Creates(ops, n) {
      CreatedEntry(ops, n);
      var e := After(ops, n + 1).live[|live|];
      ChronicleAppend(ops, live, times, n, e);
      assert After(ops, n + 1).live == live + [e];
    }
  }

  lemma DeleteKeepsChronicle(ops: seq<Op>, n: nat)
    requires n < |ops| && ops[n].Delete? && Chronicle(ops, After(ops, n).live, Born(ops, n), n)
    ensures Chronicle(ops, After(ops, n + 1).live, Born(ops, n + 1), n + 1)
  {
    hide MadeAt, Chronicle, Without;
    var live, times := After(ops, n).live, Born(ops, n);
    ChronicleLater(ops, live, times, n);
    var k := IndexOf(live, ops[n].no);
    if k < |live| {
      ChronicleWithout(ops, live, times, n, k);
    }
  }

  lemma CreatedEntry(ops: seq<Op>, t: nat)
    requires t < |ops| && Creates(ops, t)
    ensures var live' := After(ops, t + 1).live;
            live' != [] && live'[..|live'| - 1] == After(ops, t).live && MadeAt(ops, live'[|live'| - 1], t)
  {}

  /** Exactly the surviving watchpoints are live: one created at time t is live
      after n operations if and only if its number has not been deleted since. */
  lemma {:induction false} LiveMeansNotDeleted(ops: seq<Op>, t: nat, n: nat)
    requires t < n <= |ops| && Creates(ops, t)
    ensures t in Born(ops, n) <==> forall j :: t < j < n ==> ops[j] != Delete(NumberOf(ops, t))
    decreases n
  {
    hide *;
    if t < n - 1 {
      LiveMeansNotDeleted(ops, t, n - 1);
      SurvivalStep(ops, t, n - 1);
      assert (forall j :: t < j < n ==> ops[j] != Delete(NumberOf(ops, t)))
             <==> (forall j :: t < j < n - 1 ==> ops[j] != Delete(NumberOf(ops, t))) && ops[n - 1] != Delete(NumberOf(ops, t));
    } else {
      BornWhenCreated(ops, t);
    }
  }

  lemma BornWhenCreated(ops: seq<Op>, t: nat)
    requires t < |ops| && Creates(ops, t)
    ensures t in Born(ops, t + 1)
  {
    var before := Born(ops, t);
    assert Born(ops, t + 1) == before + [t];
  }

  /** One operation removes watchpoint t from the live list exactly when it
      deletes its number. */
  lemma SurvivalStep(ops: seq<Op>, t: nat, n: nat)
    requires t < n < |ops| && Creates(ops, t)
    ensures t in Born(ops, n + 1) <==> t in Born(ops, n) && ops[n] != Delete(NumberOf(ops, t))
  {
    LiveListIsInCreationOrder(ops, n);
    AlwaysWhole(ops, n);
    var born, live := Born(ops, n), After(ops, n).live;
    DistinctParts(Nos(live), After(ops, n).spare);
    match ops[n] {
      case Create(_, _) =>
      case Delete(no) =>
        var k := IndexOf(live, no);
        if k < |live| {
          WithoutMembers(born, k, t);
          if t in born {
            var i :| 0 <= i < |born| && born[i] == t;
            assert MadeAt(ops, live[i], t);
            assert Nos(live)[i] == live[i].no && Nos(live)[k] == no;
          }
        } else if t in born {
          var i :| 0 <= i < |born| && born[i] == t;
          assert MadeAt(ops, live[i], t);
        }
    }
  }

  lemma WithoutMembers(s: seq<nat>, k: nat, x: nat)
    requires k < |s| && forall i, j :: 0 <= i < j < |s| ==> s[i] < s[j]
    ensures x in Without(s, k) <==> x in s && x != s[k]
  {
    var r := Without(s, k);
    if x in s && x != s[k] {
      var i :| 0 <= i < |s| && s[i] == x;
      assert r[if i < k then i else i - 1] == x;
    }
    if x in r {
      var m :| 0 <= m < |r| && r[m] == x;
      assert s[if m < k then m else m + 1] == x;
    }
  }
}
