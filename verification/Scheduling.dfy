/** The round-robin scheduler. */
module Scheduling {
  import opened ProcessTable

  predicate Ready(s: Status) { s == Runnable || s == Active }

  /** The position `k` steps after another, wrapping at the end of the table. */
  function Step(i: nat, k: nat, n: nat): (j: nat)
    requires i < n && k <= n
    ensures j < n
  {
    if i + k < n then i + k else i + k - n
  }

  /** The position the scheduler goes to: the first ready one after the current one, around the table. */
  ghost predicate IsNext(st: seq<Status>, i: nat, j: nat)
    requires i < |st|
  {
    exists k :: 1 <= k <= |st| && j == Step(i, k, |st|) && Ready(st[j]) && forall l :: 1 <= l < k ==> !Ready(st[Step(i, l, |st|)])
  }

  /** How many positions behind another, at least one. */
  function Distance(i: nat, q: nat, n: nat): (d: nat)
    requires i < n && q < n
    ensures 1 <= d <= n && Step(i, d, n) == q
  {
    if q > i then q - i else q - i + n
  }

  /** The statuses after a switch: the old process gives the processor up, the new one has it. */
  function Switched(st: seq<Status>, i: nat, j: nat): seq<Status>
    requires i < |st| && j < |st|
  {
    if st[j] == Active then st else st[i := if st[i] == Active then Runnable else st[i]][j := Active]
  }

  /** Nobody but the current process is active. */
  ghost predicate OneActive(st: seq<Status>, i: nat) {
    forall k :: 0 <= k < |st| && st[k] == Active ==> k == i
  }

  /** After a call the current process is active, and no other. */
  lemma OneIsActive(st: seq<Status>, i: nat, j: nat)
    requires i < |st| && OneActive(st, i) && IsNext(st, i, j)
    ensures OneActive(Switched(st, i, j), j) && Switched(st, i, j)[j] == Active
  {
  }

  /** What a switch does to each process: it goes to one that can run; the one left can run again if it was running, the new one runs, all
      others are as they were; so whoever could run still can. */
  ghost predicate Yields(before: seq<Status>, after: seq<Status>, i: nat, j: nat)
    requires i < |before| && j < |before|
  {
    && |after| == |before| && before[j] in {Active, Runnable} && after[j] == Active
    && (i != j ==> after[i] == if before[i] == Active then Runnable else before[i])
    && (forall k :: 0 <= k < |before| && k != i && k != j ==> after[k] == before[k])
    && (forall k :: 0 <= k < |before| && before[k] in {Active, Runnable} ==> after[k] in {Active, Runnable})
  }

  lemma SwitchedYields(st: seq<Status>, i: nat, j: nat)
    requires i < |st| && j < |st| && Ready(st[j]) && OneActive(st, i)
    ensures Yields(st, Switched(st, i, j), i, j)
  {
  }

  /** A call does not pass over a ready process: it goes to it or comes nearer. */
  lemma ComesNearer(st: seq<Status>, i: nat, j: nat, q: nat)
    requires i < |st| && q < |st| && st[q] in {Active, Runnable} && IsNext(st, i, j)
    ensures j == q || Distance(j, q, |st|) < Distance(i, q, |st|)
  {
    var k :| 1 <= k <= |st| && j == Step(i, k, |st|) && Ready(st[j]) && forall l :: 1 <= l < k ==> !Ready(st[Step(i, l, |st|)]);
    assert k <= Distance(i, q, |st|);
  }

  /** A run of calls: before each, the statuses are whatever the processes made them, and `at` lists the
      positions of the current process, the first one included. */
  ghost predicate IsRun(env: seq<seq<Status>>, at: seq<nat>, n: nat) {
    && |at| == |env| + 1
    && (forall k :: 0 <= k < |env| ==> |env[k]| == n)
    && (forall k :: 0 <= k < |at| ==> at[k] < n)
    && (forall k, l :: 0 <= k < |env| && l == k + 1 ==> IsNext(env[k], at[k], at[l]))
  }

  /** A process that is ready at every call is reached within its distance, from any call on. */
  lemma {:induction false} Reached(env: seq<seq<Status>>, at: seq<nat>, n: nat, q: nat, from: nat) returns (k: nat)
    requires q < n && IsRun(env, at, n) && from <= |env| && |env| - from >= Distance(at[from], q, n)
    requires forall k :: 0 <= k < |env| ==> env[k][q] in {Active, Runnable}
    ensures from < k <= from + Distance(at[from], q, n) && k < |at| && at[k] == q
    decreases |env| - from
  {
    ComesNearer(env[from], at[from], at[from + 1], q);
    if at[from + 1] == q {
      k := from + 1;
    } else {
      k := Reached(env, at, n, q, from + 1);
    }
  }

  /** Bounded waiting: in a table of `n` processes, one that is ready at every call is scheduled within
      `n` calls, whatever the statuses of the others are. */
  lemma BoundedWaiting(env: seq<seq<Status>>, at: seq<nat>, n: nat, q: nat)
    requires q < n <= |env| && IsRun(env, at, n) && forall k :: 0 <= k < |env| ==> env[k][q] in {Active, Runnable}
    ensures q in at[1..n + 1]
  {
    var k := Reached(env, at, n, q, 0);
    assert at[1..n + 1][k - 1] == q;
  }

  ghost function Statuses(ps: seq<Proc>): (st: seq<Status>)
    ensures |st| == |ps| && forall i :: 0 <= i < |ps| ==> st[i] == ps[i].status
  {
    seq(|ps|, i requires 0 <= i < |ps| => ps[i].status)
  }

  class RoundRobin {
    const tab: ProcTable
    var current: nat

    constructor (tab: ProcTable)
      ensures this.tab == tab && current == 1
    {
      this.tab, current := tab, 1;
    }

    /** The position of the current process. */
    method Find() returns (i: nat)
      requires Sorted(tab.procs) && Has(tab.procs, current)
      ensures i < |tab.procs| && tab.procs[i].pid == current
    {
      i := 0;
      while tab.procs[i].pid != current
        invariant i < |tab.procs| && forall k :: 0 <= k < i ==> tab.procs[k].pid != current
        decreases |tab.procs| - i
      {
        i := i + 1;
      }
    }

    /** Swap the current process out and another one in, unless that one is active already. */
    method Switch(at: nat, it: nat)
      requires at < |tab.procs| && it < |tab.procs| && Sorted(tab.procs) && tab.procs[at].pid == current
      requires tab.procs[it].status == Active ==> it == at
      modifies `current, tab`procs
      ensures |tab.procs| == |old(tab.procs)| && current == tab.procs[it].pid && Sorted(tab.procs)
      ensures forall k :: 0 <= k < |tab.procs| ==> tab.procs[k].pid == old(tab.procs)[k].pid
      ensures Statuses(tab.procs) == Switched(Statuses(old(tab.procs)), at, it)
    {
      if tab.procs[it].status != Active {
        if tab.procs[at].status == Active {
          tab.procs := tab.procs[at := tab.procs[at].(status := Runnable)];
        }
        current := tab.procs[it].pid;
        tab.procs := tab.procs[it := tab.procs[it].(status := Active)];
      }
    }

    /** Switch to the next ready process. One is ready: the search has no end otherwise. */
    method NextProc(ghost i: nat) returns (ghost j: nat)
      requires tab.Valid() && i < |tab.procs| && tab.procs[i].pid == current
      requires exists k :: 0 <= k < |tab.procs| && Ready(tab.procs[k].status)
      requires OneActive(Statuses(tab.procs), i)
      modifies `current, tab`procs
      ensures tab.Valid() && |tab.procs| == |old(tab.procs)| && j < |tab.procs|
      ensures IsNext(Statuses(old(tab.procs)), i, j) && current == tab.procs[j].pid
      ensures forall k :: 0 <= k < |tab.procs| ==> tab.procs[k].pid == old(tab.procs)[k].pid
      ensures Statuses(tab.procs) == Switched(Statuses(old(tab.procs)), i, j)
      ensures OneActive(Statuses(tab.procs), j) && tab.procs[j].status == Active
      ensures Yields(Statuses(old(tab.procs)), Statuses(tab.procs), i, j)
    {
      hide Sorted, IsNext, OneActive, Switched, Yields;
      var at := Find();
      OnePlace(tab.procs, at, i);
      var n := |tab.procs|;
      ghost var st := Statuses(tab.procs);
      ghost var r :| 0 <= r < n && Ready(st[r]);
      var it := if at + 1 == n then 0 else at + 1;
      ghost var k := 1;
      while !Ready(tab.procs[it].status)
        invariant 1 <= k <= Distance(at, r, n) && it == Step(at, k, n)
        invariant forall l :: 1 <= l < k ==> !Ready(st[Step(at, l, n)])
        decreases n - k
      {
        it := it + 1;
        if it == n {
          it := 0;
        }
        k := k + 1;
      }
      j := it;
      NextFound(st, at, k, it);
      OneIsActive(st, at, it);
      SwitchedYields(st, at, it);
      assert tab.procs[it].status == Active ==> it == at by {
        ActiveIs(st, at, it);
      }
      Switch(at, it);
    }
  }

  lemma NextFound(st: seq<Status>, i: nat, k: nat, j: nat)
    requires i < |st| && 1 <= k <= |st| && j == Step(i, k, |st|) && Ready(st[j])
    requires forall l :: 1 <= l < k ==> !Ready(st[Step(i, l, |st|)])
    ensures IsNext(st, i, j)
  {
  }

  lemma ActiveIs(st: seq<Status>, i: nat, j: nat)
    requires OneActive(st, i) && j < |st|
    ensures st[j] == Active ==> j == i
  {
  }

  lemma OnePlace(ps: seq<Proc>, i: nat, j: nat)
    requires Sorted(ps) && i < |ps| && j < |ps| && ps[i].pid == ps[j].pid
    ensures i == j
  {
  }
}
