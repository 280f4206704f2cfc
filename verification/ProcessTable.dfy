/** The process table: process identifiers in order, as an ordered map keeps them. */
module ProcessTable {

  const MAX_PID: nat := 32768

  datatype Status = Active | Runnable | Sleeping | Zombie

  datatype Proc = Proc(pid: nat, status: Status)

  ghost predicate Sorted(ps: seq<Proc>) {
    forall i, j :: 0 <= i < j < |ps| ==> ps[i].pid < ps[j].pid
  }

  predicate Has(ps: seq<Proc>, pid: nat) {
    exists i :: 0 <= i < |ps| && ps[i].pid == pid
  }

  /** The identifier `k` steps after another, wrapping from the largest to 1. */
  function After(pid: nat, k: nat): (q: nat)
    requires pid > 0
    ensures 1 <= q < MAX_PID
  {
    (pid - 1 + k) % (MAX_PID - 1) + 1
  }

  /** Every identifier comes up within one round. */
  lemma AfterReaches(pid: nat, q: nat) returns (k: nat)
    requires 1 <= pid < MAX_PID && 1 <= q < MAX_PID
    ensures 1 <= k < MAX_PID && After(pid, k) == q
  {
    k := if q > pid then q - pid else q - pid + (MAX_PID - 1);
  }

  lemma Steps(pid: nat, k: nat)
    requires 1 <= pid < MAX_PID && k < MAX_PID
    ensures After(pid, k + 1) == if After(pid, k) == MAX_PID - 1 then 1 else After(pid, k) + 1
    ensures After(pid, 0) == pid && (k > 0 ==> (After(pid, k) == pid <==> k == MAX_PID - 1))
  {
  }

  /** The first identifier after the last one given that no process has. */
  ghost predicate FirstFree(ps: seq<Proc>, last: nat, pid: nat)
    requires last > 0
  {
    !Has(ps, pid) && exists k :: 1 <= k < MAX_PID && pid == After(last, k) && forall l :: 1 <= l < k ==> Has(ps, After(last, l))
  }

  /** One process is added, and the others stay as they were. */
  ghost predicate Placed(ps: seq<Proc>, qs: seq<Proc>, p: Proc) {
    exists i :: 0 <= i <= |ps| && qs == ps[..i] + [p] + ps[i..]
  }

  class ProcTable {
    var procs: seq<Proc>
    var lastPid: nat

    ghost predicate Valid()
      reads this
    {
      Sorted(procs) && 1 <= lastPid < MAX_PID
    }

    constructor (status: Status)
      ensures Valid() && procs == [Proc(1, status)] && lastPid == 1
    {
      procs, lastPid := [Proc(1, status)], 1;
    }

    /** Whether a process is in the table. */
    method Count(pid: nat) returns (found: bool)
      ensures found <==> Has(procs, pid)
    {
      for i := 0 to |procs|
        invariant forall k :: 0 <= k < i ==> procs[k].pid != pid
      {
        if procs[i].pid == pid {
          return true;
        }
      }
      return false;
    }

    /** Put a process in its place. */
    method Place(p: Proc)
      requires Sorted(procs) && !Has(procs, p.pid)
      modifies `procs
      ensures Sorted(procs) && Placed(old(procs), procs, p)
    {
      var i := 0;
      while i < |procs| && procs[i].pid < p.pid
        invariant 0 <= i <= |procs| && forall k :: 0 <= k < i ==> procs[k].pid < p.pid
      {
        i := i + 1;
      }
      procs := procs[..i] + [p] + procs[i..];
    }

    /** Add a process under the first identifier after the last one given that is free; zero if none is. */
    method Insert(status: Status) returns (pid: nat)
      requires Valid()
      modifies `procs, `lastPid
      ensures Valid()
      ensures pid == 0 <==> forall q :: 1 <= q < MAX_PID ==> Has(old(procs), q)
      ensures pid == 0 ==> procs == old(procs) && lastPid == old(lastPid)
      ensures pid != 0 ==> lastPid == pid && FirstFree(old(procs), old(lastPid), pid)
      ensures pid != 0 ==> Placed(old(procs), procs, Proc(pid, status))
    {
      hide After, Sorted, Placed;
      Steps(lastPid, 0);
      var start := lastPid;
      if lastPid == MAX_PID - 1 {
        lastPid := 0;
      }
      lastPid := lastPid + 1;
      ghost var k := 1;
      var taken := Count(lastPid);
      while taken
        invariant procs == old(procs) && 1 <= lastPid < MAX_PID && 1 <= k < MAX_PID && lastPid == After(start, k)
        invariant taken <==> Has(procs, lastPid)
        invariant forall l :: 1 <= l < k ==> Has(procs, After(start, l))
        decreases MAX_PID - k, taken
      {
        Steps(start, k);
        if lastPid == start {
          forall q | 1 <= q < MAX_PID
            ensures Has(procs, q)
          {
            var l := AfterReaches(start, q);
          }
          return 0;
        } else if lastPid == MAX_PID - 1 {
          lastPid := 0;
        }
        lastPid := lastPid + 1;
        k := k + 1;
        taken := Count(lastPid);
      }
      Place(Proc(lastPid, status));
      return lastPid;
    }
  }
}
