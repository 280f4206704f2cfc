/** What a fork gives the two processes: the parent a child that it can wait for, the child the parent's files. */
module Children {
  import opened Signals
  import opened SignalTheorems
  import opened Reaping

  /** Every process whose parent lives is on its parent's list. */
  ghost predicate Known(s: State) {
    forall c :: c in s.table && c != s.table[c].parent && Live(s, s.table[c].parent) ==>
      c in s.table[s.table[c].parent].children
  }

  /** The identifier that a fork issues is not that of a parent which some process has outlived. */
  ghost predicate Unclaimed(s: State, child: nat) {
    forall c :: c in s.table ==> s.table[c].parent != child
  }

  /** A fork keeps every child on its parent's list exactly if no process has outlived an earlier one with the
      identifier it issues. */
  lemma ForkKnown(s: State, parent: nat, child: nat)
    requires Known(s) && Enabled(s, Fork(parent, child))
    ensures Known(Step(s, Fork(parent, child))) <==> Unclaimed(s, child)
  {
    var t := Step(s, Fork(parent, child));
    if !Unclaimed(s, child) {
      var c :| c in s.table && s.table[c].parent == child;
      assert c in t.table && t.table[c].parent == child && Live(t, child);
    }
  }

  lemma KnownKept(s: State, t: State)
    requires Known(s) && Kin(s, t)
    ensures Known(t)
  {
  }

  ghost predicate AllUnclaimed(s: State, es: seq<Event>)
    requires CanRun(s, es)
    decreases |es|
  {
    es == [] || ((es[0].Fork? ==> Unclaimed(s, es[0].child)) && AllUnclaimed(Step(s, es[0]), es[1..]))
  }

  ghost predicate AlwaysKnown(s: State, es: seq<Event>)
    requires CanRun(s, es)
    decreases |es|
  {
    Known(s) && (es == [] || AlwaysKnown(Step(s, es[0]), es[1..]))
  }

  /** Every child is on its parent's list in all states of a run exactly if no fork issues the identifier of an
      earlier parent that was outlived. */
  lemma {:induction false} RunKnown(s: State, es: seq<Event>)
    requires Known(s) && CanRun(s, es)
    ensures AlwaysKnown(s, es) <==> AllUnclaimed(s, es)
    ensures AllUnclaimed(s, es) ==> Known(Run(s, es))
    decreases |es|
  {
    hide Known, Unclaimed;
    if es != [] {
      var t := Step(s, es[0]);
      if es[0].Fork? {
        ForkKnown(s, es[0].parent, es[0].child);
      } else {
        StepKin(s, es[0]);
        KnownKept(s, t);
      }
      if Known(t) {
        RunKnown(t, es[1..]);
      }
    }
  }

  /** An ended child of a running process is on the list of ended ones. */
  lemma EndedIsListed(s: State, c: nat)
    requires Inv(s) && Own(s) && Ending(s.table, c) && Running(s, s.table[c].parent)
    ensures c in s.happened
  {
    assert Outstanding(s)[c] == 1;
    forall w | w in s.waits && !Asleep(s.table, w.pid) && w.pids != []
      ensures w.pids[0] != c
    {
      assert WaitOk(s, w);
      assert w.pids[0] in w.pids;
    }
    NoneResolved(s.waits, s.table, c);
  }

  lemma {:induction false} NoneResolved(waits: seq<Wait>, table: Table, c: nat)
    requires forall w :: w in waits && !Asleep(table, w.pid) && w.pids != [] ==> w.pids[0] != c
    ensures Resolved(waits, table)[c] == 0
  {
    if waits != [] {
      assert waits[0] in waits;
      NoneResolved(waits[1..], table, c);
    }
  }

  /** A process is handed a child of its own that has ended: at once and with its status when it asks for that one,
      and it is handed some child when it asks for any. */
  lemma ChildIsHanded(s: State, c: nat)
    requires Inv(s) && Own(s) && Known(s) && Ending(s.table, c)
    requires var p := s.table[c].parent; Running(s, p)
    ensures var p := s.table[c].parent;
      && (c > 0 ==> Waited(s, p, c).1 == Value(c, s.table[c].code))
      && Waited(s, p, -1).1.Value? && Waited(s, p, -1).1.ret >= 0
  {
    var p := s.table[c].parent;
    EndedIsListed(s, c);
    assert c in s.table[p].children;
    var all := WaitList(s.table[p], -1);
    assert c in all && all != [];
    assert FirstEnded(s.happened, all) < |s.happened|;
    if c > 0 {
      var one := WaitList(s.table[p], c);
      assert one == [c];
      assert FirstEnded(s.happened, one) < |s.happened|;
    }
  }

  /** A parent that sleeps in a wait for a child is woken when that child ends. */
  lemma ExitWakesParent(s: State, pid: nat, code: int, w: Wait)
    requires Inv(s) && Own(s) && Running(s, pid) && w in s.waits && pid in w.pids
    ensures w.pid == s.table[pid].parent && !Asleep(Step(s, Exit(pid, code)).table, w.pid)
  {
    assert WaitOk(s, w);
    ExitReachesParent(s, pid);
  }

  lemma BootStarts(init: nat, devices: map<int, nat>)
    ensures Own(Boot(init, devices)) && Known(Boot(init, devices))
  {
  }

  /** From the first process on, a run that issues no identifier which is still listed, or still the parent of
      another process, leaves every ended child of a running process for its parent. */
  lemma RunHands(init: nat, devices: map<int, nat>, es: seq<Event>, c: nat)
    requires CanRun(Boot(init, devices), es)
    requires Unshared(Boot(init, devices), es) && AllUnclaimed(Boot(init, devices), es)
    ensures var s := Run(Boot(init, devices), es);
      Ending(s.table, c) && Running(s, s.table[c].parent) ==>
        && (c > 0 ==> Waited(s, s.table[c].parent, c).1 == Value(c, s.table[c].code))
        && Waited(s, s.table[c].parent, -1).1.Value? && Waited(s, s.table[c].parent, -1).1.ret >= 0
  {
    hide Known, Own, Unshared, AllUnclaimed, AlwaysKnown, Throughout, Inv, Running, Waited;
    var b := Boot(init, devices);
    var s := Run(b, es);
    BootStarts(init, devices);
    BootRunKeeps(init, devices, es);
    RunOwn(b, es);
    RunKnown(b, es);
    if Ending(s.table, c) && Running(s, s.table[c].parent) {
      ChildIsHanded(s, c);
    }
  }

  // ---------- the child's files ----------

  lemma {:induction false} SameAnswers(p: Process, q: Process, fds: seq<Request>, ready: map<nat, set<Flag>>)
    requires p.devices == q.devices
    ensures ReadyCount(p, fds, ready) == ReadyCount(q, fds, ready) && Revents(p, fds, ready) == Revents(q, fds, ready)
  {
    if fds != [] {
      SameAnswers(p, q, fds[1..], ready);
    }
  }

  lemma {:induction false} SamePolls(p: Process, q: Process, x: nat, y: nat, fds: seq<Request>, ready: map<nat, set<Flag>>, timeout: int, clock: nat)
    requires p.devices == q.devices
    ensures |Registered(p, x, fds, ready, timeout, clock)| == |Registered(q, y, fds, ready, timeout, clock)|
  {
    if fds != [] {
      SamePolls(p, q, x, y, fds[1..], ready, timeout, clock);
    }
  }

  /** After a fork a poll of the child answers as the parent's would have. */
  lemma ForkedPoll(s: State, parent: nat, child: nat, fds: seq<Request>, ready: map<nat, set<Flag>>, timeout: int)
    requires Enabled(s, Fork(parent, child))
    ensures var t := Step(s, Fork(parent, child));
      && child in t.table && Polled(t, child, fds, ready, timeout).1 == Polled(s, parent, fds, ready, timeout).1
      && Revents(t.table[child], fds, ready) == Revents(s.table[parent], fds, ready)
      && forall fd: int :: DeviceOf(t.table, child, fd) == DeviceOf(s.table, parent, fd)
  {
    var t := Step(s, Fork(parent, child));
    SameAnswers(s.table[parent], t.table[child], fds, ready);
    SamePolls(s.table[parent], t.table[child], parent, child, fds, ready, timeout, s.clock);
  }
}
