/** Who is handed an ended child: its own parent, unless a process identifier was issued again while the
    list of another process still held it. */
module Reaping {
  import opened Signals
  import opened SignalTheorems

  predicate Live(s: State, p: nat) {
    p in s.table && s.table[p].status != Zombie
  }

  /** The processes that a live process lists as its children have it as their parent, if they exist. */
  ghost predicate Own(s: State) {
    forall p, c :: Live(s, p) && c in s.table[p].children && c in s.table ==> s.table[c].parent == p
  }

  /** No live process other than the parent still lists the identifier that a fork issues. */
  ghost predicate Unlisted(s: State, parent: nat, child: nat) {
    forall q :: Live(s, q) && q != parent ==> child !in s.table[q].children
  }

  /** The wait hands its caller a child of another process. */
  ghost predicate Misdelivers(s: State, e: Event) {
    Enabled(s, e) &&
    match e
    case WaitCall(pid, which) =>
      var r := Waited(s, pid, which).1;
      r.Value? && r.ret >= 0 && r.ret in s.table && s.table[r.ret].parent != pid
    case WaitResume(pid) =>
      var i := WaitOf(s.waits, pid);
      && i < |s.waits| && s.waits[i].pids != []
      && var r := Resumed(s, pid).1;
         r.ret in s.table && s.table[r.ret].parent != pid
    case _ => false
  }

  // ---------- runs that never issue a listed identifier ----------

  /** A step that brings no new process leaves who lists whom, and whose child each process is. */
  ghost predicate Kin(s: State, t: State) {
    forall p :: p in t.table ==>
      && p in s.table && t.table[p].children == s.table[p].children && t.table[p].parent == s.table[p].parent
      && t.table[p].devices == s.table[p].devices && (Live(t, p) ==> Live(s, p))
  }

  lemma StepKin(s: State, e: Event)
    requires Enabled(s, e) && !e.Fork?
    ensures Kin(s, Step(s, e))
  {
    hide Notified, Ticked, SomeWoken, Polled, Waited, Ended, Resumed, Collected, Kin;
    match e
    case FileEvent(dev, ev) =>
      NotifiedIs(s.polls, s.table, dev, ev);
      WokenKin(s, Step(s, e));
    case Tick(tick) =>
      TickedIs(s.polls, s.table, tick);
      WokenKin(s, Step(s, e));
    case Switch(pid) => SwitchKin(s, pid);
    case Exit(pid, code) => EndedKin(s, pid, code);
    case PollCall(pid, fds, ready, timeout) => PolledKin(s, pid, fds, ready, timeout);
    case PollResume(pid) => SameKin(s, Step(s, e));
    case WaitCall(pid, which) => WaitedKin(s, pid, which);
    case WaitResume(pid) =>
      var i := WaitOf(s.waits, pid);
      if i < |s.waits| && s.waits[i].pids != [] {
        ResumedKin(s, pid);
      } else {
        SameKin(s, s);
      }
  }

  lemma SameKin(s: State, t: State)
    requires t.table == s.table
    ensures Kin(s, t)
  {
  }

  lemma WokenKin(s: State, t: State)
    requires SomeWoken(s.table, t.table)
    ensures Kin(s, t)
  {
  }

  lemma SwitchKin(s: State, pid: nat)
    requires Enabled(s, Switch(pid))
    ensures Kin(s, Step(s, Switch(pid)))
  {
  }

  lemma EndedKin(s: State, pid: nat, code: int)
    requires Live(s, pid)
    ensures Kin(s, Ended(s, pid, code))
  {
  }

  lemma PolledKin(s: State, pid: nat, fds: seq<Request>, ready: map<nat, set<Flag>>, timeout: int)
    requires Live(s, pid)
    ensures Kin(s, Polled(s, pid, fds, ready, timeout).0)
  {
    hide Registered, ReadyCount, Without;
  }

  lemma CollectedKin(s: State, c: nat)
    ensures Kin(s, Collected(s, c))
  {
  }

  lemma WaitedKin(s: State, pid: nat, which: int)
    requires Live(s, pid)
    ensures Kin(s, Waited(s, pid, which).0)
  {
    hide Collected, WaitList;
    var i := FirstEnded(s.happened, WaitList(s.table[pid], which));
    if i < |s.happened| {
      CollectedKin(s.(happened := RemoveAt(s.happened, i)), s.happened[i]);
    }
  }

  lemma ResumedKin(s: State, pid: nat)
    requires WaitOf(s.waits, pid) < |s.waits| && s.waits[WaitOf(s.waits, pid)].pids != []
    ensures Kin(s, Resumed(s, pid).0)
  {
    hide Collected;
    var i := WaitOf(s.waits, pid);
    CollectedKin(s.(waits := RemoveAt(s.waits, i)), s.waits[i].pids[0]);
  }

  lemma OwnKept(s: State, t: State)
    requires Own(s) && Kin(s, t)
    ensures Own(t)
  {
  }

  /** A fork keeps the lists right exactly if no other live process lists the identifier it issues. */
  lemma ForkOwn(s: State, parent: nat, child: nat)
    requires Own(s) && Enabled(s, Fork(parent, child))
    ensures Own(Step(s, Fork(parent, child))) <==> Unlisted(s, parent, child)
  {
    var t := Step(s, Fork(parent, child));
    if !Unlisted(s, parent, child) {
      var q :| Live(s, q) && q != parent && child in s.table[q].children;
      assert Live(t, q) && child in t.table[q].children && t.table[child].parent == parent;
    }
  }

  /** Every fork of the run issues an identifier that no other live process lists. */
  ghost predicate Unshared(s: State, es: seq<Event>)
    requires CanRun(s, es)
    decreases |es|
  {
    es == [] || ((es[0].Fork? ==> Unlisted(s, es[0].parent, es[0].child)) && Unshared(Step(s, es[0]), es[1..]))
  }

  ghost predicate Throughout(s: State, es: seq<Event>)
    requires CanRun(s, es)
    decreases |es|
  {
    Own(s) && (es == [] || Throughout(Step(s, es[0]), es[1..]))
  }

  /** The lists are right in all states of a run exactly if no fork issues a listed identifier. */
  lemma {:induction false} RunOwn(s: State, es: seq<Event>)
    requires Own(s) && CanRun(s, es)
    ensures Throughout(s, es) <==> Unshared(s, es)
    ensures Unshared(s, es) ==> Own(Run(s, es))
    decreases |es|
  {
    hide Own, Unlisted;
    if es != [] {
      var t := Step(s, es[0]);
      if es[0].Fork? {
        ForkOwn(s, es[0].parent, es[0].child);
      } else {
        StepKin(s, es[0]);
        OwnKept(s, t);
      }
      if Own(t) {
        RunOwn(t, es[1..]);
      }
    }
  }

  /** While the lists are right, every wait hands its caller one of its own children. */
  lemma OwnDelivers(s: State, e: Event)
    requires Inv(s) && Own(s)
    ensures !Misdelivers(s, e)
  {
    if Enabled(s, e) {
      match e
      case WaitCall(pid, which) => WaitReply(s, pid, which);
      case WaitResume(pid) => WaitResumeReply(s, pid);
      case _ =>
    }
  }

  /** And every exit that is handed on at once goes to the parent. */
  lemma ExitReachesParent(s: State, pid: nat)
    requires Inv(s) && Own(s) && Running(s, pid) && WaitFor(s.waits, pid) < |s.waits|
    ensures s.waits[WaitFor(s.waits, pid)].pid == s.table[pid].parent
  {
    assert WaitOk(s, s.waits[WaitFor(s.waits, pid)]);
  }

  /** From the first process on, no wait of a run without shared identifiers hands out another's child. */
  lemma RunDelivers(init: nat, devices: map<int, nat>, es: seq<Event>, e: Event)
    requires CanRun(Boot(init, devices), es) && Unshared(Boot(init, devices), es)
    ensures !Misdelivers(Run(Boot(init, devices), es), e)
  {
    BootRunKeeps(init, devices, es);
    RunOwn(Boot(init, devices), es);
    OwnDelivers(Run(Boot(init, devices), es), e);
  }
}
