/** When a wait answers, and with which exit status. */
module WaitReplies {
  import opened Signals
  import opened SignalTheorems
  import opened Reaping

  /** The processes that a wait call is for. */
  predicate AsksFor(process: Process, which: int, c: nat) {
    c in process.children && (which == -1 || (which > 0 && which == c))
  }

  /** A wait call answers at once with the first process on the list of ended ones that it is for; if none of those
      is there it blocks, and if it is for none it fails. */
  lemma WaitCallReply(s: State, pid: nat, which: int)
    requires pid in s.table
    ensures var process, t, reply := s.table[pid], Waited(s, pid, which).0, Waited(s, pid, which).1;
      if !exists c: nat :: AsksFor(process, which, c) then reply == Value(-1, 0) && t == s
      else if exists i :: 0 <= i < |s.happened| && AsksFor(process, which, s.happened[i]) then
        exists i :: 0 <= i < |s.happened| && AsksFor(process, which, s.happened[i])
          && (forall j :: 0 <= j < i ==> !AsksFor(process, which, s.happened[j]))
          && reply.Value? && reply.ret == s.happened[i]
      else
        && reply == Blocked && t.table == s.table[pid := process.(status := Sleeping)] && |t.waits| == |s.waits| + 1
        && t.waits[..|s.waits|] == s.waits && t.waits[|s.waits|].pid == pid
        && forall c :: c in t.waits[|s.waits|].pids <==> AsksFor(process, which, c)
  {
    var process := s.table[pid];
    var pids := WaitList(process, which);
    assert forall c: nat :: c in pids <==> AsksFor(process, which, c);
    hide WaitList, AsksFor, Collected;
    if pids != [] {
      assert pids[0] in pids;
      var i := FirstEnded(s.happened, pids);
      assert i < |s.happened| ==> AsksFor(process, which, s.happened[i]);
    }
  }

  /** The status that a process last ended with, if it did in the run. */
  datatype LastStatus = NoExit | WithCode(code: int)

  function LastExit(es: seq<Event>, c: nat): LastStatus {
    if es == [] then NoExit
    else if es[|es| - 1].Exit? && es[|es| - 1].pid == c then WithCode(es[|es| - 1].code)
    else LastExit(es[..|es| - 1], c)
  }

  /** A step other than its exit makes no process an ended one, and keeps the status of those that are. */
  ghost predicate SameCodes(s: State, t: State, but: int) {
    forall c :: c in t.table && c != but && t.table[c].status == Zombie ==>
      c in s.table && s.table[c].status == Zombie && t.table[c].code == s.table[c].code
  }

  lemma StepCodes(s: State, e: Event)
    requires Enabled(s, e)
    ensures SameCodes(s, Step(s, e), if e.Exit? then e.pid else -1)
    ensures e.Exit? ==> e.pid in Step(s, e).table && Step(s, e).table[e.pid].code == e.code
  {
    hide Notified, Ticked, SomeWoken, Polled, Waited, Ended, Resumed, Collected, SameCodes;
    match e
    case FileEvent(dev, ev) =>
      NotifiedIs(s.polls, s.table, dev, ev);
      WokenCodes(s, Step(s, e));
    case Tick(tick) =>
      TickedIs(s.polls, s.table, tick);
      WokenCodes(s, Step(s, e));
    case Switch(pid) => SwitchCodes(s, pid);
    case Fork(parent, child) => ForkCodes(s, parent, child);
    case Exit(pid, code) => EndedCodes(s, pid, code);
    case PollCall(pid, fds, ready, timeout) => PolledCodes(s, pid, fds, ready, timeout);
    case PollResume(pid) => EqualCodes(s, Step(s, e));
    case WaitCall(pid, which) => WaitedCodes(s, pid, which);
    case WaitResume(pid) =>
      var i := WaitOf(s.waits, pid);
      if i < |s.waits| && s.waits[i].pids != [] {
        ResumedCodes(s, pid);
      } else {
        EqualCodes(s, s);
      }
  }

  lemma EqualCodes(s: State, t: State)
    requires t.table == s.table
    ensures SameCodes(s, t, -1)
  {
  }

  lemma WokenCodes(s: State, t: State)
    requires SomeWoken(s.table, t.table)
    ensures SameCodes(s, t, -1)
  {
  }

  lemma SwitchCodes(s: State, pid: nat)
    requires Enabled(s, Switch(pid))
    ensures SameCodes(s, Step(s, Switch(pid)), -1)
  {
  }

  lemma ForkCodes(s: State, parent: nat, child: nat)
    requires Enabled(s, Fork(parent, child))
    ensures SameCodes(s, Step(s, Fork(parent, child)), -1)
  {
  }

  lemma EndedCodes(s: State, pid: nat, code: int)
    requires Live(s, pid)
    ensures SameCodes(s, Ended(s, pid, code), pid)
    ensures pid in Ended(s, pid, code).table && Ended(s, pid, code).table[pid].code == code
  {
  }

  lemma PolledCodes(s: State, pid: nat, fds: seq<Request>, ready: map<nat, set<Flag>>, timeout: int)
    requires Live(s, pid)
    ensures SameCodes(s, Polled(s, pid, fds, ready, timeout).0, -1)
  {
    hide Registered, ReadyCount, Without;
  }

  lemma CollectedCodes(s: State, c: nat)
    ensures SameCodes(s, Collected(s, c), -1)
  {
  }

  lemma WaitedCodes(s: State, pid: nat, which: int)
    requires Live(s, pid)
    ensures SameCodes(s, Waited(s, pid, which).0, -1)
  {
    hide Collected, WaitList;
    var i := FirstEnded(s.happened, WaitList(s.table[pid], which));
    if i < |s.happened| {
      CollectedCodes(s.(happened := RemoveAt(s.happened, i)), s.happened[i]);
    }
  }

  lemma ResumedCodes(s: State, pid: nat)
    requires WaitOf(s.waits, pid) < |s.waits| && s.waits[WaitOf(s.waits, pid)].pids != []
    ensures SameCodes(s, Resumed(s, pid).0, -1)
  {
    hide Collected;
    var i := WaitOf(s.waits, pid);
    CollectedCodes(s.(waits := RemoveAt(s.waits, i)), s.waits[i].pids[0]);
  }

  lemma {:induction false} RunSplit(s: State, es: seq<Event>)
    requires CanRun(s, es) && es != []
    ensures var front := es[..|es| - 1];
      CanRun(s, front) && Enabled(Run(s, front), es[|es| - 1]) && Run(s, es) == Step(Run(s, front), es[|es| - 1])
    decreases |es|
  {
    if |es| == 1 {
      assert es[..0] == [] && es[1..] == [];
    } else {
      RunSplit(Step(s, es[0]), es[1..]);
      assert es[1..][..|es| - 2] == es[..|es| - 1][1..];
    }
  }

  /** In every state of a run from the first process, the status kept for an ended process is that of its last
      exit. */
  lemma {:induction false} CodesAreExits(init: nat, devices: map<int, nat>, es: seq<Event>, c: nat)
    requires CanRun(Boot(init, devices), es)
    ensures var t := Run(Boot(init, devices), es).table;
      c in t && t[c].status == Zombie ==> LastExit(es, c) == WithCode(t[c].code)
    decreases |es|
  {
    var b := Boot(init, devices);
    if es != [] {
      var front, e := es[..|es| - 1], es[|es| - 1];
      RunSplit(b, es);
      CodesAreExits(init, devices, front, c);
      hide Step, Run, CanRun, Enabled;
      StepCodes(Run(b, front), e);
    }
  }

  /** So what a wait hands over is the status that the process gave with its exit. */
  lemma WaitHandsExit(init: nat, devices: map<int, nat>, es: seq<Event>, pid: nat, which: int)
    requires CanRun(Boot(init, devices), es)
    ensures var s := Run(Boot(init, devices), es);
      && (Enabled(s, WaitCall(pid, which)) ==>
            var r := Waited(s, pid, which).1; r.Value? && r.ret != -1 ==> r.ret >= 0 && LastExit(es, r.ret) == WithCode(r.code))
      && (Enabled(s, WaitResume(pid)) ==>
            var i := WaitOf(s.waits, pid);
            && i < |s.waits| && s.waits[i].pids != []
            && var r := Resumed(s, pid).1; r.ret >= 0 && LastExit(es, r.ret) == WithCode(r.code))
  {
    var s := Run(Boot(init, devices), es);
    BootRunKeeps(init, devices, es);
    if Enabled(s, WaitCall(pid, which)) {
      WaitReply(s, pid, which);
      var r := Waited(s, pid, which).1;
      if r.Value? && r.ret != -1 {
        CodesAreExits(init, devices, es, r.ret);
      }
    }
    if Enabled(s, WaitResume(pid)) {
      WaitResumeReply(s, pid);
      CodesAreExits(init, devices, es, Resumed(s, pid).1.ret);
    }
  }
}
