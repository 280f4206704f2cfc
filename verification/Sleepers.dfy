/** Why a process sleeps, and which steps leave a process that waits for its children as it is. */
module Sleepers {
  import opened Signals
  import opened SignalTheorems
  import opened Reaping

  // ---------- why a process is asleep ----------

  ghost predicate HasPoll(s: State, x: nat) {
    exists p :: p in s.polls && p.pid == x
  }

  ghost predicate HasWait(s: State, x: nat) {
    exists w :: w in s.waits && w.pid == x
  }

  /** An event can fire every pending poll, and a sleeping process polls or waits. */
  ghost predicate Grounded(s: State) {
    && (forall p :: p in s.polls ==> DeviceOf(s.table, p.pid, p.req.fd) != 0 && p.req.events != {})
    && (forall x :: Asleep(s.table, x) ==> HasPoll(s, x) || HasWait(s, x))
  }

  /** What the answered halves of a wait leave. */
  lemma ResumedIs(s: State, pid: nat)
    requires Inv(s) && Enabled(s, WaitResume(pid))
    ensures var i := WaitOf(s.waits, pid);
      && i < |s.waits| && s.waits[i].pids != []
      && var (c, t) := (s.waits[i].pids[0], Step(s, WaitResume(pid)));
      && Ending(s.table, c) && c !in s.happened && t.table == s.table - {c}
      && t.waits == RemoveAt(s.waits, i) && t.happened == s.happened && t.clock == s.clock
      && (forall p :: p in t.polls <==> p in s.polls)
  {
    hide PollInv;
    var i := WaitOf(s.waits, pid);
    assert WaitOk(s, s.waits[i]);
    var t := s.(waits := RemoveAt(s.waits, i));
    TakenFromWait(s, i);
    OwnersListed(s);
    PollFrame(s, t);
    CollectedIs(t, s.waits[i].pids[0]);
  }

  lemma CollectedIs(s: State, c: nat)
    requires PollInv(s) && Leaving(s, c)
    ensures var t := Collected(s, c);
      && Ending(s.table, c) && c !in s.happened && t.table == s.table - {c}
      && t.waits == s.waits && t.happened == s.happened && t.clock == s.clock
      && (forall p :: p in t.polls <==> p in s.polls)
  {
    LeavingFacts(s, c);
    hide PollInv, Leaving;
    WithoutIs(s.polls, c);
    OthersIs(s.happened, c);
    WaitsOfOthersIs(s.waits, c);
  }

  /** The polls are those of before, or fewer, and who sleeps slept before and still has its reason. */
  lemma GroundedFrame(s: State, t: State)
    requires Grounded(s) && Kin(s, t)
    requires forall o :: o in t.polls ==> o.pid in t.table && exists p :: p in s.polls && p.pid == o.pid && p.req == o.req
    requires forall x :: Asleep(t.table, x) ==> Asleep(s.table, x)
    requires forall x :: Asleep(t.table, x) && HasPoll(s, x) ==> HasPoll(t, x)
    requires forall x :: Asleep(t.table, x) && HasWait(s, x) ==> HasWait(t, x)
    ensures Grounded(t)
  {
    hide HasPoll, HasWait;
  }

  lemma SwitchGrounded(s: State, pid: nat)
    requires Inv(s) && Grounded(s) && Enabled(s, Switch(pid))
    ensures Grounded(Step(s, Switch(pid)))
  {
    hide PollInv, WaitInv, Grounded, Kin;
    OwnersListed(s);
    SwitchKin(s, pid);
    GroundedFrame(s, Step(s, Switch(pid)));
  }

  lemma ForkGrounded(s: State, parent: nat, child: nat)
    requires Inv(s) && Grounded(s) && Enabled(s, Fork(parent, child))
    ensures Grounded(Step(s, Fork(parent, child)))
  {
    hide PollInv, WaitInv;
    RunningFacts(s, parent);
    var t := Step(s, Fork(parent, child));
    forall x | Asleep(t.table, x)
      ensures HasPoll(t, x) || HasWait(t, x)
    {
      assert Asleep(s.table, x);
      assert HasPoll(s, x) || HasWait(s, x);
    }
  }

  lemma ExitGrounded(s: State, pid: nat, code: int)
    requires Inv(s) && Grounded(s) && Running(s, pid)
    ensures Grounded(Step(s, Exit(pid, code)))
  {
    hide PollInv, WaitInv, Running, Kin, HasPoll;
    RunningFacts(s, pid);
    OwnersListed(s);
    EndedKin(s, pid, code);
    var i, t := WaitFor(s.waits, pid), Ended(s, pid, code);
    forall x | HasWait(s, x)
      ensures HasWait(t, x)
    {
      var w :| w in s.waits && w.pid == x;
      var j :| 0 <= j < |s.waits| && s.waits[j] == w;
      assert t.waits[j].pid == x;
    }
    SamePolls(s, t);
    GroundedFrame(s, t);
  }

  lemma SamePolls(s: State, t: State)
    requires forall p :: p in t.polls <==> p in s.polls
    ensures forall x :: HasPoll(t, x) <==> HasPoll(s, x)
  {
  }

  /** What a pending poll of a call asks for: an event of a device. */
  lemma {:induction false} RegisteredFires(process: Process, pid: nat, fds: seq<Request>, ready: map<nat, set<Flag>>, timeout: int, clock: nat)
    ensures forall p :: p in Registered(process, pid, fds, ready, timeout, clock) ==>
      p.pid == pid && p.req.fd in process.devices && process.devices[p.req.fd] != 0 && p.req.events != {}
  {
    if fds != [] {
      RegisteredFires(process, pid, fds[1..], ready, timeout, clock);
      if Answered(process, fds[0], ready).Pending? {
        var f :| f in fds[0].events * REQUESTABLE;
        assert f in fds[0].events;
      }
    }
  }

  lemma PollCallGrounded(s: State, pid: nat, fds: seq<Request>, ready: map<nat, set<Flag>>, timeout: int)
    requires Inv(s) && Grounded(s) && Running(s, pid)
    ensures Grounded(Polled(s, pid, fds, ready, timeout).0)
  {
    hide Registered, ReadyCount, PollInv, WaitInv, Running, Grounded, Kin, HasPoll;
    RunningFacts(s, pid);
    var t := Polled(s, pid, fds, ready, timeout).0;
    var added := Registered(s.table[pid], pid, fds, ready, timeout, s.clock);
    RegisteredFires(s.table[pid], pid, fds, ready, timeout, s.clock);
    if t.polls == s.polls + added && t.table != s.table {
      AddedGrounded(s, t, pid, added);
    } else if t != s {
      RegisteredIs(s.table[pid], pid, fds, ready, timeout, s.clock);
      WithoutIs(s.polls + added, pid);
      SamePolls(s, t);
      SameKin(s, t);
      GroundedFrame(s, t);
    }
  }

  lemma AddedGrounded(s: State, t: State, pid: nat, added: seq<Poll>)
    requires Grounded(s) && pid in s.table && added != []
    requires forall p :: p in s.polls ==> p.pid in s.table
    requires forall p :: p in added ==>
      p.pid == pid && p.req.fd in s.table[pid].devices && s.table[pid].devices[p.req.fd] != 0 && p.req.events != {}
    requires t == s.(polls := s.polls + added, table := s.table[pid := s.table[pid].(status := Sleeping)])
    ensures Grounded(t)
  {
    forall x | Asleep(t.table, x)
      ensures HasPoll(t, x) || HasWait(t, x)
    {
      if x == pid {
        assert added[0] in t.polls;
      } else if HasPoll(s, x) {
        var p :| p in s.polls && p.pid == x;
        assert p in t.polls;
      } else {
        assert HasWait(s, x);
      }
    }
  }

  lemma PollResumeGrounded(s: State, pid: nat)
    requires Inv(s) && Grounded(s) && Enabled(s, PollResume(pid))
    ensures Grounded(Step(s, PollResume(pid)))
  {
    hide PollInv, WaitInv, Grounded, Kin;
    OwnersListed(s);
    var t := Step(s, PollResume(pid));
    WithoutIs(s.polls, pid);
    SameKin(s, t);
    forall x | Asleep(t.table, x) && HasPoll(s, x)
      ensures HasPoll(t, x)
    {
      var p :| p in s.polls && p.pid == x;
      assert p in t.polls;
    }
    GroundedFrame(s, t);
  }

  lemma FileEventGrounded(s: State, dev: nat, ev: set<Flag>)
    requires Inv(s) && Grounded(s) && dev != 0
    ensures Grounded(Step(s, FileEvent(dev, ev)))
  {
    hide PollInv, WaitInv, Grounded, Kin, Notified, SomeWoken, AfterEvent;
    var t := Step(s, FileEvent(dev, ev));
    NotifiedIs(s.polls, s.table, dev, ev);
    WokenKin(s, t);
    WokenStatus(s.table, t.table);
    forall o | o in t.polls
      ensures o.pid in t.table && exists p :: p in s.polls && p.pid == o.pid && p.req == o.req
    {
      var p :| p in s.polls && p.pid in s.table && o == AfterEvent(s.table, p, dev, ev);
      EventKeepsRequest(s.table, p, dev, ev);
    }
    forall x | Asleep(t.table, x) && HasPoll(s, x)
      ensures HasPoll(t, x)
    {
      var p :| p in s.polls && p.pid == x;
      EventKeepsRequest(s.table, p, dev, ev);
      assert AfterEvent(s.table, p, dev, ev) in t.polls;
    }
    GroundedFrame(s, t);
  }

  lemma EventKeepsRequest(table: Table, p: Poll, dev: nat, ev: set<Flag>)
    ensures AfterEvent(table, p, dev, ev).pid == p.pid && AfterEvent(table, p, dev, ev).req == p.req
  {
  }

  lemma TickGrounded(s: State, tick: nat)
    requires Inv(s) && Grounded(s)
    ensures Grounded(Step(s, Tick(tick)))
  {
    hide PollInv, WaitInv, Grounded, Kin, Ticked, SomeWoken;
    var t := Step(s, Tick(tick));
    TickedIs(s.polls, s.table, tick);
    OwnersListed(s);
    WokenKin(s, t);
    WokenStatus(s.table, t.table);
    forall x | Asleep(t.table, x) && HasPoll(s, x)
      ensures HasPoll(t, x)
    {
      var p :| p in s.polls && p.pid == x;
      assert AfterTick(p, tick) in t.polls;
    }
    GroundedFrame(s, t);
  }

  lemma WaitCallGrounded(s: State, pid: nat, which: int)
    requires Inv(s) && Grounded(s) && Running(s, pid)
    ensures Grounded(Waited(s, pid, which).0)
  {
    hide PollInv, WaitInv, Leaving, Grounded, Kin, HasPoll, Collected, Running;
    RunningFacts(s, pid);
    OwnersListed(s);
    WaitedKin(s, pid, which);
    var pids, t := WaitList(s.table[pid], which), Waited(s, pid, which).0;
    if pids != [] {
      var i := FirstEnded(s.happened, pids);
      if i < |s.happened| {
        var u := s.(happened := RemoveAt(s.happened, i));
        TakenFromList(s, i);
        PollFrame(s, u);
        CollectedIs(u, s.happened[i]);
        SamePolls(s, t);
        LeavingFacts(u, s.happened[i]);
        GroundedFrame(s, t);
      } else {
        WaitGrounded(s, t, pid, pids);
      }
    }
  }

  lemma WaitGrounded(s: State, t: State, pid: nat, pids: seq<nat>)
    requires Grounded(s) && pid in s.table
    requires t == s.(waits := s.waits + [Wait(pid, pids, 0)], table := s.table[pid := s.table[pid].(status := Sleeping)])
    ensures Grounded(t)
  {
    forall x | Asleep(t.table, x)
      ensures HasPoll(t, x) || HasWait(t, x)
    {
      if x == pid {
        assert t.waits[|s.waits|].pid == pid;
      } else if HasWait(s, x) {
        var w :| w in s.waits && w.pid == x;
        assert w in t.waits;
      } else {
        assert HasPoll(s, x);
      }
    }
  }

  lemma WaitResumeGrounded(s: State, pid: nat)
    requires Inv(s) && Grounded(s) && Enabled(s, WaitResume(pid))
    ensures Grounded(Step(s, WaitResume(pid)))
  {
    hide Grounded, Kin, Step, Inv;
    var i := WaitOf(s.waits, pid);
    ResumedIs(s, pid);
    StepKin(s, WaitResume(pid));
    OwnersListed(s);
    LessGrounded(s, Step(s, WaitResume(pid)), i, s.waits[i].pids[0]);
  }

  lemma LessGrounded(s: State, t: State, i: nat, c: nat)
    requires Grounded(s) && Kin(s, t) && Ending(s.table, c) && t.table == s.table - {c}
    requires i < |s.waits| && !Asleep(s.table, s.waits[i].pid) && t.waits == RemoveAt(s.waits, i)
    requires forall p :: p in t.polls <==> p in s.polls
    requires forall p :: p in s.polls ==> p.pid in s.table && s.table[p.pid].status != Zombie
    ensures Grounded(t)
  {
    hide Grounded, Kin, HasPoll;
    SamePolls(s, t);
    forall x | Asleep(t.table, x) && HasWait(s, x)
      ensures HasWait(t, x)
    {
      var w :| w in s.waits && w.pid == x;
      KeptWait(s.waits, i, w);
    }
    GroundedFrame(s, t);
  }

  lemma KeptWait(waits: seq<Wait>, i: nat, w: Wait)
    requires i < |waits| && w in waits && w != waits[i]
    ensures w in RemoveAt(waits, i)
  {
    var j :| 0 <= j < |waits| && waits[j] == w;
    assert RemoveAt(waits, i)[if j < i then j else j - 1] == w;
  }

  lemma StepGrounded(s: State, e: Event)
    requires Inv(s) && Grounded(s) && Enabled(s, e)
    ensures Grounded(Step(s, e))
  {
    hide Inv, Grounded;
    match e
    case Switch(pid) => SwitchGrounded(s, pid);
    case Fork(parent, child) => ForkGrounded(s, parent, child);
    case Exit(pid, code) => ExitGrounded(s, pid, code);
    case PollCall(pid, fds, ready, timeout) => PollCallGrounded(s, pid, fds, ready, timeout);
    case PollResume(pid) => PollResumeGrounded(s, pid);
    case FileEvent(dev, ev) => FileEventGrounded(s, dev, ev);
    case Tick(tick) => TickGrounded(s, tick);
    case WaitCall(pid, which) => WaitCallGrounded(s, pid, which);
    case WaitResume(pid) => WaitResumeGrounded(s, pid);
  }

  // ---------- processes blocked in a wait ----------

  ghost predicate Blocking(s: State, x: nat) {
    Asleep(s.table, x) && HasWait(s, x)
  }

  ghost predicate Untouched(s: State, t: State, x: nat) {
    && x in s.table && x in t.table && t.table[x] == s.table[x]
    && forall w :: w in s.waits && w.pid == x ==> w in t.waits
  }

  /** A blocked process stays as it is in every step, but for the exit of a child that it is the first to
      wait for. */
  lemma BlockedKept(s: State, e: Event, x: nat)
    requires Inv(s) && Enabled(s, e) && Blocking(s, x)
    requires e.Exit? && WaitFor(s.waits, e.pid) < |s.waits| ==> s.waits[WaitFor(s.waits, e.pid)].pid != x
    ensures Untouched(s, Step(s, e), x)
  {
    hide PollInv, WaitInv, Untouched;
    OwnersListed(s);
    match e
    case Switch(pid) => AloneKept(s, Step(s, e), x);
    case Fork(parent, child) => AloneKept(s, Step(s, e), x);
    case Exit(pid, code) => BlockedThroughExit(s, pid, code, x);
    case PollCall(pid, fds, ready, timeout) =>
      PolledWaits(s, pid, fds, ready, timeout);
      hide Polled;
      AloneKept(s, Step(s, e), x);
    case PollResume(pid) => AloneKept(s, Step(s, e), x);
    case FileEvent(dev, ev) =>
      NotifiedIs(s.polls, s.table, dev, ev);
      hide Notified;
      AloneKept(s, Step(s, e), x);
    case Tick(tick) =>
      TickedIs(s.polls, s.table, tick);
      hide Ticked;
      AloneKept(s, Step(s, e), x);
    case WaitCall(pid, which) => BlockedThroughWait(s, pid, which, x);
    case WaitResume(pid) => BlockedThroughResume(s, pid, x);
  }

  lemma AloneKept(s: State, t: State, x: nat)
    requires t.waits == s.waits && x in s.table && x in t.table && t.table[x] == s.table[x]
    ensures Untouched(s, t, x)
  {
  }

  lemma PolledWaits(s: State, pid: nat, fds: seq<Request>, ready: map<nat, set<Flag>>, timeout: int)
    requires pid in s.table
    ensures var t := Polled(s, pid, fds, ready, timeout).0;
      t.waits == s.waits && forall x :: x in s.table && x != pid ==> x in t.table && t.table[x] == s.table[x]
  {
    hide Registered, ReadyCount, Without;
  }

  lemma BlockedThroughExit(s: State, pid: nat, code: int, x: nat)
    requires pid in s.table && s.table[pid].status == Active && Asleep(s.table, x)
    requires WaitFor(s.waits, pid) < |s.waits| ==> s.waits[WaitFor(s.waits, pid)].pid != x
    ensures Untouched(s, Ended(s, pid, code), x)
  {
    var i, t := WaitFor(s.waits, pid), Ended(s, pid, code);
    forall w | w in s.waits && w.pid == x
      ensures w in t.waits
    {
      var j :| 0 <= j < |s.waits| && s.waits[j] == w;
      assert t.waits[j] == w;
    }
  }

  lemma BlockedThroughWait(s: State, pid: nat, which: int, x: nat)
    requires Inv(s) && Running(s, pid) && Blocking(s, x)
    ensures Untouched(s, Waited(s, pid, which).0, x)
  {
    hide PollInv, WaitInv, Leaving, Collected, Running;
    RunningFacts(s, pid);
    var pids := WaitList(s.table[pid], which);
    if pids != [] {
      var i := FirstEnded(s.happened, pids);
      if i < |s.happened| {
        var u := s.(happened := RemoveAt(s.happened, i));
        TakenFromList(s, i);
        PollFrame(s, u);
        CollectedIs(u, s.happened[i]);
      }
    }
  }

  lemma BlockedThroughResume(s: State, pid: nat, x: nat)
    requires Inv(s) && Enabled(s, WaitResume(pid)) && Blocking(s, x)
    ensures Untouched(s, Step(s, WaitResume(pid)), x)
  {
    hide Inv, Step;
    ResumedIs(s, pid);
    var i, t := WaitOf(s.waits, pid), Step(s, WaitResume(pid));
    forall w | w in s.waits && w.pid == x
      ensures w in t.waits
    {
      KeptWait(s.waits, i, w);
    }
  }

  lemma StillBlocking(s: State, t: State, x: nat)
    requires Blocking(s, x) && Untouched(s, t, x)
    ensures Blocking(t, x)
  {
  }
}
