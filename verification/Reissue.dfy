/** What can follow when a fork issues an identifier that other live processes still list. */
module Reissue {
  import opened Signals
  import opened SignalTheorems
  import opened Reaping
  import opened Sleepers

  // ---------- processes that nothing can wake ----------

  ghost predicate Named(s: State, x: nat, c: nat) {
    exists w :: w in s.waits && w.pid == x && c in w.pids
  }

  /** The process can be made to run, or can if some process that it waits for can, and so on in `n` steps:
      it is not blocked, or one it waits for can run and end. */
  ghost predicate Wakes(s: State, x: nat, n: nat)
    decreases n
  {
    Live(s, x) && (!Blocking(s, x) || (n > 0 && exists c :: Named(s, x, c) && Wakes(s, c, n - 1)))
  }

  ghost predicate Stuck(s: State, x: nat) {
    Live(s, x) && forall n: nat :: !Wakes(s, x, n)
  }

  /** Nobody waits for the identifier, and the live processes that list it, the parent aside, are stuck. */
  ghost predicate Silent(s: State, parent: nat, child: nat) {
    && (forall w :: w in s.waits ==> child !in w.pids)
    && (forall q :: Live(s, q) && q != parent && child in s.table[q].children ==> Stuck(s, q))
  }

  /** Processes that are blocked in waits for each other, or for processes that do not exist. */
  ghost predicate Closed(s: State, k: set<nat>) {
    forall x :: x in k ==>
      Asleep(s.table, x) &&
      exists w :: w in s.waits && w.pid == x && forall c :: c in w.pids ==> c in k || c !in s.table
  }

  /** The lists of the other processes are right. */
  ghost predicate OwnBeside(s: State, k: set<nat>) {
    forall p, c :: Live(s, p) && p !in k && c in s.table[p].children && c in s.table ==> s.table[c].parent == p
  }

  ghost function StuckOnes(s: State): (k: set<nat>) {
    set x | x in s.table && Stuck(s, x)
  }

  lemma {:induction false} WakesLater(s: State, x: nat, n: nat, m: nat)
    requires Wakes(s, x, n) && n <= m
    ensures Wakes(s, x, m)
    decreases n
  {
    if Blocking(s, x) {
      var c :| Named(s, x, c) && Wakes(s, c, n - 1);
      WakesLater(s, c, n - 1, m - 1);
    }
  }

  /** An ended process that is not on the list is recorded in the answered wait of a process that lists it. */
  lemma Holder(s: State, c: nat) returns (v: Wait)
    requires Inv(s) && Ending(s.table, c) && c !in s.happened
    ensures v in s.waits && !Asleep(s.table, v.pid) && Live(s, v.pid) && c in s.table[v.pid].children
  {
    assert Outstanding(s)[c] == 1;
    assert c in Resolved(s.waits, s.table);
    v := ResolvedFrom(s.waits, s.table, c);
    assert WaitOk(s, v);
  }

  /** While the lists are right, no process that a blocked one waits for has ended. */
  lemma NamedIsLive(s: State, w: Wait, c: nat)
    requires Inv(s) && Own(s) && w in s.waits && Asleep(s.table, w.pid) && c in w.pids && c in s.table
    ensures Live(s, c)
  {
    assert WaitOk(s, w);
    if s.table[c].status == Zombie {
      var v := Holder(s, c);
      assert false;
    }
  }

  lemma {:induction false} ResolvedFrom(waits: seq<Wait>, table: Table, c: nat) returns (w: Wait)
    requires c in Resolved(waits, table)
    ensures w in waits && !Asleep(table, w.pid) && w.pids != [] && w.pids[0] == c
  {
    w := waits[0];
    if Asleep(table, w.pid) || w.pids == [] || w.pids[0] != c {
      w := ResolvedFrom(waits[1..], table, c);
    }
  }

  lemma StuckIsClosed(s: State)
    requires Inv(s) && Own(s)
    ensures Closed(s, StuckOnes(s))
  {
    var k := StuckOnes(s);
    forall x | x in k
      ensures Asleep(s.table, x)
      ensures exists w :: w in s.waits && w.pid == x && forall c :: c in w.pids ==> c in k || c !in s.table
    {
      assert !Wakes(s, x, 0);
      var w :| w in s.waits && w.pid == x;
      forall c | c in w.pids && c in s.table
        ensures c in k
      {
        NamedIsLive(s, w, c);
        forall n: nat
          ensures !Wakes(s, c, n)
        {
          assert !Wakes(s, x, n + 1);
          assert Named(s, x, c);
        }
      }
    }
  }

  lemma SilentClosed(s: State, parent: nat, child: nat)
    requires Inv(s) && Own(s) && Enabled(s, Fork(parent, child)) && Silent(s, parent, child)
    ensures Closed(Step(s, Fork(parent, child)), StuckOnes(s))
  {
    StuckIsClosed(s);
    hide Inv, Stuck, Running, Own;
    var k, t := StuckOnes(s), Step(s, Fork(parent, child));
    forall x | x in k
      ensures Asleep(t.table, x)
      ensures exists w :: w in t.waits && w.pid == x && forall c :: c in w.pids ==> c in k || c !in t.table
    {
      var w :| w in s.waits && w.pid == x && forall c :: c in w.pids ==> c in k || c !in s.table;
      assert w in t.waits && child !in w.pids;
    }
  }

  lemma SilentOwn(s: State, parent: nat, child: nat)
    requires Own(s) && Enabled(s, Fork(parent, child)) && Silent(s, parent, child)
    ensures OwnBeside(Step(s, Fork(parent, child)), StuckOnes(s))
  {
    hide Stuck;
    var k, t := StuckOnes(s), Step(s, Fork(parent, child));
    forall p, c | Live(t, p) && p !in k && c in t.table[p].children && c in t.table
      ensures t.table[c].parent == p
    {
      assert p != child && Live(s, p);
      if p == parent {
        assert c == child || c in s.table[p].children;
      } else {
        assert c != child;
      }
    }
  }

  lemma ClosedStep(s: State, e: Event, k: set<nat>)
    requires Inv(s) && Closed(s, k) && Enabled(s, e)
    requires e.Fork? ==> Unlisted(s, e.parent, e.child)
    ensures Closed(Step(s, e), k)
  {
    hide PollInv, WaitInv, WaitOk, Step, Kin;
    var t := Step(s, e);
    forall x | x in k
      ensures Asleep(t.table, x)
      ensures exists w :: w in t.waits && w.pid == x && forall c :: c in w.pids ==> c in k || c !in t.table
    {
      var w :| w in s.waits && w.pid == x && forall c :: c in w.pids ==> c in k || c !in s.table;
      if e.Exit? {
        ExitSpares(s, e.pid, w, k);
      }
      BlockedKept(s, e, x);
      StepBrings(s, e, w);
    }
  }

  /** The exit of a running process does not reach a wait that it is not named in. */
  lemma ExitSpares(s: State, pid: nat, w: Wait, k: set<nat>)
    requires Inv(s) && Closed(s, k) && Running(s, pid) && w in s.waits
    requires forall c :: c in w.pids ==> c in k || c !in s.table
    ensures WaitFor(s.waits, pid) < |s.waits| ==> s.waits[WaitFor(s.waits, pid)].pid != w.pid
  {
    assert pid !in w.pids;
    var i := WaitFor(s.waits, pid);
    var j :| 0 <= j < |s.waits| && s.waits[j] == w;
    assert i < |s.waits| ==> i != j;
  }

  /** No step brings a process that a blocked one waits for, unless it issues a listed identifier. */
  lemma StepBrings(s: State, e: Event, w: Wait)
    requires Inv(s) && Enabled(s, e) && w in s.waits && Asleep(s.table, w.pid)
    requires e.Fork? ==> Unlisted(s, e.parent, e.child)
    ensures forall c :: c in w.pids && c in Step(s, e).table ==> c in s.table
  {
    assert WaitOk(s, w);
    if !e.Fork? {
      hide Step, Inv;
      StepKin(s, e);
    }
  }

  lemma OwnBesideStep(s: State, e: Event, k: set<nat>)
    requires OwnBeside(s, k) && Enabled(s, e)
    requires e.Fork? ==> Unlisted(s, e.parent, e.child)
    ensures OwnBeside(Step(s, e), k)
  {
    if !e.Fork? {
      StepKin(s, e);
    }
  }

  lemma BesideDelivers(s: State, e: Event, k: set<nat>)
    requires Inv(s) && Closed(s, k) && OwnBeside(s, k)
    ensures !Misdelivers(s, e)
  {
    if Enabled(s, e) {
      match e
      case WaitCall(pid, which) => WaitReply(s, pid, which);
      case WaitResume(pid) => WaitResumeReply(s, pid);
      case _ =>
    }
  }

  lemma {:induction false} SilentRun(s: State, k: set<nat>, es: seq<Event>, e: Event)
    requires Inv(s) && Closed(s, k) && OwnBeside(s, k) && CanRun(s, es) && Unshared(s, es)
    ensures !Misdelivers(Run(s, es), e)
    decreases |es|
  {
    hide Inv, Closed, OwnBeside, Misdelivers;
    if es == [] {
      BesideDelivers(s, e, k);
    } else {
      StepKeeps(s, es[0]);
      ClosedStep(s, es[0], k);
      OwnBesideStep(s, es[0], k);
      SilentRun(Step(s, es[0]), k, es[1..], e);
    }
  }

  // ---------- making a process run ----------

  /** The run leads there, without a fork. */
  ghost predicate Leads(s: State, es: seq<Event>, t: State)
    decreases |es|
  {
    if es == [] then t == s
    else Enabled(s, es[0]) && !es[0].Fork? && Leads(Step(s, es[0]), es[1..], t)
  }

  lemma {:induction false} LeadsOn(s: State, a: seq<Event>, t: State, b: seq<Event>, u: State)
    requires Leads(s, a, t) && Leads(t, b, u)
    ensures Leads(s, a + b, u)
    decreases |a|
  {
    hide Enabled, Step;
    if a == [] {
      assert a + b == b;
    } else {
      LeadsOn(Step(s, a[0]), a[1..], t, b, u);
      assert (a + b)[1..] == a[1..] + b;
    }
  }

  lemma LeadsStep(s: State, a: seq<Event>, t: State, e: Event)
    requires Leads(s, a, t) && Enabled(t, e) && !e.Fork?
    ensures Leads(s, a + [e], Step(t, e))
  {
    assert [e][1..] == [];
    LeadsOn(s, a, t, [e], Step(t, e));
  }

  lemma {:induction false} LeadsRun(s: State, es: seq<Event>, t: State)
    requires Leads(s, es, t)
    ensures CanRun(s, es) && Unshared(s, es) && Run(s, es) == t
    decreases |es|
  {
    if es != [] {
      LeadsRun(Step(s, es[0]), es[1..], t);
    }
  }

  /** What holds while a process is made to run: `child` has ended and waits on the list. */
  ghost predicate Stage(s: State, t: State, child: nat) {
    Inv(t) && Grounded(t) && Kin(s, t) && child in t.happened
  }

  lemma StageStep(s: State, t: State, e: Event, child: nat)
    requires Stage(s, t, child) && Enabled(t, e) && (e.Switch? || e.Exit? || e.FileEvent? || e.PollResume? || e.WaitResume?)
    ensures Stage(s, Step(t, e), child)
  {
    hide Inv, Grounded;
    StepKeeps(t, e);
    StepGrounded(t, e);
    StepKin(t, e);
    if e.WaitResume? {
      ResumedIs(t, e.pid);
      hide Step;
    }
  }

  /** Processes that are blocked and do not wake in `n` steps are left alone. */
  ghost predicate LeftAlone(s: State, t: State, n: nat) {
    forall p :: Live(s, p) && !Wakes(s, p, n) ==> Untouched(s, t, p)
  }

  lemma LeftAloneStep(s: State, t: State, e: Event, n: nat)
    requires LeftAlone(s, t, n) && Inv(t) && Enabled(t, e)
    requires e.Exit? && WaitFor(t.waits, e.pid) < |t.waits| ==> Wakes(s, t.waits[WaitFor(t.waits, e.pid)].pid, n)
    ensures LeftAlone(s, Step(t, e), n)
  {
    hide Inv, Enabled, WaitFor, Step;
    forall p | Live(s, p) && !Wakes(s, p, n)
      ensures Untouched(s, Step(t, e), p)
    {
      StillBlocking(s, t, p);
      BlockedKept(t, e, p);
    }
  }

  lemma Advance(s: State, t: State, e: Event, child: nat, es: seq<Event>, n: nat) returns (out: seq<Event>, u: State)
    requires Stage(s, t, child) && Leads(s, es, t) && LeftAlone(s, t, n) && Enabled(t, e)
    requires e.Switch? || e.Exit? || e.FileEvent? || e.PollResume? || e.WaitResume?
    requires e.Exit? && WaitFor(t.waits, e.pid) < |t.waits| ==> Wakes(s, t.waits[WaitFor(t.waits, e.pid)].pid, n)
    ensures u == Step(t, e) && Stage(s, u, child) && Leads(s, out, u) && LeftAlone(s, u, n)
  {
    StageStep(s, t, e, child);
    LeadsStep(s, es, t, e);
    assert Inv(t);
    hide Inv, Stage, Leads, LeftAlone, Enabled, Step;
    LeftAloneStep(s, t, e, n);
    out, u := es + [e], Step(t, e);
  }

  lemma RunsNow(s: State, x: nat)
    requires x in s.table && s.table[x].status == Active && !HasPoll(s, x) && !HasWait(s, x)
    ensures Running(s, x)
  {
  }

  lemma PollLeaves(s: State, x: nat)
    requires Inv(s) && HasPoll(s, x) && x in s.table && s.table[x].status == Active
    ensures Enabled(s, PollResume(x)) && Running(Step(s, PollResume(x)), x)
  {
    hide PollInv, WaitInv;
    OwnersListed(s);
    WithoutIs(s.polls, x);
  }

  lemma WaitLeaves(s: State, x: nat)
    requires Inv(s) && HasWait(s, x) && x in s.table && s.table[x].status == Active
    ensures Enabled(s, WaitResume(x)) && Running(Step(s, WaitResume(x)), x)
  {
    hide PollInv, WaitInv;
    OwnersListed(s);
    ResumedIs(s, x);
    WaitResumeReply(s, x);
    hide Resumed;
  }

  lemma SwitchFacts(s: State, x: nat)
    requires Enabled(s, Switch(x))
    ensures var t := Step(s, Switch(x));
      && t.polls == s.polls && t.waits == s.waits && t.happened == s.happened
      && x in t.table && t.table[x].status == Active && t.table.Keys == s.table.Keys
      && (forall y :: y in s.table ==> t.table[y].parent == s.table[y].parent)
  {
  }

  /** A process that is not asleep can leave the call it is in, and then runs. */
  lemma AwakeRuns(s: State, t: State, x: nat, child: nat, es: seq<Event>) returns (out: seq<Event>, u: State)
    requires Stage(s, t, child) && Leads(s, es, t) && LeftAlone(s, t, 0)
    requires Live(t, x) && !Asleep(t.table, x)
    ensures Stage(s, u, child) && Leads(s, out, u) && LeftAlone(s, u, 0) && Running(u, x)
  {
    hide Inv, LeftAlone, Leads, Step, Kin, Grounded;
    out, u := Advance(s, t, Switch(x), child, es, 0);
    SwitchFacts(t, x);
    if HasPoll(u, x) {
      PollLeaves(u, x);
      out, u := Advance(s, u, PollResume(x), child, out, 0);
    } else if HasWait(u, x) {
      WaitLeaves(u, x);
      out, u := Advance(s, u, WaitResume(x), child, out, 0);
    } else {
      RunsNow(u, x);
    }
  }

  /** Neither is one that sleeps in a poll lost: the event that it polls for wakes it. */
  lemma UnblockedRuns(s: State, x: nat, child: nat) returns (out: seq<Event>, u: State)
    requires Inv(s) && Grounded(s) && child in s.happened && Live(s, x) && !Blocking(s, x)
    ensures Stage(s, u, child) && Leads(s, out, u) && LeftAlone(s, u, 0) && Running(u, x)
  {
    hide Inv, Step;
    assert Stage(s, s, child) && Leads(s, [], s) && LeftAlone(s, s, 0);
    if Asleep(s.table, x) {
      var p :| p in s.polls && p.pid == x;
      var e := FileEvent(DeviceOf(s.table, x, p.req.fd), p.req.events);
      assert p.req.events * p.req.events == p.req.events;
      FileEventWakes(s, e.dev, e.ev, p);
      out, u := Advance(s, s, e, child, [], 0);
      hide Stage, Leads, LeftAlone;
      EventKeepsLive(s, e, x);
      out, u := AwakeRuns(s, u, x, child, out);
    } else {
      hide Stage, Leads, LeftAlone;
      out, u := AwakeRuns(s, s, x, child, []);
    }
  }

  lemma EventKeepsLive(s: State, e: Event, x: nat)
    requires e.FileEvent? && Enabled(s, e) && Live(s, x)
    ensures Live(Step(s, e), x)
  {
    NotifiedIs(s.polls, s.table, e.dev, e.ev);
    hide Notified;
    WokenStatus(s.table, Step(s, e).table);
  }

  /** The lists are right but for one process. */
  ghost predicate OwnApart(s: State, child: nat) {
    forall p, c :: Live(s, p) && c in s.table[p].children && c in s.table && c != child ==> s.table[c].parent == p
  }

  lemma HappenedEnding(s: State, c: nat)
    requires Inv(s) && c in s.happened
    ensures Ending(s.table, c)
  {
    assert multiset(s.happened)[c] > 0;
    assert Outstanding(s)[c] > 0;
  }

  /** The exit of a child that a blocked process waits for wakes that process, while the lists are right. */
  lemma ExitWakes(s: State, x: nat, c: nat, child: nat)
    requires Inv(s) && OwnApart(s, child) && child in s.happened && Running(s, c) && Blocking(s, x) && Named(s, x, c)
    ensures var i := WaitFor(s.waits, c); i < |s.waits| && s.waits[i].pid == x
    ensures var t := Step(s, Exit(c, 0)); Live(t, x) && !Asleep(t.table, x) && HasWait(t, x)
  {
    HappenedEnding(s, child);
    var w :| w in s.waits && w.pid == x && c in w.pids;
    var i := WaitFor(s.waits, c);
    assert WaitOk(s, w) && WaitOk(s, s.waits[i]);
    var t := Step(s, Exit(c, 0));
    assert t.waits[i].pid == x;
  }

  /** A process that wakes in `n` steps can be made to run, and then the blocked ones that do not wake in as
      many are as they were. */
  lemma {:induction false} Drive(s: State, x: nat, n: nat, child: nat) returns (out: seq<Event>, u: State)
    requires Inv(s) && Grounded(s) && OwnApart(s, child) && child in s.happened
    requires Wakes(s, x, n) && forall m: nat :: m < n ==> !Wakes(s, x, m)
    ensures Stage(s, u, child) && Leads(s, out, u) && LeftAlone(s, u, n) && Running(u, x)
    decreases n
  {
    if n == 0 {
      out, u := UnblockedRuns(s, x, child);
    } else {
      assert !Wakes(s, x, n - 1);
      var c :| Named(s, x, c) && Wakes(s, c, n - 1);
      forall m: nat | m < n - 1
        ensures !Wakes(s, c, m)
      {
        assert !Wakes(s, x, m + 1);
      }
      out, u := Drive(s, c, n - 1, child);
      out, u := EndAndResume(s, u, x, c, n, child, out);
    }
  }

  lemma EndAndResume(s: State, t: State, x: nat, c: nat, n: nat, child: nat, es: seq<Event>) returns (out: seq<Event>, u: State)
    requires OwnApart(s, child) && Stage(s, t, child) && Leads(s, es, t)
    requires n > 0 && LeftAlone(s, t, n - 1) && Running(t, c)
    requires Wakes(s, x, n) && !Wakes(s, x, n - 1) && Named(s, x, c)
    ensures Stage(s, u, child) && Leads(s, out, u) && LeftAlone(s, u, n) && Running(u, x)
  {
    hide Inv, Step, Grounded, Leads;
    MoreAlone(s, t, n);
    BlockedNow(s, t, x, c, n - 1);
    ApartKept(s, t, child);
    ExitWakes(t, x, c, child);
    hide OwnApart, LeftAlone, Wakes, Kin, Blocking, Named;
    out, u := Advance(s, t, Exit(c, 0), child, es, n);
    SwitchFacts(u, x);
    var v := u;
    out, u := Advance(s, v, Switch(x), child, out, n);
    assert HasWait(u, x);
    WaitLeaves(u, x);
    out, u := Advance(s, u, WaitResume(x), child, out, n);
  }

  lemma MoreAlone(s: State, t: State, n: nat)
    requires n > 0 && LeftAlone(s, t, n - 1)
    ensures LeftAlone(s, t, n)
  {
    forall p | Live(s, p) && !Wakes(s, p, n)
      ensures Untouched(s, t, p)
    {
      if Wakes(s, p, n - 1) {
        WakesLater(s, p, n - 1, n);
      }
    }
  }

  lemma BlockedNow(s: State, t: State, x: nat, c: nat, n: nat)
    requires LeftAlone(s, t, n) && Live(s, x) && !Wakes(s, x, n) && Named(s, x, c)
    ensures Blocking(t, x) && Named(t, x, c)
  {
    StillBlocking(s, t, x);
  }

  lemma ApartKept(s: State, t: State, child: nat)
    requires OwnApart(s, child) && Kin(s, t)
    ensures OwnApart(t, child)
  {
  }

  // ---------- the theorem ----------

  ghost function Forked(s: State, parent: nat, child: nat): State
    requires Enabled(s, Fork(parent, child))
  {
    Step(s, Fork(parent, child))
  }

  /** The child runs and ends. */
  ghost function ChildEnded(s: State, parent: nat, child: nat): State
    requires Enabled(s, Fork(parent, child))
  {
    Ended(Step(Forked(s, parent, child), Switch(child)), child, 0)
  }

  lemma ChildRuns(s: State, parent: nat, child: nat)
    requires Inv(s) && Grounded(s) && Enabled(s, Fork(parent, child))
    ensures var t := ChildEnded(s, parent, child);
      Inv(t) && Grounded(t) && Leads(Forked(s, parent, child), [Switch(child), Exit(child, 0)], t)
  {
    var t := Forked(s, parent, child);
    StepKeeps(s, Fork(parent, child));
    StepGrounded(s, Fork(parent, child));
    StepKeeps(t, Switch(child));
    StepGrounded(t, Switch(child));
    OwnersListed(s);
    hide Inv, Grounded;
    var u := Step(t, Switch(child));
    assert Running(u, child);
    StepKeeps(u, Exit(child, 0));
    StepGrounded(u, Exit(child, 0));
    assert Leads(t, [], t);
    LeadsStep(t, [], t, Switch(child));
    assert [] + [Switch(child)] == [Switch(child)];
    LeadsStep(t, [Switch(child)], u, Exit(child, 0));
    assert [Switch(child)] + [Exit(child, 0)] == [Switch(child), Exit(child, 0)];
  }

  /** A wait that names the identifier before it is issued receives the new process. */
  lemma NamedSteals(s: State, parent: nat, child: nat) returns (es: seq<Event>, e: Event)
    requires Inv(s) && Grounded(s) && Enabled(s, Fork(parent, child)) && exists w :: w in s.waits && child in w.pids
    ensures var t := Forked(s, parent, child); CanRun(t, es) && Unshared(t, es) && Misdelivers(Run(t, es), e)
  {
    var t, u := Forked(s, parent, child), ChildEnded(s, parent, child);
    ChildRuns(s, parent, child);
    var i := WaitFor(s.waits, child);
    var r := s.waits[i].pid;
    WaiterWoken(s, parent, child);
    hide Inv, Grounded, Step, Ended, ChildEnded, Forked, Misdelivers, Leads, Running;
    SwitchFacts(u, r);
    LeadsStep(t, [Switch(child), Exit(child, 0)], u, Switch(r));
    es, e := [Switch(child), Exit(child, 0)] + [Switch(r)], WaitResume(r);
    LeadsRun(t, es, Step(u, Switch(r)));
    Hands(Step(u, Switch(r)), i, parent, child);
  }

  lemma Hands(s: State, i: nat, parent: nat, child: nat)
    requires OneEach(s.waits) && i < |s.waits| && s.waits[i].pids == [child] && s.waits[i].pid != parent
    requires s.waits[i].pid in s.table && s.table[s.waits[i].pid].status == Active
    requires child in s.table && s.table[child].parent == parent
    ensures Misdelivers(s, WaitResume(s.waits[i].pid))
  {
    FirstOf(s.waits, i);
    hide OneEach, Collected;
  }

  lemma FirstOf(waits: seq<Wait>, i: nat)
    requires OneEach(waits) && i < |waits|
    ensures WaitOf(waits, waits[i].pid) == i
  {
  }

  lemma WaiterWoken(s: State, parent: nat, child: nat)
    requires Inv(s) && Enabled(s, Fork(parent, child)) && exists w :: w in s.waits && child in w.pids
    ensures var (i, t) := (WaitFor(s.waits, child), ChildEnded(s, parent, child));
      && i < |s.waits| == |t.waits| && OneEach(t.waits) && t.waits[i].pids == [child]
      && t.waits[i].pid == s.waits[i].pid != parent
      && s.waits[i].pid in t.table && t.table[s.waits[i].pid].status == Runnable
      && child in t.table && t.table[child].parent == parent
  {
    var i := WaitFor(s.waits, child);
    assert WaitOk(s, s.waits[i]);
    hide PollInv, Accounted;
  }

  lemma {:induction false} LeastWakes(s: State, x: nat, n: nat) returns (least: nat)
    requires Wakes(s, x, n)
    ensures Wakes(s, x, least) && forall m: nat :: m < least ==> !Wakes(s, x, m)
    decreases n
  {
    if m: nat :| m < n && Wakes(s, x, m) {
      least := LeastWakes(s, x, m);
    } else {
      least := n;
    }
  }

  /** Other processes wake as they did before the child came and ended. */
  lemma {:induction false} WakesAfter(s: State, parent: nat, child: nat, x: nat, n: nat)
    requires Inv(s) && Enabled(s, Fork(parent, child)) && (forall w :: w in s.waits ==> child !in w.pids)
    requires Wakes(s, x, n)
    ensures Wakes(ChildEnded(s, parent, child), x, n)
    decreases n
  {
    var t := ChildEnded(s, parent, child);
    UnnamedEnds(s, parent, child);
    hide Inv, ChildEnded;
    if Blocking(t, x) {
      var c :| Named(s, x, c) && Wakes(s, c, n - 1);
      WakesAfter(s, parent, child, c, n - 1);
      assert Named(t, x, c);
    }
  }

  lemma UnnamedEnds(s: State, parent: nat, child: nat)
    requires Enabled(s, Fork(parent, child)) && (forall w :: w in s.waits ==> child !in w.pids)
    ensures var t := ChildEnded(s, parent, child);
      && t.waits == s.waits && t.happened == s.happened + [child]
      && child in t.table && t.table[child].parent == parent && t.table[child].status == Zombie && t.table[child].children == []
      && t.table.Keys == s.table.Keys + {child}
      && (forall x :: x in s.table ==>
            && (Live(t, x) <==> Live(s, x)) && (Asleep(t.table, x) <==> Asleep(s.table, x))
            && t.table[x].parent == s.table[x].parent
            && (if x == parent then forall c :: c in t.table[x].children <==> c == child || c in s.table[x].children
                else t.table[x].children == s.table[x].children))
  {
    assert WaitFor(s.waits, child) == |s.waits|;
  }

  /** A process that lists the identifier and is not stuck receives the new process. */
  lemma ListedSteals(s: State, parent: nat, child: nat, q: nat) returns (es: seq<Event>, e: Event)
    requires Inv(s) && Grounded(s) && Own(s) && Enabled(s, Fork(parent, child))
    requires forall w :: w in s.waits ==> child !in w.pids
    requires Live(s, q) && q != parent && child in s.table[q].children && !Stuck(s, q)
    ensures var t := Forked(s, parent, child); CanRun(t, es) && Unshared(t, es) && Misdelivers(Run(t, es), e)
  {
    var n: nat :| Wakes(s, q, n);
    var t, u := Forked(s, parent, child), ChildEnded(s, parent, child);
    ChildRuns(s, parent, child);
    WakesAfter(s, parent, child, q, n);
    n := LeastWakes(u, q, n);
    UnnamedEnds(s, parent, child);
    EndedApart(s, u, parent, child);
    hide Inv, Grounded, Wakes, Own, OwnApart, Step, ChildEnded, Forked, Running, Stuck;
    var more, v := Drive(u, q, n, child);
    es, e := [Switch(child), Exit(child, 0)] + more, WaitCall(q, child);
    LeadsOn(t, [Switch(child), Exit(child, 0)], u, more, v);
    LeadsRun(t, es, v);
    hide LeftAlone, Leads;
    Takes(u, v, q, parent, child);
  }

  lemma EndedApart(s: State, t: State, parent: nat, child: nat)
    requires Own(s) && Enabled(s, Fork(parent, child)) && (forall w :: w in s.waits ==> child !in w.pids)
    requires t == ChildEnded(s, parent, child)
    ensures OwnApart(t, child)
  {
    UnnamedEnds(s, parent, child);
    hide ChildEnded, Enabled;
  }

  lemma Takes(s: State, t: State, q: nat, parent: nat, child: nat)
    requires Stage(s, t, child) && Running(t, q) && child > 0 && q != parent
    requires q in s.table && child in s.table[q].children && child in s.table && s.table[child].parent == parent
    ensures Misdelivers(t, WaitCall(q, child))
  {
    HappenedEnding(t, child);
    hide Inv, Grounded, Running;
    assert WaitList(t.table[q], child) == [child];
    assert t.happened[FirstEnded(t.happened, [child])] == child;
  }

  /** A fork in a state with right lists leads to no wait that hands out another's child, as long as later
      forks issue no listed identifiers, exactly if nobody waits for the identifier it issues and the other
      live processes that list it are stuck. */
  lemma ForkExact(s: State, parent: nat, child: nat)
    requires Inv(s) && Grounded(s) && Own(s) && Enabled(s, Fork(parent, child))
    ensures var t := Step(s, Fork(parent, child));
      (forall es, e :: CanRun(t, es) && Unshared(t, es) ==> !Misdelivers(Run(t, es), e)) <==> Silent(s, parent, child)
  {
    var t := Forked(s, parent, child);
    if Silent(s, parent, child) {
      StepKeeps(s, Fork(parent, child));
      SilentClosed(s, parent, child);
      SilentOwn(s, parent, child);
      forall es, e | CanRun(t, es) && Unshared(t, es)
        ensures !Misdelivers(Run(t, es), e)
      {
        SilentRun(t, StuckOnes(s), es, e);
      }
    } else if exists w :: w in s.waits && child in w.pids {
      var es, e := NamedSteals(s, parent, child);
    } else {
      var q :| Live(s, q) && q != parent && child in s.table[q].children && !Stuck(s, q);
      var es, e := ListedSteals(s, parent, child, q);
    }
  }

  lemma {:induction false} RunGrounded(s: State, es: seq<Event>)
    requires Inv(s) && Grounded(s) && CanRun(s, es)
    ensures Inv(Run(s, es)) && Grounded(Run(s, es))
    decreases |es|
  {
    hide Inv, Grounded;
    if es != [] {
      StepKeeps(s, es[0]);
      StepGrounded(s, es[0]);
      RunGrounded(Step(s, es[0]), es[1..]);
    }
  }

  /** So in every state that runs from the first process reach without issuing a listed identifier. */
  lemma ReachedForkExact(init: nat, devices: map<int, nat>, es: seq<Event>, parent: nat, child: nat)
    requires CanRun(Boot(init, devices), es) && Unshared(Boot(init, devices), es)
    requires Enabled(Run(Boot(init, devices), es), Fork(parent, child))
    ensures var s := Run(Boot(init, devices), es);
      (forall more, e :: CanRun(Step(s, Fork(parent, child)), more) && Unshared(Step(s, Fork(parent, child)), more) ==>
         !Misdelivers(Run(Step(s, Fork(parent, child)), more), e))
      <==> Silent(s, parent, child)
  {
    var b := Boot(init, devices);
    BootInv(init, devices);
    RunGrounded(b, es);
    RunOwn(b, es);
    ForkExact(Run(b, es), parent, child);
  }

  // ---------- an example ----------

  /** A process without open files. */
  function Proc(status: Status, parent: nat, children: seq<nat>, code: int): Process {
    Process(status, parent, children, code, map[])
  }

  /** Nobody polls or waits; so many children with identifier 3 have ended and have been handed over. */
  function Quiet(table: Table, happened: seq<nat>, ended: nat, taken: nat): State {
    State(table, [], [], happened, 0, multiset{}[3 := ended], multiset{}[3 := taken])
  }

  /** Processes 1 and 2, and 3 with its parent. */
  function Trio(one: Status, two: Status, twos: seq<nat>, three: Status, parent: nat, code: int): Table {
    map[1 := Proc(one, 0, [2, 3], 0), 2 := Proc(two, 1, twos, 0), 3 := Proc(three, parent, [], code)]
  }

  function Pair(one: Status, list: seq<nat>, two: Status): Table {
    map[1 := Proc(one, 0, list, 0), 2 := Proc(two, 1, [], 0)]
  }

  ghost predicate Next(s: State, e: Event, t: State) {
    Enabled(s, e) && Step(s, e) == t
  }

  /** A run through given states. */
  lemma {:induction false} Path(states: seq<State>, es: seq<Event>)
    requires |states| == |es| + 1 && forall k :: 0 <= k < |es| ==> Next(states[k], es[k], states[k + 1])
    ensures CanRun(states[0], es) && Run(states[0], es) == states[|es|]
    decreases |es|
  {
    if es != [] {
      assert Next(states[0], es[0], states[1]);
      Path(states[1..], es[1..]);
    }
  }

  lemma Starts()
    ensures Next(Boot(1, map[]), Fork(1, 2), Quiet(Pair(Active, [2], Runnable), [], 0, 0))
    ensures Next(Quiet(Pair(Active, [2], Runnable), [], 0, 0), Fork(1, 3),
                 Quiet(Trio(Active, Runnable, [], Runnable, 1, 0), [], 0, 0))
  {
    assert [] + [2 as nat] == [2] && [2] + [3 as nat] == [2, 3];
    var s, t := Boot(1, map[]), Quiet(Pair(Active, [2], Runnable), [], 0, 0);
    assert Step(s, Fork(1, 2)).table == t.table;
    assert Step(t, Fork(1, 3)).table == Trio(Active, Runnable, [], Runnable, 1, 0);
  }

  lemma ThreeRuns(one: Status, two: Status, twos: seq<nat>, parent: nat, m: nat)
    requires one in {Active, Runnable} && two in {Active, Runnable}
    ensures Next(Quiet(Trio(one, two, twos, Runnable, parent, 0), [], m, m), Switch(3),
                 Quiet(Trio(Runnable, Runnable, twos, Active, parent, 0), [], m, m))
  {
    var s := Quiet(Trio(one, two, twos, Runnable, parent, 0), [], m, m);
    assert Step(s, Switch(3)).table == Trio(Runnable, Runnable, twos, Active, parent, 0);
  }

  lemma OneRuns(twos: seq<nat>, parent: nat, code: int, n: nat)
    ensures Next(Quiet(Trio(Runnable, Runnable, twos, Zombie, parent, code), [3], n + 1, n), Switch(1),
                 Quiet(Trio(Active, Runnable, twos, Zombie, parent, code), [3], n + 1, n))
  {
    var s := Quiet(Trio(Runnable, Runnable, twos, Zombie, parent, code), [3], n + 1, n);
    assert Step(s, Switch(1)).table == Trio(Active, Runnable, twos, Zombie, parent, code);
  }

  lemma Ends(twos: seq<nat>, parent: nat, code: int, n: nat)
    ensures Next(Quiet(Trio(Runnable, Runnable, twos, Active, parent, 0), [], n, n), Exit(3, code),
                 Quiet(Trio(Runnable, Runnable, twos, Zombie, parent, code), [3], n + 1, n))
  {
    var s := Quiet(Trio(Runnable, Runnable, twos, Active, parent, 0), [], n, n);
    assert Step(s, Exit(3, code)).table == Trio(Runnable, Runnable, twos, Zombie, parent, code);
    assert multiset{}[3 := n] + multiset{3} == multiset{}[3 := n + 1];
  }

  lemma Reaps()
    ensures Next(Quiet(Trio(Active, Runnable, [], Zombie, 1, 0), [3], 1, 0), WaitCall(1, 3),
                 Quiet(Pair(Active, [2, 3], Runnable), [], 1, 1))
  {
    var s := Quiet(Trio(Active, Runnable, [], Zombie, 1, 0), [3], 1, 0);
    assert WaitList(s.table[1], 3) == [3] && RemoveAt([3], 0) == [];
    assert s.table - {3} == Pair(Active, [2, 3], Runnable);
    assert multiset{}[3 := 0] + multiset{3} == multiset{}[3 := 1];
  }

  lemma ReissuesThree()
    ensures Next(Quiet(Pair(Active, [2, 3], Runnable), [], 1, 1), Switch(2), Quiet(Pair(Runnable, [2, 3], Active), [], 1, 1))
    ensures Next(Quiet(Pair(Runnable, [2, 3], Active), [], 1, 1), Fork(2, 3),
                 Quiet(Trio(Runnable, Active, [3], Runnable, 2, 0), [], 1, 1))
  {
    assert [] + [3 as nat] == [3];
    var t := Quiet(Pair(Active, [2, 3], Runnable), [], 1, 1);
    assert Step(t, Switch(2)).table == Pair(Runnable, [2, 3], Active);
    var u := Quiet(Pair(Runnable, [2, 3], Active), [], 1, 1);
    assert Step(u, Fork(2, 3)).table == Trio(Runnable, Active, [3], Runnable, 2, 0);
  }

  lemma Steals()
    ensures var s := Quiet(Trio(Active, Runnable, [3], Zombie, 2, 7), [3], 2, 1);
      && Misdelivers(s, WaitCall(1, -1)) && Waited(s, 1, -1).1 == Value(3, 7) && 3 in s.table && s.table[3].parent == 2
      && var t := Step(s, WaitCall(1, -1));
      && Enabled(t, Switch(2)) && Running(Step(t, Switch(2)), 2) && Waited(Step(t, Switch(2)), 2, 3).1 == Blocked
  {
    var s := Quiet(Trio(Active, Runnable, [3], Zombie, 2, 7), [3], 2, 1);
    assert FirstEnded([3], [2, 3]) == 0;
    var t := Step(s, WaitCall(1, -1));
    assert t.happened == [] && t.table == s.table - {3};
    assert WaitList(t.table[2], 3) == [3];
  }

  /** Process 1 reaps its child 3 and keeps it on its list; the identifier is issued again to a child of
      process 2, and the next wait of process 1 takes that one. Its own parent then waits in vain. */
  lemma StolenChild()
    ensures var es := [Fork(1, 2), Fork(1, 3), Switch(3), Exit(3, 0), Switch(1), WaitCall(1, 3), Switch(2),
                       Fork(2, 3), Switch(3), Exit(3, 7), Switch(1)];
      && CanRun(Boot(1, map[]), es)
      && var s := Run(Boot(1, map[]), es);
      && Misdelivers(s, WaitCall(1, -1)) && Waited(s, 1, -1).1 == Value(3, 7) && 3 in s.table && s.table[3].parent == 2
      && var t := Step(s, WaitCall(1, -1));
      && Enabled(t, Switch(2)) && Running(Step(t, Switch(2)), 2) && Waited(Step(t, Switch(2)), 2, 3).1 == Blocked
  {
    hide Next, Quiet, Trio, Pair, Boot, CanRun, Run, Step, Enabled, Running, Waited, Misdelivers;
    Starts();
    ThreeRuns(Active, Runnable, [], 1, 0);
    Ends([], 1, 0, 0);
    OneRuns([], 1, 0, 0);
    Reaps();
    ReissuesThree();
    ThreeRuns(Runnable, Active, [3], 2, 1);
    Ends([3], 2, 7, 1);
    OneRuns([3], 2, 7, 1);
    Steals();
    var none, once := Quiet(Pair(Active, [2], Runnable), [], 0, 0), Quiet(Pair(Active, [2, 3], Runnable), [], 1, 1);
    var states := [Boot(1, map[]), none,
                   Quiet(Trio(Active, Runnable, [], Runnable, 1, 0), [], 0, 0),
                   Quiet(Trio(Runnable, Runnable, [], Active, 1, 0), [], 0, 0),
                   Quiet(Trio(Runnable, Runnable, [], Zombie, 1, 0), [3], 1, 0),
                   Quiet(Trio(Active, Runnable, [], Zombie, 1, 0), [3], 1, 0), once,
                   Quiet(Pair(Runnable, [2, 3], Active), [], 1, 1),
                   Quiet(Trio(Runnable, Active, [3], Runnable, 2, 0), [], 1, 1),
                   Quiet(Trio(Runnable, Runnable, [3], Active, 2, 0), [], 1, 1),
                   Quiet(Trio(Runnable, Runnable, [3], Zombie, 2, 7), [3], 2, 1),
                   Quiet(Trio(Active, Runnable, [3], Zombie, 2, 7), [3], 2, 1)];
    Path(states, [Fork(1, 2), Fork(1, 3), Switch(3), Exit(3, 0), Switch(1), WaitCall(1, 3), Switch(2),
                  Fork(2, 3), Switch(3), Exit(3, 7), Switch(1)]);
  }
}
