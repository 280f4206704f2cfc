/** What the signal manager keeps, over every interleaving of its steps. */
module SignalTheorems {
  import opened Signals

  // ---------- polls ----------

  /** The poll has fired, or as many ticks as its timeout have gone by. */
  predicate Over(s: State, p: Poll) {
    p.revents != {} || (p.due >= 0 && s.clock >= p.due)
  }

  predicate Counting(s: State, p: Poll) {
    && (p.due < 0 ==> p.timeLeft < 0)
    && (p.due >= 0 && p.timeLeft > 0 ==> p.timeLeft == p.due - s.clock)
    && (p.due >= 0 && p.timeLeft <= 0 ==> s.clock >= p.due)
  }

  /** No sleeping process owns a poll that is over, and a process in the list is awake only because one
      of its polls is over. */
  ghost predicate PollOk(s: State, p: Poll) {
    && p.pid in s.table && s.table[p.pid].status != Zombie && Counting(s, p)
    && (Over(s, p) ==> !Asleep(s.table, p.pid))
    && (!Asleep(s.table, p.pid) ==> Reason(s, p.pid))
  }

  ghost predicate Reason(s: State, pid: nat) {
    exists q :: q in s.polls && q.pid == pid && Over(s, q)
  }

  ghost predicate PollInv(s: State) {
    forall p :: p in s.polls ==> PollOk(s, p)
  }

  predicate Matches(table: Table, p: Poll, dev: nat, ev: set<Flag>) {
    DeviceOf(table, p.pid, p.req.fd) == dev && p.req.events * ev != {}
  }

  function AfterEvent(table: Table, p: Poll, dev: nat, ev: set<Flag>): Poll {
    if Matches(table, p, dev, ev) then p.(revents := p.revents + p.req.events * ev) else p
  }

  /** The same processes, and each one as it was or woken up. */
  ghost predicate SomeWoken(before: Table, after: Table) {
    && after.Keys == before.Keys
    && (forall q :: q in before ==> after[q] == before[q] || after[q] == Woken(before, q)[q])
  }

  /** What an event does to the processes. */
  lemma {:induction false} NotifiedTable(polls: seq<Poll>, table: Table, dev: nat, ev: set<Flag>)
    ensures var after := Notified(polls, table, dev, ev).1;
      && SomeWoken(table, after)
      && (forall q :: q in table ==>
            (after[q] != table[q] ==> exists p :: p in polls && p.pid == q && Matches(table, p, dev, ev)))
      && (forall p :: p in polls && p.pid in table && Matches(table, p, dev, ev) ==> !Asleep(after, p.pid))
  {
    if polls != [] {
      var p := polls[0];
      var mid := if p.pid in table && Matches(table, p, dev, ev) then Woken(table, p.pid) else table;
      NotifiedTable(polls[1..], mid, dev, ev);
      assert forall q :: q in polls <==> q == p || q in polls[1..];
      assert forall q: Poll :: Matches(mid, q, dev, ev) == Matches(table, q, dev, ev);
    }
  }

  /** What it does to the list. */
  lemma {:induction false} NotifiedPolls(polls: seq<Poll>, table: Table, dev: nat, ev: set<Flag>)
    ensures forall p :: p in polls && p.pid in table ==> AfterEvent(table, p, dev, ev) in Notified(polls, table, dev, ev).0
    ensures forall o :: o in Notified(polls, table, dev, ev).0 ==>
      exists p :: p in polls && p.pid in table && o == AfterEvent(table, p, dev, ev)
  {
    if polls != [] {
      var p := polls[0];
      var mid := if p.pid in table && Matches(table, p, dev, ev) then Woken(table, p.pid) else table;
      NotifiedPolls(polls[1..], mid, dev, ev);
      assert forall q :: q in polls <==> q == p || q in polls[1..];
      assert forall q: Poll :: Matches(mid, q, dev, ev) == Matches(table, q, dev, ev);
      forall o | o in Notified(polls, table, dev, ev).0
        ensures exists q :: q in polls && q.pid in table && o == AfterEvent(table, q, dev, ev)
      {
        if o in Notified(polls[1..], mid, dev, ev).0 {
          var q :| q in polls[1..] && q.pid in mid && o == AfterEvent(mid, q, dev, ev);
          assert q in polls;
        }
      }
    }
  }

  lemma NotifiedIs(polls: seq<Poll>, table: Table, dev: nat, ev: set<Flag>)
    ensures var (out, after) := Notified(polls, table, dev, ev);
      && SomeWoken(table, after)
      && (forall q :: q in table ==>
            (after[q] != table[q] ==> exists p :: p in polls && p.pid == q && Matches(table, p, dev, ev)))
      && (forall p :: p in polls && p.pid in table && Matches(table, p, dev, ev) ==> !Asleep(after, p.pid))
      && (forall p :: p in polls && p.pid in table ==> AfterEvent(table, p, dev, ev) in out)
      && (forall o :: o in out ==> exists p :: p in polls && p.pid in table && o == AfterEvent(table, p, dev, ev))
  {
    hide Notified, SomeWoken, Matches, AfterEvent;
    NotifiedTable(polls, table, dev, ev);
    NotifiedPolls(polls, table, dev, ev);
  }

  predicate Expires(p: Poll, tick: nat) {
    p.timeLeft >= 0 && p.timeLeft <= tick
  }

  function AfterTick(p: Poll, tick: nat): Poll {
    if p.timeLeft < 0 then p else p.(timeLeft := p.timeLeft - tick)
  }

  lemma {:induction false} TickedIs(polls: seq<Poll>, table: Table, tick: nat)
    ensures var (out, after) := Ticked(polls, table, tick);
      && SomeWoken(table, after)
      && (forall q :: q in table ==>
            (after[q] != table[q] ==> exists p :: p in polls && p.pid == q && Expires(p, tick)))
      && (forall p :: p in polls && p.pid in table && Expires(p, tick) ==> !Asleep(after, p.pid))
      && (forall p :: p in polls && p.pid in table ==> AfterTick(p, tick) in out)
      && (forall o :: o in out ==> exists p :: p in polls && (p.pid in table || !Expires(p, tick)) && o == AfterTick(p, tick))
  {
    if polls != [] {
      var p := polls[0];
      var mid := if p.pid in table && Expires(p, tick) then Woken(table, p.pid) else table;
      TickedIs(polls[1..], mid, tick);
      assert forall q :: q in polls <==> q == p || q in polls[1..];
    }
  }

  lemma {:induction false} WithoutIs(polls: seq<Poll>, pid: nat)
    ensures forall p :: p in Without(polls, pid) <==> p in polls && p.pid != pid
  {
    if polls != [] {
      WithoutIs(polls[1..], pid);
      assert forall q :: q in polls <==> q == polls[0] || q in polls[1..];
    }
  }

  lemma {:induction false} RegisteredIs(process: Process, pid: nat, fds: seq<Request>, ready: map<nat, set<Flag>>, timeout: int, clock: nat)
    ensures forall p :: p in Registered(process, pid, fds, ready, timeout, clock) ==>
      p.pid == pid && p.revents == {} && p.timeLeft == timeout && p.due == if timeout < 0 then -1 else clock + timeout
  {
    if fds != [] {
      RegisteredIs(process, pid, fds[1..], ready, timeout, clock);
    }
  }

  lemma WokenStatus(before: Table, after: Table)
    requires SomeWoken(before, after)
    ensures forall q :: q in before ==> q in after && (after[q].status == Zombie <==> before[q].status == Zombie)
    ensures forall q :: Asleep(after, q) ==> Asleep(before, q)
  {
  }

  /** An event leaves a poll over exactly if it was over or the event matches it. */
  lemma EventOver(s: State, t: State, p: Poll, dev: nat, ev: set<Flag>)
    requires t.clock == s.clock
    ensures Over(t, AfterEvent(s.table, p, dev, ev)) <==> Over(s, p) || Matches(s.table, p, dev, ev)
  {
    if Matches(s.table, p, dev, ev) {
      var f :| f in p.req.events * ev;
      assert f in p.revents + p.req.events * ev;
    }
  }

  /** A tick leaves a poll that keeps its count over exactly if it was over or expires now. */
  lemma TickOver(s: State, t: State, p: Poll, tick: nat)
    requires t.clock == s.clock + tick && Counting(s, p)
    ensures Counting(t, AfterTick(p, tick))
    ensures Over(t, AfterTick(p, tick)) <==> Over(s, p) || Expires(p, tick)
  {
  }

  lemma FileEventKeepsPolls(s: State, dev: nat, ev: set<Flag>)
    requires PollInv(s) && dev != 0
    ensures var r := Notified(s.polls, s.table, dev, ev); PollInv(s.(polls := r.0, table := r.1))
  {
    var r := Notified(s.polls, s.table, dev, ev);
    var t := s.(polls := r.0, table := r.1);
    hide Notified, Matches, SomeWoken, Over, AfterEvent;
    NotifiedIs(s.polls, s.table, dev, ev);
    WokenStatus(s.table, t.table);
    forall o | o in t.polls
      ensures PollOk(t, o)
    {
      var p :| p in s.polls && p.pid in s.table && o == AfterEvent(s.table, p, dev, ev);
      EventKeeps(s.table, p, dev, ev);
      assert PollOk(s, p);
      EventOver(s, t, p, dev, ev);
      if !Asleep(t.table, o.pid) {
        if Asleep(s.table, o.pid) {
          var q :| q in s.polls && q.pid == p.pid && Matches(s.table, q, dev, ev);
          EventReason(s, t, q, dev, ev);
        } else {
          var q :| q in s.polls && q.pid == p.pid && Over(s, q);
          EventReason(s, t, q, dev, ev);
        }
      }
    }
  }

  lemma EventKeeps(table: Table, p: Poll, dev: nat, ev: set<Flag>)
    ensures var q := AfterEvent(table, p, dev, ev); q.pid == p.pid && q.due == p.due && q.timeLeft == p.timeLeft
  {
  }

  lemma EventReason(s: State, t: State, q: Poll, dev: nat, ev: set<Flag>)
    requires t.clock == s.clock && AfterEvent(s.table, q, dev, ev) in t.polls
    requires Over(s, q) || Matches(s.table, q, dev, ev)
    ensures Reason(t, q.pid)
  {
    EventOver(s, t, q, dev, ev);
    EventKeeps(s.table, q, dev, ev);
  }

  lemma TickKeepsPolls(s: State, tick: nat)
    requires PollInv(s)
    ensures var r := Ticked(s.polls, s.table, tick); PollInv(s.(polls := r.0, table := r.1, clock := s.clock + tick))
  {
    var r := Ticked(s.polls, s.table, tick);
    var t := s.(polls := r.0, table := r.1, clock := s.clock + tick);
    hide Ticked, SomeWoken, Over;
    TickedIs(s.polls, s.table, tick);
    WokenStatus(s.table, t.table);
    forall o | o in t.polls
      ensures PollOk(t, o)
    {
      var p :| p in s.polls && o == AfterTick(p, tick);
      assert PollOk(s, p);
      TickOver(s, t, p, tick);
      if !Asleep(t.table, o.pid) {
        if Asleep(s.table, o.pid) {
          var q :| q in s.polls && q.pid == p.pid && Expires(q, tick);
          TickReason(s, t, q, tick);
        } else {
          var q :| q in s.polls && q.pid == p.pid && Over(s, q);
          TickReason(s, t, q, tick);
        }
      }
    }
  }

  lemma TickReason(s: State, t: State, q: Poll, tick: nat)
    requires t.clock == s.clock + tick && AfterTick(q, tick) in t.polls && PollOk(s, q)
    requires Over(s, q) || Expires(q, tick)
    ensures Reason(t, q.pid)
  {
    TickOver(s, t, q, tick);
  }

  // ---------- waits ----------

  /** Ended children recorded in a wait whose owner has been woken but has not yet run. */
  function Resolved(waits: seq<Wait>, table: Table): multiset<nat> {
    if waits == [] then multiset{}
    else
      (if Asleep(table, waits[0].pid) || waits[0].pids == [] then multiset{} else multiset{waits[0].pids[0]})
      + Resolved(waits[1..], table)
  }

  predicate Ending(table: Table, c: nat) {
    c in table && table[c].status == Zombie
  }

  ghost predicate WaitInv(s: State) {
    && OneEach(s.waits)
    && (forall w :: w in s.waits ==> WaitOk(s, w))
    && Accounted(s)
  }

  /** No process has two pending waits. */
  predicate OneEach(waits: seq<Wait>) {
    forall i, j :: 0 <= i < j < |waits| ==> waits[i].pid != waits[j].pid
  }

  /** Ended children not yet returned: on the list, or recorded in a wait whose owner has been woken. */
  function Outstanding(s: State): multiset<nat> {
    multiset(s.happened) + Resolved(s.waits, s.table)
  }

  /** Every exit has been returned or is outstanding, and a child is outstanding once from its exit
      until it is returned. */
  ghost predicate Accounted(s: State) {
    && s.exits == s.returned + Outstanding(s)
    && (forall c :: Outstanding(s)[c] == if Ending(s.table, c) then 1 else 0)
  }

  ghost predicate WaitOk(s: State, w: Wait) {
    && w.pid in s.table && s.table[w.pid].status != Zombie
    && w.pids != []
    && (forall p :: p in s.polls ==> p.pid != w.pid)
    && (forall c :: c in w.pids ==> c in s.table[w.pid].children)
    // a process still asleep has no ended child waiting for it
    && (Asleep(s.table, w.pid) ==> forall c :: c in w.pids ==> c !in s.happened)
    && (!Asleep(s.table, w.pid) ==> |w.pids| == 1 && w.pids[0] in s.table && w.local == s.table[w.pids[0]].code)
  }

  lemma {:induction false} ResolvedFrame(waits: seq<Wait>, before: Table, after: Table)
    requires forall w :: w in waits ==> Asleep(before, w.pid) == Asleep(after, w.pid)
    ensures Resolved(waits, before) == Resolved(waits, after)
  {
    if waits != [] {
      ResolvedFrame(waits[1..], before, after);
    }
  }

  lemma {:induction false} ResolvedAppend(waits: seq<Wait>, w: Wait, table: Table)
    ensures Resolved(waits + [w], table) == Resolved(waits, table) + Resolved([w], table)
  {
    if waits == [] {
      assert waits + [w] == [w];
    } else {
      assert (waits + [w])[1..] == waits[1..] + [w];
      ResolvedAppend(waits[1..], w, table);
    }
  }

  /** One woken wait contributes the child it names, and removing it takes exactly that away. */
  lemma {:induction false} ResolvedRemove(waits: seq<Wait>, i: nat, table: Table)
    requires i < |waits|
    ensures Resolved(waits, table) == Resolved(RemoveAt(waits, i), table) + Resolved([waits[i]], table)
  {
    hide Resolved;
    ResolvedFirst(waits, table);
    if i == 0 {
      assert RemoveAt(waits, 0) == waits[1..];
    } else {
      var rest, tail := RemoveAt(waits, i), waits[1..];
      RemoveFromTail(waits, i);
      ResolvedFirst(rest, table);
      ResolvedRemove(tail, i - 1, table);
    }
  }

  lemma RemoveFromTail(waits: seq<Wait>, i: nat)
    requires 0 < i < |waits|
    ensures RemoveAt(waits, i)[1..] == RemoveAt(waits[1..], i - 1)
    ensures RemoveAt(waits, i)[0] == waits[0] && waits[1..][i - 1] == waits[i]
  {
  }

  lemma ResolvedFirst(waits: seq<Wait>, table: Table)
    requires waits != []
    ensures Resolved(waits, table) == Resolved([waits[0]], table) + Resolved(waits[1..], table)
  {
  }

  lemma {:induction false} ResolvedReplace(waits: seq<Wait>, i: nat, w: Wait, table: Table)
    requires i < |waits|
    ensures Resolved(waits[i := w], table) == Resolved(RemoveAt(waits, i), table) + Resolved([w], table)
  {
    ResolvedRemove(waits[i := w], i, table);
    assert RemoveAt(waits[i := w], i) == RemoveAt(waits, i);
  }

  lemma {:induction false} ResolvedHas(waits: seq<Wait>, i: nat, table: Table)
    requires i < |waits| && waits[i].pids != [] && !Asleep(table, waits[i].pid)
    ensures waits[i].pids[0] in Resolved(waits, table)
  {
    ResolvedRemove(waits, i, table);
  }

  lemma {:induction false} OthersIs(happened: seq<nat>, c: nat)
    requires c !in happened
    ensures Others(happened, c) == happened
  {
    if happened != [] {
      OthersIs(happened[1..], c);
    }
  }

  lemma {:induction false} WaitsOfOthersIs(waits: seq<Wait>, c: nat)
    requires forall w :: w in waits ==> w.pid != c
    ensures WaitsOfOthers(waits, c) == waits
  {
    if waits != [] {
      WaitsOfOthersIs(waits[1..], c);
    }
  }

  // ---------- the steps ----------

  ghost predicate Inv(s: State) {
    PollInv(s) && WaitInv(s)
  }

  /** Steps that leave the owners of pending polls as they are. */
  lemma PollFrame(s: State, t: State)
    requires PollInv(s) && t.clock == s.clock
    requires forall p :: p in t.polls <==> p in s.polls
    requires forall p :: p in s.polls ==>
      p.pid in t.table && (t.table[p.pid].status == Zombie <==> s.table[p.pid].status == Zombie) && Asleep(t.table, p.pid) == Asleep(s.table, p.pid)
    ensures PollInv(t)
  {
    forall p | p in t.polls
      ensures PollOk(t, p)
    {
      assert PollOk(s, p);
      if Reason(s, p.pid) {
        var q :| q in s.polls && q.pid == p.pid && Over(s, q);
        assert q in t.polls && Over(t, q);
      }
    }
  }

  /** Steps that leave the owners of pending waits and the ended children as they are. */
  lemma WaitFrame(s: State, t: State)
    requires WaitInv(s)
    requires t.waits == s.waits && t.happened == s.happened && t.exits == s.exits && t.returned == s.returned
    requires forall w :: w in s.waits ==> Asleep(t.table, w.pid) == Asleep(s.table, w.pid)
    requires forall q :: q in s.table ==>
      && q in t.table && t.table[q].code == s.table[q].code
      && (forall c :: c in s.table[q].children ==> c in t.table[q].children)
    requires forall c :: Ending(t.table, c) == Ending(s.table, c)
    requires forall w, p :: w in t.waits && p in t.polls ==> p.pid != w.pid
    ensures WaitInv(t)
  {
    ResolvedFrame(s.waits, s.table, t.table);
    forall w | w in t.waits
      ensures WaitOk(t, w)
    {
      assert WaitOk(s, w);
      assert !Ending(s.table, w.pid);
    }
  }

  lemma OwnersListed(s: State)
    requires Inv(s)
    ensures forall p :: p in s.polls ==> p.pid in s.table && s.table[p.pid].status != Zombie
    ensures forall w :: w in s.waits ==> w.pid in s.table && s.table[w.pid].status != Zombie && forall p :: p in s.polls ==> p.pid != w.pid
  {
    assert forall w :: w in s.waits ==> WaitOk(s, w);
    assert forall p :: p in s.polls ==> PollOk(s, p);
  }

  lemma SwitchKeeps(s: State, pid: nat)
    requires Inv(s) && Enabled(s, Switch(pid))
    ensures Inv(Step(s, Switch(pid)))
  {
    hide PollInv, WaitInv;
    var t := Step(s, Switch(pid));
    OwnersListed(s);
    PollFrame(s, t);
    WaitFrame(s, t);
  }

  lemma ForkKeeps(s: State, parent: nat, child: nat)
    requires Inv(s) && Enabled(s, Fork(parent, child))
    ensures Inv(Step(s, Fork(parent, child)))
  {
    hide PollInv, WaitInv, Running;
    RunningFacts(s, parent);
    var t := Step(s, Fork(parent, child));
    OwnersListed(s);
    PollFrame(s, t);
    WaitFrame(s, t);
  }

  lemma PollResumeKeeps(s: State, pid: nat)
    requires Inv(s) && Enabled(s, PollResume(pid))
    ensures Inv(Step(s, PollResume(pid)))
  {
    var t := Step(s, PollResume(pid));
    WithoutIs(s.polls, pid);
    forall p | p in t.polls
      ensures PollOk(t, p)
    {
      assert PollOk(s, p);
      if Reason(s, p.pid) {
        var q :| q in s.polls && q.pid == p.pid && Over(s, q);
        assert q in t.polls && Over(t, q);
      }
    }
    assert forall w :: w in s.waits ==> WaitOk(s, w);
    WaitFrame(s, t);
  }

  lemma FileEventKeeps(s: State, dev: nat, ev: set<Flag>)
    requires Inv(s) && dev != 0
    ensures Inv(Step(s, FileEvent(dev, ev)))
  {
    FileEventKeepsPolls(s, dev, ev);
    NotifiedIs(s.polls, s.table, dev, ev);
    var r := Notified(s.polls, s.table, dev, ev);
    hide Notified;
    OnlyPollersWake(s, s.(polls := r.0, table := r.1));
  }

  lemma TickKeeps(s: State, tick: nat)
    requires Inv(s)
    ensures Inv(Step(s, Tick(tick)))
  {
    hide Ticked, SomeWoken, PollInv, WaitInv;
    var r := Ticked(s.polls, s.table, tick);
    var t := s.(polls := r.0, table := r.1, clock := s.clock + tick);
    TickKeepsPolls(s, tick);
    TickedIs(s.polls, s.table, tick);
    OnlyPollersWake(s, t);
    assert Step(s, Tick(tick)) == t;
  }

  /** Waking the owners of polls never touches a process that waits for a child. */
  lemma OnlyPollersWake(s: State, t: State)
    requires WaitInv(s)
    requires t.waits == s.waits && t.happened == s.happened && t.exits == s.exits && t.returned == s.returned
    requires SomeWoken(s.table, t.table)
    requires forall q :: q in s.table && t.table[q] != s.table[q] ==> exists p :: p in s.polls && p.pid == q
    requires forall o :: o in t.polls ==> exists p :: p in s.polls && o.pid == p.pid
    ensures WaitInv(t)
  {
    forall w | w in s.waits
      ensures Asleep(t.table, w.pid) == Asleep(s.table, w.pid)
    {
      assert WaitOk(s, w);
    }
    forall w, o | w in t.waits && o in t.polls
      ensures o.pid != w.pid
    {
      assert WaitOk(s, w);
    }
    WaitFrame(s, t);
  }

  lemma PollCallKeeps(s: State, pid: nat, fds: seq<Request>, ready: map<nat, set<Flag>>, timeout: int)
    requires Inv(s) && Running(s, pid)
    ensures Inv(Polled(s, pid, fds, ready, timeout).0)
  {
    hide Registered, ReadyCount, PollInv, WaitInv, Running;
    RunningFacts(s, pid);
    var t := Polled(s, pid, fds, ready, timeout).0;
    var added := Registered(s.table[pid], pid, fds, ready, timeout, s.clock);
    RegisteredIs(s.table[pid], pid, fds, ready, timeout, s.clock);
    if t.polls == s.polls + added && t.table != s.table {
      AddedKeeps(s, pid, added, timeout);
    } else if t != s {
      WithoutIs(s.polls + added, pid);
      assert forall p :: p in t.polls <==> p in s.polls;
      PollFrame(s, t);
      WaitFrame(s, t);
    }
  }

  lemma RunningFacts(s: State, pid: nat)
    requires Inv(s) && Running(s, pid)
    ensures forall p :: p in s.polls ==> p.pid != pid && p.pid in s.table
    ensures forall w :: w in s.waits ==> w.pid != pid && forall p :: p in s.polls ==> p.pid != w.pid
    ensures pid in s.table && s.table[pid].status == Active
  {
    assert forall w :: w in s.waits ==> WaitOk(s, w);
    assert forall p :: p in s.polls ==> PollOk(s, p);
  }

  /** New polls of a process that goes to sleep have neither fired nor run out. */
  lemma AddedKeeps(s: State, pid: nat, added: seq<Poll>, timeout: int)
    requires Inv(s) && Running(s, pid) && timeout != 0
    requires forall p :: p in added ==>
      p.pid == pid && p.revents == {} && p.timeLeft == timeout && p.due == if timeout < 0 then -1 else s.clock + timeout
    ensures Inv(s.(polls := s.polls + added, table := s.table[pid := s.table[pid].(status := Sleeping)]))
  {
    var t := s.(polls := s.polls + added, table := s.table[pid := s.table[pid].(status := Sleeping)]);
    RunningFacts(s, pid);
    WaitFrame(s, t);
    forall p | p in t.polls
      ensures PollOk(t, p)
    {
      if p in s.polls {
        assert PollOk(s, p);
        if Reason(s, p.pid) {
          var q :| q in s.polls && q.pid == p.pid && Over(s, q);
          assert q in t.polls && Over(t, q);
        }
      }
    }
  }

  /** The child is out of its place, and only the record that it was returned is still to be made. */
  ghost predicate Leaving(s: State, c: nat) {
    && OneEach(s.waits)
    && (forall w :: w in s.waits ==> WaitOk(s, w))
    && Ending(s.table, c)
    && s.exits == s.returned + multiset{c} + Outstanding(s)
    && (forall d :: Outstanding(s)[d] == if d != c && Ending(s.table, d) then 1 else 0)
  }

  lemma LeavingFacts(s: State, c: nat)
    requires PollInv(s) && Leaving(s, c)
    ensures c !in s.happened && Ending(s.table, c)
    ensures forall w :: w in s.waits ==> w.pid != c
    ensures forall p :: p in s.polls ==> p.pid != c && p.pid in s.table
  {
    assert Outstanding(s)[c] == 0;
    hide Resolved;
    assert forall w :: w in s.waits ==> WaitOk(s, w);
    assert forall p :: p in s.polls ==> PollOk(s, p);
  }

  lemma CollectKeeps(s: State, c: nat)
    requires PollInv(s) && Leaving(s, c)
    ensures Inv(Collected(s, c))
  {
    hide Outstanding, Resolved, Leaving, PollInv, WaitInv;
    var t := Collected(s, c);
    WithoutIs(s.polls, c);
    LeavingFacts(s, c);
    OthersIs(s.happened, c);
    WaitsOfOthersIs(s.waits, c);
    PollFrame(s, t);
    CollectedWaits(s, t, c);
  }

  lemma CollectedWaits(s: State, t: State, c: nat)
    requires Leaving(s, c)
    requires t.table == s.table - {c} && t.waits == s.waits && t.happened == s.happened
    requires t.exits == s.exits && t.returned == s.returned + multiset{c}
    requires forall p :: p in t.polls ==> p in s.polls
    ensures WaitInv(t)
  {
    assert Outstanding(s)[c] == 0;
    hide OneEach, Accounted, Outstanding, Resolved;
    forall w | w in s.waits
      ensures WaitOk(t, w)
    {
      assert WaitOk(s, w);
      NotNamed(s, c, w);
    }
    CollectedAccount(s, t, c);
  }

  lemma CollectedAccount(s: State, t: State, c: nat)
    requires Leaving(s, c)
    requires t.table == s.table - {c} && t.waits == s.waits && t.happened == s.happened
    requires t.exits == s.exits && t.returned == s.returned + multiset{c}
    ensures Accounted(t)
  {
    forall w | w in s.waits
      ensures Asleep(t.table, w.pid) == Asleep(s.table, w.pid)
    {
      assert WaitOk(s, w);
    }
    ResolvedFrame(s.waits, s.table, t.table);
    assert Outstanding(t) == Outstanding(s);
    hide Outstanding, Resolved, WaitOk, OneEach;
    forall d
      ensures Outstanding(t)[d] == if Ending(t.table, d) then 1 else 0
    {
      assert Ending(t.table, d) <==> d != c && Ending(s.table, d);
    }
  }

  /** A wait that has been answered names a child that is still outstanding. */
  lemma NotNamed(s: State, c: nat, w: Wait)
    requires w in s.waits && w.pids != [] && Outstanding(s)[c] == 0
    ensures !Asleep(s.table, w.pid) ==> w.pids[0] != c
  {
    if !Asleep(s.table, w.pid) {
      var i :| 0 <= i < |s.waits| && s.waits[i] == w;
      ResolvedHas(s.waits, i, s.table);
    }
  }

  lemma WaitCallKeeps(s: State, pid: nat, which: int)
    requires Inv(s) && Running(s, pid)
    ensures Inv(Waited(s, pid, which).0)
  {
    hide PollInv, WaitInv, Leaving;
    RunningFacts(s, pid);
    OwnersListed(s);
    var pids := WaitList(s.table[pid], which);
    if pids != [] {
      var i := FirstEnded(s.happened, pids);
      if i < |s.happened| {
        TakenFromList(s, i);
        PollFrame(s, s.(happened := RemoveAt(s.happened, i)));
        CollectKeeps(s.(happened := RemoveAt(s.happened, i)), s.happened[i]);
      } else {
        WaitRegistered(s, pid, pids);
      }
    }
  }

  lemma TakenFromList(s: State, i: nat)
    requires WaitInv(s) && i < |s.happened|
    ensures Leaving(s.(happened := RemoveAt(s.happened, i)), s.happened[i])
  {
    hide OneEach;
    var c, t := s.happened[i], s.(happened := RemoveAt(s.happened, i));
    forall w | w in t.waits
      ensures WaitOk(t, w)
    {
      assert WaitOk(s, w);
    }
    hide WaitOk, Resolved;
    assert s.happened == s.happened[..i] + [c] + s.happened[i + 1..];
    assert multiset(s.happened) == multiset(t.happened) + multiset{c};
    assert Outstanding(s)[c] > 0;
  }

  lemma WaitRegistered(s: State, pid: nat, pids: seq<nat>)
    requires Inv(s) && Running(s, pid) && pids != []
    requires forall c :: c in pids ==> c in s.table[pid].children && c !in s.happened
    ensures Inv(s.(waits := s.waits + [Wait(pid, pids, 0)], table := s.table[pid := s.table[pid].(status := Sleeping)]))
  {
    var t := s.(waits := s.waits + [Wait(pid, pids, 0)], table := s.table[pid := s.table[pid].(status := Sleeping)]);
    hide PollInv, WaitInv;
    RunningFacts(s, pid);
    OwnersListed(s);
    PollFrame(s, t);
    RegisteredWaits(s, t, pid, pids);
  }

  lemma RegisteredWaits(s: State, t: State, pid: nat, pids: seq<nat>)
    requires WaitInv(s) && pid in s.table && s.table[pid].status == Active && pids != []
    requires forall w :: w in s.waits ==> w.pid != pid
    requires forall p :: p in s.polls ==> p.pid != pid
    requires forall c :: c in pids ==> c in s.table[pid].children && c !in s.happened
    requires t == s.(waits := s.waits + [Wait(pid, pids, 0)], table := s.table[pid := s.table[pid].(status := Sleeping)])
    ensures WaitInv(t)
  {
    hide Accounted, Outstanding, Resolved;
    RegisteredAccount(s, t, pid, pids);
    forall w | w in t.waits
      ensures WaitOk(t, w)
    {
      if w in s.waits {
        assert WaitOk(s, w);
      }
    }
  }

  lemma AsleepCountsNothing(w: Wait, table: Table)
    requires Asleep(table, w.pid)
    ensures Resolved([w], table) == multiset{}
  {
  }

  lemma AwakeCountsOne(w: Wait, table: Table)
    requires !Asleep(table, w.pid) && w.pids != []
    ensures Resolved([w], table) == multiset{w.pids[0]}
  {
  }

  lemma RegisteredAccount(s: State, t: State, pid: nat, pids: seq<nat>)
    requires Accounted(s) && pid in s.table && s.table[pid].status == Active
    requires forall w :: w in s.waits ==> w.pid != pid
    requires t == s.(waits := s.waits + [Wait(pid, pids, 0)], table := s.table[pid := s.table[pid].(status := Sleeping)])
    ensures Accounted(t)
  {
    hide Resolved;
    ResolvedAppend(s.waits, Wait(pid, pids, 0), t.table);
    ResolvedFrame(s.waits, s.table, t.table);
    AsleepCountsNothing(Wait(pid, pids, 0), t.table);
    assert Outstanding(t) == Outstanding(s);
    hide Outstanding, Resolved;
    assert forall d :: Ending(t.table, d) <==> Ending(s.table, d);
  }

  lemma WaitResumeKeeps(s: State, pid: nat)
    requires Inv(s) && Enabled(s, WaitResume(pid))
    ensures var i := WaitOf(s.waits, pid);
      && i < |s.waits| && s.waits[i].pids != []
      && Ending(s.table, s.waits[i].pids[0])
      && Inv(Resumed(s, pid).0)
  {
    hide PollInv;
    var i := WaitOf(s.waits, pid);
    assert WaitOk(s, s.waits[i]);
    OwnersListed(s);
    var t := s.(waits := RemoveAt(s.waits, i));
    TakenFromWait(s, i);
    PollFrame(s, t);
    hide WaitInv, Leaving;
    CollectKeeps(t, s.waits[i].pids[0]);
  }

  lemma TakenFromWait(s: State, i: nat)
    requires WaitInv(s) && i < |s.waits| && !Asleep(s.table, s.waits[i].pid) && s.waits[i].pids != []
    ensures Leaving(s.(waits := RemoveAt(s.waits, i)), s.waits[i].pids[0])
  {
    hide Resolved;
    var c, t := s.waits[i].pids[0], s.(waits := RemoveAt(s.waits, i));
    ResolvedRemove(s.waits, i, s.table);
    AwakeCountsOne(s.waits[i], s.table);
    assert Outstanding(s) == Outstanding(t) + multiset{c};
    assert Outstanding(s)[c] > 0;
    forall w | w in t.waits
      ensures WaitOk(t, w)
    {
      assert WaitOk(s, w);
    }
  }

  lemma ExitKeeps(s: State, pid: nat, code: int)
    requires Inv(s) && Running(s, pid)
    ensures Inv(Ended(s, pid, code))
  {
    hide PollInv, WaitInv, Running;
    var i := WaitFor(s.waits, pid);
    RunningFacts(s, pid);
    OwnersListed(s);
    if i < |s.waits| {
      assert s.waits[i] in s.waits;
    }
    PollFrame(s, Ended(s, pid, code));
    ExitWaits(s, pid, code);
  }

  /** An exit wakes the first sleeping process that waits for it, or else goes on the list. */
  lemma ExitWaits(s: State, pid: nat, code: int)
    requires WaitInv(s) && pid in s.table && s.table[pid].status == Active
    requires forall w :: w in s.waits ==> w.pid != pid
    ensures WaitInv(Ended(s, pid, code))
  {
    assert Outstanding(s)[pid] == 0;
    hide Outstanding, Resolved;
    ExitOutstanding(s, pid, code);
    ExitAccount(s, pid, code);
    var t := Ended(s, pid, code);
    EndedOneEach(s, pid, code);
    hide Accounted, WaitOk, OneEach;
    forall j | 0 <= j < |t.waits|
      ensures WaitOk(t, t.waits[j])
    {
      ExitWaitOk(s, pid, code, j);
    }
    hide Ended;
  }

  lemma EndedOneEach(s: State, pid: nat, code: int)
    requires OneEach(s.waits) && pid in s.table
    ensures OneEach(Ended(s, pid, code).waits) && |Ended(s, pid, code).waits| == |s.waits|
  {
  }

  lemma ExitWaitOk(s: State, pid: nat, code: int, j: nat)
    requires OneEach(s.waits) && pid in s.table && s.table[pid].status == Active && Outstanding(s)[pid] == 0
    requires forall w :: w in s.waits ==> w.pid != pid && WaitOk(s, w)
    requires WaitFor(s.waits, pid) < |s.waits| ==> Asleep(s.table, s.waits[WaitFor(s.waits, pid)].pid)
    requires j < |s.waits|
    ensures j < |Ended(s, pid, code).waits| && WaitOk(Ended(s, pid, code), Ended(s, pid, code).waits[j])
  {
    hide Outstanding, Resolved;
    var i := WaitFor(s.waits, pid);
    NotNamed(s, pid, s.waits[j]);
    if j != i {
      OtherWaitOk(s, Ended(s, pid, code), pid, code, i, j);
    }
  }

  lemma EndedElsewhere(s: State, pid: nat, code: int, owner: nat)
    requires pid in s.table && owner != pid
    requires WaitFor(s.waits, pid) < |s.waits| ==> owner != s.waits[WaitFor(s.waits, pid)].pid
    ensures var t := Ended(s, pid, code);
      && t.polls == s.polls
      && t.happened == (if WaitFor(s.waits, pid) < |s.waits| then s.happened else s.happened + [pid])
      && (owner in s.table ==> owner in t.table && t.table[owner] == s.table[owner])
      && (forall q :: q in s.table && q != pid ==> q in t.table && t.table[q].code == s.table[q].code)
  {
  }

  lemma OtherWaitOk(s: State, t: State, pid: nat, code: int, i: nat, j: nat)
    requires pid in s.table && t == Ended(s, pid, code) && i == WaitFor(s.waits, pid)
    requires j < |s.waits| && j != i && OneEach(s.waits) && WaitOk(s, s.waits[j]) && s.waits[j].pid != pid
    requires !Asleep(s.table, s.waits[j].pid) ==> s.waits[j].pids[0] != pid
    ensures WaitOk(t, s.waits[j])
  {
    var w := s.waits[j];
    assert i < |s.waits| ==> s.waits[i].pid != w.pid;
    hide WaitFor, OneEach, Ended;
    EndedElsewhere(s, pid, code, w.pid);
  }

  lemma ExitAccount(s: State, pid: nat, code: int)
    requires Accounted(s) && pid in s.table && s.table[pid].status == Active
    requires Outstanding(Ended(s, pid, code)) == Outstanding(s) + multiset{pid}
    ensures Accounted(Ended(s, pid, code))
  {
    hide Outstanding;
    var t := Ended(s, pid, code);
    forall d
      ensures Outstanding(t)[d] == if Ending(t.table, d) then 1 else 0
    {
      assert Ending(t.table, d) <==> d == pid || Ending(s.table, d);
    }
  }

  lemma ExitOutstanding(s: State, pid: nat, code: int)
    requires pid in s.table && s.table[pid].status == Active && OneEach(s.waits)
    requires forall w :: w in s.waits ==> w.pid != pid && WaitOk(s, w)
    requires Outstanding(s)[pid] == 0
    ensures Outstanding(Ended(s, pid, code)) == Outstanding(s) + multiset{pid}
    ensures WaitFor(s.waits, pid) < |s.waits| ==> Asleep(s.table, s.waits[WaitFor(s.waits, pid)].pid)
  {
    hide Resolved, WaitOk, OneEach;
    var i, t := WaitFor(s.waits, pid), Ended(s, pid, code);
    if i < |s.waits| {
      NamedIsAsleep(s, pid, s.waits[i]);
      EndedTable(s, pid, code);
      WokenWaitCounts(s.waits, i, pid, code, s.table, t.table);
    } else {
      ResolvedFrame(s.waits, s.table, t.table);
    }
  }

  lemma NamedIsAsleep(s: State, pid: nat, w: Wait)
    requires w in s.waits && WaitOk(s, w) && pid in w.pids && Outstanding(s)[pid] == 0
    ensures Asleep(s.table, w.pid)
  {
    NotNamed(s, pid, w);
  }

  lemma EndedTable(s: State, pid: nat, code: int)
    requires pid in s.table && s.table[pid].status == Active && WaitFor(s.waits, pid) < |s.waits|
    ensures var t, owner := Ended(s, pid, code), s.waits[WaitFor(s.waits, pid)].pid;
      && !Asleep(t.table, owner)
      && (forall q :: q != owner ==> Asleep(t.table, q) == Asleep(s.table, q))
  {
  }

  /** Waking the owner of one wait adds the child it now names, and nothing else. */
  lemma WokenWaitCounts(waits: seq<Wait>, i: nat, c: nat, code: int, before: Table, after: Table)
    requires OneEach(waits) && i < |waits|
    requires Asleep(before, waits[i].pid) && !Asleep(after, waits[i].pid)
    requires forall w :: w in waits && w.pid != waits[i].pid ==> Asleep(before, w.pid) == Asleep(after, w.pid)
    ensures Resolved(waits[i := waits[i].(pids := [c], local := code)], after) == Resolved(waits, before) + multiset{c}
  {
    var rest, w := RemoveAt(waits, i), waits[i].(pids := [c], local := code);
    forall v | v in rest
      ensures Asleep(before, v.pid) == Asleep(after, v.pid)
    {
      var j :| 0 <= j < |rest| && rest[j] == v;
      assert v == waits[if j < i then j else j + 1];
    }
    hide Resolved, OneEach;
    ResolvedFrame(rest, before, after);
    ResolvedRemove(waits, i, before);
    ResolvedReplace(waits, i, w, after);
    AsleepCountsNothing(waits[i], before);
    AwakeCountsOne(w, after);
  }

  // ---------- every run ----------

  lemma StepKeeps(s: State, e: Event)
    requires Inv(s) && Enabled(s, e)
    ensures Inv(Step(s, e))
  {
    hide Inv;
    match e
    case Switch(pid) => SwitchKeeps(s, pid);
    case Fork(parent, child) => ForkKeeps(s, parent, child);
    case Exit(pid, code) => ExitKeeps(s, pid, code);
    case PollCall(pid, fds, ready, timeout) => PollCallKeeps(s, pid, fds, ready, timeout);
    case PollResume(pid) => PollResumeKeeps(s, pid);
    case FileEvent(dev, ev) => FileEventKeeps(s, dev, ev);
    case Tick(tick) => TickKeeps(s, tick);
    case WaitCall(pid, which) => WaitCallKeeps(s, pid, which);
    case WaitResume(pid) => WaitResumeKeeps(s, pid);
  }

  /** The state when the first process starts. */
  function Boot(init: nat, devices: map<int, nat>): State {
    State(map[init := Process(Active, 0, [], 0, devices)], [], [], [], 0, multiset{}, multiset{})
  }

  lemma BootInv(init: nat, devices: map<int, nat>)
    ensures Inv(Boot(init, devices))
  {
    assert Outstanding(Boot(init, devices)) == multiset{};
  }

  predicate CanRun(s: State, es: seq<Event>)
    decreases |es|
  {
    es == [] || (Enabled(s, es[0]) && CanRun(Step(s, es[0]), es[1..]))
  }

  function Run(s: State, es: seq<Event>): State
    requires CanRun(s, es)
    decreases |es|
  {
    if es == [] then s else Run(Step(s, es[0]), es[1..])
  }

  /** Over every interleaving no poller is stuck, no sleeping waiter has an ended child on the list, and
      every exit has been returned, or is on the list, or is recorded in one answered wait. */
  lemma {:induction false} RunKeeps(s: State, es: seq<Event>)
    requires Inv(s) && CanRun(s, es)
    ensures Inv(Run(s, es))
    decreases |es|
  {
    if es != [] {
      StepKeeps(s, es[0]);
      RunKeeps(Step(s, es[0]), es[1..]);
    }
  }

  /** So in every state that the first process and its descendants can reach. */
  lemma BootRunKeeps(init: nat, devices: map<int, nat>, es: seq<Event>)
    requires CanRun(Boot(init, devices), es)
    ensures Inv(Run(Boot(init, devices), es))
  {
    BootInv(init, devices);
    RunKeeps(Boot(init, devices), es);
  }

  /** A process that leaves its poll with nothing fired has timed out, and none of its polls remain. */
  lemma PollReply(s: State, pid: nat)
    requires Inv(s) && Enabled(s, PollResume(pid))
    ensures Fired(s.polls, pid) == 0 ==> exists p :: p in s.polls && p.pid == pid && p.due >= 0 && s.clock >= p.due
    ensures forall p :: p in Step(s, PollResume(pid)).polls <==> p in s.polls && p.pid != pid
  {
    WithoutIs(s.polls, pid);
    var p :| p in s.polls && p.pid == pid;
    assert PollOk(s, p);
    var q :| q in s.polls && q.pid == pid && Over(s, q);
    if q.revents != {} {
      FiredCounts(s.polls, q);
    }
  }

  lemma {:induction false} FiredCounts(polls: seq<Poll>, q: Poll)
    requires q in polls && q.revents != {}
    ensures Fired(polls, q.pid) > 0
  {
    if polls[0] != q {
      FiredCounts(polls[1..], q);
    }
  }

  /** A device event leaves no process that polls for it asleep. */
  lemma FileEventWakes(s: State, dev: nat, ev: set<Flag>, p: Poll)
    requires Inv(s) && dev != 0 && p in s.polls && Matches(s.table, p, dev, ev)
    ensures !Asleep(Step(s, FileEvent(dev, ev)).table, p.pid)
    ensures Fired(Step(s, FileEvent(dev, ev)).polls, p.pid) > 0
  {
    assert PollOk(s, p);
    NotifiedIs(s.polls, s.table, dev, ev);
    var q, t := AfterEvent(s.table, p, dev, ev), Step(s, FileEvent(dev, ev));
    hide Notified, SomeWoken;
    assert q in t.polls;
    var f :| f in p.req.events * ev;
    assert f in q.revents;
    FiredCounts(t.polls, q);
  }

  /** What a wait call that does not block hands back: an ended process of the caller's list, with its exit
      status, removed from the table. The list keeps the identifier; whose child it is, `Reaping` says. */
  lemma WaitReply(s: State, pid: nat, which: int)
    requires Inv(s) && Running(s, pid)
    ensures match Waited(s, pid, which).1
      case Blocked => true
      case Value(ret, code) =>
        ret == -1 ||
        (&& ret >= 0 && ret in s.table[pid].children && (which == -1 || which == ret)
         && Ending(s.table, ret) && code == s.table[ret].code
         && ret !in Waited(s, pid, which).0.table
         && pid in Waited(s, pid, which).0.table && ret in Waited(s, pid, which).0.table[pid].children)
  {
    var pids := WaitList(s.table[pid], which);
    if pids != [] && FirstEnded(s.happened, pids) < |s.happened| {
      var c := s.happened[FirstEnded(s.happened, pids)];
      assert Outstanding(s)[c] > 0;
    }
  }

  /** And what a wait call that did block hands back when its process runs again. */
  lemma WaitResumeReply(s: State, pid: nat)
    requires Inv(s) && Enabled(s, WaitResume(pid))
    ensures var i := WaitOf(s.waits, pid);
      && i < |s.waits| && s.waits[i].pids != []
      && var (t, reply) := Resumed(s, pid);
      && reply.ret in s.table[pid].children && Ending(s.table, reply.ret)
      && reply.code == s.table[reply.ret].code
      && reply.ret !in t.table && (forall w :: w in t.waits ==> w.pid != pid)
  {
    WaitResumeKeeps(s, pid);
    var i := WaitOf(s.waits, pid);
    assert WaitOk(s, s.waits[i]);
    WaitsOfOthersAre(RemoveAt(s.waits, i), s.waits[i].pids[0]);
  }

  lemma {:induction false} WaitsOfOthersAre(waits: seq<Wait>, c: nat)
    ensures forall w :: w in WaitsOfOthers(waits, c) ==> w in waits && w.pid != c
  {
    if waits != [] {
      WaitsOfOthersAre(waits[1..], c);
    }
  }
}
