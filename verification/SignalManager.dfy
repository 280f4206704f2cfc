/** The signal manager's loops over its own lists, one method for each step. */
module SignalManager {
  import opened Signals
  import opened SignalTheorems

  /** How many pending polls of a process have not fired. */
  function Unfired(polls: seq<Poll>, pid: nat): nat {
    if polls == [] then 0
    else (if polls[0].pid == pid && polls[0].revents == {} then 1 else 0) + Unfired(polls[1..], pid)
  }

  lemma {:induction false} UnfiredAdded(before: seq<Poll>, added: seq<Poll>, pid: nat)
    requires forall p :: p in before ==> p.pid != pid
    requires forall p :: p in added ==> p.pid == pid && p.revents == {}
    ensures Unfired(before + added, pid) == |added|
  {
    if before != [] {
      assert (before + added)[1..] == before[1..] + added;
      UnfiredAdded(before[1..], added, pid);
    } else if added != [] {
      assert before + added == added && [] + added[1..] == added[1..];
      UnfiredAdded([], added[1..], pid);
    } else {
      assert before + added == [];
    }
  }

  /** One turn of the tick's loop. */
  lemma TickTurn(polls: seq<Poll>, table: Table, tick: nat)
    requires polls != []
    ensures var p := polls[0];
      Ticked(polls, table, tick) ==
        if Expires(p, tick) && p.pid !in table then Ticked(polls[1..], table, tick)
        else
          var r := Ticked(polls[1..], if Expires(p, tick) then Woken(table, p.pid) else table, tick);
          ([AfterTick(p, tick)] + r.0, r.1)
  {
  }

  /** What the tick's loop has still to do, with the polls before `i` done. */
  ghost predicate Ticking(polls: seq<Poll>, i: nat, table: Table, tick: nat, goal: (seq<Poll>, Table)) {
    && i <= |polls| && polls[..i] + Ticked(polls[i..], table, tick).0 == goal.0
    && Ticked(polls[i..], table, tick).1 == goal.1
  }

  lemma TickStarts(polls: seq<Poll>, table: Table, tick: nat)
    ensures Ticking(polls, 0, table, tick, Ticked(polls, table, tick))
  {
    assert polls[0..] == polls;
  }

  lemma TickEnds(polls: seq<Poll>, i: nat, table: Table, tick: nat, goal: (seq<Poll>, Table))
    requires Ticking(polls, i, table, tick, goal) && i == |polls|
    ensures (polls, table) == goal
  {
    assert polls[i..] == [] && polls[..i] + [] == polls;
  }

  lemma TickGoesOn(polls: seq<Poll>, i: nat, table: Table, tick: nat, goal: (seq<Poll>, Table))
    requires Ticking(polls, i, table, tick, goal) && i < |polls|
    ensures var p := polls[i];
      if Expires(p, tick) && p.pid !in table then Ticking(RemoveAt(polls, i), i, table, tick, goal)
      else Ticking(polls[i := AfterTick(p, tick)], i + 1, if Expires(p, tick) then Woken(table, p.pid) else table, tick, goal)
  {
    hide Ticked, Woken;
    var p, rest := polls[i], polls[i + 1..];
    assert polls[i..][1..] == rest && polls[i..][0] == p;
    TickTurn(polls[i..], table, tick);
    if Expires(p, tick) && p.pid !in table {
      var fewer := RemoveAt(polls, i);
      assert fewer[..i] == polls[..i] && fewer[i..] == rest;
    } else {
      var q, after := AfterTick(p, tick), if Expires(p, tick) then Woken(table, p.pid) else table;
      var out := Ticked(rest, after, tick).0;
      var more := polls[i := q];
      assert more[i + 1..] == rest && more[..i + 1] == polls[..i] + [q];
      assert polls[..i] + ([q] + out) == more[..i + 1] + out;
    }
  }

  /** What asking has come to before request `i`. */
  ghost predicate Asking(process: Process, pid: nat, fds: seq<Request>, ready: map<nat, set<Flag>>, timeout: int, clock: nat,
                         i: nat, added: seq<Poll>, count: nat, revents: seq<set<Flag>>)
  {
    && i <= |fds|
    && added + Registered(process, pid, fds[i..], ready, timeout, clock) == Registered(process, pid, fds, ready, timeout, clock)
    && count + ReadyCount(process, fds[i..], ready) == ReadyCount(process, fds, ready)
    && revents + Revents(process, fds[i..], ready) == Revents(process, fds, ready)
  }

  lemma AskingStarts(process: Process, pid: nat, fds: seq<Request>, ready: map<nat, set<Flag>>, timeout: int, clock: nat)
    ensures Asking(process, pid, fds, ready, timeout, clock, 0, [], 0, [])
  {
    hide Registered, ReadyCount, Revents;
    assert fds[0..] == fds;
  }

  lemma AskingEnds(process: Process, pid: nat, fds: seq<Request>, ready: map<nat, set<Flag>>, timeout: int, clock: nat,
                   added: seq<Poll>, count: nat, revents: seq<set<Flag>>)
    requires Asking(process, pid, fds, ready, timeout, clock, |fds|, added, count, revents)
    ensures added == Registered(process, pid, fds, ready, timeout, clock)
    ensures count == ReadyCount(process, fds, ready) && revents == Revents(process, fds, ready)
  {
    assert fds[|fds|..] == [] && added + [] == added && revents + [] == revents;
  }

  lemma AskingGoesOn(process: Process, pid: nat, fds: seq<Request>, ready: map<nat, set<Flag>>, timeout: int, clock: nat,
                     i: nat, added: seq<Poll>, count: nat, revents: seq<set<Flag>>)
    requires Asking(process, pid, fds, ready, timeout, clock, i, added, count, revents) && i < |fds|
    ensures match Answered(process, fds[i], ready)
      case Bad => Asking(process, pid, fds, ready, timeout, clock, i + 1, added, count, revents + [{Nval}])
      case Ready(mask) => Asking(process, pid, fds, ready, timeout, clock, i + 1, added, count + 1, revents + [mask])
      case Pending =>
        var p := Poll(fds[i], {}, timeout, pid, if timeout < 0 then -1 else clock + timeout);
        Asking(process, pid, fds, ready, timeout, clock, i + 1, added + [p], count, revents + [{}])
  {
    hide Answered;
    var tail := fds[i + 1..];
    assert fds[i..][0] == fds[i] && fds[i..][1..] == tail;
    var r := Revents(process, fds[i..], ready)[..1];
    assert Revents(process, fds[i..], ready) == r + Revents(process, tail, ready);
    assert revents + (r + Revents(process, tail, ready)) == (revents + r) + Revents(process, tail, ready);
    var q := Registered(process, pid, tail, ready, timeout, clock);
    if Answered(process, fds[i], ready).Pending? {
      var p := Poll(fds[i], {}, timeout, pid, if timeout < 0 then -1 else clock + timeout);
      assert added + ([p] + q) == (added + [p]) + q;
    } else {
      assert [] + q == q;
    }
  }

  class Manager {
    var table: Table
    var polls: seq<Poll>
    var waits: seq<Wait>
    var happened: seq<nat>
    var clock: nat
    ghost var exits: multiset<nat>
    ghost var returned: multiset<nat>

    ghost function View(): State
      reads this
    {
      State(table, polls, waits, happened, clock, exits, returned)
    }

    /** Asks every request; what is not ready is added to the list. */
    method Register(pid: nat, fds: seq<Request>, ready: map<nat, set<Flag>>, timeout: int)
      returns (retCount: nat, foundCount: nat, revents: seq<set<Flag>>)
      requires pid in table
      modifies this`polls
      ensures polls == old(polls) + Registered(table[pid], pid, fds, ready, timeout, clock)
      ensures retCount == ReadyCount(table[pid], fds, ready)
      ensures foundCount == |Registered(table[pid], pid, fds, ready, timeout, clock)|
      ensures revents == Revents(table[pid], fds, ready)
    {
      hide Registered, ReadyCount, Revents, Answered, Asking;
      retCount, foundCount, revents := 0, 0, [];
      ghost var process, added := table[pid], [];
      AskingStarts(process, pid, fds, ready, timeout, clock);
      for i := 0 to |fds|
        invariant polls == old(polls) + added && foundCount == |added|
        invariant Asking(process, pid, fds, ready, timeout, clock, i, added, retCount, revents)
      {
        AskingGoesOn(process, pid, fds, ready, timeout, clock, i, added, retCount, revents);
        var answer := Answered(table[pid], fds[i], ready);
        if answer.Bad? {
          revents := revents + [{Nval}];
        } else if answer.Ready? {
          retCount, revents := retCount + 1, revents + [answer.revents];
        } else {
          revents := revents + [{}];
          ghost var p := Poll(fds[i], {}, timeout, pid, if timeout < 0 then -1 else clock + timeout);
          assert polls + [p] == old(polls) + (added + [p]);
          added := added + [p];
          polls := polls + [Poll(fds[i], {}, timeout, pid, if timeout < 0 then -1 else clock + timeout)];
          foundCount := foundCount + 1;
        }
      }
      AskingEnds(process, pid, fds, ready, timeout, clock, added, retCount, revents);
    }

    /** Erases the process's polls from the list. */
    method ErasePolls(pid: nat)
      modifies this`polls
      ensures polls == Without(old(polls), pid)
    {
      var i := 0;
      while i < |polls|
        invariant i <= |polls|
        invariant polls[..i] + Without(polls[i..], pid) == Without(old(polls), pid)
        decreases |polls| - i
      {
        ghost var before := polls;
        assert before[i..][1..] == before[i + 1..];
        if polls[i].pid == pid {
          polls := RemoveAt(polls, i);
          assert polls[..i] == before[..i] && polls[i..] == before[i + 1..];
        } else {
          i := i + 1;
          assert polls[..i] == before[..i - 1] + [before[i - 1]];
        }
      }
      assert polls[..i] + [] == polls;
    }

    /** A poll call up to the point where it answers or goes to sleep. */
    method StartPoll(pid: nat, fds: seq<Request>, ready: map<nat, set<Flag>>, timeout: int)
      returns (reply: Reply, revents: seq<set<Flag>>)
      requires Inv(View()) && Running(View(), pid)
      modifies this`polls, this`table
      ensures (View(), reply) == Polled(old(View()), pid, fds, ready, timeout)
      ensures fds != [] && timeout != 0 ==> revents == Revents(old(table[pid]), fds, ready)
    {
      revents := [];
      if |fds| == 0 {
        reply := Value(-1, 0);
      } else if timeout == 0 {
        reply := Value(0, 0);
      } else {
        reply, revents := Ask(pid, fds, ready, timeout);
      }
    }

    method Ask(pid: nat, fds: seq<Request>, ready: map<nat, set<Flag>>, timeout: int)
      returns (reply: Reply, revents: seq<set<Flag>>)
      requires Inv(View()) && Running(View(), pid) && fds != [] && timeout != 0
      modifies this`polls, this`table
      ensures (View(), reply) == Polled(old(View()), pid, fds, ready, timeout)
      ensures revents == Revents(old(table[pid]), fds, ready)
    {
      hide Inv, Running, Registered, ReadyCount, Without, Revents;
      RunningFacts(View(), pid);
      ghost var added := Registered(table[pid], pid, fds, ready, timeout, clock);
      RegisteredIs(table[pid], pid, fds, ready, timeout, clock);
      UnfiredAdded(polls, added, pid);
      var retCount, foundCount;
      retCount, foundCount, revents := Register(pid, fds, ready, timeout);
      var pidCount := CountUnfired(pid);
      assert foundCount == pidCount;
      if foundCount == 0 && retCount == 0 {
        assert polls == old(polls);
        reply := Value(-1, 0);
      } else if retCount != 0 || foundCount != pidCount {
        // Interrupts may have triggered some events already, and conditions may hold at once.
        ErasePolls(pid);
        reply := Value(retCount + foundCount - pidCount, 0);
      } else {
        table := table[pid := table[pid].(status := Sleeping)];
        reply := Blocked;
      }
    }

    method CountUnfired(pid: nat) returns (count: nat)
      ensures count == Unfired(polls, pid)
    {
      count := 0;
      for i := 0 to |polls|
        invariant count + Unfired(polls[i..], pid) == Unfired(polls, pid)
      {
        assert polls[i..][1..] == polls[i + 1..];
        if polls[i].pid == pid && polls[i].revents == {} {
          count := count + 1;
        }
      }
    }

    /** The rest of a poll call, when its process runs again. */
    method FinishPoll(pid: nat) returns (count: nat)
      modifies this`polls
      ensures count == Fired(old(polls), pid) && polls == Without(old(polls), pid)
    {
      count := 0;
      var i := 0;
      while i < |polls|
        invariant i <= |polls|
        invariant polls[..i] + Without(polls[i..], pid) == Without(old(polls), pid)
        invariant count + Fired(polls[i..], pid) == Fired(old(polls), pid)
        decreases |polls| - i
      {
        ghost var before := polls;
        assert before[i..][1..] == before[i + 1..];
        if polls[i].pid == pid {
          if polls[i].revents != {} {
            count := count + 1;
          }
          polls := RemoveAt(polls, i);
          assert polls[..i] == before[..i] && polls[i..] == before[i + 1..];
        } else {
          i := i + 1;
          assert polls[..i] == before[..i - 1] + [before[i - 1]];
        }
      }
      assert polls[..i] + [] == polls;
    }

    method NotifyFile(dev: nat, ev: set<Flag>)
      requires dev != 0
      modifies this`polls, this`table
      ensures (polls, table) == Notified(old(polls), old(table), dev, ev)
    {
      var i := 0;
      while i < |polls|
        invariant i <= |polls|
        invariant polls[..i] + Notified(polls[i..], table, dev, ev).0 == Notified(old(polls), old(table), dev, ev).0
        invariant Notified(polls[i..], table, dev, ev).1 == Notified(old(polls), old(table), dev, ev).1
        decreases |polls| - i
      {
        ghost var before := polls;
        assert before[i..][1..] == before[i + 1..] && before[i..][0] == before[i];
        var p := polls[i];
        if p.pid !in table {
          polls := RemoveAt(polls, i);
          assert polls[..i] == before[..i] && polls[i..] == before[i + 1..];
        } else {
          if DeviceOf(table, p.pid, p.req.fd) == dev && p.req.events * ev != {} {
            polls := polls[i := p.(revents := p.revents + p.req.events * ev)];
            table := Woken(table, p.pid);
          }
          i := i + 1;
          assert polls[i..] == before[i..];
          assert polls[..i] == before[..i - 1] + [polls[i - 1]];
        }
      }
      assert polls[..i] + [] == polls;
    }

    method TickDown(tick: nat)
      modifies this`polls, this`table, this`clock
      ensures (polls, table) == Ticked(old(polls), old(table), tick) && clock == old(clock) + tick
    {
      clock := clock + tick;
      var i := 0;
      hide Woken, Ticked, Ticking;
      ghost var goal := Ticked(polls, table, tick);
      TickStarts(polls, table, tick);
      while i < |polls|
        invariant i <= |polls| && Ticking(polls, i, table, tick, goal)
        invariant clock == old(clock) + tick
        decreases |polls| - i
      {
        var p := polls[i];
        TickGoesOn(polls, i, table, tick, goal);
        if p.timeLeft >= 0 && p.timeLeft - tick <= 0 && p.pid !in table {
          polls := RemoveAt(polls, i);
        } else {
          if p.timeLeft >= 0 {
            polls := polls[i := p.(timeLeft := p.timeLeft - tick)];
            if polls[i].timeLeft <= 0 {
              table := Woken(table, p.pid);
            }
          }
          i := i + 1;
        }
      }
      TickEnds(polls, i, table, tick, goal);
    }

    /** The active process has ended: the first pending wait that names it is answered, or else the
        event is kept. */
    method NotifyWait(pid: nat, code: int)
      requires pid in table
      modifies this
      ensures View() == Ended(old(View()), pid, code)
    {
      table := table[pid := table[pid].(status := Zombie, code := code)];
      exits := exits + multiset{pid};
      var i := 0;
      while i < |waits|
        invariant i <= |waits| && waits == old(waits)
        invariant forall j :: 0 <= j < i ==> pid !in waits[j].pids
      {
        if pid in waits[i].pids {
          assert WaitFor(waits, pid) == i;
          var w := waits[i];
          waits := waits[i := w.(pids := [pid], local := table[pid].code)];
          table := Woken(table, w.pid);
          return;
        }
        i := i + 1;
      }
      happened := happened + [pid];
    }

    /** A wait call up to the point where it answers or goes to sleep. */
    method StartWait(pid: nat, which: int) returns (reply: Reply)
      requires Inv(View()) && Running(View(), pid)
      modifies this
      ensures (View(), reply) == Waited(old(View()), pid, which)
    {
      hide Inv, Collected, WaitList, RemoveAt;
      var pids := WaitList(table[pid], which);
      if pids == [] {
        return Value(-1, 0);
      }
      WaitReply(View(), pid, which);
      var i := 0;
      while i < |happened|
        invariant i <= |happened| && View() == old(View())
        invariant forall j :: 0 <= j < i ==> happened[j] !in pids
      {
        if happened[i] in pids {
          assert FirstEnded(happened, pids) == i;
          var c := happened[i];
          reply := Value(c, table[c].code);
          happened := RemoveAt(happened, i);
          Collect(c);
          return;
        }
        i := i + 1;
      }
      waits := waits + [Wait(pid, pids, 0)];
      table := table[pid := table[pid].(status := Sleeping)];
      reply := Blocked;
    }

    /** The rest of a wait call, when its process runs again. */
    method FinishWait(pid: nat) returns (reply: Reply)
      requires Inv(View()) && Enabled(View(), WaitResume(pid))
      modifies this
      ensures WaitOf(old(waits), pid) < |old(waits)| && old(waits)[WaitOf(old(waits), pid)].pids != []
      ensures (View(), reply) == Resumed(old(View()), pid)
    {
      hide Inv, Collected, RemoveAt;
      WaitResumeKeeps(View(), pid);
      var i := 0;
      while waits[i].pid != pid
        invariant i <= WaitOf(waits, pid) && View() == old(View())
        invariant forall j :: 0 <= j < i ==> waits[j].pid != pid
        decreases WaitOf(waits, pid) - i
      {
        i := i + 1;
      }
      assert WaitOf(waits, pid) == i;
      reply := Value(waits[i].pids[0], waits[i].local);
      var c := waits[i].pids[0];
      waits := RemoveAt(waits, i);
      Collect(c);
    }

    /** The wait call's last act: an ended child leaves the table and all the lists. */
    method Collect(c: nat)
      modifies this
      ensures View() == Collected(old(View()), c)
    {
      returned := returned + multiset{c};
      if c in table && table[c].status == Zombie {
        table := table - {c};
        Purge(c);
      }
    }

    method Purge(c: nat)
      modifies this`polls, this`happened, this`waits
      ensures polls == Without(old(polls), c)
      ensures happened == Others(old(happened), c)
      ensures waits == WaitsOfOthers(old(waits), c)
    {
      ErasePolls(c);
      EraseHappened(c);
      EraseWaits(c);
    }

    method EraseHappened(c: nat)
      modifies this`happened
      ensures happened == Others(old(happened), c)
    {
      var i := 0;
      while i < |happened|
        invariant i <= |happened|
        invariant happened[..i] + Others(happened[i..], c) == Others(old(happened), c)
        decreases |happened| - i
      {
        ghost var before := happened;
        assert before[i..][1..] == before[i + 1..];
        if happened[i] == c {
          happened := RemoveAt(happened, i);
          assert happened[..i] == before[..i] && happened[i..] == before[i + 1..];
        } else {
          i := i + 1;
          assert happened[..i] == before[..i - 1] + [before[i - 1]];
        }
      }
      assert happened[..i] + [] == happened;
    }

    method EraseWaits(c: nat)
      modifies this`waits
      ensures waits == WaitsOfOthers(old(waits), c)
    {
      var i := 0;
      while i < |waits|
        invariant i <= |waits|
        invariant waits[..i] + WaitsOfOthers(waits[i..], c) == WaitsOfOthers(old(waits), c)
        decreases |waits| - i
      {
        ghost var before := waits;
        assert before[i..][1..] == before[i + 1..];
        if waits[i].pid == c {
          waits := RemoveAt(waits, i);
          assert waits[..i] == before[..i] && waits[i..] == before[i + 1..];
        } else {
          i := i + 1;
          assert waits[..i] == before[..i - 1] + [before[i - 1]];
        }
      }
      assert waits[..i] + [] == waits;
    }
  }
}
