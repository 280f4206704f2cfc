/** What a poll call answers, in terms of the descriptors and devices it asks for. */
module Polling {
  import opened Signals
  import opened SignalTheorems

  /** The descriptor is open, and an event that can be asked for is. */
  predicate Valid(process: Process, req: Request) {
    req.fd in process.devices && (In in req.events || Pri in req.events || Out in req.events)
  }

  /** A valid request whose file is in memory, or whose device is in a state that is asked for. */
  predicate IsReady(process: Process, req: Request, ready: map<nat, set<Flag>>) {
    Valid(process, req) &&
    var dev := process.devices[req.fd];
    dev == 0 || (dev in ready && exists f :: f in {In, Pri, Out} && f in req.events && f in ready[dev])
  }

  function ReadyOnes(process: Process, fds: seq<Request>, k: nat, ready: map<nat, set<Flag>>): set<nat> {
    set i: nat | k <= i < |fds| && IsReady(process, fds[i], ready)
  }

  lemma AnsweredIs(process: Process, req: Request, ready: map<nat, set<Flag>>)
    ensures Answered(process, req, ready).Bad? <==> !Valid(process, req)
    ensures Answered(process, req, ready).Ready? <==> IsReady(process, req, ready)
  {
    if req.fd in process.devices {
      assert Valid(process, req) <==> req.events * REQUESTABLE != {} by {
        if Valid(process, req) {
          var f :| f in {In, Pri, Out} && f in req.events;
          assert f in req.events * REQUESTABLE;
        } else {
          assert forall f :: f !in req.events * REQUESTABLE;
        }
      }
      var dev := process.devices[req.fd];
      if dev in ready {
        var mask := ready[dev] * (req.events * REQUESTABLE);
        assert mask != {} <==> exists f :: f in {In, Pri, Out} && f in req.events && f in ready[dev] by {
          if f :| f in {In, Pri, Out} && f in req.events && f in ready[dev] {
            assert f in mask;
          }
          if mask != {} {
            var f :| f in mask;
            assert f in {In, Pri, Out} && f in req.events && f in ready[dev];
          }
        }
      }
      if Valid(process, req) {
        var f :| f in {In, Pri, Out} && f in req.events;
        assert f in req.events;
      }
    }
  }

  lemma {:induction false} ReadyCountIs(process: Process, fds: seq<Request>, k: nat, ready: map<nat, set<Flag>>)
    requires k <= |fds|
    ensures ReadyCount(process, fds[k..], ready) == |ReadyOnes(process, fds, k, ready)|
    decreases |fds| - k
  {
    hide Answered, IsReady;
    if k < |fds| {
      var rest := ReadyOnes(process, fds, k + 1, ready);
      assert fds[k..][1..] == fds[k + 1..] && fds[k..][0] == fds[k];
      ReadyCountIs(process, fds, k + 1, ready);
      AnsweredIs(process, fds[k], ready);
      assert ReadyOnes(process, fds, k, ready) == if IsReady(process, fds[k], ready) then rest + {k} else rest;
    } else {
      assert ReadyOnes(process, fds, k, ready) == {};
    }
  }

  /** The poll that a request which is not ready leaves on the list. */
  function Listed(req: Request, pid: nat, timeout: int, clock: nat): Poll {
    Poll(req, {}, timeout, pid, if timeout < 0 then -1 else clock + timeout)
  }

  lemma {:induction false} RegisteredAre(process: Process, pid: nat, fds: seq<Request>, ready: map<nat, set<Flag>>, timeout: int, clock: nat)
    ensures forall p :: p in Registered(process, pid, fds, ready, timeout, clock) <==>
      exists req :: req in fds && Valid(process, req) && !IsReady(process, req, ready) && p == Listed(req, pid, timeout, clock)
  {
    hide Answered, IsReady, Valid;
    if fds != [] {
      RegisteredAre(process, pid, fds[1..], ready, timeout, clock);
      AnsweredIs(process, fds[0], ready);
      assert forall req :: req in fds <==> req == fds[0] || req in fds[1..];
    }
  }

  /** What a call that has requests, and time, replies: the number of requests that are ready, if any is; that
      none is valid; or else nothing yet, and each valid request is on the list while the process sleeps. */
  lemma PollCallReply(s: State, pid: nat, fds: seq<Request>, ready: map<nat, set<Flag>>, timeout: int)
    requires pid in s.table && fds != [] && timeout != 0 && forall p :: p in s.polls ==> p.pid != pid
    ensures var process, t, reply := s.table[pid], Polled(s, pid, fds, ready, timeout).0, Polled(s, pid, fds, ready, timeout).1;
      var n := |set i: nat | i < |fds| && IsReady(process, fds[i], ready)|;
      if exists i :: 0 <= i < |fds| && IsReady(process, fds[i], ready) then
        n > 0 && reply == Value(n, 0) && t.table == s.table && forall p :: p in t.polls <==> p in s.polls
      else if exists i :: 0 <= i < |fds| && Valid(process, fds[i]) then
        && reply == Blocked && t.table == s.table[pid := process.(status := Sleeping)]
        && forall p :: p in t.polls <==>
             p in s.polls || exists req :: req in fds && Valid(process, req) && p == Listed(req, pid, timeout, s.clock)
      else reply == Value(-1, 0) && t == s
  {
    hide Answered, IsReady, Valid, Without;
    var process := s.table[pid];
    var added := Registered(process, pid, fds, ready, timeout, s.clock);
    var ones := ReadyOnes(process, fds, 0, ready);
    assert fds[0..] == fds;
    ReadyCountIs(process, fds, 0, ready);
    RegisteredAre(process, pid, fds, ready, timeout, s.clock);
    hide Registered, ReadyCount;
    assert ones == set i: nat | i < |fds| && IsReady(process, fds[i], ready);
    if i :| 0 <= i < |fds| && IsReady(process, fds[i], ready) {
      assert i in ones;
      WithoutIs(s.polls + added, pid);
    } else {
      assert ones == {};
      assert forall req :: req in fds ==> !IsReady(process, req, ready);
      if i :| 0 <= i < |fds| && Valid(process, fds[i]) {
        assert Listed(fds[i], pid, timeout, s.clock) in added;
      } else {
        NoneListed(added);
      }
    }
  }

  lemma NoneListed(added: seq<Poll>)
    ensures added == [] || exists p :: p in added
  {
    if added != [] {
      assert added[0] in added;
    }
  }

  /** What it writes back: that the request is not valid, or the events of it that have happened, all of them
      for a file in memory. */
  lemma {:induction false} ReventsAre(process: Process, fds: seq<Request>, ready: map<nat, set<Flag>>, i: nat)
    requires i < |fds|
    ensures |Revents(process, fds, ready)| == |fds|
    ensures var req, r := fds[i], Revents(process, fds, ready)[i];
      if !Valid(process, req) then r == {Nval}
      else if process.devices[req.fd] == 0 then r == req.events
      else
        var dev := process.devices[req.fd];
        forall f :: f in r <==> dev in ready && f in {In, Pri, Out} && f in req.events && f in ready[dev]
  {
    AnsweredIs(process, fds[i], ready);
    ReventsLength(process, fds, ready);
    if i > 0 {
      hide Answered;
      ReventsAre(process, fds[1..], ready, i - 1);
    }
  }

  lemma {:induction false} ReventsLength(process: Process, fds: seq<Request>, ready: map<nat, set<Flag>>)
    ensures |Revents(process, fds, ready)| == |fds|
  {
    if fds != [] {
      ReventsLength(process, fds[1..], ready);
    }
  }

  /** The event happens on the device of the poll's file, and is one that the poll asks for. */
  predicate Concerns(table: Table, p: Poll, dev: nat, ev: set<Flag>) {
    && p.pid in table && p.req.fd in table[p.pid].devices && table[p.pid].devices[p.req.fd] == dev
    && exists f :: f in p.req.events && f in ev
  }

  /** What an event of a device does: each poll that it concerns records those of its events that have happened,
      all other polls of existing processes stay as they are, and exactly the sleeping processes that have a
      poll it concerns can run again. */
  lemma EventRecorded(s: State, dev: nat, ev: set<Flag>)
    requires dev != 0
    ensures var t := Step(s, FileEvent(dev, ev));
      && t.table.Keys == s.table.Keys && t.waits == s.waits && t.happened == s.happened
      && (forall p :: p in s.polls && p.pid in s.table && !Concerns(s.table, p, dev, ev) ==> p in t.polls)
      && (forall p :: p in s.polls && Concerns(s.table, p, dev, ev) ==>
            exists o :: o in t.polls && o == p.(revents := o.revents)
              && forall f :: f in o.revents <==> f in p.revents || (f in p.req.events && f in ev))
      && (forall x :: x in s.table ==>
            t.table[x] == if s.table[x].status == Sleeping && exists p :: p in s.polls && p.pid == x && Concerns(s.table, p, dev, ev)
                          then s.table[x].(status := Runnable) else s.table[x])
  {
    var t := Step(s, FileEvent(dev, ev));
    NotifiedIs(s.polls, s.table, dev, ev);
    hide Notified;
    forall p: Poll | p.pid in s.table
      ensures Matches(s.table, p, dev, ev) <==> Concerns(s.table, p, dev, ev)
    {
      ConcernsIs(s.table, p, dev, ev);
    }
    forall p | p in s.polls && Concerns(s.table, p, dev, ev)
      ensures exists o :: o in t.polls && o == p.(revents := o.revents)
                && forall f :: f in o.revents <==> f in p.revents || (f in p.req.events && f in ev)
    {
      assert AfterEvent(s.table, p, dev, ev) in t.polls;
    }
  }

  lemma ConcernsIs(table: Table, p: Poll, dev: nat, ev: set<Flag>)
    requires dev != 0 && p.pid in table
    ensures Matches(table, p, dev, ev) <==> Concerns(table, p, dev, ev)
  {
    if f :| f in p.req.events && f in ev {
      assert f in p.req.events * ev;
    }
    if f :| f in p.req.events * ev {
      assert f in p.req.events && f in ev;
    }
  }

  /** What a tick does: time runs for every poll that can time out, and exactly the sleeping processes whose time is
      up can run again. */
  lemma TickRecorded(s: State, tick: nat)
    ensures var t := Step(s, Tick(tick));
      && t.table.Keys == s.table.Keys && t.waits == s.waits && t.happened == s.happened && t.clock == s.clock + tick
      && (forall p :: p in s.polls && p.pid in s.table ==>
            (if p.timeLeft < 0 then p else p.(timeLeft := p.timeLeft - tick)) in t.polls)
      && (forall x :: x in s.table ==>
            t.table[x] == if s.table[x].status == Sleeping && exists p :: p in s.polls && p.pid == x && 0 <= p.timeLeft <= tick
                          then s.table[x].(status := Runnable) else s.table[x])
  {
    TickedIs(s.polls, s.table, tick);
    hide Ticked;
  }
}
