/** Waiting for files and for children: the lists kept by the signal manager and what one step does to
    them. Every step runs with task switching blocked, so each is atomic. */
module Signals {

  datatype Status = Active | Runnable | Sleeping | Zombie

  datatype Flag = In | Pri | Out | Err | Hup | Nval

  const REQUESTABLE: set<Flag> := {In, Pri, Out}

  datatype Request = Request(fd: int, events: set<Flag>)

  /** A pending poll. `due` is the tick count at which it times out, negative for never; no step reads
      it, it only records what `timeLeft` counts down to. */
  datatype Poll = Poll(req: Request, revents: set<Flag>, timeLeft: int, pid: nat, due: int)

  /** A pending wait for one of `pids`, with room for the status of the one that ended. */
  datatype Wait = Wait(pid: nat, pids: seq<nat>, local: int)

  /** The process table's part of the state. */
  datatype Process = Process(status: Status, parent: nat, children: seq<nat>, code: int, devices: map<int, nat>)

  /** Device 0 stands for a file in memory. The last three fields are history: ticks so far, children
      that have ended, and children handed to a waiting parent. */
  datatype State = State(table: map<nat, Process>, polls: seq<Poll>, waits: seq<Wait>, happened: seq<nat>,
                         clock: nat, exits: multiset<nat>, returned: multiset<nat>)

  type Table = map<nat, Process>

  function Woken(table: Table, pid: nat): Table {
    if pid in table && table[pid].status == Sleeping then table[pid := table[pid].(status := Runnable)] else table
  }

  predicate Asleep(table: Table, pid: nat) {
    pid in table && table[pid].status == Sleeping
  }

  function DeviceOf(table: Table, pid: nat, fd: int): nat {
    if pid in table && fd in table[pid].devices then table[pid].devices[fd] else 0
  }

  // ---------- polls ----------

  /** An event on a device goes through the pending polls: those of processes that no longer exist are
      dropped, matching ones record the event and wake their process. */
  function Notified(polls: seq<Poll>, table: Table, dev: nat, ev: set<Flag>): (r: (seq<Poll>, Table)) {
    if polls == [] then ([], table)
    else
      var p := polls[0];
      if p.pid !in table then Notified(polls[1..], table, dev, ev)
      else if DeviceOf(table, p.pid, p.req.fd) == dev && p.req.events * ev != {} then
        var r := Notified(polls[1..], Woken(table, p.pid), dev, ev);
        ([p.(revents := p.revents + p.req.events * ev)] + r.0, r.1)
      else
        var r := Notified(polls[1..], table, dev, ev);
        ([p] + r.0, r.1)
  }

  /** A tick goes through the pending polls that can time out, and wakes the processes of those that do. */
  function Ticked(polls: seq<Poll>, table: Table, tick: nat): (r: (seq<Poll>, Table)) {
    if polls == [] then ([], table)
    else
      var p := polls[0];
      if p.timeLeft < 0 then
        var r := Ticked(polls[1..], table, tick);
        ([p] + r.0, r.1)
      else
        var q := p.(timeLeft := p.timeLeft - tick);
        if q.timeLeft > 0 then
          var r := Ticked(polls[1..], table, tick);
          ([q] + r.0, r.1)
        else if p.pid !in table then Ticked(polls[1..], table, tick)
        else
          var r := Ticked(polls[1..], Woken(table, p.pid), tick);
          ([q] + r.0, r.1)
  }

  /** The pending polls of other processes. */
  function Without(polls: seq<Poll>, pid: nat): seq<Poll> {
    if polls == [] then []
    else if polls[0].pid == pid then Without(polls[1..], pid)
    else [polls[0]] + Without(polls[1..], pid)
  }

  /** How many pending polls of a process have fired. */
  function Fired(polls: seq<Poll>, pid: nat): nat {
    if polls == [] then 0
    else (if polls[0].pid == pid && polls[0].revents != {} then 1 else 0) + Fired(polls[1..], pid)
  }

  /** What one request of a poll call comes to. */
  datatype Answer = Bad | Ready(revents: set<Flag>) | Pending

  function Answered(process: Process, req: Request, ready: map<nat, set<Flag>>): Answer {
    if req.fd !in process.devices then Bad
    else if req.events * REQUESTABLE == {} then Bad
    else
      var dev := process.devices[req.fd];
      var mask := if dev == 0 then req.events
                  else (if dev in ready then ready[dev] else {}) * (req.events * REQUESTABLE);
      if mask != {} then Ready(mask) else Pending
  }

  /** How many requests are ready at once. */
  function ReadyCount(process: Process, fds: seq<Request>, ready: map<nat, set<Flag>>): nat {
    if fds == [] then 0
    else (if Answered(process, fds[0], ready).Ready? then 1 else 0) + ReadyCount(process, fds[1..], ready)
  }

  /** What the call writes back for each request before it returns or goes to sleep. */
  function Revents(process: Process, fds: seq<Request>, ready: map<nat, set<Flag>>): seq<set<Flag>> {
    if fds == [] then []
    else
      var a := Answered(process, fds[0], ready);
      [match a case Bad => {Nval} case Ready(mask) => mask case Pending => {}] + Revents(process, fds[1..], ready)
  }

  /** The polls a call adds to the list. */
  function Registered(process: Process, pid: nat, fds: seq<Request>, ready: map<nat, set<Flag>>, timeout: int, clock: nat): seq<Poll> {
    if fds == [] then []
    else
      (if Answered(process, fds[0], ready).Pending? then
         [Poll(fds[0], {}, timeout, pid, if timeout < 0 then -1 else clock + timeout)]
       else [])
      + Registered(process, pid, fds[1..], ready, timeout, clock)
  }

  // ---------- waits ----------

  /** Index of the first pending wait that names the process; the length when none does. */
  function WaitFor(waits: seq<Wait>, c: nat): (i: nat)
    ensures i <= |waits|
    ensures i < |waits| ==> c in waits[i].pids
    ensures forall j :: 0 <= j < i ==> c !in waits[j].pids
  {
    if waits == [] || c in waits[0].pids then 0 else 1 + WaitFor(waits[1..], c)
  }

  function WaitOf(waits: seq<Wait>, pid: nat): (i: nat)
    ensures i <= |waits|
    ensures i < |waits| ==> waits[i].pid == pid
    ensures forall j :: 0 <= j < i ==> waits[j].pid != pid
  {
    if waits == [] || waits[0].pid == pid then 0 else 1 + WaitOf(waits[1..], pid)
  }

  /** Index of the first ended child that is in the list. */
  function FirstEnded(happened: seq<nat>, pids: seq<nat>): (i: nat)
    ensures i <= |happened|
    ensures i < |happened| ==> happened[i] in pids
    ensures forall j :: 0 <= j < i ==> happened[j] !in pids
  {
    if happened == [] || happened[0] in pids then 0 else 1 + FirstEnded(happened[1..], pids)
  }

  function RemoveAt<T>(s: seq<T>, i: nat): seq<T>
    requires i < |s|
  {
    s[..i] + s[i + 1..]
  }

  /** The children a wait call is for: all of them, the one named, or none. */
  function WaitList(process: Process, pid: int): seq<nat> {
    if pid == -1 then process.children
    else if pid > 0 && pid as nat in process.children then [pid as nat]
    else []
  }

  // ---------- steps ----------

  datatype Event =
    | Switch(pid: nat)
    | Fork(parent: nat, child: nat)
    | Exit(pid: nat, code: int)
    | PollCall(pid: nat, fds: seq<Request>, ready: map<nat, set<Flag>>, timeout: int)
    | PollResume(pid: nat)
    | FileEvent(dev: nat, ev: set<Flag>)
    | Tick(tick: nat)
    | WaitCall(pid: nat, which: int)
    | WaitResume(pid: nat)

  /** The process holds the processor and is not inside a blocked call. */
  predicate Running(s: State, pid: nat) {
    && pid in s.table && s.table[pid].status == Active
    && (forall p :: p in s.polls ==> p.pid != pid)
    && (forall w :: w in s.waits ==> w.pid != pid)
  }

  predicate Enabled(s: State, e: Event) {
    match e
    case Switch(pid) => pid in s.table && s.table[pid].status in {Active, Runnable}
    case Fork(parent, child) => Running(s, parent) && child > 0 && child !in s.table
    case Exit(pid, _) => Running(s, pid)
    case PollCall(pid, _, _, _) => Running(s, pid)
    case PollResume(pid) => pid in s.table && s.table[pid].status == Active && exists p :: p in s.polls && p.pid == pid
    case FileEvent(dev, _) => dev != 0
    case Tick(_) => true
    case WaitCall(pid, _) => Running(s, pid)
    case WaitResume(pid) => pid in s.table && s.table[pid].status == Active && exists w :: w in s.waits && w.pid == pid
  }

  function Yielded(table: Table): Table {
    map p | p in table :: if table[p].status == Active then table[p].(status := Runnable) else table[p]
  }

  /** The wait call's last act: the child is recorded as returned, and if it has ended it is removed
      from the table together with all its own entries. */
  function Collected(s: State, c: nat): State {
    var t := s.(returned := s.returned + multiset{c});
    if c in s.table && s.table[c].status == Zombie then
      t.(table := s.table - {c}, polls := Without(s.polls, c), happened := Others(s.happened, c), waits := WaitsOfOthers(s.waits, c))
    else t
  }

  function Others(happened: seq<nat>, c: nat): seq<nat> {
    if happened == [] then []
    else if happened[0] == c then Others(happened[1..], c)
    else [happened[0]] + Others(happened[1..], c)
  }

  function WaitsOfOthers(waits: seq<Wait>, c: nat): seq<Wait> {
    if waits == [] then []
    else if waits[0].pid == c then WaitsOfOthers(waits[1..], c)
    else [waits[0]] + WaitsOfOthers(waits[1..], c)
  }

  /** The value a call gives back; none when the process goes to sleep instead. */
  datatype Reply = Blocked | Value(ret: int, code: int)

  function Polled(s: State, pid: nat, fds: seq<Request>, ready: map<nat, set<Flag>>, timeout: int): (State, Reply)
    requires pid in s.table
  {
    if fds == [] then (s, Value(-1, 0))
    else if timeout == 0 then (s, Value(0, 0))
    else
      var count := ReadyCount(s.table[pid], fds, ready);
      var added := Registered(s.table[pid], pid, fds, ready, timeout, s.clock);
      if count == 0 && added == [] then (s, Value(-1, 0))
      else if count != 0 then (s.(polls := Without(s.polls + added, pid)), Value(count, 0))
      else (s.(polls := s.polls + added, table := s.table[pid := s.table[pid].(status := Sleeping)]), Blocked)
  }

  function Waited(s: State, pid: nat, child: int): (State, Reply)
    requires pid in s.table
  {
    var pids := WaitList(s.table[pid], child);
    if pids == [] then (s, Value(-1, 0))
    else
      var i := FirstEnded(s.happened, pids);
      if i < |s.happened| then
        var c := s.happened[i];
        (Collected(s.(happened := RemoveAt(s.happened, i)), c), Value(c, if c in s.table then s.table[c].code else 0))
      else
        (s.(waits := s.waits + [Wait(pid, pids, 0)], table := s.table[pid := s.table[pid].(status := Sleeping)]), Blocked)
  }

  function Ended(s: State, pid: nat, code: int): State
    requires pid in s.table
  {
    var t := s.(table := s.table[pid := s.table[pid].(status := Zombie, code := code)], exits := s.exits + multiset{pid});
    var i := WaitFor(s.waits, pid);
    if i < |s.waits| then
      t.(waits := s.waits[i := s.waits[i].(pids := [pid], local := code)], table := Woken(t.table, s.waits[i].pid))
    else t.(happened := s.happened + [pid])
  }

  function Resumed(s: State, pid: nat): (State, Reply)
    requires WaitOf(s.waits, pid) < |s.waits| && s.waits[WaitOf(s.waits, pid)].pids != []
  {
    var w := s.waits[WaitOf(s.waits, pid)];
    (Collected(s.(waits := RemoveAt(s.waits, WaitOf(s.waits, pid))), w.pids[0]), Value(w.pids[0], w.local))
  }

  function Step(s: State, e: Event): State
    requires Enabled(s, e)
  {
    match e
    case Switch(pid) => s.(table := Yielded(s.table)[pid := s.table[pid].(status := Active)])
    case Fork(parent, child) =>
      var p := s.table[parent];
      var children := if child in p.children then p.children else p.children + [child];
      s.(table := s.table[parent := p.(children := children)][child := Process(Runnable, parent, [], 0, p.devices)])
    case Exit(pid, code) => Ended(s, pid, code)
    case PollCall(pid, fds, ready, timeout) => Polled(s, pid, fds, ready, timeout).0
    case PollResume(pid) => s.(polls := Without(s.polls, pid))
    case FileEvent(dev, ev) => var r := Notified(s.polls, s.table, dev, ev); s.(polls := r.0, table := r.1)
    case Tick(tick) => var r := Ticked(s.polls, s.table, tick); s.(polls := r.0, table := r.1, clock := s.clock + tick)
    case WaitCall(pid, which) => Waited(s, pid, which).0
    case WaitResume(pid) =>
      var i := WaitOf(s.waits, pid);
      if i < |s.waits| && s.waits[i].pids != [] then Resumed(s, pid).0 else s
  }
}
