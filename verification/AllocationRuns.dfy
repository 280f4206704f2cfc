/** Runs of allocations and frees. */
module AllocationRuns {
  import opened BlockTable
  import opened BlockAllocator

  datatype Op =
    | Allocate(i: nat, s: nat, start: nat, missing: nat, reaches: bool)
    | Free(bl: nat)

  /** An operation whose searches stay within the bitmaps, or that does not free the first block of the file
      system. */
  ghost predicate Possible(t: Table, op: Op)
    requires t.Shape()
  {
    match op
    case Allocate(i, s, start, missing, reaches) => Bounded(t, false, i, s, start, missing, reaches)
    case Free(bl) => bl > t.first
  }

  /** Neither the block an allocation takes nor a block of pointers for it is in use. */
  ghost predicate Clean(t: Table, op: Op)
    requires t.Shape() && Possible(t, op)
  {
    match op
    case Allocate(i, s, start, missing, reaches) =>
      && !Slips(t, false, i, s, start)
      && (Refused(t, false, i, s, start) || !reaches || !PointersSlip(Step(t, false, i, s, start), false, i, missing))
    case Free(_) => true
  }

  ghost function Apply(t: Table, op: Op): Table
    requires t.Shape() && Possible(t, op)
  {
    match op
    case Allocate(i, s, start, missing, reaches) => Allocation(t, false, i, s, start, false, missing, reaches).t
    case Free(bl) => Freed(t, bl)
  }

  /** Tables with the count right and the first block in use. */
  ghost predicate Sound(t: Table) {
    t.Shape() && t.Counted() && t.InUse(0, 0)
  }

  /** Nothing brings the count nearer to the number of clear bits again. */
  lemma ApplyKeeps(t: Table, op: Op)
    requires t.Shape() && Possible(t, op)
    ensures Apply(t, op).Shape() && Balance(Apply(t, op)) >= Balance(t)
    ensures t.InUse(0, 0) ==> (Balance(Apply(t, op)) == Balance(t) <==> Clean(t, op))
    ensures t.InUse(0, 0) && Clean(t, op) ==> Apply(t, op).InUse(0, 0)
  {
    match op
    case Allocate(i, s, start, missing, reaches) =>
      AllocationBalance(t, false, i, s, start, missing, reaches);
      AllocationKeeps(t, i, s, start, missing, reaches);
    case Free(bl) =>
      FreedEffect(t, bl);
      FreeKeeps(t, bl);
  }

  lemma AllocationKeeps(t: Table, i: nat, s: nat, start: nat, missing: nat, reaches: bool)
    requires t.Shape() && Bounded(t, false, i, s, start, missing, reaches)
    ensures var u := Allocation(t, false, i, s, start, false, missing, reaches).t;
      u.Shape() && (t.InUse(0, 0) && !Slips(t, false, i, s, start) ==> u.InUse(0, 0))
  {
    hide Table.Pick, Table.Overrun, Table.Readable, LinkAll, Step, Refused, Slips, Clear, Total;
    SlipsExactly(t, false, i, s, start);
    if !Refused(t, false, i, s, start) {
      StepIs(t, false, i, s, start);
      var c, l := t.Pick(i, s, start), Links(Step(t, false, i, s, start), false, i, missing, reaches);
      if !l.ok {
        ReturnedKeeps(l.t, c.group, c.index, 1);
        ReturnedIs(l.t, c.group, c.index);
      }
    }
  }

  lemma FreeKeeps(t: Table, bl: nat)
    requires t.Shape() && bl > t.first
    ensures t.InUse(0, 0) ==> Freed(t, bl).InUse(0, 0)
  {
    if Allocated(t, bl) {
      Within(t, bl);
      BitsDiffer(t, bl, t.first);
    }
  }

  ghost predicate PossibleRun(t: Table, ops: seq<Op>)
    requires t.Shape()
    decreases |ops|
  {
    ops == [] || (Possible(t, ops[0]) && (ApplyKeeps(t, ops[0]); PossibleRun(Apply(t, ops[0]), ops[1..])))
  }

  ghost predicate CleanRun(t: Table, ops: seq<Op>)
    requires t.Shape() && PossibleRun(t, ops)
    decreases |ops|
  {
    ops == [] || (Clean(t, ops[0]) && (ApplyKeeps(t, ops[0]); CleanRun(Apply(t, ops[0]), ops[1..])))
  }

  ghost function Run(t: Table, ops: seq<Op>): Table
    requires t.Shape() && PossibleRun(t, ops)
    decreases |ops|
  {
    if ops == [] then t else ApplyKeeps(t, ops[0]); Run(Apply(t, ops[0]), ops[1..])
  }

  lemma {:induction false} RunBalance(t: Table, ops: seq<Op>)
    requires t.Shape() && PossibleRun(t, ops)
    ensures Run(t, ops).Shape() && Balance(Run(t, ops)) >= Balance(t)
    decreases |ops|
  {
    hide Balance, Clean, Possible;
    if ops != [] {
      ApplyKeeps(t, ops[0]);
      RunBalance(Apply(t, ops[0]), ops[1..]);
    }
  }

  /** After any run, nested and failing allocations included, the superblock's count is the number of clear
      bits over all bitmaps exactly if no allocation of the run took a block in use. */
  lemma {:induction false} RunKeepsCount(t: Table, ops: seq<Op>)
    requires Sound(t) && PossibleRun(t, ops)
    ensures Run(t, ops).Counted() <==> CleanRun(t, ops)
    ensures CleanRun(t, ops) ==> Sound(Run(t, ops))
    decreases |ops|
  {
    hide Clean, Possible, Total;
    if ops != [] {
      ApplyKeeps(t, ops[0]);
      if Clean(t, ops[0]) {
        RunKeepsCount(Apply(t, ops[0]), ops[1..]);
      } else {
        RunBalance(Apply(t, ops[0]), ops[1..]);
      }
    }
  }

  /** Two groups of two blocks; the second block of group zero is in use or not, and its descriptor claims
      so many free ones. */
  function TwoGroups(inUse: bool, count: nat): Table {
    Table([[true, inUse], [true, false]], [count, 1], if inUse then 1 else 2, 2, 5, 1)
  }

  lemma WrapFrees()
    ensures TwoGroups(true, 0).Shape() && Freed(TwoGroups(true, 0), 2) == TwoGroups(false, 65535)
  {
    var t, u := TwoGroups(true, 0), TwoGroups(false, 65535);
    assert GroupOf(t, 2) == 0 && BitOf(t, 2) == 1;
    assert t.used[0][1 := false] == [true, false];
    assert t.used[0 := [true, false]] == u.used && t.counts[0 := 65535] == u.counts;
  }

  lemma WrapAllocates()
    ensures var u, op := TwoGroups(false, 65535), Allocate(0, 0, 0, 0, true);
      u.Shape() && Possible(u, op) && Clean(u, op) && Apply(u, op) == TwoGroups(true, 65534)
  {
    var u, v := TwoGroups(false, 65535), TwoGroups(true, 65534);
    assert !u.used[0][1];
    assert HasClear(u.used[0], 1, 2) && FirstClear(u.used[0], 1, 2) == 1;
    assert u.Pick(0, 0, 0) == Some(0, 1);
    assert u.used[0][1 := true] == [true, true];
    assert u.used[0 := [true, true]] == v.used && u.counts[0 := 65534] == v.counts;
  }

  /** A block of a full group is freed, which wraps the descriptor's count, and taken again: the count is
      right, and a search that starts behind the bitmap of that group is not stopped by its descriptor. */
  lemma WrapExample()
    ensures var t, ops := TwoGroups(true, 0), [Free(2), Allocate(0, 0, 0, 0, true)];
      && t.Shape() && PossibleRun(t, ops) && CleanRun(t, ops) && Run(t, ops) == TwoGroups(true, 65534)
      && !Possible(Run(t, ops), Allocate(0, 0, 3, 0, true))
  {
    WrapFrees();
    WrapAllocates();
    hide Freed, Allocation, Bounded, Slips, PointersSlip;
    OneThenOne(TwoGroups(true, 0), Free(2), Allocate(0, 0, 0, 0, true));
    WrapOutside();
  }

  lemma WrapOutside()
    ensures TwoGroups(true, 65534).Shape() && !Bounded(TwoGroups(true, 65534), false, 0, 0, 3, 0, true)
  {
    assert !HasClear(TwoGroups(true, 65534).used[0], 0, 2) && !HasClear(TwoGroups(true, 65534).used[0], 0, 3);
  }

  lemma NoOps(t: Table)
    requires t.Shape()
    ensures PossibleRun(t, []) && CleanRun(t, []) && Run(t, []) == t
  {
  }

  lemma RunCons(t: Table, op: Op, u: Table, ops: seq<Op>)
    requires t.Shape() && Possible(t, op) && Clean(t, op) && u == Apply(t, op)
    requires u.Shape() && PossibleRun(u, ops) && CleanRun(u, ops)
    ensures PossibleRun(t, [op] + ops) && CleanRun(t, [op] + ops) && Run(t, [op] + ops) == Run(u, ops)
  {
    hide Possible, Clean, Apply;
    ApplyKeeps(t, op);
    assert ([op] + ops)[1..] == ops;
  }

  lemma OneThenOne(t: Table, a: Op, b: Op)
    requires t.Shape() && Possible(t, a) && Clean(t, a)
    requires Apply(t, a).Shape() && Possible(Apply(t, a), b) && Clean(Apply(t, a), b)
    ensures PossibleRun(t, [a, b]) && CleanRun(t, [a, b]) && Run(t, [a, b]) == Apply(Apply(t, a), b)
  {
    hide Possible, Clean, Apply, PossibleRun, CleanRun, Run;
    var u := Apply(t, a);
    var v := Apply(u, b);
    ApplyKeeps(u, b);
    NoOps(v);
    RunCons(u, b, v, []);
    assert [b] + [] == [b] && [a] + [b] == [a, b];
    RunCons(t, a, u, [b]);
  }

  /** Two groups, the second full. A pointer block for a file of the second group is taken from the block
      in use at the start of the first, and the count no longer is that of the clear bits. */
  lemma SlipExample()
    ensures var t := Table([[true, false], [true, true]], [1, 0], 1, 2, 5, 1);
      && Sound(t) && Slips(t, false, 1, 0, 0)
      && !Allocation(t, false, 1, 0, 0, true, 0, true).t.Counted()
  {
    var t := Table([[true, false], [true, true]], [1, 0], 1, 2, 5, 1);
    assert !t.used[0][1];
    assert Clear([true]) == 0 && Clear([true, false]) == 1 by {
      assert [true, false][..1] == [true] && [true][..0] == [];
    }
    assert Clear([true, true]) == 0 by {
      assert [true, true][..1] == [true] && [true][..0] == [];
    }
    assert Total(t.used) == 1 by {
      assert t.used[..1] == [[true, false]] && t.used[..1][..0] == [];
    }
    assert HasClear(t.used[0], 1, 2) && !HasClear(t.used[0], 0, 0);
    PickIsClear(t, 1, 0, 0);
    TakenGrows(t, 0, 0);
    assert Balance(Taken(t, 0, 0)) == 1;
  }
}
