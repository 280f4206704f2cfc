/** Allocating and freeing blocks, with the nested allocation of pointer blocks and the rollback. */
module BlockAllocator {
  import opened Arithmetic
  import opened BlockTable

  /** How far the superblock's count is from the number of clear bits. */
  ghost function Balance(t: Table): int { Total(t.used) - t.free }

  /** The tables after a block is taken. */
  function Taken(t: Table, g: nat, n: nat): Table
    requires t.In(g, n) && |t.counts| == |t.used| && t.counts[g] > 0 && t.free > 0
  {
    t.Mark(g, n, true).(counts := t.counts[g := t.counts[g] - 1], free := t.free - 1)
  }

  /** The tables after a block is given back. A descriptor's count is sixteen bits wide. */
  function Returned(t: Table, g: nat, n: nat, step: int): Table
    requires t.In(g, n) && |t.counts| == |t.used|
  {
    t.Mark(g, n, false).(counts := t.counts[g := (t.counts[g] + step) % 65536], free := t.free + 1)
  }

  /** An allocation does not get as far as changing the tables. */
  predicate Refused(t: Table, ro: bool, i: nat, s: nat, start: nat)
    requires |t.counts| == |t.used| && i < |t.used| && s < |t.used|
  {
    var c := t.Pick(i, s, start);
    ro || t.free == 0 || c.None? || t.Address(c.group, c.index) >= t.blocks
  }

  /** The search of an allocation stays within the bitmaps; one that is turned away at once does not search. */
  predicate Searchable(t: Table, ro: bool, i: nat, s: nat, start: nat) {
    |t.counts| == |t.used| && i < |t.used| && s < |t.used| && (ro || t.free == 0 || t.Readable(i, s, start))
  }

  /** The search of an allocation overruns and the block at `start`, where it ends then, is in use. */
  predicate Slips(t: Table, ro: bool, i: nat, s: nat, start: nat)
    requires |t.counts| == |t.used| && i < |t.used| && s < |t.used|
  {
    var g := if HasClear(t.used[s], start + 1, t.perGroup) then s else i;
    !ro && t.free > 0 && t.Overrun(i, s, start) && t.InUse(g, start) && t.Address(g, start) < t.blocks
  }

  /** These are the allocations that take a block in use. */
  lemma SlipsExactly(t: Table, ro: bool, i: nat, s: nat, start: nat)
    requires t.Shape() && Searchable(t, ro, i, s, start)
    ensures Slips(t, ro, i, s, start) <==>
      !Refused(t, ro, i, s, start) && t.InUse(t.Pick(i, s, start).group, t.Pick(i, s, start).index)
  {
    hide Table.Readable, Table.Rest, FirstClear;
    if !ro && t.free > 0 && t.Pick(i, s, start).Some? {
      PickIsClear(t, i, s, start);
    }
  }

  ghost predicate SameLayout(t: Table, u: Table) {
    && u.perGroup == t.perGroup && u.blocks == t.blocks && u.first == t.first
    && |u.used| == |t.used| && |u.counts| == |t.counts|
  }

  /** Tables that differ in what later allocations took. */
  ghost predicate Grown(t: Table, u: Table) {
    && u.Shape() && SameLayout(t, u)
    && (forall g, n :: t.InUse(g, n) ==> u.InUse(g, n))
    && (forall g :: 0 <= g < |t.counts| ==> u.counts[g] <= t.counts[g]) && u.free <= t.free
  }

  lemma TakenGrows(t: Table, g: nat, n: nat)
    requires t.Shape() && t.In(g, n) && t.counts[g] > 0 && t.free > 0
    ensures Grown(t, Taken(t, g, n)) && Taken(t, g, n).InUse(g, n)
    ensures Balance(Taken(t, g, n)) == Balance(t) + if t.InUse(g, n) then 1 else 0
    ensures t.Honest() ==> Taken(t, g, n).Honest()
  {
    TotalAfterMark(t, g, n, true);
  }

  /** The tables after one allocation that needs no further blocks. */
  function Step(t: Table, ro: bool, i: nat, s: nat, start: nat): (u: Table)
    requires t.Shape() && Searchable(t, ro, i, s, start)
    ensures Grown(t, u)
  {
    if Refused(t, ro, i, s, start) then t
    else
      PickIsClear(t, i, s, start);
      TakenGrows(t, t.Pick(i, s, start).group, t.Pick(i, s, start).index);
      Taken(t, t.Pick(i, s, start).group, t.Pick(i, s, start).index)
  }

  /** One of `missing` pointer blocks for a file of group `i` is taken from the block in use at the start of
      group zero, or, if the descriptor of group zero is wrong about its full bitmap, of group `i`: the first
      one, or the second after the first has taken that block. */
  predicate PointersSlip(t: Table, ro: bool, i: nat, missing: nat)
    requires |t.counts| == |t.used| && i < |t.used|
  {
    && missing > 0 && !ro && t.free > 0 && i != 0 && t.counts[0] != 0
    && if HasClear(t.used[0], 1, t.perGroup) then t.first < t.blocks
       else
         && t.InInode(i) && t.Address(i, 0) < t.blocks
         && (t.InUse(i, 0) || (missing > 1 && t.free > 1 && t.counts[i] > 1 && HasClear(t.used[i], 1, t.perGroup)))
  }

  function GroupOf(t: Table, bl: nat): nat
    requires t.perGroup > 0 && bl >= t.first
  {
    (bl - t.first) / t.perGroup
  }

  function BitOf(t: Table, bl: nat): nat
    requires t.perGroup > 0 && bl >= t.first
  {
    (bl - t.first) % t.perGroup
  }

  /** The group and the bit of a block. */
  lemma Within(t: Table, bl: nat)
    requires t.Shape() && t.first <= bl < t.blocks
    ensures t.In(GroupOf(t, bl), BitOf(t, bl))
    ensures bl == t.Address(GroupOf(t, bl), BitOf(t, bl))
  {
    var x, m := bl - t.first, t.perGroup;
    if x / m >= |t.used| {
      Scale(m, |t.used|, x / m);
    }
  }

  predicate Allocated(t: Table, bl: nat)
    requires t.Shape()
  {
    t.first <= bl < t.blocks &&
    (Within(t, bl);
     t.used[GroupOf(t, bl)][BitOf(t, bl)])
  }

  /** The tables after a block is freed. */
  function Freed(t: Table, bl: nat): Table
    requires t.Shape() && bl >= t.first
  {
    if bl >= t.blocks then t
    else
      Within(t, bl);
      var g, n := GroupOf(t, bl), BitOf(t, bl);
      if t.used[g][n] then Returned(t, g, n, -1) else t
  }

  /** Freeing a block that is in use puts its group's descriptor two further from the bitmap; a count of
      zero wraps, and from then on the descriptor claims free blocks that the bitmap does not have. */
  lemma DescriptorDrifts(t: Table, bl: nat)
    requires t.Honest() && t.perGroup < 65535 && Allocated(t, bl)
    ensures var g, u := GroupOf(t, bl), Freed(t, bl);
      && g < |t.used| == |u.used| == |u.counts|
      && (t.counts[g] > 0 ==> Clear(u.used[g]) - u.counts[g] == Clear(t.used[g]) - t.counts[g] + 2)
      && (t.counts[g] == 0 ==> u.counts[g] == 65535)
      && (u.Honest() <==> t.counts[g] > 0)
  {
    Within(t, bl);
    var g, n, u := GroupOf(t, bl), BitOf(t, bl), Freed(t, bl);
    TotalAfterMark(t, g, n, false);
    ClearBound(u.used[g]);
  }

  lemma {:induction false} ClearBound(bits: seq<bool>)
    ensures Clear(bits) <= |bits|
  {
    if |bits| > 0 {
      ClearBound(bits[..|bits| - 1]);
    }
  }

  /** Giving back a block that is in use keeps the balance. */
  lemma ReturnedKeeps(t: Table, g: nat, n: nat, step: int)
    requires t.Shape() && t.InUse(g, n)
    ensures Returned(t, g, n, step).Shape() && SameLayout(t, Returned(t, g, n, step))
    ensures Balance(Returned(t, g, n, step)) == Balance(t)
  {
    TotalAfterMark(t, g, n, false);
  }

  /** The condition for one block of pointers; with honest descriptors only group zero matters. */
  lemma PointerSlips(t: Table, ro: bool, i: nat, missing: nat)
    requires t.Shape() && t.InUse(0, 0) && i < |t.used|
    ensures Slips(t, ro, i, 0, 0) <==> PointersSlip(t, ro, i, 1)
    ensures t.Honest() ==>
      (PointersSlip(t, ro, i, missing) <==>
         missing > 0 && !ro && t.free > 0 && i != 0 && t.counts[0] != 0 && t.first < t.blocks)
  {
    ClearMeansBit(t.used[0]);
    if HasClear(t.used[0], 0, t.perGroup) {
      var k :| 0 <= k < |t.used[0]| && !t.used[0][k];
      assert HasClear(t.used[0], 1, t.perGroup);
    }
  }

  lemma StepGrows(t: Table, ro: bool, i: nat, s: nat, start: nat)
    requires t.Shape() && Searchable(t, ro, i, s, start)
    ensures Grown(t, Step(t, ro, i, s, start))
    ensures Balance(Step(t, ro, i, s, start)) == Balance(t) + if Slips(t, ro, i, s, start) then 1 else 0
    ensures t.Honest() ==> Step(t, ro, i, s, start).Honest()
  {
    hide Table.Pick, Table.Overrun, Table.Readable, Table.Honest, Total, Clear, Slips;
    SlipsExactly(t, ro, i, s, start);
    if !Refused(t, ro, i, s, start) {
      PickIsClear(t, i, s, start);
      TakenGrows(t, t.Pick(i, s, start).group, t.Pick(i, s, start).index);
    }
  }

  /** Different blocks have different bits. */
  lemma BitsDiffer(t: Table, a: nat, b: nat)
    requires t.Shape() && t.first <= a < t.blocks && t.first <= b < t.blocks && a != b
    ensures !(GroupOf(t, a) == GroupOf(t, b) &&
              BitOf(t, a) == BitOf(t, b))
  {
    Within(t, a);
    Within(t, b);
  }

  lemma SameBit(t: Table, u: Table, b: nat)
    requires SameLayout(t, u) && t.perGroup > 0 && b >= t.first
    ensures GroupOf(u, b) == GroupOf(t, b) && BitOf(u, b) == BitOf(t, b)
  {
  }

  lemma FreedBits(t: Table, bl: nat, b: nat)
    requires t.Shape() && Allocated(t, bl) && Freed(t, bl).Shape() && SameLayout(t, Freed(t, bl))
    ensures Allocated(Freed(t, bl), b) <==> Allocated(t, b) && b != bl
  {
    hide Table.Address, GroupOf, BitOf;
    Within(t, bl);
    if t.first <= b < t.blocks {
      Within(t, b);
      SameBit(t, Freed(t, bl), b);
      if b != bl {
        BitsDiffer(t, b, bl);
      }
    }
  }

  lemma FreedEffect(t: Table, bl: nat)
    requires t.Shape() && bl >= t.first
    ensures var u := Freed(t, bl);
      && u.Shape() && SameLayout(t, u) && Balance(u) == Balance(t)
      && u.free == t.free + (if Allocated(t, bl) then 1 else 0)
      && forall b: nat :: Allocated(u, b) <==> Allocated(t, b) && b != bl
  {
    hide Table.Address, GroupOf, BitOf, Balance, Table.In;
    if Allocated(t, bl) {
      Within(t, bl);
      ReturnedKeeps(t, GroupOf(t, bl), BitOf(t, bl), -1);
      forall b: nat
        ensures Allocated(Freed(t, bl), b) <==> Allocated(t, b) && b != bl
      {
        FreedBits(t, bl, b);
      }
    }
  }

  /** What comes of allocating blocks of pointers: the tables, and whether all were found. */
  datatype Linked = Linked(t: Table, ok: bool)

  /** An allocation finds no block, or block zero, which the caller takes for none. */
  predicate Finds(t: Table, ro: bool, i: nat, s: nat, start: nat)
    requires |t.counts| == |t.used| && i < |t.used| && s < |t.used|
  {
    !Refused(t, ro, i, s, start) && t.Address(t.Pick(i, s, start).group, t.Pick(i, s, start).index) != 0
  }

  /** The searches for `missing` blocks of pointers stay within the bitmaps. */
  predicate Linkable(t: Table, ro: bool, i: nat, missing: nat)
    requires t.Shape() && i < |t.used|
    decreases missing
  {
    missing == 0 ||
    (Searchable(t, ro, i, 0, 0) &&
     (Finds(t, ro, i, 0, 0) ==> Linkable(Step(t, ro, i, 0, 0), ro, i, missing - 1)))
  }

  /** The allocation of `missing` blocks of pointers; it stops at the first that is not found. */
  function LinkAll(t: Table, ro: bool, i: nat, missing: nat): (l: Linked)
    requires t.Shape() && i < |t.used| && Linkable(t, ro, i, missing)
    ensures Grown(t, l.t)
    decreases missing
  {
    if missing == 0 then Linked(t, true)
    else
      var u := Step(t, ro, i, 0, 0);
      if Finds(t, ro, i, 0, 0) then LinkAll(u, ro, i, missing - 1) else Linked(u, false)
  }

  /** The searches of an allocation and of the blocks of pointers for it stay within the bitmaps. */
  predicate Bounded(t: Table, ro: bool, i: nat, s: nat, start: nat, missing: nat, reaches: bool)
    requires t.Shape()
  {
    && Searchable(t, ro, i, s, start)
    && (reaches && !Refused(t, ro, i, s, start) ==> Linkable(Step(t, ro, i, s, start), ro, i, missing))
  }

  /** With honest descriptors every search stays within the bitmaps. */
  lemma HonestIsBounded(t: Table, ro: bool, i: nat, s: nat, start: nat, missing: nat, reaches: bool)
    requires t.Honest() && i < |t.used| && s < |t.used|
    ensures Bounded(t, ro, i, s, start, missing, reaches)
  {
    hide Table.Pick, Table.Readable, Step, Refused, Clear, Total;
    HonestIsReadable(t, i, s, start);
    StepGrows(t, ro, i, s, start);
    HonestIsLinkable(Step(t, ro, i, s, start), ro, i, missing);
  }

  lemma {:induction false} HonestIsLinkable(t: Table, ro: bool, i: nat, missing: nat)
    requires t.Honest() && i < |t.used|
    ensures Linkable(t, ro, i, missing)
    decreases missing
  {
    hide Table.Pick, Table.Readable, Step, Finds;
    if missing > 0 {
      HonestIsReadable(t, i, 0, 0);
      StepGrows(t, ro, i, 0, 0);
      HonestIsLinkable(Step(t, ro, i, 0, 0), ro, i, missing - 1);
    }
  }

  /** The address that an allocation returns and the tables it leaves. */
  datatype Outcome = Outcome(addr: nat, t: Table)

  /** Linking a block needs `missing` blocks of pointers; `reaches` is false if no pointer leads to it. */
  function Links(t: Table, ro: bool, i: nat, missing: nat, reaches: bool): (l: Linked)
    requires t.Shape() && i < |t.used| && (reaches ==> Linkable(t, ro, i, missing))
    ensures Grown(t, l.t)
  {
    if reaches then LinkAll(t, ro, i, missing) else Linked(t, false)
  }

  function Allocation(t: Table, ro: bool, i: nat, s: nat, start: nat, indirect: bool, missing: nat, reaches: bool): Outcome
    requires t.Shape()
    requires if indirect then Searchable(t, ro, i, s, start) else Bounded(t, ro, i, s, start, missing, reaches)
  {
    if Refused(t, ro, i, s, start) then Outcome(0, t)
    else
      var c, u := t.Pick(i, s, start), Step(t, ro, i, s, start);
      PickIsClear(t, i, s, start);
      if indirect then Outcome(t.Address(c.group, c.index), u)
      else
        var l := Links(u, ro, i, missing, reaches);
        if l.ok then Outcome(t.Address(c.group, c.index), l.t) else Outcome(0, Returned(l.t, c.group, c.index, 1))
  }

  /** Allocating blocks of pointers keeps the balance exactly if none of them is taken from a block in use. */
  lemma {:induction false} LinkAllBalance(t: Table, ro: bool, i: nat, missing: nat)
    requires t.Shape() && i < |t.used| && Linkable(t, ro, i, missing)
    ensures Balance(LinkAll(t, ro, i, missing).t) >= Balance(t)
    ensures t.InUse(0, 0) ==>
      (Balance(LinkAll(t, ro, i, missing).t) == Balance(t) <==> !PointersSlip(t, ro, i, missing))
    decreases missing
  {
    hide Table.Pick, Table.Overrun, Table.Readable, Balance, Total, Clear, Table.Mark, Slips, Refused, Step, PointersSlip;
    if missing == 0 {
      NoneMissing(t, ro, i);
    } else {
      StepGrows(t, ro, i, 0, 0);
      var u := Step(t, ro, i, 0, 0);
      if t.InUse(0, 0) {
        PointersSlipStep(t, ro, i, missing);
      }
      if Finds(t, ro, i, 0, 0) {
        LinkAllBalance(u, ro, i, missing - 1);
      }
    }
  }

  lemma NoneMissing(t: Table, ro: bool, i: nat)
    requires |t.counts| == |t.used| && i < |t.used|
    ensures !PointersSlip(t, ro, i, 0)
  {
  }

  /** A pointer block slips, or a later one does in the tables that it leaves. */
  lemma PointersSlipStep(t: Table, ro: bool, i: nat, missing: nat)
    requires t.Shape() && t.InUse(0, 0) && i < |t.used| && missing > 0 && Searchable(t, ro, i, 0, 0)
    ensures PointersSlip(t, ro, i, missing) <==>
      Slips(t, ro, i, 0, 0) || (Finds(t, ro, i, 0, 0) && PointersSlip(Step(t, ro, i, 0, 0), ro, i, missing - 1))
  {
    hide Table.Readable, Table.Rest, FirstClear;
    var full := !HasClear(t.used[0], 1, t.perGroup);
    if !Refused(t, ro, i, 0, 0) && i != 0 && t.counts[0] != 0 && full {
      if t.InInode(i) {
        SecondSlips(t, ro, i, missing);
      } else {
        ElsewhereSlipsNone(t, ro, i, missing);
      }
    }
  }

  /** The first pointer block is the free one at the start of its file's group: the next one slips. */
  lemma SecondSlips(t: Table, ro: bool, i: nat, missing: nat)
    requires t.Shape() && 0 < i < |t.used| && missing > 0 && Searchable(t, ro, i, 0, 0) && !Refused(t, ro, i, 0, 0)
    requires t.InUse(0, 0) && t.counts[0] != 0 && !HasClear(t.used[0], 1, t.perGroup) && t.InInode(i)
    ensures t.Pick(i, 0, 0) == Some(i, 0)
    ensures !t.InUse(i, 0) ==>
      (PointersSlip(Step(t, ro, i, 0, 0), ro, i, missing - 1) <==>
         missing > 1 && t.free > 1 && t.counts[i] > 1 && HasClear(t.used[i], 1, t.perGroup))
  {
    hide Table.Readable, Table.Rest, FirstClear;
    var u := Step(t, ro, i, 0, 0);
    assert u == Taken(t, i, 0);
    assert u.used[0] == t.used[0] && u.used[i] == t.used[i][0 := true];
    assert HasClear(u.used[i], 0, t.perGroup) <==> HasClear(t.used[i], 1, t.perGroup) by {
      if HasClear(t.used[i], 1, t.perGroup) {
        var k :| 1 <= k < t.perGroup && !t.used[i][k];
        assert !u.used[i][k];
      }
    }
  }

  /** Neither group zero nor the group of the file has a block: the first pointer block comes from elsewhere,
      and so do the next. */
  lemma ElsewhereSlipsNone(t: Table, ro: bool, i: nat, missing: nat)
    requires t.Shape() && 0 < i < |t.used| && missing > 0 && Searchable(t, ro, i, 0, 0) && !Refused(t, ro, i, 0, 0)
    requires t.InUse(0, 0) && t.counts[0] != 0 && !HasClear(t.used[0], 1, t.perGroup) && !t.InInode(i)
    ensures !PointersSlip(Step(t, ro, i, 0, 0), ro, i, missing - 1)
  {
    hide Table.Readable, Table.Rest, FirstClear;
    RestIsClear(t, i, 0, |t.used|);
    var c, u := t.Pick(i, 0, 0), Step(t, ro, i, 0, 0);
    assert u.used[0] == t.used[0] && u.used[i] == t.used[i] && u.counts[i] == t.counts[i];
  }

  /** The superblock's count stays as far from the bitmaps as it was exactly if neither the block itself nor
      a block of pointers for it is taken from blocks in use: whether the allocation succeeds or is rolled
      back makes no difference. */
  lemma AllocationBalance(t: Table, ro: bool, i: nat, s: nat, start: nat, missing: nat, reaches: bool)
    requires t.Shape() && Bounded(t, ro, i, s, start, missing, reaches)
    ensures Balance(Allocation(t, ro, i, s, start, false, missing, reaches).t) >= Balance(t)
    ensures t.InUse(0, 0) ==>
      (Balance(Allocation(t, ro, i, s, start, false, missing, reaches).t) == Balance(t) <==>
         !Slips(t, ro, i, s, start)
         && (Refused(t, ro, i, s, start) || !reaches || !PointersSlip(Step(t, ro, i, s, start), ro, i, missing)))
  {
    hide Table.Pick, Table.Overrun, Table.Readable, Balance, Total, Clear, Table.Mark, LinkAll, Slips, PointersSlip;
    SlipsExactly(t, ro, i, s, start);
    StepGrows(t, ro, i, s, start);
    if !Refused(t, ro, i, s, start) {
      PickIsClear(t, i, s, start);
      var c, u := t.Pick(i, s, start), Step(t, ro, i, s, start);
      TakenGrows(t, c.group, c.index);
      if reaches {
        LinkAllBalance(u, ro, i, missing);
      }
      var l := Links(u, ro, i, missing, reaches);
      if !l.ok {
        ReturnedKeeps(l.t, c.group, c.index, 1);
      }
    }
  }

  /** A block that is handed out is in use afterwards, and was free before unless the search overran. */
  lemma AllocationTakes(t: Table, ro: bool, i: nat, s: nat, start: nat, indirect: bool, missing: nat, reaches: bool)
    requires t.Shape()
    requires if indirect then Searchable(t, ro, i, s, start) else Bounded(t, ro, i, s, start, missing, reaches)
    requires Allocation(t, ro, i, s, start, indirect, missing, reaches).addr != 0
    ensures var c, o := t.Pick(i, s, start), Allocation(t, ro, i, s, start, indirect, missing, reaches);
      && c.Some? && o.addr == t.Address(c.group, c.index) < t.blocks && o.t.InUse(c.group, c.index)
      && (t.InUse(c.group, c.index) <==> Slips(t, ro, i, s, start))
  {
    hide Table.Pick, Table.Overrun, Table.Readable, Table.Mark, LinkAll, Slips;
    SlipsExactly(t, ro, i, s, start);
    PickIsClear(t, i, s, start);
    StepGrows(t, ro, i, s, start);
    TakenGrows(t, t.Pick(i, s, start).group, t.Pick(i, s, start).index);
  }

  /** The blocks of pointers that are taken, in order. */
  function Pointers(t: Table, ro: bool, i: nat, missing: nat): seq<Choice>
    requires t.Shape() && i < |t.used| && Linkable(t, ro, i, missing)
    decreases missing
  {
    if missing == 0 || Refused(t, ro, i, 0, 0) then []
    else
      [t.Pick(i, 0, 0)] +
      if Finds(t, ro, i, 0, 0) then Pointers(Step(t, ro, i, 0, 0), ro, i, missing - 1) else []
  }

  /** How many of the blocks are in a group. */
  function InGroup(taken: seq<Choice>, g: nat): nat {
    if taken == [] then 0
    else (if taken[0].Some? && taken[0].group == g then 1 else 0) + InGroup(taken[1..], g)
  }

  lemma RefusedStep(t: Table, ro: bool, i: nat, s: nat, start: nat)
    requires t.Shape() && Searchable(t, ro, i, s, start) && Refused(t, ro, i, s, start)
    ensures Step(t, ro, i, s, start) == t
  {
  }

  lemma StepIs(t: Table, ro: bool, i: nat, s: nat, start: nat)
    requires t.Shape() && Searchable(t, ro, i, s, start) && !Refused(t, ro, i, s, start)
    ensures var c, u := t.Pick(i, s, start), Step(t, ro, i, s, start);
      && c.Some? && t.In(c.group, c.index) && t.counts[c.group] > 0 && t.free > 0 && u.free == t.free - 1
      && u.counts == t.counts[c.group := t.counts[c.group] - 1]
      && (forall g, n :: u.InUse(g, n) <==> t.InUse(g, n) || Some(g, n) == c)
  {
    hide Table.Pick, Table.Overrun, Table.Readable;
    PickIsClear(t, i, s, start);
  }

  lemma {:induction false} LinkAllIs(t: Table, ro: bool, i: nat, missing: nat)
    requires t.Shape() && i < |t.used| && Linkable(t, ro, i, missing)
    ensures var (u, taken) := (LinkAll(t, ro, i, missing).t, Pointers(t, ro, i, missing));
      && u.free == t.free - |taken|
      && (forall g :: 0 <= g < |t.counts| ==> u.counts[g] == t.counts[g] - InGroup(taken, g))
      && (forall g, n :: u.InUse(g, n) <==> t.InUse(g, n) || Some(g, n) in taken)
      && (LinkAll(t, ro, i, missing).ok ==> |taken| == missing)
    decreases missing
  {
    hide Table.Pick, Table.Overrun, Table.Readable, Table.InUse, Step, Refused;
    if missing > 0 {
      if Refused(t, ro, i, 0, 0) {
        RefusedStep(t, ro, i, 0, 0);
      } else {
        StepIs(t, ro, i, 0, 0);
        if Finds(t, ro, i, 0, 0) {
          LinkAllIs(Step(t, ro, i, 0, 0), ro, i, missing - 1);
        }
      }
    }
  }

  lemma ReturnedIs(t: Table, g: nat, n: nat)
    requires t.Shape() && t.InUse(g, n) && t.counts[g] < 65535
    ensures var u := Returned(t, g, n, 1);
      && SameLayout(t, u) && u.free == t.free + 1 && u.counts == t.counts[g := t.counts[g] + 1]
      && forall h, m :: u.InUse(h, m) <==> t.InUse(h, m) && !(h == g && m == n)
  {
  }

  /** What an allocation that is rolled back leaves: the block is free and counted again, and the blocks of
      pointers it took before it failed stay in use. */
  lemma RollbackLeaves(t: Table, ro: bool, i: nat, s: nat, start: nat, missing: nat, reaches: bool)
    requires t.Shape() && Bounded(t, ro, i, s, start, missing, reaches) && !Refused(t, ro, i, s, start)
    requires !Links(Step(t, ro, i, s, start), ro, i, missing, reaches).ok
    ensures var c, o := t.Pick(i, s, start), Allocation(t, ro, i, s, start, false, missing, reaches);
      var taken := if reaches then Pointers(Step(t, ro, i, s, start), ro, i, missing) else [];
      && o.addr == 0 && SameLayout(t, o.t) && o.t.free == t.free - |taken|
      && (forall g :: 0 <= g < |t.counts| ==> o.t.counts[g] == t.counts[g] - InGroup(taken, g))
      && (forall g, n :: o.t.InUse(g, n) <==> Some(g, n) != c && (t.InUse(g, n) || Some(g, n) in taken))
  {
    hide Table.Pick, Table.Overrun, Table.Readable, Table.InUse, Step, Refused, Pointers, LinkAll;
    StepIs(t, ro, i, s, start);
    if reaches {
      LinkAllIs(Step(t, ro, i, s, start), ro, i, missing);
    }
    var c, l := t.Pick(i, s, start), Links(Step(t, ro, i, s, start), ro, i, missing, reaches);
    ReturnedIs(l.t, c.group, c.index);
  }

  /** One that fails before it needs a block of pointers leaves the tables as they were, provided that it
      took a free block. */
  lemma RollbackRestores(t: Table, ro: bool, i: nat, s: nat, start: nat, missing: nat)
    requires t.Shape() && Searchable(t, ro, i, s, start) && !Slips(t, ro, i, s, start)
    ensures Allocation(t, ro, i, s, start, false, missing, false) == Outcome(0, t)
  {
    hide Table.Pick, Table.Overrun, Table.Readable, Slips;
    SlipsExactly(t, ro, i, s, start);
    if !Refused(t, ro, i, s, start) {
      PickIsClear(t, i, s, start);
      var c, u := t.Pick(i, s, start), Step(t, ro, i, s, start);
      var v := Returned(u, c.group, c.index, 1);
      assert v.used[c.group] == t.used[c.group];
      assert v.used == t.used && v.counts == t.counts;
    }
  }

  lemma Wider(bits: seq<bool>, hi: nat, more: nat)
    requires HasClear(bits, 0, hi) && hi <= more
    ensures HasClear(bits, 0, more)
  {
  }

  /** An allocation is turned away at once, or for want of a free block in a group that admits any, or because the
      search ends behind the file system. */
  lemma RefusedExactly(t: Table, ro: bool, i: nat, s: nat, start: nat)
    requires t.Shape() && Searchable(t, ro, i, s, start)
    ensures var c := t.Pick(i, s, start);
      Refused(t, ro, i, s, start) <==>
        (ro || t.free == 0 || !(exists g: nat, n: nat :: Available(t, g, n, s, start))
         || (c.Some? && t.Address(c.group, c.index) >= t.blocks))
  {
    hide Table.Pick, Table.Readable;
    if !ro && t.free > 0 {
      PickFinds(t, i, s, start);
    }
  }

  /** Every group begins within the file system, and the bits of blocks behind it are set. */
  ghost predicate Padded(t: Table) {
    && (forall g :: 0 <= g < |t.used| ==> t.Address(g, 0) < t.blocks)
    && (forall g, n :: t.In(g, n) && t.Address(g, n) >= t.blocks ==> t.InUse(g, n))
  }

  /** How many free blocks the descriptors claim. */
  function Claimed(counts: seq<nat>): nat {
    if counts == [] then 0 else Claimed(counts[..|counts| - 1]) + counts[|counts| - 1]
  }

  lemma {:induction false} ClaimedAfter(counts: seq<nat>, g: nat, n: nat)
    requires g < |counts|
    ensures Claimed(counts[g := n]) == Claimed(counts) - counts[g] + n
  {
    var last := |counts| - 1;
    if g < last {
      ClaimedAfter(counts[..last], g, n);
      assert counts[g := n][..last] == counts[..last][g := n];
    } else {
      assert counts[g := n][..last] == counts[..last];
    }
  }

  lemma {:induction false} ClaimedMeans(counts: seq<nat>)
    ensures Claimed(counts) > 0 <==> exists g :: 0 <= g < |counts| && counts[g] > 0
  {
    if counts != [] {
      var last := |counts| - 1;
      ClaimedMeans(counts[..last]);
      if g :| 0 <= g < last && counts[..last][g] > 0 {
        assert counts[g] > 0;
      }
    }
  }

  /** Honest descriptors that claim a block have one. */
  lemma ClaimedIsAvailable(t: Table)
    requires t.Honest() && t.InUse(0, 0)
    ensures Claimed(t.counts) > 0 <==> exists g: nat, n: nat :: Available(t, g, n, 0, 0)
  {
    ClaimedMeans(t.counts);
    if g :| 0 <= g < |t.counts| && t.counts[g] > 0 {
      ClearMeansBit(t.used[g]);
      var n :| 0 <= n < |t.used[g]| && !t.used[g][n];
      assert Available(t, g, n, 0, 0);
    }
  }

  /** With honest tables a pointer block is found exactly if there is one to find, unless the search ends at block
      zero: the first of a file system without a boot block, which stands for no block. */
  lemma PointerFound(t: Table, ro: bool, i: nat)
    requires t.Honest() && t.InUse(0, 0) && Padded(t) && i < |t.used|
    ensures Finds(t, ro, i, 0, 0) <==>
      !ro && t.free > 0 && Claimed(t.counts) > 0 && (t.first != 0 || i == 0 || t.counts[0] == 0)
  {
    HonestIsReadable(t, i, 0, 0);
    ClaimedIsAvailable(t);
    PickFinds(t, i, 0, 0);
    ZeroGroupHas(t);
    hide Table.Readable, Table.Rest, FirstClear, Clear, Total, Table.Honest, Available;
    if t.Pick(i, 0, 0).Some? {
      PickIsClear(t, i, 0, 0);
      PickAddress(t, i);
    }
  }

  lemma ZeroGroupHas(t: Table)
    requires t.Honest() && t.InUse(0, 0)
    ensures t.counts[0] != 0 ==> HasClear(t.used[0], 1, t.perGroup)
  {
    ClearMeansBit(t.used[0]);
    if HasClear(t.used[0], 0, t.perGroup) {
      var k :| 0 <= k < |t.used[0]| && !t.used[0][k];
      assert HasClear(t.used[0], 1, t.perGroup);
    }
  }

  lemma PickAddress(t: Table, i: nat)
    requires t.Shape() && t.InUse(0, 0) && Padded(t) && i < |t.used| && t.Readable(i, 0, 0) && t.Pick(i, 0, 0).Some?
    requires t.counts[0] != 0 ==> HasClear(t.used[0], 1, t.perGroup)
    ensures var c := t.Pick(i, 0, 0);
      && t.Address(c.group, c.index) < t.blocks
      && (t.Address(c.group, c.index) == 0 <==> t.first == 0 && i != 0 && t.counts[0] != 0)
  {
    hide Table.Readable, Table.Rest, FirstClear, Table.Pick;
    PickIsClear(t, i, 0, 0);
    var c := t.Pick(i, 0, 0);
    if c.group > 0 {
      Scale(t.perGroup, 1, c.group);
    }
    if t.Overrun(i, 0, 0) {
      assert t.Address(0, 0) < t.blocks;
    }
  }

  /** With honest tables the blocks of pointers are all found exactly if there are as many, again unless the
      search ends at block zero. */
  lemma {:induction false} LinkSucceeds(t: Table, ro: bool, i: nat, missing: nat)
    requires t.Honest() && t.InUse(0, 0) && Padded(t) && i < |t.used| && Linkable(t, ro, i, missing)
    ensures LinkAll(t, ro, i, missing).ok <==>
      (missing == 0 || (!ro && t.free >= missing && Claimed(t.counts) >= missing && (t.first != 0 || i == 0 || t.counts[0] == 0)))
    decreases missing
  {
    hide Table.Pick, Table.Overrun, Table.Readable, Table.Honest, Step, Refused, Claimed, Padded;
    HonestShape(t);
    if missing > 0 {
      PointerFound(t, ro, i);
      if Finds(t, ro, i, 0, 0) {
        FoundLeaves(t, ro, i, 0, 0);
        hide Finds, Grown;
        LinkSucceeds(Step(t, ro, i, 0, 0), ro, i, missing - 1);
      }
    }
  }

  lemma HonestShape(t: Table)
    requires t.Honest()
    ensures t.Shape()
  {
  }

  lemma FoundLeaves(t: Table, ro: bool, i: nat, s: nat, start: nat)
    requires t.Honest() && t.InUse(0, 0) && Padded(t) && Searchable(t, ro, i, s, start) && !Refused(t, ro, i, s, start)
    ensures var u := Step(t, ro, i, s, start);
      && u.Honest() && u.InUse(0, 0) && Padded(u) && SameLayout(t, u)
      && t.free > 0 && u.free == t.free - 1 && Claimed(u.counts) == Claimed(t.counts) - 1 && u.counts[0] <= t.counts[0]
  {
    hide Table.Pick, Table.Overrun, Table.Readable, Table.Honest, Step, Refused, Claimed, Padded;
    HonestShape(t);
    StepIs(t, ro, i, s, start);
    StepGrows(t, ro, i, s, start);
    var c := t.Pick(i, s, start);
    ClaimedAfter(t.counts, c.group, t.counts[c.group] - 1);
    GrownPadded(t, Step(t, ro, i, s, start));
  }

  lemma GrownPadded(t: Table, u: Table)
    requires Padded(t) && t.Shape() && Grown(t, u)
    ensures Padded(u)
  {
    hide Table.Address;
    forall g, n
      ensures u.Address(g, n) == t.Address(g, n)
    {
      SameAddress(t, u, g, n);
    }
    assert forall g, n :: u.In(g, n) ==> t.In(g, n);
  }

  lemma SameAddress(t: Table, u: Table, g: nat, n: nat)
    requires SameLayout(t, u)
    ensures u.Address(g, n) == t.Address(g, n)
  {
  }

  /** So an allocation on honest tables hands out a block exactly if there is a free one within the file system
      and the pointer blocks it needs can be found afterwards. */
  lemma AllocationSucceeds(t: Table, ro: bool, i: nat, s: nat, start: nat, missing: nat, reaches: bool)
    requires t.Honest() && t.InUse(0, 0) && Padded(t) && Bounded(t, ro, i, s, start, missing, reaches)
    ensures var o := Allocation(t, ro, i, s, start, false, missing, reaches);
      if Refused(t, ro, i, s, start) then o.addr == 0
      else
        var c, u := t.Pick(i, s, start), Step(t, ro, i, s, start);
        o.addr != 0 <==>
          && t.Address(c.group, c.index) != 0 && reaches
          && (missing == 0 || (t.free > missing && Claimed(t.counts) > missing && (t.first != 0 || i == 0 || u.counts[0] == 0)))
  {
    assert t.Shape();
    hide Table.Pick, Table.Overrun, Table.Readable, Table.Honest, Step, Claimed, Padded, LinkAll;
    if !Refused(t, ro, i, s, start) {
      FoundLeaves(t, ro, i, s, start);
      if reaches {
        LinkSucceeds(Step(t, ro, i, s, start), ro, i, missing);
      }
    }
  }

  class Allocator {
    var t: Table
    const ro: bool

    /** One search loop: a test of the bits of a group, in order, up to the first clear one. */
    method Scan(g: nat, lo: nat, hi: nat) returns (hit: bool, n: nat)
      requires t.Shape() && g < |t.used| && (hi <= t.perGroup || HasClear(t.used[g], lo, hi))
      ensures hit == HasClear(t.used[g], lo, hi) && n == FirstClear(t.used[g], lo, hi)
      ensures !hit && lo <= hi ==> n == hi
    {
      n := lo;
      while n < hi
        invariant lo <= n && FirstClear(t.used[g], lo, hi) == FirstClear(t.used[g], n, hi)
        invariant forall k :: lo <= k < n && k < |t.used[g]| ==> t.used[g][k]
      {
        if !t.used[g][n] {
          return true, n;
        }
        n := n + 1;
      }
      hit := false;
    }

    /** The search of the inode's group, from the previous block on and then up to it. */
    method SearchSame(g: nat, start: nat) returns (found: bool, n: nat)
      requires t.Shape() && g < |t.used| && (start <= t.perGroup || HasClear(t.used[g], 0, t.perGroup))
      ensures found == (HasClear(t.used[g], start + 1, t.perGroup) || HasClear(t.used[g], 0, start))
      ensures found ==> n == if HasClear(t.used[g], start + 1, t.perGroup) then FirstClear(t.used[g], start + 1, t.perGroup)
                             else FirstClear(t.used[g], 0, start)
    {
      found, n := Scan(g, start + 1, t.perGroup);
      if !found {
        found, n := Scan(g, 0, start);
      }
    }

    /** The search of the inode's group and then of the group of the previous block, which goes on after a
        find. */
    method SearchBoth(inodeGroup: nat, startGroup: nat, start: nat) returns (found: bool, g: nat, n: nat)
      requires t.Shape() && inodeGroup < |t.used| && startGroup < |t.used|
      requires t.counts[startGroup] == 0 || start <= t.perGroup || HasClear(t.used[startGroup], 0, t.perGroup)
      requires startGroup != inodeGroup || t.counts[inodeGroup] == 0
      ensures (if found then Some(g, n) else t.Rest(inodeGroup, startGroup, |t.used|)) == t.Pick(inodeGroup, startGroup, start)
    {
      hide HasClear, FirstClear, Clear, Total, Table.Rest;
      var hit := false;
      found, g, n := false, 0, 0;
      if t.counts[inodeGroup] != 0 {
        hit, n := Scan(inodeGroup, 0, t.perGroup);
        if hit {
          found, g := true, inodeGroup;
        }
      }
      if t.counts[startGroup] != 0 {
        hit, n := Scan(startGroup, start + 1, t.perGroup);
        if hit {
          found, g := true, startGroup;
        }
        if start > t.perGroup {
          Wider(t.used[startGroup], t.perGroup, start);
        }
        hit, n := Scan(startGroup, 0, start);
        if hit {
          found, g := true, startGroup;
        }
      }
    }

    /** The search of all other groups, which goes on after a find as well. */
    method SearchOthers(inodeGroup: nat, startGroup: nat) returns (c: Choice)
      requires t.Shape()
      ensures c == t.Rest(inodeGroup, startGroup, |t.used|)
    {
      hide HasClear, FirstClear, Clear, Total;
      var found, hit := false, false;
      var n: nat, g: nat := 0, 0;
      for bg := 0 to |t.used|
        invariant t.Rest(inodeGroup, startGroup, bg) == if found then Some(g, n) else None
      {
        if bg == inodeGroup || bg == startGroup {
          continue;
        }
        if t.counts[bg] == 0 {
          continue;
        }
        hit, n := Scan(bg, 0, t.perGroup);
        if hit {
          found, g := true, bg;
        }
      }
      return if found then Some(g, n) else None;
    }

    /** The searches of `allocate_new_block`, which do not all stop when a block is found. */
    method Search(inodeGroup: nat, startGroup: nat, start: nat) returns (c: Choice)
      requires t.Shape() && inodeGroup < |t.used| && startGroup < |t.used| && t.Readable(inodeGroup, startGroup, start)
      ensures c == t.Pick(inodeGroup, startGroup, start)
    {
      hide HasClear, FirstClear, Table.Rest, Table.Lands;
      var found: bool, n: nat, g: nat := false, 0, inodeGroup;
      if startGroup == inodeGroup && t.counts[inodeGroup] != 0 {
        found, n := SearchSame(inodeGroup, start);
      } else {
        found, g, n := SearchBoth(inodeGroup, startGroup, start);
      }
      if found {
        return Some(g, n);
      }
      c := SearchOthers(inodeGroup, startGroup);
    }

    /** Find a block, mark it in use and count it, then have it linked into the inode. `indirect` asks for a
        block of pointers, which the caller links. Linking any other block needs `missing` blocks of
        pointers first; `reaches` is false if no pointer of the inode leads to the block. */
    method AllocateNewBlock(inodeGroup: nat, startGroup: nat, start: nat, indirect: bool, missing: nat, reaches: bool)
      returns (addr: nat)
      requires t.Shape()
      requires if indirect then Searchable(t, ro, inodeGroup, startGroup, start)
               else Bounded(t, ro, inodeGroup, startGroup, start, missing, reaches)
      modifies `t
      ensures t.Shape() && SameLayout(old(t), t)
      ensures Outcome(addr, t) == Allocation(old(t), ro, inodeGroup, startGroup, start, indirect, missing, reaches)
      decreases !indirect, missing + 1
    {
      hide Table.Pick, Table.Overrun, Table.Mark, LinkAll, Balance;
      if ro || t.free == 0 {
        return 0;
      }
      var c := Search(inodeGroup, startGroup, start);
      if c.None? {
        return 0;
      }
      addr := t.Address(c.group, c.index);
      if addr >= t.blocks {
        return 0;
      }
      PickIsClear(t, inodeGroup, startGroup, start);
      TakenGrows(t, c.group, c.index);
      t := Taken(t, c.group, c.index);
      if !indirect {
        var ok := Link(inodeGroup, missing, reaches);
        if !ok {
          ReturnedKeeps(t, c.group, c.index, 1);
          t := Returned(t, c.group, c.index, 1);
          addr := 0;
        }
      }
    }

    /** The blocks of pointers that `inode_set` allocates on the way to a block. */
    method Link(inodeGroup: nat, missing: nat, reaches: bool) returns (ok: bool)
      requires t.Shape() && inodeGroup < |t.used| && (reaches ==> Linkable(t, ro, inodeGroup, missing))
      modifies `t
      ensures Linked(t, ok) == Links(old(t), ro, inodeGroup, missing, reaches)
      decreases true, missing
    {
      if !reaches || missing == 0 {
        return reaches;
      }
      StepGrows(t, ro, inodeGroup, 0, 0);
      var p := AllocateNewBlock(inodeGroup, 0, 0, true, 0, true);
      if p == 0 {
        return false;
      }
      ok := Link(inodeGroup, missing - 1, true);
    }

    /** Mark a block as free and count it, unless it is free already. */
    method DeallocateBlock(bl: nat) returns (ret: int)
      requires t.Shape() && bl >= t.first
      modifies `t
      ensures ret == if bl < t.blocks then 0 else -1
      ensures t == Freed(old(t), bl)
    {
      if bl >= t.blocks {
        return -1;
      }
      Within(t, bl);
      var g, n := GroupOf(t, bl), BitOf(t, bl);
      if t.used[g][n] {
        // The descriptor's count goes down where the superblock's goes up.
        t := Returned(t, g, n, -1);
      }
      return 0;
    }
  }
}
