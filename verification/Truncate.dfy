/** Truncating an ext2 file: the recursive walk that frees its blocks. */
module Truncate {
  import opened BlockTable
  import opened BlockAllocator

  /** A pointer and the number of levels of pointer blocks below it. */
  datatype Node = Node(bl: nat, depth: nat)

  /** The blocks a walk frees, in order, and whether it met a zero pointer. */
  datatype Pass = Pass(freed: seq<nat>, finished: bool)

  datatype Device = Device(content: map<nat, seq<nat>>, per: nat) {
    /** The addresses in a pointer block; a block that cannot be read leaves the buffer zero. */
    function Pointers(bl: nat): seq<nat> {
      if bl in content && |content[bl]| == per then content[bl] else seq(per, _ => 0)
    }

    function Children(n: Node): (c: seq<Node>)
      requires n.depth > 0
      ensures |c| == per && forall i :: 0 <= i < |c| ==> c[i].depth == n.depth - 1
    {
      seq(per, i requires 0 <= i < per => Node(Pointers(n.bl)[i], n.depth - 1))
    }

    function Visit(n: Node): Pass
      decreases n.depth, 0
    {
      if n.bl == 0 then Pass([], true)
      else if n.depth == 0 then Pass([n.bl], false)
      else
        var p := VisitAll(Children(n), n.depth - 1);
        Pass(p.freed + [n.bl], p.finished)
    }

    function VisitAll(nodes: seq<Node>, d: nat): Pass
      requires forall i :: 0 <= i < |nodes| ==> nodes[i].depth <= d
      decreases d, |nodes| + 1
    {
      if nodes == [] then Pass([], false)
      else
        var p := Visit(nodes[0]);
        if p.finished then p
        else
          var q := VisitAll(nodes[1..], d);
          Pass(p.freed + q.freed, q.finished)
    }

    /** Every block of a subtree, holes or not. */
    function All(n: Node): seq<nat>
      decreases n.depth, 0
    {
      if n.bl == 0 then []
      else if n.depth == 0 then [n.bl]
      else AllOf(Children(n), n.depth - 1) + [n.bl]
    }

    function AllOf(nodes: seq<Node>, d: nat): seq<nat>
      requires forall i :: 0 <= i < |nodes| ==> nodes[i].depth <= d
      decreases d, |nodes| + 1
    {
      if nodes == [] then [] else All(nodes[0]) + AllOf(nodes[1..], d)
    }

    /** A subtree without a zero pointer. */
    predicate Full(n: Node)
      decreases n.depth
    {
      n.bl != 0 && (n.depth == 0 || forall i :: 0 <= i < per ==> Full(Node(Pointers(n.bl)[i], n.depth - 1)))
    }

    /** A subtree whose zero pointers all come after its blocks. */
    predicate Dense(n: Node)
      decreases n.depth, 0
    {
      n.bl == 0 || n.depth == 0 || DenseAll(Children(n), n.depth - 1)
    }

    predicate DenseAll(nodes: seq<Node>, d: nat)
      requires forall i :: 0 <= i < |nodes| ==> nodes[i].depth <= d
      decreases d, |nodes| + 1
    {
      nodes == [] ||
      if Full(nodes[0]) then DenseAll(nodes[1..], d)
      else Dense(nodes[0]) && forall i :: 1 <= i < |nodes| ==> nodes[i].bl == 0
    }
  }

  /** The walk goes on exactly past the subtrees without a zero pointer, and frees all blocks of a subtree
      exactly if no zero pointer comes before a block. */
  lemma {:induction false} VisitFreesDense(d: Device, n: Node)
    ensures d.Visit(n).finished <==> !d.Full(n)
    ensures |d.Visit(n).freed| <= |d.All(n)|
    ensures d.Visit(n).freed == d.All(n) <==> d.Dense(n)
    ensures |d.Visit(n).freed| == |d.All(n)| ==> d.Dense(n)
    decreases n.depth, 0
  {
    if n.bl != 0 && n.depth > 0 {
      var c := d.Children(n);
      VisitAllFreesDense(d, c, n.depth - 1);
      var p := d.VisitAll(c, n.depth - 1);
      assert d.Full(n) <==> forall i :: 0 <= i < |c| ==> d.Full(c[i]) by {
        assert forall i :: 0 <= i < |c| ==> c[i] == Node(d.Pointers(n.bl)[i], n.depth - 1);
      }
      if p.freed + [n.bl] == d.AllOf(c, n.depth - 1) + [n.bl] {
        assert (p.freed + [n.bl])[..|p.freed|] == p.freed;
        assert (d.AllOf(c, n.depth - 1) + [n.bl])[..|p.freed|] == d.AllOf(c, n.depth - 1);
      }
    }
  }

  lemma {:induction false} VisitAllFreesDense(d: Device, nodes: seq<Node>, depth: nat)
    requires forall i :: 0 <= i < |nodes| ==> nodes[i].depth <= depth
    ensures var p := d.VisitAll(nodes, depth);
      && (p.finished <==> exists i :: 0 <= i < |nodes| && !d.Full(nodes[i]))
      && |p.freed| <= |d.AllOf(nodes, depth)|
      && (p.freed == d.AllOf(nodes, depth) <==> d.DenseAll(nodes, depth))
      && (|p.freed| == |d.AllOf(nodes, depth)| ==> d.DenseAll(nodes, depth))
    decreases depth, |nodes| + 1
  {
    if nodes != [] {
      var rest := nodes[1..];
      VisitFreesDense(d, nodes[0]);
      VisitAllFreesDense(d, rest, depth);
      AllOfNone(d, rest, depth);
      var p, a := d.Visit(nodes[0]), d.All(nodes[0]);
      if d.Full(nodes[0]) {
        FullIsDense(d, nodes[0]);
        assert p.freed + d.VisitAll(rest, depth).freed == a + d.AllOf(rest, depth) ==>
          d.VisitAll(rest, depth).freed == d.AllOf(rest, depth) by {
          assert (a + d.AllOf(rest, depth))[|a|..] == d.AllOf(rest, depth);
          assert (a + d.VisitAll(rest, depth).freed)[|a|..] == d.VisitAll(rest, depth).freed;
        }
        assert forall i :: 1 <= i < |nodes| ==> nodes[i] == rest[i - 1];
      } else if d.AllOf(rest, depth) == [] {
        assert a + d.AllOf(rest, depth) == a;
      }
    }
  }

  lemma {:induction false} AllOfNone(d: Device, nodes: seq<Node>, depth: nat)
    requires forall i :: 0 <= i < |nodes| ==> nodes[i].depth <= depth
    ensures d.AllOf(nodes, depth) == [] <==> forall i :: 0 <= i < |nodes| ==> nodes[i].bl == 0
  {
    if nodes != [] {
      AllOfNone(d, nodes[1..], depth);
      assert forall i :: 1 <= i < |nodes| ==> nodes[i] == nodes[1..][i - 1];
    }
  }

  lemma {:induction false} FullIsDense(d: Device, n: Node)
    requires d.Full(n)
    ensures d.Dense(n)
    decreases n.depth, 0
  {
    if n.depth > 0 {
      var c := d.Children(n);
      forall i | 0 <= i < |c|
        ensures d.Full(c[i])
      {
        assert c[i] == Node(d.Pointers(n.bl)[i], n.depth - 1);
      }
      FullAreDense(d, c, n.depth - 1);
    }
  }

  lemma {:induction false} FullAreDense(d: Device, nodes: seq<Node>, depth: nat)
    requires forall i :: 0 <= i < |nodes| ==> nodes[i].depth <= depth && d.Full(nodes[i])
    ensures d.DenseAll(nodes, depth)
  {
    if nodes != [] {
      FullAreDense(d, nodes[1..], depth);
    }
  }

  lemma {:induction false} VisitFreesPart(d: Device, n: Node)
    ensures multiset(d.Visit(n).freed) <= multiset(d.All(n))
    decreases n.depth, 0
  {
    hide Device.VisitAll, Device.AllOf;
    if n.bl != 0 && n.depth > 0 {
      VisitAllFreesPart(d, d.Children(n), n.depth - 1);
    }
  }

  lemma {:induction false} VisitAllFreesPart(d: Device, nodes: seq<Node>, depth: nat)
    requires forall i :: 0 <= i < |nodes| ==> nodes[i].depth <= depth
    ensures multiset(d.VisitAll(nodes, depth).freed) <= multiset(d.AllOf(nodes, depth))
    decreases depth, |nodes| + 1
  {
    hide Device.Visit, Device.All;
    if nodes != [] {
      VisitFreesPart(d, nodes[0]);
      VisitAllFreesPart(d, nodes[1..], depth);
    }
  }

  lemma {:induction false} NoZero(d: Device, n: Node)
    ensures 0 !in d.Visit(n).freed
    decreases n.depth, 0
  {
    if n.bl != 0 && n.depth > 0 {
      NoZeroIn(d, d.Children(n), n.depth - 1);
    }
  }

  lemma {:induction false} NoZeroIn(d: Device, nodes: seq<Node>, depth: nat)
    requires forall i :: 0 <= i < |nodes| ==> nodes[i].depth <= depth
    ensures 0 !in d.VisitAll(nodes, depth).freed
    decreases depth, |nodes| + 1
  {
    if nodes != [] {
      NoZero(d, nodes[0]);
      NoZeroIn(d, nodes[1..], depth);
    }
  }

  // What freeing blocks does to the allocation tables.

  /** The tables after a list of blocks is freed. */
  function FreeAll(t: Table, list: seq<nat>): (u: Table)
    requires t.Shape() && 0 !in list
    ensures u.Shape() && SameLayout(t, u)
  {
    if list == [] then t
    else
      var u := FreeAll(t, list[..|list| - 1]);
      FreedEffect(u, list[|list| - 1]);
      Freed(u, list[|list| - 1])
  }

  /** Freeing clears the bits of the listed blocks and no others, and keeps the superblock's count in step;
      it rises by the number of blocks if they are in use and none is listed twice. */
  lemma {:induction false} FreeAllExact(t: Table, list: seq<nat>)
    requires t.Shape() && 0 !in list
    ensures Balance(FreeAll(t, list)) == Balance(t)
    ensures forall b: nat :: Allocated(FreeAll(t, list), b) <==> Allocated(t, b) && b !in list
    ensures (forall b :: b in list ==> Allocated(t, b) && multiset(list)[b] == 1) ==>
      FreeAll(t, list).free == t.free + |list|
  {
    if list != [] {
      var front, last := list[..|list| - 1], list[|list| - 1];
      FreeAllExact(t, front);
      FreedEffect(FreeAll(t, front), last);
      assert list == front + [last];
      if forall b :: b in list ==> Allocated(t, b) && multiset(list)[b] == 1 {
        forall b | b in front
          ensures multiset(front)[b] == 1
        {
          assert b in list && multiset(front)[b] > 0;
        }
        assert multiset(list)[last] == multiset(front)[last] + 1;
      }
    }
  }

  /** Truncating a file whose blocks are in use and unshared gives back every block, those of pointers
      included, exactly when the file is dense; the count of free blocks then rises by that number. */
  lemma TruncateFreesAll(d: Device, roots: seq<Node>, depth: nat, t: Table)
    requires t.Shape() && forall i :: 0 <= i < |roots| ==> roots[i].depth <= depth
    requires forall b :: b in d.AllOf(roots, depth) ==> Allocated(t, b) && multiset(d.AllOf(roots, depth))[b] == 1
    ensures 0 !in d.VisitAll(roots, depth).freed
    ensures var u := FreeAll(t, d.VisitAll(roots, depth).freed);
      && Balance(u) == Balance(t)
      && (u.free == t.free + |d.AllOf(roots, depth)| <==> d.DenseAll(roots, depth))
      && (d.DenseAll(roots, depth) ==>
        forall b: nat :: Allocated(u, b) <==> Allocated(t, b) && b !in d.AllOf(roots, depth))
  {
    var freed, all := d.VisitAll(roots, depth).freed, d.AllOf(roots, depth);
    VisitAllFreesDense(d, roots, depth);
    VisitAllFreesPart(d, roots, depth);
    NoZeroIn(d, roots, depth);
    forall b | b in freed
      ensures Allocated(t, b) && multiset(freed)[b] == 1
    {
      assert b in multiset(freed) && b in multiset(all);
    }
    FreeAllExact(t, freed);
  }

  lemma {:induction false} FreeAllJoins(t: Table, a: seq<nat>, b: seq<nat>)
    requires t.Shape() && 0 !in a && 0 !in b
    ensures FreeAll(t, a + b) == FreeAll(FreeAll(t, a), b)
    decreases |b|
  {
    if b == [] {
      assert a + b == a;
    } else {
      var front := b[..|b| - 1];
      FreeAllJoins(t, a, front);
      assert (a + b)[..|a + b| - 1] == a + front;
    }
  }

  /** The state of a walk that has freed `done` and has the nodes `rest` left. */
  ghost predicate Walking(d: Device, goal: Pass, done: seq<nat>, finished: bool, rest: seq<Node>, depth: nat)
    requires forall i :: 0 <= i < |rest| ==> rest[i].depth <= depth
  {
    && 0 !in done
    && goal == if finished then Pass(done, true)
               else Pass(done + d.VisitAll(rest, depth).freed, d.VisitAll(rest, depth).finished)
  }

  /** The allocation tables are those in which the blocks of `done` have been freed. */
  ghost predicate Freeing(d: Device, t0: Table, t: Table, goal: Pass, done: seq<nat>, finished: bool,
                          rest: seq<Node>, depth: nat)
    requires forall i :: 0 <= i < |rest| ==> rest[i].depth <= depth
  {
    t0.Shape() && Walking(d, goal, done, finished, rest, depth) && t == FreeAll(t0, done)
  }

  lemma FreeingStarts(d: Device, t: Table, rest: seq<Node>, depth: nat)
    requires t.Shape() && forall i :: 0 <= i < |rest| ==> rest[i].depth <= depth
    ensures Freeing(d, t, t, d.VisitAll(rest, depth), [], false, rest, depth)
  {
  }

  lemma FreeingGoesOn(d: Device, t0: Table, t: Table, goal: Pass, done: seq<nat>, rest: seq<Node>, depth: nat)
    returns (more: seq<nat>)
    requires forall i :: 0 <= i < |rest| ==> rest[i].depth <= depth
    requires rest != [] && Freeing(d, t0, t, goal, done, false, rest, depth)
    ensures var p := d.Visit(rest[0]);
      0 !in p.freed && t.Shape() && Freeing(d, t0, FreeAll(t, p.freed), goal, more, p.finished, rest[1..], depth)
  {
    hide Device.Visit;
    NoZero(d, rest[0]);
    var p, q := d.Visit(rest[0]), d.VisitAll(rest[1..], depth);
    assert done + (p.freed + q.freed) == (done + p.freed) + q.freed;
    FreeAllJoins(t0, done, p.freed);
    more := done + p.freed;
  }

  lemma FreeingEnds(d: Device, t0: Table, t: Table, goal: Pass, done: seq<nat>, finished: bool, rest: seq<Node>, depth: nat)
    requires forall i :: 0 <= i < |rest| ==> rest[i].depth <= depth
    requires Freeing(d, t0, t, goal, done, finished, rest, depth) && (finished || rest == [])
    ensures finished == goal.finished && 0 !in goal.freed && t0.Shape() && t.Shape() && t == FreeAll(t0, goal.freed)
  {
    hide Table.Shape, FreeAll;
    assert done + [] == done;
  }

  /** An open file with the pointers of its inode. */
  class OpenFile {
    var direct: seq<nat>
    var single: nat
    var double: nat
    var triple: nat
    var size: nat
    var sectors: nat
    const writing: bool
    const fs: Allocator
    const device: Device

    constructor (fs: Allocator, device: Device, direct: seq<nat>, single: nat, double: nat, triple: nat,
                 size: nat, sectors: nat, writing: bool)
      ensures this.fs == fs && this.device == device && this.writing == writing && this.size == size
      ensures this.direct == direct && this.single == single && this.double == double && this.triple == triple
    {
      this.fs, this.device, this.writing, this.size, this.sectors := fs, device, writing, size, sectors;
      this.direct, this.single, this.double, this.triple := direct, single, double, triple;
    }

    ghost function Roots(): (r: seq<Node>)
      reads this
      ensures |r| == |direct| + 3 && forall i :: 0 <= i < |r| ==> r[i].depth <= 3
    {
      RootsOf(direct, single, double, triple)
    }

    method TruncateRecursive(bl: nat, depth: nat) returns (finished: bool)
      requires fs.t.Shape()
      modifies fs`t
      ensures 0 !in device.Visit(Node(bl, depth)).freed && old(fs.t).Shape()
      ensures fs.t == FreeAll(old(fs.t), device.Visit(Node(bl, depth)).freed)
      ensures finished == device.Visit(Node(bl, depth)).finished
      decreases depth
    {
      hide Device.Visit, Device.VisitAll, Walking, Freeing, Freed, FreeAll, Table.Shape, SameLayout;
      FreeNone(fs.t);
      Unfold(device, Node(bl, depth));
      if bl == 0 {
        return true;
      }
      FreeOne(fs.t, bl);
      if depth == 0 {
        var _ := fs.DeallocateBlock(bl);
        return false;
      }
      finished := false;
      var buffer := device.Pointers(bl);
      ghost var nodes, t0 := device.Children(Node(bl, depth)), fs.t;
      ghost var goal, done := device.VisitAll(nodes, depth - 1), [];
      FreeingStarts(device, t0, nodes, depth - 1);
      assert nodes[0..] == nodes;
      var i := 0;
      while i < device.per && !finished
        invariant 0 <= i <= device.per && fs.t.Shape()
        invariant Freeing(device, t0, fs.t, goal, done, finished, nodes[i..], depth - 1)
      {
        FreeNone(fs.t);
        Unfold(device, nodes[i]);
        done := FreeingGoesOn(device, t0, fs.t, goal, done, nodes[i..], depth - 1);
        assert nodes[i..][1..] == nodes[i + 1..];
        if buffer[i] != 0 {
          if depth == 1 {
            FreeOne(fs.t, buffer[i]);
            var _ := fs.DeallocateBlock(buffer[i]);
          } else {
            finished := TruncateRecursive(buffer[i], depth - 1);
          }
        } else {
          finished := true;
        }
        i := i + 1;
      }
      FreeingEnds(device, t0, fs.t, goal, done, finished, nodes[i..], depth - 1);
      FreeOne(fs.t, bl);
      FreeAllJoins(t0, goal.freed, [bl]);
      var _ := fs.DeallocateBlock(bl);
    }

    /** The direct pointers come first. */
    method TruncateDirect(ghost nodes: seq<Node>) returns (finished: bool, i: nat, ghost done: seq<nat>)
      requires fs.t.Shape() && |direct| == 12 && nodes == Roots()
      modifies `direct, fs`t
      ensures fs.t.Shape() && |direct| == 12 && i <= 12 && (finished || i == 12)
      ensures forall k :: 0 <= k < 12 ==> direct[k] == if k < i then 0 else old(direct)[k]
      ensures Freeing(device, old(fs.t), fs.t, device.VisitAll(nodes, 3), done, finished, nodes[i..], 3)
      ensures Passed(device, nodes, i, finished)
    {
      hide Device.Visit, Device.VisitAll, Walking, Freeing, Freed, FreeAll, Table.Shape, SameLayout, RootsOf, Passed, Reached;
      RootsAre(direct, single, double, triple);
      ghost var t0, goal := fs.t, device.VisitAll(nodes, 3);
      done := [];
      FreeingStarts(device, t0, nodes, 3);
      PassedStarts(device, nodes);
      assert nodes[0..] == nodes;
      finished, i := false, 0;
      while i < 12 && !finished
        invariant 0 <= i <= 12 && fs.t.Shape() && |direct| == 12
        invariant forall k :: 0 <= k < 12 ==> direct[k] == if k < i then 0 else old(direct)[k]
        invariant Freeing(device, t0, fs.t, goal, done, finished, nodes[i..], 3)
        invariant Passed(device, nodes, i, finished)
      {
        done := Pace(device, t0, fs.t, goal, done, nodes, i);
        finished := TruncateRecursive(direct[i], 0);
        direct := direct[i := 0];
        i := i + 1;
      }
    }

    /** All pointers of the inode in turn, up to the first under which the walk finishes. */
    method ClearPointers()
      requires fs.t.Shape() && |direct| == 12
      modifies `direct, `single, `double, `triple, fs`t
      ensures |direct| == 12 && Truncated(device, old(Roots()), Roots(), old(fs.t), fs.t)
    {
      hide Device.Visit, Device.VisitAll, Walking, Freeing, Freed, FreeAll, Table.Shape, SameLayout, RootsOf, Passed, Reached, Truncated;
      ghost var nodes, t0 := Roots(), fs.t;
      ghost var goal := device.VisitAll(nodes, 3);
      RootsAre(direct, single, double, triple);
      ghost var done;
      var finished, i;
      finished, i, done := TruncateDirect(nodes);
      if !finished {
        done := Pace(device, t0, fs.t, goal, done, nodes, 12);
        finished := TruncateRecursive(single, 1);
        single := 0;
        i := 13;
      }
      if !finished {
        done := Pace(device, t0, fs.t, goal, done, nodes, 13);
        finished := TruncateRecursive(double, 2);
        double := 0;
        i := 14;
      }
      if !finished {
        done := Pace(device, t0, fs.t, goal, done, nodes, 14);
        finished := TruncateRecursive(triple, 3);
        triple := 0;
        i := 15;
      }
      RootsAre(direct, single, double, triple);
      assert forall k :: 0 <= k < 15 ==> Roots()[k].bl == if k < i then 0 else nodes[k].bl;
      Ends(device, nodes, Roots(), t0, fs.t, done, finished, i);
    }

    /** Free the blocks of the file and clear its pointers. */
    method TruncateFile() returns (ret: int)
      requires fs.t.Shape() && |direct| == 12
      modifies `direct, `single, `double, `triple, `size, `sectors, fs`t
      ensures ret == if writing then 0 else -1
      ensures |direct| == 12
      ensures !writing || old(size) == 0 ==>
        fs.t == old(fs.t) && Roots() == old(Roots()) && size == old(size) && sectors == old(sectors)
      ensures writing && old(size) != 0 ==>
        size == 0 && sectors == 0 && Truncated(device, old(Roots()), Roots(), old(fs.t), fs.t)
    {
      if !writing {
        return -1;
      }
      if size == 0 {
        return 0;
      }
      ClearPointers();
      size := 0;
      sectors := 0;
      return 0;
    }
  }

  /** What truncating does to the pointers of an inode and to the allocation tables. */
  ghost predicate Truncated(d: Device, before: seq<Node>, after: seq<Node>, t: Table, u: Table)
    requires forall i :: 0 <= i < |before| ==> before[i].depth <= 3
  {
    var freed := d.VisitAll(before, 3).freed;
    && |after| == |before| && t.Shape() && 0 !in freed && u == FreeAll(t, freed)
    && forall i :: 0 <= i < |before| ==> after[i].bl == if Reached(d, before, i) then 0 else before[i].bl
  }

  lemma Ends(d: Device, before: seq<Node>, after: seq<Node>, t: Table, u: Table, done: seq<nat>, finished: bool, i: nat)
    requires |before| == |after| == 15 && i <= 15 && forall k :: 0 <= k < 15 ==> before[k].depth <= 3
    requires forall k :: 0 <= k < 15 ==> after[k].bl == if k < i then 0 else before[k].bl
    requires Freeing(d, t, u, d.VisitAll(before, 3), done, finished, before[i..], 3)
    requires Passed(d, before, i, finished) && (finished || i == 15)
    ensures Truncated(d, before, after, t, u)
  {
    hide Device.Visit, Device.VisitAll, Walking, Freeing, FreeAll, Table.Shape, Reached;
    FreeingEnds(d, t, u, d.VisitAll(before, 3), done, finished, before[i..], 3);
    PassedEnds(d, before, i, finished);
  }

  /** The walk has come to exactly the roots before `i`, and to the next unless it is finished. */
  ghost predicate Passed(d: Device, nodes: seq<Node>, i: nat, finished: bool) {
    && (forall k :: 0 <= k < i && k < |nodes| ==> Reached(d, nodes, k))
    && (if finished then forall k :: i <= k < |nodes| ==> !Reached(d, nodes, k)
        else i < |nodes| ==> Reached(d, nodes, i))
  }

  /** One more root of the walk. */
  lemma Pace(d: Device, t0: Table, t: Table, goal: Pass, done: seq<nat>, nodes: seq<Node>, i: nat) returns (more: seq<nat>)
    requires |nodes| == 15 && i < 15 && forall k :: 0 <= k < 15 ==> nodes[k].depth <= 3
    requires Freeing(d, t0, t, goal, done, false, nodes[i..], 3) && Passed(d, nodes, i, false)
    ensures var p := d.Visit(nodes[i]);
      && 0 !in p.freed && t.Shape() && Freeing(d, t0, FreeAll(t, p.freed), goal, more, p.finished, nodes[i + 1..], 3)
      && Passed(d, nodes, i + 1, p.finished)
  {
    hide Device.VisitAll, Walking, FreeAll, Freeing;
    more := FreeingGoesOn(d, t0, t, goal, done, nodes[i..], 3);
    assert nodes[i..][1..] == nodes[i + 1..];
    VisitFreesDense(d, nodes[i]);
  }

  /** The walk comes to a root if no root before it holds a zero pointer. */
  predicate Reached(d: Device, nodes: seq<Node>, i: nat)
    requires i < |nodes|
  {
    forall k :: 0 <= k < i ==> d.Full(nodes[k])
  }

  /** The pointers of an inode, with the levels of pointer blocks below them. */
  function RootsOf(direct: seq<nat>, single: nat, double: nat, triple: nat): (r: seq<Node>)
    ensures |r| == |direct| + 3 && forall i :: 0 <= i < |r| ==> r[i].depth <= 3
  {
    seq(|direct|, i requires 0 <= i < |direct| => Node(direct[i], 0))
    + [Node(single, 1), Node(double, 2), Node(triple, 3)]
  }

  lemma RootsAre(direct: seq<nat>, single: nat, double: nat, triple: nat)
    ensures var r := RootsOf(direct, single, double, triple);
      && (forall i :: 0 <= i < |direct| ==> r[i] == Node(direct[i], 0))
      && r[|direct|] == Node(single, 1) && r[|direct| + 1] == Node(double, 2) && r[|direct| + 2] == Node(triple, 3)
  {
  }

  lemma PassedStarts(d: Device, nodes: seq<Node>)
    ensures Passed(d, nodes, 0, false)
  {
  }

  lemma PassedEnds(d: Device, nodes: seq<Node>, i: nat, finished: bool)
    requires Passed(d, nodes, i, finished) && (finished || i == |nodes|)
    ensures forall k :: 0 <= k < |nodes| ==> (Reached(d, nodes, k) <==> k < i)
  {
  }

  lemma FreeNone(t: Table)
    requires t.Shape()
    ensures FreeAll(t, []) == t
  {
  }

  lemma Unfold(d: Device, n: Node)
    ensures n.bl == 0 ==> d.Visit(n) == Pass([], true)
    ensures n.bl != 0 && n.depth == 0 ==> d.Visit(n) == Pass([n.bl], false)
    ensures n.bl != 0 && n.depth > 0 ==>
      var p := d.VisitAll(d.Children(n), n.depth - 1); d.Visit(n) == Pass(p.freed + [n.bl], p.finished)
  {
  }

  lemma FreeOne(t: Table, bl: nat)
    requires t.Shape() && bl > 0
    ensures t.first <= bl && FreeAll(t, [bl]) == Freed(t, bl)
  {
    assert FreeAll(t, [bl][..0]) == t;
  }

  /** Truncating a dense file leaves no pointer in its inode. */
  lemma {:induction false} DenseClears(d: Device, roots: seq<Node>, depth: nat, i: nat)
    requires i < |roots| && forall k :: 0 <= k < |roots| ==> roots[k].depth <= depth
    requires d.DenseAll(roots, depth)
    ensures Reached(d, roots, i) || roots[i].bl == 0
  {
    if i > 0 && d.Full(roots[0]) {
      DenseClears(d, roots[1..], depth, i - 1);
      if Reached(d, roots[1..], i - 1) {
        forall k | 0 <= k < i
          ensures d.Full(roots[k])
        {
          if k > 0 {
            assert roots[k] == roots[1..][k - 1];
          }
        }
      }
    }
  }

  /** A hole in front of a block: nothing is freed. */
  lemma HoleExample(d: Device)
    ensures d.VisitAll([Node(0, 0), Node(5, 0)], 0).freed == []
    ensures d.AllOf([Node(0, 0), Node(5, 0)], 0) == [5] && !d.DenseAll([Node(0, 0), Node(5, 0)], 0)
  {
    assert [Node(0, 0), Node(5, 0)][1..] == [Node(5, 0)];
    assert d.AllOf([Node(5, 0)], 0) == [5] + d.AllOf([], 0);
  }
}
