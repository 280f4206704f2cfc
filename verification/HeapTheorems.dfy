/** What malloc and free promise their callers, over every list and every run. */
module HeapTheorems {
  import opened HeapLayout

  // ---------- one malloc ----------

  /** The outcome of a request: the new list and the address handed to the caller, or memory whose
      links are no longer a list of blocks. */
  datatype Outcome = Placed(bs: seq<Block>, data: nat) | Corrupted

  /** The outcome for a size already rounded up. An overshooting block is split anyway, at a header
      outside it; the one address where that still leaves a list is the last header's, which then
      takes the new block. */
  function Place(bs: seq<Block>, want: nat, align: nat): Outcome
    requires Tiled(bs)
  {
    var k := FirstFit(bs, 0, want, align);
    var at := AlignedStart(bs[k].Data(), align);
    AlignedStartBounds(bs[k].Data(), align);
    if k == |bs| - 1 then Placed(Extend(bs, want, at), at)
    else if Overshoots(bs[k], align) then
      if at == bs[|bs| - 1].Data() then Placed(Swallow(bs, k, want), at) else Corrupted
    else
      FirstFitAccepts(bs, 0, want, align);
      AcceptedFits(bs, k, want, align);
      Placed(Carve(bs, k, want, at), at)
  }

  /** Block `k` stretched up to the last header, whatever lies between, and a new block at the end. */
  function Swallow(bs: seq<Block>, k: nat, want: nat): seq<Block>
    requires Tiled(bs) && k < |bs| - 1
  {
    var last := bs[|bs| - 1].addr;
    BlocksDisjoint(bs, k, |bs| - 1);
    bs[..k] + [Block(bs[k].addr, last - bs[k].Data(), true), Block(last, want, false), Block(last + DATA_SIZE + want, 0, true)]
  }

  function Malloc(bs: seq<Block>, size: nat, align: nat): Outcome
    requires Tiled(bs) && size > 0
  {
    Place(bs, RoundUp(size), align)
  }

  /** First fit: the search stops at the first block that passes the test, or at the last block. */
  lemma {:induction false} FirstFitAccepts(bs: seq<Block>, from: nat, size: nat, align: nat)
    requires from < |bs|
    ensures var k := FirstFit(bs, from, size, align);
      && (k < |bs| - 1 ==> Accepts(bs[k], size, align))
      && (forall i :: from <= i < k ==> !Accepts(bs[i], size, align))
    decreases |bs| - from
  {
    if from < |bs| - 1 && !Accepts(bs[from], size, align) {
      FirstFitAccepts(bs, from + 1, size, align);
    }
  }

  /** Without an overshoot the wrapping test means what it says. */
  lemma AcceptedFits(bs: seq<Block>, k: nat, size: nat, align: nat)
    requires k < |bs| && Accepts(bs[k], size, align) && !Overshoots(bs[k], align)
    requires bs[k].Data() <= AlignedStart(bs[k].Data(), align)
    ensures size <= bs[k].End() - AlignedStart(bs[k].Data(), align)
  {
    if align > 0 {
      var room := bs[k].End() - AlignedStart(bs[k].Data(), align);
      assert room % TWO32 <= room;
    }
  }

  // ---------- the list stays a tiling ----------

  /** The address at which the list begins once block `k`'s data has moved up by `gap`. */
  function NewStart(bs: seq<Block>, k: nat, gap: nat, spare: nat): nat
    requires k < |bs|
  {
    if k == 0 && gap < spare then bs[0].addr + gap else bs[0].addr
  }

  /** What the tiling says of one block and its neighbours. */
  lemma BlockFacts(bs: seq<Block>, k: nat)
    requires Tiled(bs) && k < |bs|
    ensures Aligned(bs[k].addr) && Aligned(bs[0].addr) && bs[0].addr > 0
    ensures k < |bs| - 1 ==> Aligned(bs[k].size) && bs[k].size >= HEAP_ALIGN && bs[k + 1].addr == bs[k].End()
    ensures k > 0 ==>
      && Aligned(bs[k - 1].addr) && Aligned(bs[k - 1].size) && bs[k - 1].size >= HEAP_ALIGN
      && bs[k].addr == bs[k - 1].End()
  {
  }

  lemma FrontTiles(bs: seq<Block>, k: nat, gap: nat, spare: nat)
    requires Tiled(bs) && k < |bs|
    requires spare >= DATA_SIZE + HEAP_ALIGN
    requires Aligned(gap)
    ensures Segment(Front(bs, k, gap, spare), NewStart(bs, k, gap, spare), bs[k].addr + gap)
  {
    hide Segment, Tiled, Aligned;
    BlockFacts(bs, k);
    AlignedSum(bs[k].addr, gap);
    if gap == 0 {
      TiledSplit(bs, k);
    } else if gap >= spare {
      TiledSplit(bs, k);
      AlignedNext(gap);
      OneBlock(bs[k].addr, gap - DATA_SIZE, true);
      SegmentJoin(bs[..k], [Block(bs[k].addr, gap - DATA_SIZE, true)], bs[0].addr, bs[k].addr, bs[k].addr + gap);
    } else if k > 0 {
      TiledSplit(bs, k - 1);
      AlignedSum(bs[k - 1].size, gap);
      OneBlock(bs[k - 1].addr, bs[k - 1].size + gap, bs[k - 1].free);
      SegmentJoin(bs[..k - 1], [bs[k - 1].(size := bs[k - 1].size + gap)], bs[0].addr, bs[k - 1].addr, bs[k].addr + gap);
    } else {
      NoBlocks(bs[0].addr + gap);
    }
  }

  lemma NoBlocks(addr: nat)
    requires Aligned(addr)
    ensures Segment([], addr, addr)
  {
  }

  lemma OneBlock(addr: nat, size: nat, free: bool)
    requires Aligned(addr) && Aligned(size) && size >= HEAP_ALIGN
    ensures Segment([Block(addr, size, free)], addr, addr + DATA_SIZE + size)
  {
  }

  lemma CarveTiles(bs: seq<Block>, k: nat, size: nat, at: nat)
    requires Tiled(bs) && k < |bs| - 1
    requires size >= HEAP_ALIGN && Aligned(size) && Aligned(at)
    requires bs[k].Data() <= at <= bs[k].End()
    requires size <= bs[k].End() - at
    ensures Tiled(Carve(bs, k, size, at))
  {
    hide Tiled, Segment, Front, Back, Aligned;
    BlockFacts(bs, k);
    BlockFacts(bs, k + 1);
    AlignedNext(bs[k].addr);
    AlignedSum(at, bs[k].Data());
    var gap, spare := at - bs[k].Data(), DATA_SIZE + HEAP_ALIGN;
    var front, back := Front(bs, k, gap, spare), Back(at, bs[k].End(), size);
    FrontTiles(bs, k, gap, spare);
    BackTiles(at, bs[k].End(), size);
    SegmentJoin(front, back, NewStart(bs, k, gap, spare), at - DATA_SIZE, bs[k].End());
    SegmentThenTail(front + back, NewStart(bs, k, gap, spare), bs, k + 1);
  }

  lemma BackTiles(start: nat, end: nat, size: nat)
    requires DATA_SIZE <= start <= end && Aligned(start) && Aligned(end)
    requires size <= end - start && size >= HEAP_ALIGN && Aligned(size)
    ensures Segment(Back(start, end, size), start - DATA_SIZE, end)
  {
    hide Segment, Aligned;
    AlignedNext(start);
    AlignedSum(start, size);
    AlignedSum(end, start);
    AlignedSum(end, start + size);
    AlignedNext(end - start - size);
    if end - start >= size + DATA_SIZE + HEAP_ALIGN {
      OneBlock(start - DATA_SIZE, size, false);
      OneBlock(start + size, end - start - size - DATA_SIZE, true);
      var a, b := [Block(start - DATA_SIZE, size, false)], [Block(start + size, end - start - size - DATA_SIZE, true)];
      SegmentJoin(a, b, start - DATA_SIZE, start + size, end);
      assert Back(start, end, size) == a + b;
    } else {
      OneBlock(start - DATA_SIZE, end - start, false);
    }
  }

  lemma SegmentThenTail(seg: seq<Block>, lo: nat, bs: seq<Block>, k: nat)
    requires Tiled(bs) && k < |bs| && lo > 0
    requires Segment(seg, lo, bs[k].addr)
    ensures Tiled(seg + bs[k..])
  {
  }

  lemma ExtendTiles(bs: seq<Block>, size: nat, at: nat)
    requires Tiled(bs)
    requires size >= HEAP_ALIGN && Aligned(size) && Aligned(at)
    requires bs[|bs| - 1].Data() <= at
    ensures Tiled(Extend(bs, size, at))
  {
    var k: nat := |bs| - 1;
    hide Tiled, Segment, Aligned, Front;
    BlockFacts(bs, k);
    AlignedNext(bs[k].addr);
    AlignedSum(at, bs[k].Data());
    AlignedNext(at);
    AlignedSum(at, size);
    var gap, spare := at - bs[k].Data(), 2 * DATA_SIZE + HEAP_ALIGN;
    var front, lo := Front(bs, k, gap, spare), NewStart(bs, k, gap, spare);
    FrontTiles(bs, k, gap, spare);
    NewBlockTiles(front, lo, at, size);
  }

  lemma NewBlockTiles(front: seq<Block>, lo: nat, at: nat, size: nat)
    requires lo > 0 && at >= DATA_SIZE && Aligned(at - DATA_SIZE) && Aligned(at + size) && size >= HEAP_ALIGN && Aligned(size)
    requires Segment(front, lo, at - DATA_SIZE)
    ensures Tiled(front + [Block(at - DATA_SIZE, size, false), Block(at + size, 0, true)])
  {
    hide Tiled, Segment, Aligned;
    var made, end := [Block(at - DATA_SIZE, size, false)], [Block(at + size, 0, true)];
    OneBlock(at - DATA_SIZE, size, false);
    SegmentJoin(front, made, lo, at - DATA_SIZE, at + size);
    EndOnly(at + size);
    SegmentThenTail(front + made, lo, end, 0);
    assert front + [Block(at - DATA_SIZE, size, false), Block(at + size, 0, true)] == front + made + end[0..];
  }

  // ---------- live blocks ----------

  predicate Holds(bs: seq<Block>, addr: nat, size: nat) {
    exists b :: b in bs && b.addr == addr && !b.free && b.size >= size
  }

  /** Every live block of `bs` is live in `out` at the same address with at least its size. */
  predicate Keeps(bs: seq<Block>, out: seq<Block>) {
    forall b :: b in bs && !b.free ==> Holds(out, b.addr, b.size)
  }

  predicate Live(bs: seq<Block>, addr: nat) {
    exists b :: b in bs && b.addr == addr && !b.free
  }

  lemma FrontKeeps(bs: seq<Block>, k: nat, gap: nat, spare: nat, rest: seq<Block>)
    requires k < |bs| && bs[k].free && spare >= DATA_SIZE
    ensures Keeps(bs[..k + 1], Front(bs, k, gap, spare) + rest)
    ensures forall a :: Live(Front(bs, k, gap, spare), a) ==> Live(bs, a)
  {
    var front := Front(bs, k, gap, spare);
    forall b | b in bs[..k + 1] && !b.free
      ensures Holds(front + rest, b.addr, b.size)
    {
      var i :| 0 <= i < k && bs[i] == b;
      if 0 < gap < spare && i == k - 1 {
        assert front[k - 1] in front + rest;
      } else {
        assert front[i] == b && front[i] in front + rest;
      }
    }
    forall a | Live(front, a)
      ensures Live(bs, a)
    {
      var i :| 0 <= i < |front| && front[i].addr == a && !front[i].free;
      assert bs[i] in bs;
    }
  }

  lemma CarveKeepsLive(bs: seq<Block>, k: nat, size: nat, at: nat)
    requires k < |bs| - 1 && bs[k].free
    requires bs[k].Data() <= at <= bs[k].End()
    requires size <= bs[k].End() - at
    ensures var out := Carve(bs, k, size, at);
      && Keeps(bs, out) && Holds(out, at - DATA_SIZE, size)
      && (forall a :: Live(out, a) ==> a == at - DATA_SIZE || Live(bs, a))
  {
    var front := Front(bs, k, at - bs[k].Data(), DATA_SIZE + HEAP_ALIGN);
    var back := Back(at, bs[k].End(), size);
    FrontKeeps(bs, k, at - bs[k].Data(), DATA_SIZE + HEAP_ALIGN, back + bs[k + 1..]);
    assert Carve(bs, k, size, at) == front + (back + bs[k + 1..]);
    AssembleKeeps(bs, k, front, back, at - DATA_SIZE, size);
  }

  /** Live blocks of the parts around a taken block are the live blocks of the new list. */
  lemma AssembleKeeps(bs: seq<Block>, k: nat, front: seq<Block>, back: seq<Block>, addr: nat, size: nat)
    requires k < |bs|
    requires |back| > 0 && back[0].addr == addr && !back[0].free && back[0].size >= size
    requires forall i :: 1 <= i < |back| ==> back[i].free
    requires Keeps(bs[..k + 1], front + (back + bs[k + 1..]))
    requires forall a :: Live(front, a) ==> Live(bs, a)
    ensures var out := front + (back + bs[k + 1..]);
      && Keeps(bs, out) && Holds(out, addr, size)
      && (forall a :: Live(out, a) ==> a == addr || Live(bs, a))
  {
    var out := front + (back + bs[k + 1..]);
    forall b | b in bs && !b.free
      ensures Holds(out, b.addr, b.size)
    {
      if b !in bs[..k + 1] {
        assert b in bs[k + 1..];
        assert b in out;
      }
    }
    assert back[0] in out;
    forall a | Live(out, a)
      ensures a == addr || Live(bs, a)
    {
      var b :| b in out && b.addr == a && !b.free;
      if b in front {
        assert Live(front, a);
      } else if b !in back {
        assert b in bs[k + 1..];
        assert b in bs;
      }
    }
  }

  lemma ExtendKeepsLive(bs: seq<Block>, size: nat, at: nat)
    requires |bs| > 0 && bs[|bs| - 1].free
    requires bs[|bs| - 1].Data() <= at
    ensures var out := Extend(bs, size, at);
      && Keeps(bs, out) && Holds(out, at - DATA_SIZE, size)
      && (forall a :: Live(out, a) ==> a == at - DATA_SIZE || Live(bs, a))
  {
    var k := |bs| - 1;
    var front := Front(bs, k, at - bs[k].Data(), 2 * DATA_SIZE + HEAP_ALIGN);
    var back := [Block(at - DATA_SIZE, size, false), Block(at + size, 0, true)];
    FrontKeeps(bs, k, at - bs[k].Data(), 2 * DATA_SIZE + HEAP_ALIGN, back + bs[k + 1..]);
    assert Extend(bs, size, at) == front + (back + bs[k + 1..]);
    AssembleKeeps(bs, k, front, back, at - DATA_SIZE, size);
  }

  /** An address inside an available block is not the address of a live one. */
  lemma InsideFreeIsNotLive(bs: seq<Block>, k: nat, a: nat)
    requires Tiled(bs) && k < |bs| && bs[k].free
    requires bs[k].addr <= a && (k < |bs| - 1 ==> a < bs[k].End())
    ensures !Live(bs, a)
  {
    if Live(bs, a) {
      var i :| 0 <= i < |bs| && bs[i].addr == a && !bs[i].free;
      if i < k {
        BlocksDisjoint(bs, i, k);
      } else if k < i {
        BlocksDisjoint(bs, k, i);
      }
    }
  }

  /** What a caller is promised: the list is still a tiling, there is fresh aligned space of at least
      the size asked for, and no live block has moved or shrunk. */
  ghost predicate Promise(bs: seq<Block>, size: nat, align: nat, out: seq<Block>, data: nat) {
    && Tiled(out)
    && data >= DATA_SIZE
    && Aligned(data)
    && (align > 0 ==> data % Pow2(Power(align)) == 0)
    && Holds(out, data - DATA_SIZE, size)
    && !Live(bs, data - DATA_SIZE)
    && Keeps(bs, out)
    && (forall a :: Live(out, a) ==> a == data - DATA_SIZE || Live(bs, a))
  }

  /** The search does not stop at an overshooting block, or stops at one whose aligned start is the
      last header's data with nothing live in between. */
  predicate Sound(bs: seq<Block>, size: nat, align: nat)
    requires Tiled(bs) && size > 0
  {
    var k := FirstFit(bs, 0, RoundUp(size), align);
    || k == |bs| - 1
    || !Overshoots(bs[k], align)
    || (AlignedStart(bs[k].Data(), align) == bs[|bs| - 1].Data() && forall i :: k < i < |bs| - 1 ==> bs[i].free)
  }

  /** Malloc keeps its promise exactly for the sound requests. */
  lemma MallocExact(bs: seq<Block>, size: nat, align: nat)
    requires Tiled(bs) && size > 0
    ensures Sound(bs, size, align) <==>
      var o := Malloc(bs, size, align); o.Placed? && Promise(bs, size, align, o.bs, o.data)
  {
    hide AlignedStart, RoundUp, Carve, Extend, Swallow, Promise;
    var want := RoundUp(size);
    RoundUpBounds(size);
    var k := FirstFit(bs, 0, want, align);
    FirstFitAccepts(bs, 0, want, align);
    AlignedStartBounds(bs[k].Data(), align);
    var at := AlignedStart(bs[k].Data(), align);
    if k == |bs| - 1 {
      ExtendTiles(bs, want, at);
      ExtendKeepsLive(bs, want, at);
      PromiseFrom(bs, k, size, want, align, Extend(bs, want, at), at);
    } else if !Overshoots(bs[k], align) {
      AcceptedFits(bs, k, want, align);
      CarveTiles(bs, k, want, at);
      CarveKeepsLive(bs, k, want, at);
      PromiseFrom(bs, k, size, want, align, Carve(bs, k, want, at), at);
    } else if at == bs[|bs| - 1].Data() {
      SwallowTiles(bs, k, want);
      if forall i :: k < i < |bs| - 1 ==> bs[i].free {
        SwallowKeepsLive(bs, k, want);
        PromiseFrom(bs, |bs| - 1, size, want, align, Swallow(bs, k, want), at);
      } else {
        var i :| k < i < |bs| - 1 && !bs[i].free;
        SwallowLoses(bs, k, want, i);
        assert bs[i] in bs;
        PromiseKeeps(bs, size, align, Swallow(bs, k, want), at);
      }
    }
  }

  /** The block has the size asked for from the aligned start of its data on. */
  predicate Roomy(b: Block, size: nat, align: nat)
    requires size > 0
  {
    b.free && AlignedStart(b.Data(), align) + RoundUp(size) <= b.End()
  }

  /** The block is free and large enough, but its aligned start lies behind its end. */
  predicate Wraps(b: Block, size: nat, align: nat)
    requires size > 0
  {
    b.free && RoundUp(size) <= b.size && AlignedStart(b.Data(), align) > b.End()
  }

  lemma StartUnaligned(s: nat)
    requires s > 0
    ensures AlignedStart(s, 0) == s
  {
  }

  lemma AcceptsRoomy(b: Block, size: nat, align: nat)
    requires size > 0 && b.addr > 0 && Aligned(b.addr) && b.End() <= TWO32 && !Wraps(b, size, align)
    ensures Accepts(b, RoundUp(size), align) <==> Roomy(b, size, align)
  {
    hide AlignedStart, Aligned, RoundUp;
    if align == 0 {
      StartUnaligned(b.Data());
    }
    AlignedNext(b.addr);
    AlignedStartBounds(b.Data(), align);
    RoundUpBounds(size);
  }

  lemma FirstFitIs(bs: seq<Block>, k: nat, size: nat, align: nat)
    requires k < |bs| && (k < |bs| - 1 ==> Accepts(bs[k], size, align))
    requires forall i :: 0 <= i < k ==> !Accepts(bs[i], size, align)
    ensures FirstFit(bs, 0, size, align) == k
  {
    hide Accepts;
    FirstFitAccepts(bs, 0, size, align);
  }

  lemma RoomyAccepted(bs: seq<Block>, k: nat, size: nat, align: nat)
    requires Tiled(bs) && size > 0 && bs[|bs| - 1].addr < TWO32 && k < |bs| && (k < |bs| - 1 ==> Roomy(bs[k], size, align))
    requires NoneBefore(bs, k, size, align)
    ensures FirstFit(bs, 0, RoundUp(size), align) == k
  {
    hide Tiled, Accepts, Roomy, Wraps, Aligned, RoundUp;
    forall i | 0 <= i <= k && i < |bs| - 1
      ensures Accepts(bs[i], RoundUp(size), align) <==> Roomy(bs[i], size, align)
    {
      BlockFacts(bs, i);
      BlockFacts(bs, 0);
      BlocksDisjoint(bs, i, |bs| - 1);
      if i > 0 {
        BlocksDisjoint(bs, 0, i);
      }
      if i == k {
        RoomyIsNoWrap(bs[i], size, align);
      }
      AcceptsRoomy(bs[i], size, align);
    }
    FirstFitIs(bs, k, RoundUp(size), align);
  }

  lemma RoomyIsNoWrap(b: Block, size: nat, align: nat)
    requires size > 0 && Roomy(b, size, align)
    ensures !Wraps(b, size, align)
  {
  }

  /** Blocks that a request does not touch: all but block `k`, which it is carved out of, the block before,
      which may grow, and the last. */
  ghost predicate Untouched(bs: seq<Block>, out: seq<Block>, k: nat) {
    forall i :: 0 <= i < |bs| - 1 && i != k && i != k - 1 ==> bs[i] in out
  }

  /** Block `k` gives the space from `data` on, and no more than is too small for a block of its own; what is
      left of it in front and behind stays free, and the heap ends where it did. */
  ghost predicate Reuses(bs: seq<Block>, k: nat, want: nat, data: nat, out: seq<Block>)
    requires k < |bs| && bs[k].Data() <= data && data + want <= bs[k].End()
  {
    var gap, room := data - bs[k].Data(), bs[k].End() - data;
    && out != [] && out[|out| - 1] == bs[|bs| - 1] && Untouched(bs, out, k)
    && (gap >= DATA_SIZE + HEAP_ALIGN ==> Block(bs[k].addr, gap - DATA_SIZE, true) in out)
    && if room >= want + DATA_SIZE + HEAP_ALIGN then
         Block(data - DATA_SIZE, want, false) in out && Block(data + want, room - want - DATA_SIZE, true) in out
       else Block(data - DATA_SIZE, room, false) in out
  }

  /** The heap grows by a block of the size wanted at `data`, with a new last header behind it. */
  ghost predicate Grows(bs: seq<Block>, want: nat, data: nat, out: seq<Block>)
    requires data >= DATA_SIZE && bs != []
  {
    && |out| >= 2 && Untouched(bs, out, |bs| - 1)
    && out[|out| - 2] == Block(data - DATA_SIZE, want, false) && out[|out| - 1] == Block(data + want, 0, true)
  }

  /** No block before `k` has room for the request, and none wraps. */
  ghost predicate NoneBefore(bs: seq<Block>, k: nat, size: nat, align: nat)
    requires size > 0 && k <= |bs|
  {
    forall i :: 0 <= i < k ==> !Roomy(bs[i], size, align) && !Wraps(bs[i], size, align)
  }

  /** Malloc takes the first free block with room for the request, unless one before it wraps. */
  lemma MallocReuses(bs: seq<Block>, size: nat, align: nat, k: nat)
    requires Tiled(bs) && size > 0 && bs[|bs| - 1].addr < TWO32
    requires k < |bs| - 1 && Roomy(bs[k], size, align) && NoneBefore(bs, k, size, align)
    ensures var o, data := Malloc(bs, size, align), AlignedStart(bs[k].Data(), align);
      && o.Placed? && o.data == data
      && bs[k].Data() <= data && data + RoundUp(size) <= bs[k].End() && Reuses(bs, k, RoundUp(size), data, o.bs)
  {
    RoomyAccepted(bs, k, size, align);
    BlockFacts(bs, k);
    AlignedNext(bs[k].addr);
    AlignedStartBounds(bs[k].Data(), align);
    hide Tiled, AlignedStart, RoundUp, FirstFit, Accepts, Reuses, Carve, Wraps, NoneBefore;
    PlaceCarves(bs, k, RoundUp(size), align);
    CarveIs(bs, k, RoundUp(size), AlignedStart(bs[k].Data(), align));
  }

  lemma PlaceCarves(bs: seq<Block>, k: nat, size: nat, align: nat)
    requires Tiled(bs) && k == FirstFit(bs, 0, size, align) < |bs| - 1 && !Overshoots(bs[k], align)
    ensures var at := AlignedStart(bs[k].Data(), align);
      && bs[k].Data() <= at <= bs[k].End() && size <= bs[k].End() - at
      && Place(bs, size, align) == Placed(Carve(bs, k, size, at), at)
  {
    hide Tiled, Carve, AlignedStart;
    BlockFacts(bs, k);
    AlignedStartBounds(bs[k].Data(), align);
    FirstFitAccepts(bs, 0, size, align);
    AcceptedFits(bs, k, size, align);
  }

  lemma CarveIs(bs: seq<Block>, k: nat, want: nat, data: nat)
    requires k < |bs| - 1 && bs[k].Data() <= data && data + want <= bs[k].End()
    ensures Reuses(bs, k, want, data, Carve(bs, k, want, data))
  {
    var front, back := Front(bs, k, data - bs[k].Data(), DATA_SIZE + HEAP_ALIGN), Back(data, bs[k].End(), want);
    var out := front + back + bs[k + 1..];
    forall i | 0 <= i < |bs| - 1 && i != k && i != k - 1
      ensures bs[i] in out
    {
      if i < k {
        assert front[i] == bs[i];
      } else {
        assert bs[k + 1..][i - k - 1] == bs[i];
      }
    }
  }

  /** If no free block has room and none wraps, the heap grows by a block of the size asked for. */
  lemma MallocExtends(bs: seq<Block>, size: nat, align: nat)
    requires Tiled(bs) && size > 0 && bs[|bs| - 1].addr < TWO32 && NoneBefore(bs, |bs| - 1, size, align)
    ensures var o, data := Malloc(bs, size, align), AlignedStart(bs[|bs| - 1].Data(), align);
      o.Placed? && o.data == data && data >= DATA_SIZE && Grows(bs, RoundUp(size), data, o.bs)
  {
    RoomyAccepted(bs, |bs| - 1, size, align);
    var k, data := |bs| - 1, AlignedStart(bs[|bs| - 1].Data(), align);
    BlockFacts(bs, k);
    AlignedNext(bs[k].addr);
    AlignedStartBounds(bs[k].Data(), align);
    hide AlignedStart, RoundUp, FirstFit, Accepts, Tiled, Grows, Extend, Wraps, NoneBefore;
    ExtendIs(bs, RoundUp(size), data);
  }

  lemma ExtendIs(bs: seq<Block>, want: nat, data: nat)
    requires bs != [] && bs[|bs| - 1].Data() <= data
    ensures Grows(bs, want, data, Extend(bs, want, data))
  {
    var k := |bs| - 1;
    var front := Front(bs, k, data - bs[k].Data(), 2 * DATA_SIZE + HEAP_ALIGN);
    forall i | 0 <= i < |bs| - 1 && i != k && i != k - 1
      ensures bs[i] in Extend(bs, want, data)
    {
      assert front[i] == bs[i];
    }
  }

  lemma PromiseKeeps(bs: seq<Block>, size: nat, align: nat, out: seq<Block>, data: nat)
    ensures Promise(bs, size, align, out, data) ==> Keeps(bs, out)
  {
  }

  lemma PromiseFrom(bs: seq<Block>, k: nat, size: nat, want: nat, align: nat, out: seq<Block>, at: nat)
    requires Tiled(bs) && k < |bs| && bs[k].free && size <= want
    requires bs[k].Data() <= at && (k < |bs| - 1 ==> at <= bs[k].End())
    requires Aligned(at) && (align > 0 ==> at % Pow2(Power(align)) == 0)
    requires Tiled(out) && Keeps(bs, out) && Holds(out, at - DATA_SIZE, want)
    requires forall a :: Live(out, a) ==> a == at - DATA_SIZE || Live(bs, a)
    ensures Promise(bs, size, align, out, at)
  {
    hide Tiled;
    InsideFreeIsNotLive(bs, k, at - DATA_SIZE);
    HoldsLess(out, at - DATA_SIZE, want, size);
  }

  lemma EndOnly(addr: nat)
    requires Aligned(addr) && addr > 0
    ensures Tiled([Block(addr, 0, true)])
  {
  }

  lemma StretchFacts(bs: seq<Block>, k: nat, want: nat)
    requires Tiled(bs) && k < |bs| - 1 && Aligned(want)
    ensures var last := bs[|bs| - 1].addr;
      && Aligned(bs[k].addr) && Aligned(last) && Aligned(last + DATA_SIZE + want)
      && last - bs[k].Data() >= HEAP_ALIGN && Aligned(last - bs[k].Data()) && bs[0].addr > 0
  {
    hide Tiled, Aligned;
    var last := bs[|bs| - 1].addr;
    BlocksDisjoint(bs, k, |bs| - 1);
    BlockFacts(bs, k);
    BlockFacts(bs, |bs| - 1);
    AlignedNext(bs[k].addr);
    AlignedSum(last, bs[k].Data());
    AlignedNext(bs[|bs| - 1].addr);
    AlignedSum(last + DATA_SIZE, want);
    EndsApart(bs[k], last);
  }

  /** A header behind a block leaves room for the data of the block. */
  lemma EndsApart(b: Block, end: nat)
    requires b.End() <= end && b.size >= HEAP_ALIGN
    ensures end - b.Data() >= HEAP_ALIGN
  {
  }

  lemma SwallowTiles(bs: seq<Block>, k: nat, want: nat)
    requires Tiled(bs) && k < |bs| - 1 && want >= HEAP_ALIGN && Aligned(want)
    ensures Tiled(Swallow(bs, k, want))
  {
    hide Segment, Tiled, Aligned;
    var last := bs[|bs| - 1].addr;
    StretchFacts(bs, k, want);
    TiledSplit(bs, k);
    var stretched, made, end := [Block(bs[k].addr, last - bs[k].Data(), true)], [Block(last, want, false)], [Block(last + DATA_SIZE + want, 0, true)];
    OneBlock(bs[k].addr, last - bs[k].Data(), true);
    OneBlock(last, want, false);
    SegmentJoin(bs[..k], stretched, bs[0].addr, bs[k].addr, last);
    SegmentJoin(bs[..k] + stretched, made, bs[0].addr, last, last + DATA_SIZE + want);
    EndOnly(last + DATA_SIZE + want);
    SegmentThenTail(bs[..k] + stretched + made, bs[0].addr, end, 0);
    assert Swallow(bs, k, want) == bs[..k] + stretched + made + end[0..];
  }

  lemma SwallowKeepsLive(bs: seq<Block>, k: nat, want: nat)
    requires Tiled(bs) && k < |bs| - 1 && bs[k].free
    requires forall i :: k < i < |bs| - 1 ==> bs[i].free
    ensures var out, last := Swallow(bs, k, want), bs[|bs| - 1].addr;
      && Keeps(bs, out) && Holds(out, last, want)
      && (forall a :: Live(out, a) ==> a == last || Live(bs, a))
  {
    var out, last := Swallow(bs, k, want), bs[|bs| - 1].addr;
    forall b | b in bs && !b.free
      ensures Holds(out, b.addr, b.size)
    {
      var i :| 0 <= i < |bs| && bs[i] == b;
      assert i < k && out[i] == b;
    }
    assert out[k + 1] == Block(last, want, false);
    forall a | Live(out, a)
      ensures a == last || Live(bs, a)
    {
      var i :| 0 <= i < |out| && out[i].addr == a && !out[i].free;
      assert i < k ==> bs[i] in bs;
    }
  }

  lemma SwallowLoses(bs: seq<Block>, k: nat, want: nat, i: nat)
    requires Tiled(bs) && k < i < |bs| - 1
    ensures !Holds(Swallow(bs, k, want), bs[i].addr, bs[i].size)
  {
    var out := Swallow(bs, k, want);
    BlocksDisjoint(bs, k, i);
    BlocksDisjoint(bs, i, |bs| - 1);
    if Holds(out, bs[i].addr, bs[i].size) {
      var j :| 0 <= j < |out| && out[j].addr == bs[i].addr && !out[j].free;
      if j < k {
        BlocksDisjoint(bs, j, k);
      }
    }
  }

  /** A block of 16 bytes whose data is not at a page boundary, asked for a page-aligned 16 bytes: the
      header goes to the middle of whatever lies above, and the list is lost. */
  lemma OvershootExample()
    ensures var bs := [Block(0x1000, 16, true), Block(0x1020, 0x2000, false), Block(0x3030, 0, true)];
      Tiled(bs) && Malloc(bs, 16, 4096) == Corrupted
  {
    var bs := [Block(0x1000, 16, true), Block(0x1020, 0x2000, false), Block(0x3030, 0, true)];
    assert Tiled(bs);
    hide Tiled, AlignedStart, Pow2, Power, Front, Back, Swallow, Carve, Extend;
    PageAligned();
    assert bs[0].Data() == 0x1010 && bs[0].End() == 0x1020;
    assert Accepts(bs[0], 16, 4096) && RoundUp(16) == 16;
    assert FirstFit(bs, 0, 16, 4096) == 0;
  }

  lemma PageAligned()
    ensures AlignedStart(0x1010, 4096) == 0x2000
  {
    Log2OfPow2(12);
    assert Pow2(4) == 16;
    assert Pow2(8) == 256;
    assert Pow2(12) == 4096;
    assert Power(4096) == 12;
  }

  lemma HoldsLess(bs: seq<Block>, addr: nat, size: nat, less: nat)
    requires Holds(bs, addr, size) && less <= size
    ensures Holds(bs, addr, less)
  {
  }

  // ---------- one free ----------

  /** Index of the first block after `i` that free does not absorb. */
  function RunEnd(bs: seq<Block>, i: nat): (j: nat)
    requires i < |bs| - 1
    ensures i < j < |bs|
    ensures j == |bs| - 1 || !bs[j].free
    ensures forall m :: i < m < j ==> bs[m].free
    decreases |bs| - i
  {
    if i + 1 < |bs| - 1 && bs[i + 1].free then RunEnd(bs, i + 1) else i + 1
  }

  lemma {:induction false} RunEndUnique(bs: seq<Block>, i: nat, j: nat)
    requires i < j < |bs|
    requires j == |bs| - 1 || !bs[j].free
    requires forall m :: i < m < j ==> bs[m].free
    ensures RunEnd(bs, i) == j
    decreases j - i
  {
    if i + 1 < j {
      RunEndUnique(bs, i + 1, j);
    }
  }

  /** Block `i` and the run after it as one available block. */
  function Whole(bs: seq<Block>, i: nat): Block
    requires Tiled(bs) && i < |bs| - 1
  {
    BlocksDisjoint(bs, i, RunEnd(bs, i));
    Block(bs[i].addr, bs[RunEnd(bs, i)].addr - bs[i].Data(), true)
  }

  lemma WholeSize(bs: seq<Block>, i: nat)
    requires Tiled(bs) && i < |bs| - 1
    ensures var w := Whole(bs, i); w.addr == bs[i].addr && w.free && w.End() == bs[RunEnd(bs, i)].addr
    ensures Aligned(Whole(bs, i).size) && Whole(bs, i).size >= HEAP_ALIGN
  {
    hide Tiled, RunEnd, Aligned;
    BlocksDisjoint(bs, i, RunEnd(bs, i));
    BlockFacts(bs, i);
    BlockFacts(bs, RunEnd(bs, i));
    AlignedNext(bs[i].addr);
    AlignedSum(bs[RunEnd(bs, i)].addr, bs[i].Data());
  }

  lemma WholeTiles(bs: seq<Block>, i: nat)
    requires Tiled(bs) && i < |bs| - 1
    ensures Tiled(bs[..i] + [Whole(bs, i)] + bs[RunEnd(bs, i)..])
  {
    hide Tiled, Segment, Aligned;
    var j := RunEnd(bs, i);
    BlocksDisjoint(bs, i, j);
    BlockFacts(bs, i);
    BlockFacts(bs, j);
    WholeSize(bs, i);
    TiledSplit(bs, i);
    hide RunEnd;
    OneBlock(bs[i].addr, Whole(bs, i).size, true);
    SegmentJoin(bs[..i], [Whole(bs, i)], bs[0].addr, bs[i].addr, bs[j].addr);
    SegmentThenTail(bs[..i] + [Whole(bs, i)], bs[0].addr, bs, j);
  }

  function JoinNext(bs: seq<Block>, i: nat): seq<Block>
    requires i + 2 < |bs|
  {
    bs[..i] + [bs[i].(size := bs[i].size + DATA_SIZE + bs[i + 1].size)] + bs[i + 2..]
  }

  lemma JoinNextTiles(bs: seq<Block>, i: nat)
    requires Tiled(bs) && i + 2 < |bs| && bs[i].free && bs[i + 1].free
    ensures Tiled(JoinNext(bs, i))
    ensures RunEnd(JoinNext(bs, i), i) == RunEnd(bs, i) - 1
    ensures Whole(JoinNext(bs, i), i) == Whole(bs, i)
  {
    hide Tiled, Segment;
    var next, j := JoinNext(bs, i), RunEnd(bs, i);
    BlockFacts(bs, i);
    BlockFacts(bs, i + 1);
    assert Tiled(next) by {
      TiledSplit(bs, i);
      OneBlock(bs[i].addr, bs[i].size + DATA_SIZE + bs[i + 1].size, true);
      SegmentJoin(bs[..i], [next[i]], bs[0].addr, bs[i].addr, bs[i + 2].addr);
      SegmentThenTail(bs[..i] + [next[i]], bs[0].addr, bs, i + 2);
    }
    assert forall m :: i < m < |next| ==> next[m] == bs[m + 1];
    RunEndUnique(next, i, j - 1);
  }

  lemma {:induction false} MergeIs(bs: seq<Block>, i: nat)
    requires Tiled(bs) && i < |bs| - 1 && bs[i].free
    ensures Merge(bs, i) == bs[..i] + [Whole(bs, i)] + bs[RunEnd(bs, i)..]
    decreases |bs|
  {
    hide Tiled;
    var j := RunEnd(bs, i);
    if i + 2 < |bs| && bs[i + 1].free {
      var next := JoinNext(bs, i);
      JoinNextTiles(bs, i);
      MergeIs(next, i);
      assert next[..i] == bs[..i] && next[j - 1..] == bs[j..];
    } else {
      NextAdjacent(bs, i);
      assert j == i + 1;
      assert bs == bs[..i] + [bs[i]] + bs[i + 1..];
    }
  }

  lemma NextAdjacent(bs: seq<Block>, i: nat)
    requires Tiled(bs) && i < |bs| - 1
    ensures bs[i + 1].addr == bs[i].End()
  {
  }

  /** Free's promise. The block and the whole run of available blocks after it become one block,
      the last block stays, every other block is as it was, and the list is still a tiling. */
  lemma FreeCorrect(bs: seq<Block>, i: nat)
    requires Tiled(bs) && i < |bs| - 1
    ensures var out := Release(bs, i);
      && out == bs[..i] + [Whole(bs, i)] + bs[RunEnd(bs, i)..]
      && Tiled(out)
      && !Live(out, bs[i].addr)
      && (forall b :: b in bs && !b.free && b != bs[i] ==> b in out)
      && (forall b :: b in out && !b.free ==> b in bs)
  {
    hide Tiled, Release;
    ReleaseIs(bs, i);
    WholeTiles(bs, i);
    ReleaseMembers(bs, i);
    InsideFreeIsNotLive(Release(bs, i), i, bs[i].addr);
  }

  lemma ReleaseIs(bs: seq<Block>, i: nat)
    requires Tiled(bs) && i < |bs| - 1
    ensures Release(bs, i) == bs[..i] + [Whole(bs, i)] + bs[RunEnd(bs, i)..]
  {
    var freed, j := bs[i := bs[i].(free := true)], RunEnd(bs, i);
    assert Tiled(freed);
    hide Tiled, Merge;
    RunEndUnique(freed, i, j);
    MergeIs(freed, i);
    assert Whole(freed, i) == Whole(bs, i);
    assert freed[..i] == bs[..i] && freed[j..] == bs[j..];
  }

  lemma ReleaseMembers(bs: seq<Block>, i: nat)
    requires Tiled(bs) && i < |bs| - 1
    ensures var out := bs[..i] + [Whole(bs, i)] + bs[RunEnd(bs, i)..];
      && (forall b :: b in bs && !b.free && b != bs[i] ==> b in out)
      && (forall b :: b in out && !b.free ==> b in bs)
  {
    var whole, j := Whole(bs, i), RunEnd(bs, i);
    assert whole.free;
    hide Tiled, Whole, RunEnd;
    JoinedMembers(bs, i, j, whole);
  }

  lemma JoinedMembers(bs: seq<Block>, i: nat, j: nat, whole: Block)
    requires i < j <= |bs| && whole.free && forall m :: i < m < j ==> bs[m].free
    ensures var out := bs[..i] + [whole] + bs[j..];
      && (forall b :: b in bs && !b.free && b != bs[i] ==> b in out)
      && (forall b :: b in out && !b.free ==> b in bs)
  {
    forall b | b in bs && !b.free && b != bs[i]
      ensures b in bs[..i] + [whole] + bs[j..]
    {
      var m :| 0 <= m < |bs| && bs[m] == b;
      if m < i {
        assert bs[..i][m] == b;
      } else {
        assert bs[j..][m - j] == b;
      }
    }
  }

  // ---------- every run ----------

  datatype Request = Allocate(size: nat, align: nat) | Free(addr: nat)

  function Index(bs: seq<Block>, addr: nat): (i: nat)
    requires exists b :: b in bs && b.addr == addr
    ensures i < |bs| && bs[i].addr == addr
  {
    if bs[0].addr == addr then 0 else 1 + Index(bs[1..], addr)
  }

  /** What a caller may ask: a size, and only the addresses of live blocks to be freed. */
  predicate Allowed(bs: seq<Block>, r: Request) {
    match r
    case Allocate(size, _) => size > 0
    case Free(addr) => Live(bs, addr)
  }

  predicate SoundRequest(bs: seq<Block>, r: Request)
    requires Tiled(bs)
  {
    Allowed(bs, r) && (r.Allocate? ==> Sound(bs, r.size, r.align))
  }

  function Step(bs: seq<Block>, r: Request): (out: seq<Block>)
    requires Tiled(bs) && SoundRequest(bs, r)
    ensures Tiled(out)
  {
    match r
    case Allocate(size, align) =>
      MallocExact(bs, size, align);
      Malloc(bs, size, align).bs
    case Free(addr) =>
      LiveIndex(bs, addr);
      FreeCorrect(bs, Index(bs, addr));
      Release(bs, Index(bs, addr))
  }

  lemma LiveIndex(bs: seq<Block>, addr: nat)
    requires Tiled(bs) && Live(bs, addr)
    ensures exists b :: b in bs && b.addr == addr
    ensures Index(bs, addr) < |bs| - 1 && !bs[Index(bs, addr)].free
  {
    var m :| 0 <= m < |bs| && bs[m].addr == addr && !bs[m].free;
    var i := Index(bs, addr);
    if i < m {
      BlocksDisjoint(bs, i, m);
    } else if m < i {
      BlocksDisjoint(bs, m, i);
    }
  }

  /** Bytes of every block with its header, the last header excepted. */
  function Bytes(bs: seq<Block>): nat {
    if |bs| <= 1 then 0 else DATA_SIZE + bs[0].size + Bytes(bs[1..])
  }

  /** The corruption test of the heap's own dump, summed up: headers and data account for every byte
      between the first and the last block. */
  lemma {:induction false} BytesFillHeap(bs: seq<Block>)
    requires Tiled(bs)
    ensures Bytes(bs) == bs[|bs| - 1].addr - bs[0].addr
  {
    if |bs| > 1 {
      TiledTail(bs);
      BytesFillHeap(bs[1..]);
    }
  }

  lemma TiledTail(bs: seq<Block>)
    requires Tiled(bs) && |bs| > 1
    ensures Tiled(bs[1..])
  {
  }

  /** A run of sound requests. */
  predicate SafeRun(bs: seq<Block>, rs: seq<Request>)
    requires Tiled(bs)
    decreases |rs|
  {
    rs == [] || (SoundRequest(bs, rs[0]) && SafeRun(Step(bs, rs[0]), rs[1..]))
  }

  function Run(bs: seq<Block>, rs: seq<Request>): (out: seq<Block>)
    requires Tiled(bs) && SafeRun(bs, rs)
    ensures Tiled(out)
    decreases |rs|
  {
    if rs == [] then bs else Run(Step(bs, rs[0]), rs[1..])
  }

  /** Over any run, a block that no request frees is still live at the end, at its address and with at
      least its size. */
  lemma {:induction false} RunKeepsLive(bs: seq<Block>, rs: seq<Request>, addr: nat, size: nat)
    requires Tiled(bs) && SafeRun(bs, rs)
    requires Holds(bs, addr, size)
    requires Free(addr) !in rs
    ensures Holds(Run(bs, rs), addr, size)
    decreases |rs|
  {
    if rs != [] {
      StepKeeps(bs, rs[0], addr, size);
      RunKeepsLive(Step(bs, rs[0]), rs[1..], addr, size);
    }
  }

  lemma StepKeeps(bs: seq<Block>, r: Request, addr: nat, size: nat)
    requires Tiled(bs) && SoundRequest(bs, r)
    requires Holds(bs, addr, size) && r != Free(addr)
    ensures Holds(Step(bs, r), addr, size)
  {
    hide AlignedStart, Tiled, Sound;
    var b :| b in bs && b.addr == addr && !b.free && b.size >= size;
    match r
    case Allocate(n, align) =>
      MallocExact(bs, n, align);
      HoldsLess(Step(bs, r), addr, b.size, size);
    case Free(a) =>
      LiveIndex(bs, a);
      FreeCorrect(bs, Index(bs, a));
      assert b in Step(bs, r);
  }

  /** The heap of `OvershootExample` comes of two requests and a free in a new heap. */
  lemma OvershootReached()
    ensures var bs, rs := [Block(0x1000, 0, true)], [Allocate(16, 0), Allocate(0x2000, 0), Free(0x1000)];
      && Tiled(bs) && SafeRun(bs, rs)
      && Run(bs, rs) == [Block(0x1000, 16, true), Block(0x1020, 0x2000, false), Block(0x3030, 0, true)]
      && Malloc(Run(bs, rs), 16, 4096) == Corrupted
  {
    hide Tiled, SoundRequest, Malloc, Step, SafeRun, Run;
    var a := [Block(0x1000, 0, true)];
    var b := [Block(0x1000, 16, false), Block(0x1020, 0, true)];
    var c := [Block(0x1000, 16, false), Block(0x1020, 0x2000, false), Block(0x3030, 0, true)];
    var d := [Block(0x1000, 16, true), Block(0x1020, 0x2000, false), Block(0x3030, 0, true)];
    FirstExtends();
    SecondExtends();
    FirstFreed();
    OvershootExample();
    RunNone(d);
    RunCons(c, Free(0x1000), d, []);
    assert [Free(0x1000)] + [] == [Free(0x1000)];
    RunCons(b, Allocate(0x2000, 0), c, [Free(0x1000)]);
    assert [Allocate(0x2000, 0)] + [Free(0x1000)] == [Allocate(0x2000, 0), Free(0x1000)];
    assert [Allocate(16, 0)] + [Allocate(0x2000, 0), Free(0x1000)] == [Allocate(16, 0), Allocate(0x2000, 0), Free(0x1000)];
    RunCons(a, Allocate(16, 0), b, [Allocate(0x2000, 0), Free(0x1000)]);
  }

  lemma RunNone(bs: seq<Block>)
    requires Tiled(bs)
    ensures SafeRun(bs, []) && Run(bs, []) == bs
  {
  }

  lemma RunCons(bs: seq<Block>, r: Request, next: seq<Block>, rs: seq<Request>)
    requires Tiled(bs) && SoundRequest(bs, r) && Step(bs, r) == next && SafeRun(next, rs)
    ensures SafeRun(bs, [r] + rs) && Run(bs, [r] + rs) == Run(next, rs)
  {
    hide Tiled, SoundRequest, Step;
    assert ([r] + rs)[1..] == rs;
  }

  lemma FirstExtends()
    ensures var bs := [Block(0x1000, 0, true)];
      Tiled(bs) && SoundRequest(bs, Allocate(16, 0))
      && Step(bs, Allocate(16, 0)) == [Block(0x1000, 16, false), Block(0x1020, 0, true)]
  {
  }

  lemma SecondExtends()
    ensures var bs := [Block(0x1000, 16, false), Block(0x1020, 0, true)];
      Tiled(bs) && SoundRequest(bs, Allocate(0x2000, 0))
      && Step(bs, Allocate(0x2000, 0)) == [Block(0x1000, 16, false), Block(0x1020, 0x2000, false), Block(0x3030, 0, true)]
  {
    assert !Accepts(Block(0x1000, 16, false), 0x2000, 0);
  }

  lemma FirstFreed()
    ensures var bs := [Block(0x1000, 16, false), Block(0x1020, 0x2000, false), Block(0x3030, 0, true)];
      Tiled(bs) && SoundRequest(bs, Free(0x1000))
      && Step(bs, Free(0x1000)) == [Block(0x1000, 16, true), Block(0x1020, 0x2000, false), Block(0x3030, 0, true)]
  {
    var bs := [Block(0x1000, 16, false), Block(0x1020, 0x2000, false), Block(0x3030, 0, true)];
    assert bs[0].addr == 0x1000 && Live(bs, 0x1000);
    assert Tiled(bs);
    hide Tiled, Live;
    assert Index(bs, 0x1000) == 0;
  }
}
