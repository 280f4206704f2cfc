/** The heap's pointer code: headers in memory, rewritten in place. */
module KernelHeap {
  import opened HeapLayout
  import opened HeapTheorems

  const PAGE_SIZE: nat := 4096

  datatype Header = Header(size: nat, next: nat, free: bool)

  type Memory = map<nat, Header>

  /** The headers of `bs` are in memory, each leading to the one after it and the last to `next`. */
  predicate Linked(mem: Memory, bs: seq<Block>, next: nat) {
    forall i :: 0 <= i < |bs| ==> LinkedAt(mem, bs, i, next)
  }

  predicate LinkedAt(mem: Memory, bs: seq<Block>, i: nat, next: nat)
    requires i < |bs|
  {
    bs[i].addr in mem && mem[bs[i].addr] == HeaderOf(bs, i, next)
  }

  function HeaderOf(bs: seq<Block>, i: nat, next: nat): Header
    requires i < |bs|
  {
    Header(bs[i].size, if i == |bs| - 1 then next else bs[i + 1].addr, bs[i].free)
  }

  ghost predicate Represents(mem: Memory, start: nat, last: nat, bs: seq<Block>) {
    && Tiled(bs)
    && Linked(mem, bs, 0)
    && start == bs[0].addr
    && last == bs[|bs| - 1].addr
  }

  lemma LinkedJoin(mem: Memory, a: seq<Block>, b: seq<Block>, mid: nat, next: nat)
    requires Linked(mem, a, mid) && Linked(mem, b, next)
    requires b == [] ==> mid == next
    requires b != [] ==> mid == b[0].addr
    ensures Linked(mem, a + b, next)
  {
    var c := a + b;
    forall i | 0 <= i < |c|
      ensures LinkedAt(mem, c, i, next)
    {
      if i < |a| {
        assert LinkedAt(mem, a, i, mid);
      } else {
        assert LinkedAt(mem, b, i - |a|, next);
      }
    }
  }

  /** Writing a header at an address no block of `bs` has leaves `bs` linked. */
  lemma LinkedFrame(mem: Memory, bs: seq<Block>, next: nat, a: nat, h: Header)
    requires Linked(mem, bs, next)
    requires forall i :: 0 <= i < |bs| ==> bs[i].addr != a
    ensures Linked(mem[a := h], bs, next)
  {
    var written := mem[a := h];
    forall i | 0 <= i < |bs|
      ensures LinkedAt(written, bs, i, next)
    {
      assert LinkedAt(mem, bs, i, next);
    }
  }

  /** The blocks a list of headers stands for are determined by following the links. */
  lemma {:induction false} LinksDetermine(mem: Memory, start: nat, last: nat, bs: seq<Block>, path: seq<nat>, i: nat)
    requires Represents(mem, start, last, bs)
    requires i < |path| && path[0] == start
    requires forall j :: 0 <= j < |path| ==> path[j] > 0
    requires forall j :: 0 <= j < |path| - 1 ==> path[j] in mem && mem[path[j]].next == path[j + 1]
    ensures i < |bs| && bs[i].addr == path[i]
  {
    if i > 0 {
      LinksDetermine(mem, start, last, bs, path, i - 1);
      assert LinkedAt(mem, bs, i - 1, 0);
      var j := i - 1;
      assert mem[path[j]].next == path[j + 1];
    }
  }

  /** Links that ever lead downwards are not a heap. */
  lemma DescentIsNoHeap(mem: Memory, start: nat, last: nat, path: seq<nat>)
    requires |path| >= 2 && path[0] == start
    requires forall j :: 0 <= j < |path| ==> path[j] > 0
    requires forall j :: 0 <= j < |path| - 1 ==> path[j] in mem && mem[path[j]].next == path[j + 1]
    requires path[|path| - 1] <= path[|path| - 2]
    ensures forall bs :: !Represents(mem, start, last, bs)
  {
    forall bs | Represents(mem, start, last, bs)
      ensures false
    {
      var n := |path|;
      LinksDetermine(mem, start, last, bs, path, n - 1);
      LinksDetermine(mem, start, last, bs, path, n - 2);
      BlocksDisjoint(bs, n - 2, n - 1);
    }
  }

  /** The search's test on a header at `addr`: available, large enough, and large enough from the
      aligned start of its data. */
  predicate Passes(h: Header, addr: nat, size: nat, align: nat, power: nat) {
    && h.free
    && size <= h.size
    && (align == 0 ||
        size <= Sub32(addr + DATA_SIZE + h.size, ((addr + DATA_SIZE - 1) / Pow2(power) + 1) * Pow2(power)))
  }

  lemma PassesIsAccepts(bs: seq<Block>, k: nat, size: nat, align: nat, power: nat)
    requires k < |bs|
    requires align > 0 ==> power == Power(align)
    ensures Passes(HeaderOf(bs, k, 0), bs[k].addr, size, align, power) <==> Accepts(bs[k], size, align)
  {
  }

  /** The last header is the only one whose link is null. */
  lemma HeaderAt(mem: Memory, start: nat, last: nat, bs: seq<Block>, i: nat)
    requires Represents(mem, start, last, bs) && i < |bs|
    ensures bs[i].addr in mem && mem[bs[i].addr] == HeaderOf(bs, i, 0)
    ensures mem[bs[i].addr].next != 0 <==> i < |bs| - 1
  {
    assert LinkedAt(mem, bs, i, 0);
    if i < |bs| - 1 {
      BlocksDisjoint(bs, 0, i + 1);
    }
  }

  /** No list of blocks begins at `start` and ends at `last`. */
  ghost predicate NotAHeap(mem: Memory, start: nat, last: nat) {
    forall bs :: !Represents(mem, start, last, bs)
  }

  /** What the search leaves when it takes block `k`: the carved list, or, after an overshoot, memory
      that is no heap although the blocks up to `k` are still linked to the header returned. */
  ghost predicate Found(m: Memory, start: nat, last: nat, bs: seq<Block>, size: nat, align: nat,
                        mem: Memory, start': nat, blocks: seq<Block>, current: nat)
    requires Tiled(bs)
  {
    var k := FirstFit(bs, 0, size, align);
    var at := AlignedStart(bs[k].Data(), align);
    && current == at - DATA_SIZE
    && if Overshoots(bs[k], align) then
         && NotAHeap(mem, start', last) && start' == start && current in mem
         && at >= bs[k].Data() + DATA_SIZE
         && Linked(mem, bs[..k] + [Block(bs[k].addr, at - bs[k].Data() - DATA_SIZE, true)], current)
       else
         && Place(bs, size, align) == Placed(blocks, at)
         && Represents(mem, start', last, blocks)
  }

  /** Memory after the header at `current` has been moved up so that its data begins at `at`. */
  function Moved(m: Memory, current: nat, prev: nat, at: nat, garbage: bool): Memory
    requires current in m && at >= current + DATA_SIZE
    requires prev == 0 || prev in m
  {
    var gap, h, moved := at - current - DATA_SIZE, m[current], at - DATA_SIZE;
    if gap == 0 then m
    else if gap >= DATA_SIZE + HEAP_ALIGN then
      m[current := Header(gap - DATA_SIZE, moved, true)][moved := Header(Sub32(current + DATA_SIZE + h.size, at), h.next, garbage)]
    else
      var m1 := m[moved := Header(Sub32(h.size, gap), h.next, garbage)];
      if prev == 0 then m1 else m1[prev := m1[prev].(next := moved, size := m1[prev].size + gap)]
  }

  /** Memory after the block at `current` has been cut to `size` where that leaves room for another,
      and marked as used; the last header is left alone. */
  function Taken(m: Memory, current: nat, size: nat): Memory
    requires current in m
  {
    var h, nb := m[current], current + size + DATA_SIZE;
    if h.next == 0 then m
    else if h.size >= size + DATA_SIZE + HEAP_ALIGN then
      m[nb := Header(h.size - size - DATA_SIZE, h.next, true)][current := Header(size, nb, false)]
    else m[current := h.(free := false)]
  }

  class Heap {
    var mem: Memory
    var start: nat
    var last: nat
    var nextPage: nat
    ghost var blocks: seq<Block>

    ghost predicate Valid()
      reads this
    {
      && Represents(mem, start, last, blocks)
      && nextPage % PAGE_SIZE == 0 && last < nextPage
    }

    /** A heap with no blocks but the last one, at `addr` rounded up to the heap's alignment. */
    constructor (addr: nat)
      requires addr > 0
      ensures Valid()
      ensures blocks == [Block(RoundUp(addr), 0, true)]
    {
      RoundUpBounds(addr);
      start := RoundUp(addr);
      last := RoundUp(addr);
      mem := map[RoundUp(addr) := Header(0, 0, true)];
      nextPage := RoundUp(addr) / PAGE_SIZE * PAGE_SIZE + PAGE_SIZE;
      blocks := [Block(RoundUp(addr), 0, true)];
    }

    /** Shifts right until nothing is left; the result is never below the heap's own alignment. */
    static method AlignPower(align: nat) returns (power: nat)
      requires align > 0
      ensures power == Power(align)
    {
      power := 0;
      var a: nat := align / 2;
      while a != 0
        invariant Log2(align) == power + (if a == 0 then 0 else 1 + Log2(a))
        decreases a
      {
        power := power + 1;
        a := a / 2;
      }
      if power < 4 {
        power := 4;
      }
    }

    /** Walks the list to the first block that passes the search's test, or to the last one. */
    method Search(size: nat, align: nat, power: nat) returns (current: nat, prev: nat, ghost k: nat)
      requires Valid()
      requires align > 0 ==> power == Power(align)
      ensures k == FirstFit(blocks, 0, size, align) && current == blocks[k].addr
      ensures prev == if k == 0 then 0 else blocks[k - 1].addr
    {
      assert |blocks| > 0;
      hide Represents, Tiled, Passes, Accepts;
      prev, k := 0, 0;
      current := start;
      HeaderAt(mem, start, last, blocks, k);
      while mem[current].next != 0 && !Passes(mem[current], current, size, align, power)
        invariant k < |blocks| && current == blocks[k].addr && current in mem
        invariant mem[current] == HeaderOf(blocks, k, 0) && (mem[current].next != 0 <==> k < |blocks| - 1)
        invariant prev == if k == 0 then 0 else blocks[k - 1].addr
        invariant FirstFit(blocks, k, size, align) == FirstFit(blocks, 0, size, align)
        decreases |blocks| - k
      {
        PassesIsAccepts(blocks, k, size, align, power);
        prev := current;
        current := mem[current].next;
        k := k + 1;
        HeaderAt(mem, start, last, blocks, k);
      }
      PassesIsAccepts(blocks, k, size, align, power);
    }

    /** Moves the header of a block up so that its data begins at `at`: splits the start off when
        there is room for a block, otherwise hands the bytes to the block before. The flag of a header
        written over the block's own data is whatever was there. */
    method MoveUp(current: nat, prev: nat, at: nat, garbage: bool) returns (moved: nat)
      requires current in mem && at >= current + DATA_SIZE
      requires prev == 0 || prev in mem
      modifies this`mem, this`start
      ensures mem == Moved(old(mem), current, prev, at, garbage)
      ensures moved == at - DATA_SIZE
      ensures start == if 0 < at - current - DATA_SIZE < DATA_SIZE + HEAP_ALIGN && prev == 0 then moved else old(start)
    {
      moved := current;
      var s, e := current + DATA_SIZE, current + DATA_SIZE + mem[current].size;
      if at == s {
      } else if at - s >= DATA_SIZE + HEAP_ALIGN {
        var next := mem[current].next;
        moved := at - DATA_SIZE;
        mem := mem[current := Header(at - s - DATA_SIZE, moved, true)];
        mem := mem[moved := Header(Sub32(e, at), next, garbage)];
      } else {
        var temp := mem[current];
        moved := at - DATA_SIZE;
        mem := mem[moved := Header(Sub32(temp.size, at - s), temp.next, garbage)];
        if prev != 0 {
          mem := mem[prev := mem[prev].(next := moved, size := mem[prev].size + (at - s))];
        } else {
          start := moved;
        }
      }
    }

    /** Splits off the end of a block when there is room for another, and marks the block as used. */
    method Take(current: nat, size: nat)
      requires current in mem
      modifies this`mem
      ensures mem == Taken(old(mem), current, size)
    {
      if mem[current].next != 0 && mem[current].size >= size + DATA_SIZE + HEAP_ALIGN {
        var nb := current + size + DATA_SIZE;
        var h := mem[current];
        mem := mem[nb := Header(h.size - size - DATA_SIZE, h.next, true)];
        mem := mem[current := Header(size, nb, h.free)];
      }
      if mem[current].next != 0 {
        mem := mem[current := mem[current].(free := false)];
      }
    }

    /** The first available block that takes the request, split to size, or the last header. */
    method FindFreeBlock(size: nat, align: nat) returns (current: nat)
      requires Valid() && InRange(blocks, size, align)
      requires size >= HEAP_ALIGN && Aligned(size)
      modifies this`mem, this`start, this`blocks
      ensures FirstFit(old(blocks), 0, size, align) == |old(blocks)| - 1 ==>
        mem == old(mem) && start == old(start) && blocks == old(blocks) && current == last
      ensures FirstFit(old(blocks), 0, size, align) < |old(blocks)| - 1 ==>
        Found(old(mem), old(start), last, old(blocks), size, align, mem, start, blocks, current)
    {
      hide Represents, Tiled, Found, FirstFit, Carve, Taken, AlignedStart, Overshoots;
      var power: nat := 0;
      if align != 0 {
        power := AlignPower(align);
      }
      ghost var k;
      ghost var bs, m := blocks, mem;
      var prev;
      current, prev, k := Search(size, align, power);
      HeaderAt(mem, start, last, blocks, k);
      if mem[current].next == 0 {
        LastIndex(mem, start, last, blocks, k);
        return;
      }
      var garbage: bool := *;
      var at := current + DATA_SIZE;
      if align != 0 {
        at := ((current + DATA_SIZE - 1) / Pow2(power) + 1) * Pow2(power);
      }
      AlignedStartIs(m, start, last, bs, k, align, at);
      FoundFrom(m, start, last, bs, k, size, align, prev, at, garbage);
      blocks := FoundBlocks(bs, k, size, align, at);
      current := MoveUp(current, prev, at, garbage);
      Take(current, size);
    }

    /** Takes pages until the request is certain to fit below the next one. */
    method GrowPages(size: nat, align: nat)
      requires nextPage % PAGE_SIZE == 0
      modifies this`nextPage
      ensures nextPage % PAGE_SIZE == 0
      ensures last + DATA_SIZE + size + align < nextPage
    {
      while last + DATA_SIZE + size + align >= nextPage
        invariant nextPage % PAGE_SIZE == 0
      {
        nextPage := nextPage + PAGE_SIZE;
      }
    }

    /** Moves the last header up to an aligned place. The room in front becomes a block when there is
        enough of it, and otherwise goes to the block before. When the last header is already in
        place the subtraction wraps, and the branch taken rewrites the header where it stands. */
    method AlignLast(align: nat, ghost whole: bool)
      requires align > 0 && last in mem
      requires if whole then Represents(mem, start, last, blocks) else AlignedStart(last + DATA_SIZE, align) == last + DATA_SIZE
      requires last + 2 * DATA_SIZE + align < TWO32
      modifies this`mem, this`start, this`last, this`blocks
      ensures last + DATA_SIZE == AlignedStart(old(last) + DATA_SIZE, align) && last in mem
      ensures last == old(last) ==> mem == old(mem)[last := Header(0, 0, true)] && start == old(start) && blocks == old(blocks)
      ensures whole ==>
        && Represents(mem, start, last, blocks)
        && old(last) <= last
        && blocks == Lifted(old(blocks), old(last), last + DATA_SIZE)
    {
      hide Represents, Lifted, AlignedStart, Sub32;
      var power := AlignPower(align);
      var ls := last + DATA_SIZE;
      var at := ((ls - 1) / Pow2(power) + 1) * Pow2(power);
      ghost var m: Memory, bs, first := mem, blocks, start;
      LastCases(mem, start, last, blocks, align, at, whole);
      if Sub32(Sub32(at, DATA_SIZE), ls) >= DATA_SIZE + HEAP_ALIGN {
        if whole {
          LastSplit(m, first, ls - DATA_SIZE, bs, at);
          blocks := Lifted(bs, ls - DATA_SIZE, at);
        }
        var nl := at - DATA_SIZE;
        mem := mem[last := Header(Sub32(Sub32(at, DATA_SIZE), ls), nl, true)];
        last := nl;
        mem := mem[last := Header(0, 0, true)];
      } else {
        var prevLast := last;
        LastShift(m, first, prevLast, bs, at);
        blocks := Lifted(bs, prevLast, at);
        last := at - DATA_SIZE;
        mem := mem[last := Header(0, 0, true)];
        if start == prevLast {
          start := last;
        } else {
          var prev := FindPrevious(m, prevLast, bs);
          mem := mem[prev := mem[prev].(next := last, size := last - prev - DATA_SIZE)];
        }
      }
    }

    /** Walks to the block whose link is the last header. */
    method FindPrevious(ghost m: Memory, prevLast: nat, ghost bs: seq<Block>) returns (prev: nat)
      requires Represents(m, start, prevLast, bs) && start != prevLast
      requires forall i :: 0 <= i < |bs| - 1 ==> Same(m, mem, bs[i])
      ensures |bs| >= 2 && prev == bs[|bs| - 2].addr
    {
      ghost var k := 0;
      prev := start;
      HeaderAt(m, start, prevLast, bs, 0);
      LastIsHigher(m, start, prevLast, bs);
      hide Represents;
      while mem[prev].next != prevLast
        invariant k < |bs| - 1 && prev == bs[k].addr && prev in mem
        invariant mem[prev].next == bs[k + 1].addr
        decreases |bs| - k
      {
        assert bs[k + 1].addr != prevLast;
        prev := mem[prev].next;
        k := k + 1;
        HeaderAt(m, start, prevLast, bs, k);
        assert k < |bs| - 1;
        assert Same(m, mem, bs[k]);
      }
      assert k == |bs| - 2;
    }

    /** Makes the last header a block of the given size, and a new last header behind it. */
    method Append(size: nat, ghost whole: bool) returns (made: nat)
      requires last in mem && (whole ==> Represents(mem, start, last, blocks))
      requires size >= HEAP_ALIGN && Aligned(size)
      modifies this`mem, this`last, this`blocks
      ensures made == old(last) && last == made + size + DATA_SIZE
      ensures mem == old(mem)[made := Header(size, last, false)][last := Header(0, 0, true)]
      ensures whole ==>
        && Represents(mem, start, last, blocks)
        && blocks == old(blocks)[..|old(blocks)| - 1] + [Block(made, size, false), Block(last, 0, true)]
    {
      ghost var m: Memory, bs := mem, blocks;
      mem := mem[last := mem[last].(size := size, free := false)];
      made := last;
      last := last + size + DATA_SIZE;
      mem := mem[last := Header(0, 0, true)];
      mem := mem[made := mem[made].(next := last)];
      assert mem == m[made := Header(size, last, false)][last := Header(0, 0, true)];
      if whole {
        Appended(m, start, made, bs, size);
        blocks := bs[..|bs| - 1] + [Block(made, size, false), Block(last, 0, true)];
      }
    }

    /** A new block at the end of the heap. */
    method NewBlock(size: nat, align: nat, ghost whole: bool) returns (made: nat)
      requires last in mem && nextPage % PAGE_SIZE == 0
      requires if whole then Represents(mem, start, last, blocks) else align > 0 && AlignedStart(last + DATA_SIZE, align) == last + DATA_SIZE
      requires size >= HEAP_ALIGN && Aligned(size)
      requires last + 2 * DATA_SIZE + size + align < TWO32
      modifies this`mem, this`start, this`last, this`nextPage, this`blocks
      ensures nextPage % PAGE_SIZE == 0
      ensures made + DATA_SIZE == AlignedStart(old(last) + DATA_SIZE, align) && last == made + size + DATA_SIZE
      ensures whole ==>
        && Valid() && old(last) <= made
        && blocks == Extend(old(blocks), size, made + DATA_SIZE)
      ensures !whole ==>
        && mem == old(mem)[made := Header(size, last, false)][last := Header(0, 0, true)]
        && start == old(start) && made == old(last) && last < nextPage
    {
      ghost var bs, l := blocks, last;
      hide Represents, AlignedStart, Lifted, Front, Extend;
      EndFacts(mem, start, last, blocks, align, whole);
      GrowPages(size, align);
      if align != 0 {
        AlignLast(align, whole);
      }
      made := Append(size, whole);
      if whole {
        LiftedThenAppended(bs, l, made + DATA_SIZE, size);
      }
    }

    /** Space for a caller: the address of the data of a block of at least the rounded size. */
    method Malloc(size: nat, align: nat) returns (data: nat)
      requires Valid()
      requires size > 0 ==> InRange(blocks, RoundUp(size), align)
      modifies this`mem, this`start, this`last, this`nextPage, this`blocks
      ensures size == 0 ==> data == 0 && mem == old(mem) && start == old(start) && last == old(last) && blocks == old(blocks)
      ensures size > 0 ==>
        match HeapTheorems.Malloc(old(blocks), size, align)
        case Placed(bs, d) => Valid() && blocks == bs && data == d
        case Corrupted => NotAHeap(mem, start, last)
    {
      if size == 0 {
        return 0;
      }
      RoundUpBounds(size);
      var want := ((size - 1) / HEAP_ALIGN + 1) * HEAP_ALIGN;
      assert want == RoundUp(size);
      ghost var m, bs, first, l, k := mem, blocks, start, last, FirstFit(blocks, 0, want, align);
      LastHeader(mem, start, last, blocks);
      assert Tiled(bs);
      hide Represents, Found, Place, FirstFit, RoundUp, Extend, Swallow, AlignedStart, NotAHeap;
      var result := FindFreeBlock(want, align);
      if result == last {
        FoundLast(m, first, last, bs, want, align, mem, start, blocks);
        ghost var found := mem;
        result := NewBlock(want, align, k == |bs| - 1);
        if k < |bs| - 1 {
          Swallowed(m, first, l, bs, want, align, found, mem);
          blocks := Swallow(bs, k, want);
        } else {
          PlaceAtEnd(m, first, l, bs, want, align);
        }
      } else {
        FoundElsewhere(m, first, last, bs, want, align, mem, start, blocks, result);
      }
      data := result + DATA_SIZE;
    }

    method Free(data: nat)
      requires Valid()
      requires data == 0 || (data >= DATA_SIZE && Live(blocks, data - DATA_SIZE))
      modifies this`mem, this`blocks
      ensures Valid()
      ensures data == 0 ==> mem == old(mem) && blocks == old(blocks)
      ensures data > 0 ==> blocks == Release(old(blocks), Index(old(blocks), data - DATA_SIZE))
    {
      hide Represents, Index, Release;
      if data != 0 {
        FreeHeader(data - DATA_SIZE);
      }
    }

    method FreeHeader(current: nat)
      requires Valid() && Live(blocks, current)
      modifies this`mem, this`blocks
      ensures Valid()
      ensures blocks == Release(old(blocks), Index(old(blocks), current))
    {
      hide Tiled, Linked, Merge;
      LiveIndex(blocks, current);
      ghost var i := Index(blocks, current);
      MarkFree(mem, start, last, blocks, i);
      mem := mem[current := mem[current].(free := true)];
      blocks := blocks[i := blocks[i].(free := true)];
      MergeForward(current, i);
    }

    /** Merges with the blocks after, while they are available and not the last one. */
    method MergeForward(current: nat, ghost i: nat)
      requires Represents(mem, start, last, blocks)
      requires i < |blocks| - 1 && blocks[i].addr == current && blocks[i].free
      modifies this`mem, this`blocks
      ensures Represents(mem, start, last, blocks)
      ensures blocks == Merge(old(blocks), i)
    {
      hide Tiled, Linked, Merge, JoinNext, Represents;
      NextAfter(mem, start, last, blocks, i);
      while mem[mem[current].next].free && mem[mem[current].next].next != 0
        invariant Represents(mem, start, last, blocks)
        invariant i < |blocks| - 1 && blocks[i].addr == current && blocks[i].free
        invariant Merge(blocks, i) == Merge(old(blocks), i)
        invariant FollowedBy(mem, blocks, i)
        decreases |blocks|
      {
        MergeTurn(blocks, i);
        Absorb(mem, start, last, blocks, i);
        JoinNextShape(blocks, i);
        ghost var before := mem;
        mem := mem[current := mem[current].(size := mem[current].size + DATA_SIZE + mem[mem[current].next].size)];
        mem := mem[current := mem[current].(next := mem[mem[current].next].next)];
        assert mem == before[current := mem[current]];
        blocks := JoinNext(blocks, i);
        NextAfter(mem, start, last, blocks, i);
      }
      MergeTurn(blocks, i);
    }
  }

  lemma JoinNextShape(bs: seq<Block>, i: nat)
    requires i + 2 < |bs|
    ensures |JoinNext(bs, i)| == |bs| - 1
    ensures JoinNext(bs, i)[i] == bs[i].(size := bs[i].size + DATA_SIZE + bs[i + 1].size)
  {
  }

  predicate Same(m: Memory, mem: Memory, b: Block) {
    b.addr in m && b.addr in mem && mem[b.addr] == m[b.addr]
  }

  /** Replacing blocks `lo` to `hi` of a list by others whose headers are in place. */
  lemma LinkedReplace(m: Memory, mem: Memory, bs: seq<Block>, lo: nat, hi: nat, piece: seq<Block>)
    requires Linked(m, bs, 0) && lo < hi <= |bs|
    requires |piece| > 0 && (lo > 0 ==> piece[0].addr == bs[lo].addr)
    requires Linked(mem, piece, if hi < |bs| then bs[hi].addr else 0)
    requires forall i :: 0 <= i < |bs| && !(lo <= i < hi) ==> Same(m, mem, bs[i])
    ensures Linked(mem, bs[..lo] + piece + bs[hi..], 0)
  {
    var out, n := bs[..lo] + piece + bs[hi..], |piece|;
    forall i | 0 <= i < |out|
      ensures LinkedAt(mem, out, i, 0)
    {
      if i < lo {
        assert out[i] == bs[i] && Same(m, mem, bs[i]) && LinkedAt(m, bs, i, 0);
      } else if i < lo + n {
        assert out[i] == piece[i - lo] && LinkedAt(mem, piece, i - lo, if hi < |bs| then bs[hi].addr else 0);
      } else {
        var j := i - lo - n + hi;
        assert out[i] == bs[j] && Same(m, mem, bs[j]) && LinkedAt(m, bs, j, 0);
      }
    }
  }

  function Rewritten(m: Memory, current: nat, prev: nat, size: nat, at: nat, garbage: bool): Memory
    requires current in m && at >= current + DATA_SIZE
    requires prev == 0 || prev in m
  {
    Taken(Moved(m, current, prev, at, garbage), at - DATA_SIZE, size)
  }

  /** The headers of the taken block and of what is split off behind it. */
  lemma BackLinked(m: Memory, current: nat, prev: nat, size: nat, at: nat, garbage: bool)
    requires current in m && at >= current + DATA_SIZE && m[current].next != 0
    requires prev == 0 || (prev in m && prev < current)
    requires at <= current + DATA_SIZE + m[current].size < TWO32 && size <= current + DATA_SIZE + m[current].size - at
    ensures Linked(Rewritten(m, current, prev, size, at, garbage), Back(at, current + DATA_SIZE + m[current].size, size), m[current].next)
  {
  }

  /** Without an overshoot the rewritten memory is the carved list. */
  lemma CarveLinked(m: Memory, start: nat, last: nat, bs: seq<Block>, k: nat, size: nat, prev: nat, at: nat, garbage: bool)
    requires Represents(m, start, last, bs) && k < |bs| - 1
    requires last < TWO32
    requires prev == if k == 0 then 0 else bs[k - 1].addr
    requires size >= HEAP_ALIGN && Aligned(size)
    requires bs[k].Data() <= at <= bs[k].End() && Aligned(at) && size <= bs[k].End() - at
    requires bs[k].addr in m && (prev == 0 || prev in m)
    ensures Represents(Rewritten(m, bs[k].addr, prev, size, at, garbage),
                       if k == 0 && 0 < at - bs[k].Data() < DATA_SIZE + HEAP_ALIGN then at - DATA_SIZE else start,
                       last, Carve(bs, k, size, at))
  {
    CarveTiles(bs, k, size, at);
    CarveEnds(bs, k, size, at);
    CarvePieces(m, start, last, bs, k, size, prev, at, garbage);
    hide Tiled, Linked, Rewritten, Carve;
  }

  lemma CarveEnds(bs: seq<Block>, k: nat, size: nat, at: nat)
    requires Tiled(bs) && k < |bs| - 1
    requires bs[k].Data() <= at <= bs[k].End() && size <= bs[k].End() - at
    ensures var out := Carve(bs, k, size, at);
      && |out| > 0
      && out[|out| - 1] == bs[|bs| - 1]
      && out[0].addr == if k == 0 && 0 < at - bs[k].Data() < DATA_SIZE + HEAP_ALIGN then at - DATA_SIZE else bs[0].addr
  {
  }

  lemma CarvePieces(m: Memory, start: nat, last: nat, bs: seq<Block>, k: nat, size: nat, prev: nat, at: nat, garbage: bool)
    requires Represents(m, start, last, bs) && k < |bs| - 1
    requires last < TWO32
    requires prev == if k == 0 then 0 else bs[k - 1].addr
    requires size >= HEAP_ALIGN
    requires bs[k].Data() <= at <= bs[k].End() && size <= bs[k].End() - at
    requires bs[k].addr in m && (prev == 0 || prev in m)
    ensures Linked(Rewritten(m, bs[k].addr, prev, size, at, garbage), Carve(bs, k, size, at), 0)
  {
    assert Tiled(bs) && Linked(m, bs, 0);
    hide Represents, Tiled, Linked, Rewritten, Back, Carve;
    var gap, end := at - bs[k].Data(), bs[k].End();
    var mem := Rewritten(m, bs[k].addr, prev, size, at, garbage);
    var back := Back(at, end, size);
    HeaderOfBlock(m, bs, k);
    BlocksDisjoint(bs, k, |bs| - 1);
    if k > 0 {
      HeaderOfBlock(m, bs, k - 1);
      BlocksDisjoint(bs, k - 1, k);
      AddressPositive(bs, k - 1);
    }
    forall i | 0 <= i < |bs| && i != k && (i == k - 1 ==> !(0 < gap < DATA_SIZE + HEAP_ALIGN))
      ensures Same(m, mem, bs[i])
    {
      Untouched(m, bs, k, size, prev, at, garbage, i);
    }
    BackLinked(m, bs[k].addr, prev, size, at, garbage);
    FrontHeaders(m, bs[k].addr, prev, size, at, garbage);
    AssembleLinked(m, mem, bs, k, size, at, back);
  }

  /** Putting the pieces of a carved list together. */
  lemma AssembleLinked(m: Memory, mem: Memory, bs: seq<Block>, k: nat, size: nat, at: nat, back: seq<Block>)
    requires Linked(m, bs, 0) && k < |bs| - 1
    requires bs[k].Data() <= at <= bs[k].End() && size <= bs[k].End() - at
    requires back == Back(at, bs[k].End(), size) && |back| > 0 && Linked(mem, back, bs[k + 1].addr) && back[0].addr == at - DATA_SIZE
    requires forall i :: 0 <= i < |bs| && i != k && (i == k - 1 ==> !(0 < at - bs[k].Data() < DATA_SIZE + HEAP_ALIGN)) ==> Same(m, mem, bs[i])
    requires at - bs[k].Data() >= DATA_SIZE + HEAP_ALIGN ==>
      bs[k].addr in mem && mem[bs[k].addr] == Header(at - bs[k].Data() - DATA_SIZE, at - DATA_SIZE, true)
    requires 0 < at - bs[k].Data() < DATA_SIZE + HEAP_ALIGN && k > 0 ==>
      bs[k - 1].addr in mem && mem[bs[k - 1].addr] == Header(bs[k - 1].size + at - bs[k].Data(), at - DATA_SIZE, bs[k - 1].free)
    ensures Linked(mem, Carve(bs, k, size, at), 0)
  {
    var gap := at - bs[k].Data();
    hide Linked, Back;
    if gap == 0 || (k == 0 && gap < DATA_SIZE + HEAP_ALIGN) {
      LinkedReplace(m, mem, bs, k, k + 1, back);
    } else if gap >= DATA_SIZE + HEAP_ALIGN {
      var front := Block(bs[k].addr, gap - DATA_SIZE, true);
      LinkedOne(mem, front, at - DATA_SIZE);
      LinkedJoin(mem, [front], back, at - DATA_SIZE, bs[k + 1].addr);
      LinkedReplace(m, mem, bs, k, k + 1, [front] + back);
      assert Carve(bs, k, size, at) == bs[..k] + ([front] + back) + bs[k + 1..];
    } else {
      var front := bs[k - 1].(size := bs[k - 1].size + gap);
      LinkedOne(mem, front, at - DATA_SIZE);
      LinkedJoin(mem, [front], back, at - DATA_SIZE, bs[k + 1].addr);
      LinkedReplace(m, mem, bs, k - 1, k + 1, [front] + back);
      assert Carve(bs, k, size, at) == bs[..k - 1] + ([front] + back) + bs[k + 1..];
    }
  }

  lemma LinkedOne(mem: Memory, b: Block, next: nat)
    requires b.addr in mem && mem[b.addr] == Header(b.size, next, b.free)
    ensures Linked(mem, [b], next)
  {
  }

  lemma AddressPositive(bs: seq<Block>, i: nat)
    requires Tiled(bs) && i < |bs|
    ensures bs[i].addr > 0
  {
    if i > 0 {
      BlocksDisjoint(bs, 0, i);
    }
  }

  lemma HeaderOfBlock(m: Memory, bs: seq<Block>, k: nat)
    requires Tiled(bs) && Linked(m, bs, 0) && k < |bs| - 1
    ensures bs[k].addr in m && m[bs[k].addr] == Header(bs[k].size, bs[k + 1].addr, bs[k].free)
    ensures bs[k + 1].addr == bs[k].End() > 0
  {
    assert LinkedAt(m, bs, k, 0);
  }

  /** Only the headers of the taken block, of what is split off, and of the block before are written. */
  lemma RewrittenElsewhere(m: Memory, current: nat, prev: nat, size: nat, at: nat, garbage: bool, a: nat)
    requires current in m && at >= current + DATA_SIZE
    requires prev == 0 || (prev in m && prev < current)
    requires at <= current + DATA_SIZE + m[current].size < TWO32 && size <= current + DATA_SIZE + m[current].size - at
    requires a in m && a != current && a != at - DATA_SIZE
    requires a == at + size ==> current + DATA_SIZE + m[current].size - at < size + DATA_SIZE + HEAP_ALIGN
    requires a == prev ==> !(0 < at - current - DATA_SIZE < DATA_SIZE + HEAP_ALIGN)
    ensures a in Rewritten(m, current, prev, size, at, garbage) && Rewritten(m, current, prev, size, at, garbage)[a] == m[a]
  {
  }

  /** Headers of the blocks around block `k` keep what they say. */
  lemma Untouched(m: Memory, bs: seq<Block>, k: nat, size: nat, prev: nat, at: nat, garbage: bool, i: nat)
    requires Tiled(bs) && Linked(m, bs, 0) && k < |bs| - 1
    requires prev == if k == 0 then 0 else bs[k - 1].addr
    requires bs[k].Data() <= at <= bs[k].End() < TWO32 && size <= bs[k].End() - at
    requires bs[k].addr in m && (prev == 0 || (prev in m && prev < bs[k].addr))
    requires i < |bs| && i != k
    requires i == k - 1 ==> !(0 < at - bs[k].Data() < DATA_SIZE + HEAP_ALIGN)
    ensures Same(m, Rewritten(m, bs[k].addr, prev, size, at, garbage), bs[i])
  {
    HeaderOfBlock(m, bs, k);
    assert LinkedAt(m, bs, i, 0);
    if i < k {
      BlocksDisjoint(bs, i, k);
      if i < k - 1 {
        BlocksDisjoint(bs, i, k - 1);
      }
    } else {
      BlocksDisjoint(bs, k, i);
    }
    hide Tiled, Linked, Rewritten;
    RewrittenElsewhere(m, bs[k].addr, prev, size, at, garbage, bs[i].addr);
  }

  /** The header below the taken block: a new available block, or the one before, grown. */
  lemma FrontHeaders(m: Memory, current: nat, prev: nat, size: nat, at: nat, garbage: bool)
    requires current in m && at >= current + DATA_SIZE && m[current].next != 0
    requires prev == 0 || (prev in m && prev < current)
    requires at <= current + DATA_SIZE + m[current].size < TWO32 && size <= current + DATA_SIZE + m[current].size - at
    ensures var gap, mem, end := at - current - DATA_SIZE, Rewritten(m, current, prev, size, at, garbage), current + DATA_SIZE + m[current].size;
      && |Back(at, end, size)| > 0 && Back(at, end, size)[0].addr == at - DATA_SIZE
      && (gap >= DATA_SIZE + HEAP_ALIGN ==> current in mem && mem[current] == Header(gap - DATA_SIZE, at - DATA_SIZE, true))
      && (0 < gap < DATA_SIZE + HEAP_ALIGN && prev != 0 ==>
            prev in mem && mem[prev] == Header(m[prev].size + gap, at - DATA_SIZE, m[prev].free))
  {
  }

  lemma LastIndex(mem: Memory, start: nat, last: nat, bs: seq<Block>, k: nat)
    requires Represents(mem, start, last, bs) && k < |bs|
    requires bs[k].addr in mem && mem[bs[k].addr].next == 0
    ensures k == |bs| - 1 && bs[k].addr == last
  {
    HeaderAt(mem, start, last, bs, k);
  }

  lemma AddressAligned(mem: Memory, start: nat, last: nat, bs: seq<Block>, k: nat)
    requires Represents(mem, start, last, bs) && k < |bs|
    ensures Aligned(bs[k].Data())
  {
  }

  lemma AlignedStartIs(mem: Memory, start: nat, last: nat, bs: seq<Block>, k: nat, align: nat, at: nat)
    requires Represents(mem, start, last, bs) && k < |bs|
    requires at == if align == 0 then bs[k].Data() else ((bs[k].Data() - 1) / Pow2(Power(align)) + 1) * Pow2(Power(align))
    ensures at == AlignedStart(bs[k].Data(), align) && bs[k].Data() <= at <= bs[k].Data() + align && Aligned(at)
  {
    hide Represents, Pow2;
    AddressAligned(mem, start, last, bs, k);
    AlignedStartBounds(bs[k].Data(), align);
  }

  /** The list held by the memory once block `k` is taken; after an overshoot there is none. */
  function FoundBlocks(bs: seq<Block>, k: nat, size: nat, align: nat, at: nat): seq<Block>
    requires k < |bs| && bs[k].Data() <= at
  {
    if at <= bs[k].End() && size <= bs[k].End() - at then Carve(bs, k, size, at) else bs
  }

  lemma FoundFrom(m: Memory, start: nat, last: nat, bs: seq<Block>, k: nat, size: nat, align: nat, prev: nat, at: nat, garbage: bool)
    requires Represents(m, start, last, bs)
    requires k == FirstFit(bs, 0, size, align) < |bs| - 1
    requires size >= HEAP_ALIGN && Aligned(size) && InRange(bs, size, align)
    requires at == AlignedStart(bs[k].Data(), align) && bs[k].Data() <= at <= bs[k].Data() + align && Aligned(at)
    requires prev == if k == 0 then 0 else bs[k - 1].addr
    ensures bs[k].addr in m && (prev == 0 || prev in m) && (prev == 0 <==> k == 0)
    ensures Found(m, start, last, bs, size, align, Rewritten(m, bs[k].addr, prev, size, at, garbage),
                  if k == 0 && 0 < at - bs[k].Data() < DATA_SIZE + HEAP_ALIGN then at - DATA_SIZE else start,
                  FoundBlocks(bs, k, size, align, at), at - DATA_SIZE)
  {
    assert Tiled(bs) && last == bs[|bs| - 1].addr;
    hide Represents, Tiled, Linked, Rewritten, AlignedStart, Carve, Place, FirstFit, Aligned, Sub32, NotAHeap, Found;
    HeaderAt(m, start, last, bs, k);
    if k > 0 {
      HeaderAt(m, start, last, bs, k - 1);
      AddressPositive(bs, k - 1);
    }
    if Overshoots(bs[k], align) {
      FoundOver(m, start, last, bs, k, size, align, prev, at, garbage);
    } else {
      FoundFits(m, start, last, bs, k, size, align, prev, at, garbage);
    }
  }

  lemma FoundFits(m: Memory, start: nat, last: nat, bs: seq<Block>, k: nat, size: nat, align: nat, prev: nat, at: nat, garbage: bool)
    requires Represents(m, start, last, bs) && Tiled(bs) && last < TWO32
    requires k == FirstFit(bs, 0, size, align) < |bs| - 1 && !Overshoots(bs[k], align)
    requires size >= HEAP_ALIGN && Aligned(size)
    requires at == AlignedStart(bs[k].Data(), align) && bs[k].Data() <= at && Aligned(at)
    requires prev == if k == 0 then 0 else bs[k - 1].addr
    requires bs[k].addr in m && (prev == 0 || prev in m)
    ensures Found(m, start, last, bs, size, align, Rewritten(m, bs[k].addr, prev, size, at, garbage),
                  if k == 0 && 0 < at - bs[k].Data() < DATA_SIZE + HEAP_ALIGN then at - DATA_SIZE else start,
                  FoundBlocks(bs, k, size, align, at), at - DATA_SIZE)
  {
    hide Represents, Tiled, Linked, Rewritten, AlignedStart, Carve, Place, FirstFit, Aligned, NotAHeap;
    PlaceCarves(bs, k, size, align);
    CarveLinked(m, start, last, bs, k, size, prev, at, garbage);
  }

  lemma FoundOver(m: Memory, start: nat, last: nat, bs: seq<Block>, k: nat, size: nat, align: nat, prev: nat, at: nat, garbage: bool)
    requires Represents(m, start, last, bs) && Tiled(bs) && last == bs[|bs| - 1].addr
    requires k == FirstFit(bs, 0, size, align) < |bs| - 1 && Overshoots(bs[k], align)
    requires size >= HEAP_ALIGN && Aligned(size) && InRange(bs, size, align)
    requires at == AlignedStart(bs[k].Data(), align) && bs[k].Data() <= at <= bs[k].Data() + align && Aligned(at)
    requires prev == if k == 0 then 0 else bs[k - 1].addr
    requires bs[k].addr in m && (prev == 0 || prev in m)
    ensures Found(m, start, last, bs, size, align, Rewritten(m, bs[k].addr, prev, size, at, garbage),
                  if k == 0 && 0 < at - bs[k].Data() < DATA_SIZE + HEAP_ALIGN then at - DATA_SIZE else start,
                  FoundBlocks(bs, k, size, align, at), at - DATA_SIZE)
  {
    hide Represents, Tiled, Linked, Rewritten, AlignedStart, Carve, Place, FirstFit, Aligned, NotAHeap;
    BlocksDisjoint(bs, k, |bs| - 1);
    Overwritten(m, start, last, bs, k, size, prev, at, garbage);
  }

  lemma RepresentsIs(m: Memory, start: nat, last: nat, bs: seq<Block>)
    requires Represents(m, start, last, bs)
    ensures Tiled(bs) && Linked(m, bs, 0) && start == bs[0].addr && last == bs[|bs| - 1].addr
  {
  }

  /** After an overshoot the links go up to the misplaced header and then down again. */
  lemma Overwritten(m: Memory, start: nat, last: nat, bs: seq<Block>, k: nat, size: nat, prev: nat, at: nat, garbage: bool)
    requires Represents(m, start, last, bs) && k < |bs| - 1
    requires at + size + DATA_SIZE < TWO32 && bs[k].End() < at && Aligned(at)
    requires bs[k].addr in m && (prev == 0 || prev in m)
    requires size > 0
    ensures at >= bs[k].Data() + DATA_SIZE + HEAP_ALIGN
    ensures var mem := Rewritten(m, bs[k].addr, prev, size, at, garbage);
      && NotAHeap(mem, start, last) && at - DATA_SIZE in mem
      && Linked(mem, bs[..k] + [Block(bs[k].addr, at - bs[k].Data() - DATA_SIZE, true)], at - DATA_SIZE)
  {
    hide Represents, Tiled, Linked, Rewritten, Aligned;
    RepresentsIs(m, start, last, bs);
    OvershootGap(bs, k, at);
    HeaderOfBlock(m, bs, k);
    PastEnd(m, bs[k].addr, prev, size, at, garbage);
    var mem := Rewritten(m, bs[k].addr, prev, size, at, garbage);
    var next := bs[k + 1].addr;
    forall i | 0 <= i <= k
      ensures 0 < bs[i].addr && bs[i].addr in mem
      ensures mem[bs[i].addr].next == if i == k then at - DATA_SIZE else bs[i + 1].addr
      ensures i < k ==> mem[bs[i].addr] == Header(bs[i].size, bs[i + 1].addr, bs[i].free)
    {
      AddressPositive(bs, i);
      HeaderOfBlock(m, bs, i);
      if i < k {
        BlocksDisjoint(bs, i, k);
      }
    }
    LinkedUpTo(mem, bs, k, at);
    var up: seq<nat> := seq(k + 1, i requires 0 <= i <= k => bs[i].addr) + [at - DATA_SIZE];
    assert forall j :: 0 <= j < |up| - 1 ==> up[j] in mem && mem[up[j]].next == up[j + 1];
    DescentIsNoHeap(mem, start, last, up + [at + size, next]);
  }

  lemma LinkedUpTo(mem: Memory, bs: seq<Block>, k: nat, at: nat)
    requires k < |bs| && at >= bs[k].Data() + DATA_SIZE
    requires bs[k].addr in mem && mem[bs[k].addr] == Header(at - bs[k].Data() - DATA_SIZE, at - DATA_SIZE, true)
    requires forall i :: 0 <= i < k ==> bs[i].addr in mem && mem[bs[i].addr] == Header(bs[i].size, bs[i + 1].addr, bs[i].free)
    ensures Linked(mem, bs[..k] + [Block(bs[k].addr, at - bs[k].Data() - DATA_SIZE, true)], at - DATA_SIZE)
  {
    var out, header := bs[..k] + [Block(bs[k].addr, at - bs[k].Data() - DATA_SIZE, true)], at - DATA_SIZE;
    forall i | 0 <= i < |out|
      ensures LinkedAt(mem, out, i, header)
    {
      if i < k {
        assert out[i] == bs[i];
      }
    }
  }

  lemma OvershootGap(bs: seq<Block>, k: nat, at: nat)
    requires Tiled(bs) && k < |bs| - 1 && bs[k].End() < at && Aligned(at)
    ensures at >= bs[k].Data() + DATA_SIZE + HEAP_ALIGN && bs[k].size >= HEAP_ALIGN
  {
    assert bs[k].size >= HEAP_ALIGN && Aligned(bs[k].size) && Aligned(bs[k].addr);
  }

  /** The headers written by an overshoot, and those below it that keep what they say. */
  lemma PastEnd(m: Memory, current: nat, prev: nat, size: nat, at: nat, garbage: bool)
    requires current in m && m[current].next != 0
    requires prev == 0 || prev in m
    requires at >= current + 2 * DATA_SIZE + HEAP_ALIGN && current + DATA_SIZE + m[current].size < at
    requires size > 0 && at + size + DATA_SIZE < TWO32 && m[current].size >= HEAP_ALIGN
    ensures var mem, next := Rewritten(m, current, prev, size, at, garbage), m[current].next;
      && current in mem && mem[current] == Header(at - current - 2 * DATA_SIZE, at - DATA_SIZE, true)
      && at - DATA_SIZE in mem && mem[at - DATA_SIZE].next == at + size
      && at + size in mem && mem[at + size].next == next
      && (forall a :: a in m && a < current ==> a in mem && mem[a] == m[a])
  {
  }

  lemma LastHeader(mem: Memory, start: nat, last: nat, bs: seq<Block>)
    requires Represents(mem, start, last, bs)
    ensures |bs| > 0 && bs[|bs| - 1] == Block(last, 0, true) && Aligned(last)
    ensures last in mem && mem[last] == Header(0, 0, true)
  {
    HeaderAt(mem, start, last, bs, |bs| - 1);
  }

  lemma LastIsHigher(mem: Memory, start: nat, last: nat, bs: seq<Block>)
    requires Represents(mem, start, last, bs)
    ensures start == bs[0].addr && last == bs[|bs| - 1].addr
    ensures forall i :: 0 <= i < |bs| - 1 ==> bs[i].addr < last
  {
    forall i | 0 <= i < |bs| - 1
      ensures bs[i].addr < last
    {
      BlocksDisjoint(bs, i, |bs| - 1);
    }
  }

  /** The list once the last header has moved up so that its data begins at `at`. */
  function Lifted(bs: seq<Block>, last: nat, at: nat): seq<Block>
    requires |bs| > 0 && at >= last + DATA_SIZE
  {
    Front(bs, |bs| - 1, at - last - DATA_SIZE, 2 * DATA_SIZE + HEAP_ALIGN) + [Block(at - DATA_SIZE, 0, true)]
  }

  /** Which branch the wrapping subtraction takes. */
  lemma LastCases(m: Memory, start: nat, last: nat, bs: seq<Block>, align: nat, at: nat, whole: bool)
    requires align > 0 && last + 2 * DATA_SIZE + align < TWO32
    requires if whole then Represents(m, start, last, bs) else AlignedStart(last + DATA_SIZE, align) == last + DATA_SIZE
    requires at == ((last + DATA_SIZE - 1) / Pow2(Power(align)) + 1) * Pow2(Power(align))
    ensures at == AlignedStart(last + DATA_SIZE, align)
    ensures last + DATA_SIZE <= at
    ensures whole ==> |bs| > 0 && Aligned(at)
    ensures !whole ==> at == last + DATA_SIZE
    ensures Sub32(Sub32(at, DATA_SIZE), last + DATA_SIZE) >= DATA_SIZE + HEAP_ALIGN <==>
      at == last + DATA_SIZE || at - last - DATA_SIZE >= 2 * DATA_SIZE + HEAP_ALIGN
    ensures at - last - DATA_SIZE >= 2 * DATA_SIZE + HEAP_ALIGN ==>
      Sub32(Sub32(at, DATA_SIZE), last + DATA_SIZE) == at - last - 2 * DATA_SIZE
  {
    hide AlignedStart, Represents, Sub32;
    LastStartIs(last, align, at);
    if whole {
      LastHeader(m, start, last, bs);
      AlignedStartBounds(last + DATA_SIZE, align);
      WrappedGap(at, last + DATA_SIZE);
    } else {
      WrappedGap(at, at);
    }
  }

  lemma LastStartIs(last: nat, align: nat, at: nat)
    requires align > 0
    requires at == ((last + DATA_SIZE - 1) / Pow2(Power(align)) + 1) * Pow2(Power(align))
    ensures at == AlignedStart(last + DATA_SIZE, align)
  {
  }

  lemma WrappedGap(at: nat, ls: nat)
    requires DATA_SIZE <= ls <= at < TWO32
    requires at == ls || (Aligned(at) && Aligned(ls))
    ensures Sub32(Sub32(at, DATA_SIZE), ls) >= DATA_SIZE + HEAP_ALIGN <==> at == ls || at - ls >= 2 * DATA_SIZE + HEAP_ALIGN
    ensures at - ls >= 2 * DATA_SIZE + HEAP_ALIGN ==> Sub32(Sub32(at, DATA_SIZE), ls) == at - DATA_SIZE - ls
  {
    assert Sub32(at, DATA_SIZE) == at - DATA_SIZE;
    if at > ls {
      assert at - ls >= DATA_SIZE;
      assert Sub32(at - DATA_SIZE, ls) == at - DATA_SIZE - ls;
    } else {
      assert Sub32(at - DATA_SIZE, ls) == TWO32 - DATA_SIZE;
    }
  }

  lemma GapFacts(bs: seq<Block>, last: nat, at: nat)
    requires |bs| > 0 && Tiled(bs) && last == bs[|bs| - 1].addr
    requires Aligned(at) && at >= last + DATA_SIZE
    ensures last > 0 && bs[0].addr > 0
    ensures Aligned(at - last - DATA_SIZE) && Aligned(at - DATA_SIZE) && at - DATA_SIZE > 0
  {
    hide Tiled, Aligned;
    BlockFacts(bs, |bs| - 1);
    AddressPositive(bs, |bs| - 1);
    AlignedNext(bs[|bs| - 1].addr);
    AlignedSum(at, last + DATA_SIZE);
    AlignedNext(at);
  }

  lemma LiftedTiles(bs: seq<Block>, last: nat, at: nat)
    requires |bs| > 0 && Tiled(bs) && last == bs[|bs| - 1].addr
    requires Aligned(at) && at >= last + DATA_SIZE
    ensures |Lifted(bs, last, at)| > 0 && Tiled(Lifted(bs, last, at))
    ensures Lifted(bs, last, at)[0].addr ==
      if |bs| == 1 && at - last - DATA_SIZE < 2 * DATA_SIZE + HEAP_ALIGN then at - DATA_SIZE else bs[0].addr
  {
    hide Tiled, Segment, Aligned;
    var k, gap, spare := |bs| - 1, at - last - DATA_SIZE, 2 * DATA_SIZE + HEAP_ALIGN;
    GapFacts(bs, last, at);
    hide Front;
    EndOnly(at - DATA_SIZE);
    FrontTiles(bs, k, gap, spare);
    SegmentThenTail(Front(bs, k, gap, spare), NewStart(bs, k, gap, spare), [Block(at - DATA_SIZE, 0, true)], 0);
    assert [Block(at - DATA_SIZE, 0, true)][0..] == [Block(at - DATA_SIZE, 0, true)];
  }

  lemma LastSplit(m: Memory, start: nat, last: nat, bs: seq<Block>, at: nat)
    requires Represents(m, start, last, bs)
    requires Aligned(at)
    requires at == last + DATA_SIZE || at - last - DATA_SIZE >= 2 * DATA_SIZE + HEAP_ALIGN
    ensures |bs| > 0
    ensures at == last + DATA_SIZE ==> Lifted(bs, last, at) == bs
    ensures var gap, nl := at - last - DATA_SIZE, at - DATA_SIZE;
      Represents(if gap == 0 then m[last := Header(0, 0, true)]
                 else m[last := Header(gap - DATA_SIZE, nl, true)][nl := Header(0, 0, true)],
                 start, nl, Lifted(bs, last, at))
  {
    hide Tiled, Linked;
    LastHeader(m, start, last, bs);
    LastIsHigher(m, start, last, bs);
    LiftedTiles(bs, last, at);
    var k, gap, nl := |bs| - 1, at - last - DATA_SIZE, at - DATA_SIZE;
    if gap == 0 {
      assert Lifted(bs, last, at) == bs;
      assert m == m[last := Header(0, 0, true)];
    } else {
      hide Lifted;
      var mem := m[last := Header(gap - DATA_SIZE, nl, true)][nl := Header(0, 0, true)];
      EndReplaced(m, start, last, bs, k, mem, Block(last, gap - DATA_SIZE, true), nl);
      assert Lifted(bs, last, at) == bs[..k] + [Block(last, gap - DATA_SIZE, true), Block(nl, 0, true)] by {
        LiftedIs(bs, last, at);
      }
    }
  }

  lemma LiftedIs(bs: seq<Block>, last: nat, at: nat)
    requires |bs| > 0 && last == bs[|bs| - 1].addr && at > last + DATA_SIZE
    ensures var k, gap, nl := |bs| - 1, at - last - DATA_SIZE, at - DATA_SIZE;
      Lifted(bs, last, at) ==
        if gap >= 2 * DATA_SIZE + HEAP_ALIGN then bs[..k] + [Block(last, gap - DATA_SIZE, true), Block(nl, 0, true)]
        else if k == 0 then [Block(nl, 0, true)]
        else bs[..k - 1] + [bs[k - 1].(size := bs[k - 1].size + gap), Block(nl, 0, true)]
  {
  }

  /** The blocks from `lo` on replaced by one block and a new last header. */
  lemma EndReplaced(m: Memory, start: nat, last: nat, bs: seq<Block>, lo: nat, mem: Memory, b: Block, nl: nat)
    requires Represents(m, start, last, bs) && Linked(m, bs, 0)
    requires lo < |bs| && b.addr == bs[lo].addr
    requires b.addr in mem && mem[b.addr] == Header(b.size, nl, b.free)
    requires nl in mem && mem[nl] == Header(0, 0, true)
    requires forall a :: a in m && a < b.addr ==> a in mem && mem[a] == m[a]
    ensures Linked(mem, bs[..lo] + [b, Block(nl, 0, true)], 0)
  {
    forall i | 0 <= i < lo
      ensures Same(m, mem, bs[i])
    {
      HeaderAt(m, start, last, bs, i);
      BlocksDisjoint(bs, i, lo);
    }
    hide Represents, Linked;
    LinkedOne(mem, b, nl);
    LinkedOne(mem, Block(nl, 0, true), 0);
    LinkedJoin(mem, [b], [Block(nl, 0, true)], nl, 0);
    assert [b] + [Block(nl, 0, true)] == [b, Block(nl, 0, true)];
    LinkedReplace(m, mem, bs, lo, |bs|, [b, Block(nl, 0, true)]);
    assert bs[..lo] + [b, Block(nl, 0, true)] + bs[|bs|..] == bs[..lo] + [b, Block(nl, 0, true)];
  }

  /** The last header shifts up and the bytes go to the block before, or are lost at the start. */
  lemma LastShift(m: Memory, start: nat, last: nat, bs: seq<Block>, at: nat)
    requires Represents(m, start, last, bs)
    requires Aligned(at) && 0 < at - last - DATA_SIZE < 2 * DATA_SIZE + HEAP_ALIGN
    ensures |bs| > 0
    ensures forall i :: 0 <= i < |bs| - 1 ==> Same(m, m[at - DATA_SIZE := Header(0, 0, true)], bs[i])
    ensures start == last <==> |bs| == 1
    ensures var gap, nl := at - last - DATA_SIZE, at - DATA_SIZE;
      var m1 := m[nl := Header(0, 0, true)];
      if |bs| == 1 then Represents(m1, nl, nl, Lifted(bs, last, at))
      else
        var b := bs[|bs| - 2];
        && b.addr in m1 && m1[b.addr].free == b.free && b.addr + DATA_SIZE <= last
        && Represents(m1[b.addr := Header(nl - b.addr - DATA_SIZE, nl, b.free)], start, nl, Lifted(bs, last, at))
  {
    hide Tiled, Linked, Lifted;
    LastHeader(m, start, last, bs);
    LastIsHigher(m, start, last, bs);
    LiftedTiles(bs, last, at);
    LiftedIs(bs, last, at);
    var k, gap, nl := |bs| - 1, at - last - DATA_SIZE, at - DATA_SIZE;
    var m1 := m[nl := Header(0, 0, true)];
    forall i | 0 <= i < k
      ensures Same(m, m1, bs[i])
    {
      HeaderAt(m, start, last, bs, i);
    }
    if k == 0 {
      LinkedOne(m1, Block(nl, 0, true), 0);
    } else {
      HeaderAt(m, start, last, bs, k - 1);
      NextBlock(m, start, last, bs, k - 1);
      var b := bs[k - 1].(size := bs[k - 1].size + gap);
      EndReplaced(m, start, last, bs, k - 1, m1[b.addr := Header(nl - b.addr - DATA_SIZE, nl, b.free)], b, nl);
    }
  }

  lemma NextBlock(m: Memory, start: nat, last: nat, bs: seq<Block>, k: nat)
    requires Represents(m, start, last, bs) && k < |bs| - 1
    ensures bs[k + 1].addr == bs[k].End()
  {
  }

  lemma Appended(m: Memory, start: nat, last: nat, bs: seq<Block>, size: nat)
    requires Represents(m, start, last, bs)
    requires size >= HEAP_ALIGN && Aligned(size)
    ensures var end := last + size + DATA_SIZE;
      Represents(m[last := Header(size, end, false)][end := Header(0, 0, true)], start, end,
                 bs[..|bs| - 1] + [Block(last, size, false), Block(end, 0, true)])
  {
    LastHeader(m, start, last, bs);
    LastIsHigher(m, start, last, bs);
    var k, end := |bs| - 1, last + size + DATA_SIZE;
    var out := bs[..k] + [Block(last, size, false), Block(end, 0, true)];
    EndReplaced(m, start, last, bs, k, m[last := Header(size, end, false)][end := Header(0, 0, true)], Block(last, size, false), end);
    AppendTiles(bs, last, size);
    hide Tiled, Linked;
  }

  lemma AppendTiles(bs: seq<Block>, last: nat, size: nat)
    requires Tiled(bs) && last == bs[|bs| - 1].addr
    requires size >= HEAP_ALIGN && Aligned(size)
    ensures Tiled(bs[..|bs| - 1] + [Block(last, size, false), Block(last + size + DATA_SIZE, 0, true)])
  {
    var k, end := |bs| - 1, [Block(last + size + DATA_SIZE, 0, true)];
    TiledSplit(bs, k);
    OneBlock(last, size, false);
    SegmentJoin(bs[..k], [Block(last, size, false)], bs[0].addr, last, last + size + DATA_SIZE);
    SegmentThenTail(bs[..k] + [Block(last, size, false)], bs[0].addr, end, 0);
    assert bs[..k] + [Block(last, size, false)] + end[0..] == bs[..k] + [Block(last, size, false), end[0]];
  }

  lemma EndFacts(m: Memory, start: nat, last: nat, bs: seq<Block>, align: nat, whole: bool)
    requires if whole then Represents(m, start, last, bs) else AlignedStart(last + DATA_SIZE, align) == last + DATA_SIZE
    ensures whole ==> |bs| > 0 && bs[|bs| - 1] == Block(last, 0, true) && last in m
    ensures align == 0 ==> AlignedStart(last + DATA_SIZE, align) == last + DATA_SIZE
    ensures last + DATA_SIZE <= AlignedStart(last + DATA_SIZE, align) <= last + DATA_SIZE + align
  {
    if whole {
      LastHeader(m, start, last, bs);
      AlignedStartBounds(last + DATA_SIZE, align);
    }
  }

  /** Lifting the last header and then making it a block is what `Extend` says. */
  lemma LiftedThenAppended(bs: seq<Block>, last: nat, at: nat, size: nat)
    requires |bs| > 0 && last == bs[|bs| - 1].addr && at >= last + DATA_SIZE
    requires bs[|bs| - 1] == Block(last, 0, true)
    ensures var l := Lifted(bs, last, at);
      && |l| > 0
      && Extend(bs, size, at) == l[..|l| - 1] + [Block(at - DATA_SIZE, size, false), Block(at + size, 0, true)]
    ensures at == last + DATA_SIZE ==> Lifted(bs, last, at) == bs
  {
    var l := Lifted(bs, last, at);
    assert l[..|l| - 1] == Front(bs, |bs| - 1, at - last - DATA_SIZE, 2 * DATA_SIZE + HEAP_ALIGN);
  }

  /** When the search ends at the last header: none was found, or an overshoot landed there. */
  lemma FoundLast(m: Memory, first: nat, last: nat, bs: seq<Block>, want: nat, align: nat, mem: Memory, start: nat, blocks: seq<Block>)
    requires Represents(m, first, last, bs)
    requires want >= HEAP_ALIGN
    requires FirstFit(bs, 0, want, align) == |bs| - 1 ==> mem == m && start == first && blocks == bs
    requires FirstFit(bs, 0, want, align) < |bs| - 1 ==> Found(m, first, last, bs, want, align, mem, start, blocks, last)
    ensures last in mem
    ensures FirstFit(bs, 0, want, align) < |bs| - 1 ==>
      && var k := FirstFit(bs, 0, want, align);
      && start == first && align > 0
      && last + DATA_SIZE == AlignedStart(bs[k].Data(), align) && AlignedStart(last + DATA_SIZE, align) == last + DATA_SIZE
      && Overshoots(bs[k], align)
      && last >= bs[k].Data()
      && Linked(mem, bs[..k] + [Block(bs[k].addr, last - bs[k].Data(), true)], last)
  {
    hide Tiled, Linked;
    LastHeader(m, first, last, bs);
    var k := FirstFit(bs, 0, want, align);
    if k < |bs| - 1 {
      HeaderAt(m, first, last, bs, k);
      BlocksDisjoint(bs, k, |bs| - 1);
      AddressAligned(m, first, last, bs, k);
      AlignedStartBounds(bs[k].Data(), align);
      assert Overshoots(bs[k], align);
      hide AlignedStart, Represents;
      AlignedStartFixed(last + DATA_SIZE, align);
    }
  }

  lemma FoundElsewhere(m: Memory, first: nat, last: nat, bs: seq<Block>, want: nat, align: nat, mem: Memory, start: nat, blocks: seq<Block>, result: nat)
    requires Represents(m, first, last, bs)
    requires result != last && FirstFit(bs, 0, want, align) < |bs| - 1
    requires Found(m, first, last, bs, want, align, mem, start, blocks, result)
    ensures match Place(bs, want, align)
      case Placed(out, d) => Represents(mem, start, last, blocks) && blocks == out && result + DATA_SIZE == d
      case Corrupted => NotAHeap(mem, start, last)
  {
    LastIsHigher(m, first, last, bs);
  }

  lemma PlaceAtEnd(m: Memory, first: nat, last: nat, bs: seq<Block>, want: nat, align: nat)
    requires Represents(m, first, last, bs) && FirstFit(bs, 0, want, align) == |bs| - 1
    ensures last + DATA_SIZE <= AlignedStart(last + DATA_SIZE, align)
    ensures var at := AlignedStart(last + DATA_SIZE, align); Place(bs, want, align) == Placed(Extend(bs, want, at), at)
  {
    AlignedStartBounds(bs[|bs| - 1].Data(), align);
  }

  /** The one overshoot that still leaves a list: the last header becomes the new block. */
  lemma Swallowed(m: Memory, first: nat, last: nat, bs: seq<Block>, want: nat, align: nat, found: Memory, mem: Memory)
    requires Represents(m, first, last, bs)
    requires want >= HEAP_ALIGN && Aligned(want)
    requires FirstFit(bs, 0, want, align) < |bs| - 1
    requires var k, end := FirstFit(bs, 0, want, align), last + want + DATA_SIZE;
      && Overshoots(bs[k], align) && AlignedStart(bs[k].Data(), align) == last + DATA_SIZE
      && last >= bs[k].Data()
      && Linked(found, bs[..k] + [Block(bs[k].addr, last - bs[k].Data(), true)], last)
      && mem == found[last := Header(want, end, false)][end := Header(0, 0, true)]
    ensures var k := FirstFit(bs, 0, want, align);
      && Represents(mem, first, last + want + DATA_SIZE, Swallow(bs, k, want))
      && Place(bs, want, align) == Placed(Swallow(bs, k, want), last + DATA_SIZE)
  {
    var k, end := FirstFit(bs, 0, want, align), last + want + DATA_SIZE;
    var front := bs[..k] + [Block(bs[k].addr, last - bs[k].Data(), true)];
    LastIsHigher(m, first, last, bs);
    SwallowTiles(bs, k, want);
    var made, tail := Block(last, want, false), Block(end, 0, true);
    assert Swallow(bs, k, want) == front + ([made] + [tail]);
    assert forall i :: 0 <= i < |front| ==> front[i].addr < last;
    hide Represents, Tiled, Linked, Swallow, AlignedStart;
    LinkedFrame(found, front, last, last, Header(want, end, false));
    LinkedFrame(found[last := Header(want, end, false)], front, last, end, Header(0, 0, true));
    LinkedOne(mem, made, end);
    LinkedOne(mem, tail, 0);
    LinkedJoin(mem, [made], [tail], end, 0);
    LinkedJoin(mem, front, [made] + [tail], last, 0);
    SwallowEnds(mem, first, last, bs, k, want);
  }

  lemma SwallowEnds(mem: Memory, first: nat, last: nat, bs: seq<Block>, k: nat, want: nat)
    requires Tiled(bs) && k < |bs| - 1 && first == bs[0].addr && last == bs[|bs| - 1].addr
    requires Tiled(Swallow(bs, k, want)) && Linked(mem, Swallow(bs, k, want), 0)
    ensures Represents(mem, first, last + want + DATA_SIZE, Swallow(bs, k, want))
  {
  }

  lemma UniqueAddresses(bs: seq<Block>, i: nat)
    requires Tiled(bs) && i < |bs|
    ensures forall j :: 0 <= j < |bs| && j != i ==> bs[j].addr != bs[i].addr
  {
    forall j | 0 <= j < |bs| && j != i
      ensures bs[j].addr != bs[i].addr
    {
      if i < j {
        BlocksDisjoint(bs, i, j);
      } else {
        BlocksDisjoint(bs, j, i);
      }
    }
  }

  lemma MarkTiles(bs: seq<Block>, i: nat)
    requires Tiled(bs) && i < |bs|
    ensures Tiled(bs[i := bs[i].(free := true)])
  {
  }

  lemma MergeTurn(bs: seq<Block>, i: nat)
    requires i + 1 < |bs|
    ensures Merge(bs, i) == if i + 2 < |bs| && bs[i + 1].free then Merge(JoinNext(bs, i), i) else bs
  {
  }

  lemma MarkFree(mem: Memory, start: nat, last: nat, bs: seq<Block>, i: nat)
    requires Represents(mem, start, last, bs) && i < |bs|
    ensures bs[i].addr in mem
    ensures Represents(mem[bs[i].addr := mem[bs[i].addr].(free := true)], start, last, bs[i := bs[i].(free := true)])
  {
    hide Tiled;
    var marked := bs[i := bs[i].(free := true)];
    MarkTiles(bs, i);
    UniqueAddresses(bs, i);
    assert LinkedAt(mem, bs, i, 0);
    var h := mem[bs[i].addr].(free := true);
    var written := mem[bs[i].addr := h];
    forall j | 0 <= j < |marked|
      ensures LinkedAt(written, marked, j, 0)
    {
      assert LinkedAt(mem, bs, j, 0);
    }
  }

  /** What the header of block `i` and of the one after it say. */
  predicate FollowedBy(mem: Memory, bs: seq<Block>, i: nat) {
    && i + 1 < |bs| && bs[i].addr in mem && bs[i + 1].addr in mem
    && mem[bs[i].addr] == Header(bs[i].size, bs[i + 1].addr, bs[i].free)
    && mem[bs[i + 1].addr].size == bs[i + 1].size
    && mem[bs[i + 1].addr].free == bs[i + 1].free
    && (mem[bs[i + 1].addr].next != 0 <==> i + 2 < |bs|)
    && (i + 2 < |bs| ==> mem[bs[i + 1].addr].next == bs[i + 2].addr)
  }

  lemma NextAfter(mem: Memory, start: nat, last: nat, bs: seq<Block>, i: nat)
    requires Represents(mem, start, last, bs) && i < |bs| - 1
    ensures FollowedBy(mem, bs, i)
  {
    assert LinkedAt(mem, bs, i, 0);
    assert LinkedAt(mem, bs, i + 1, 0);
    if i + 2 < |bs| {
      BlocksDisjoint(bs, 0, i + 2);
    }
  }

  /** One turn of free's loop. */
  lemma Absorb(mem: Memory, start: nat, last: nat, bs: seq<Block>, i: nat)
    requires Represents(mem, start, last, bs) && i + 2 < |bs| && bs[i].free && bs[i + 1].free
    ensures var h := Header(bs[i].size + DATA_SIZE + bs[i + 1].size, bs[i + 2].addr, true);
      Represents(mem[bs[i].addr := h], start, last, JoinNext(bs, i))
  {
    var h := Header(bs[i].size + DATA_SIZE + bs[i + 1].size, bs[i + 2].addr, true);
    var out := JoinNext(bs, i);
    assert Tiled(out) by {
      JoinNextTiles(bs, i);
    }
    UniqueAddresses(bs, i);
    hide Tiled;
    var written := mem[bs[i].addr := h];
    forall j | 0 <= j < |out|
      ensures LinkedAt(written, out, j, 0)
    {
      var m := if j <= i then j else j + 1;
      assert LinkedAt(mem, bs, m, 0);
    }
  }
}
