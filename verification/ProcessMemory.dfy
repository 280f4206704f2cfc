/** The heap and the stack of a user process. */
module ProcessMemory {
  import opened Paging
  import opened FrameOwnership
  import opened PageTables

  const KERNEL_BASE: nat := 0xC000_0000

  /** Every page that holds an address of the heap is mapped. */
  ghost predicate HeapMapped(d: Directory, elfBreak: nat, break_: nat)
    requires |d| == SLOTS
  {
    forall p :: 0 <= p < PAGES && elfBreak / PAGE_SIZE <= p && p * PAGE_SIZE < break_ ==> View(d, p) != 0
  }

  /** Every page of the stack is mapped. */
  ghost predicate StackMapped(d: Directory, stack: nat)
    requires |d| == SLOTS
  {
    forall p :: 0 <= p < PAGES && KERNEL_BASE - stack <= p * PAGE_SIZE < KERNEL_BASE ==> View(d, p) != 0
  }

  /** The size of a stack that holds an address at this depth. */
  function Rounded(size: nat): nat { size / PAGE_SIZE * PAGE_SIZE + PAGE_SIZE }

  /** The page of the highest address below the break. */
  function LastPage(break_: nat): nat
    requires break_ >= PAGE_SIZE
  {
    if break_ % PAGE_SIZE == 0 then break_ / PAGE_SIZE - 1 else break_ / PAGE_SIZE
  }

  /** The pages that a larger break needs besides those up to the old break. */
  predicate Needed(p: nat, break_: nat, addr: nat)
    requires break_ >= PAGE_SIZE
  {
    LastPage(break_) < p && p * PAGE_SIZE < addr
  }

  /** The pages that `brk` frees: from behind the page of the new break to the page of the old one. */
  predicate Dropped(p: nat, break_: nat, addr: nat) {
    addr / PAGE_SIZE < p <= break_ / PAGE_SIZE
  }

  /** Directories that differ in pages below `top` that a larger break needs, mapped in the second only. */
  ghost predicate Grown(d: Directory, e: Directory, break_: nat, addr: nat, top: nat)
    requires |d| == SLOTS && |e| == SLOTS && break_ >= PAGE_SIZE
  {
    forall p :: 0 <= p < PAGES ==>
      if Needed(p, break_, addr) && p < top then View(d, p) == 0 && View(e, p) != 0 else View(e, p) == View(d, p)
  }

  /** Directories that differ in pages from `bottom` on that a smaller break frees. */
  ghost predicate Shrunk(d: Directory, e: Directory, break_: nat, addr: nat, bottom: int)
    requires |d| == SLOTS && |e| == SLOTS
  {
    forall p :: 0 <= p < PAGES ==> View(e, p) == if Dropped(p, break_, addr) && p > bottom then 0 else View(d, p)
  }

  /** Directories that differ in the pages between two depths of the stack, mapped in the second only. */
  ghost predicate Deepened(d: Directory, e: Directory, depth: nat, deeper: nat)
    requires |d| == SLOTS && |e| == SLOTS
  {
    forall p :: 0 <= p < PAGES ==>
      if KERNEL_BASE - deeper <= p * PAGE_SIZE < KERNEL_BASE - depth then View(d, p) == 0 && View(e, p) != 0
      else View(e, p) == View(d, p)
  }

  class Process {
    const pdt: PageDescriptorTable
    const elfBreak: nat
    const maxStack: nat
    var breakPoint: nat
    var currentStack: nat

    /** What every call keeps: the break is between the end of the program and the bottom of the stack, and
        the heap is mapped. */
    ghost predicate Valid()
      reads this, pdt
    {
      && pdt.Ready() && PAGE_SIZE <= elfBreak <= breakPoint <= KERNEL_BASE - currentStack
      && currentStack % PAGE_SIZE == 0 && currentStack <= maxStack <= KERNEL_BASE - PAGE_SIZE
      && HeapMapped(pdt.dir, elfBreak, breakPoint)
    }

    constructor (pdt: PageDescriptorTable, elfBreak: nat, maxStack: nat)
      requires pdt.Ready() && PAGE_SIZE <= elfBreak <= KERNEL_BASE - PAGE_SIZE
      requires PAGE_SIZE <= maxStack <= KERNEL_BASE - PAGE_SIZE
      requires elfBreak % PAGE_SIZE != 0 ==> View(pdt.dir, elfBreak / PAGE_SIZE) != 0
      ensures Valid() && breakPoint == elfBreak && currentStack == PAGE_SIZE && this.pdt == pdt
    {
      this.pdt, this.elfBreak, this.maxStack, breakPoint, currentStack := pdt, elfBreak, maxStack, elfBreak, PAGE_SIZE;
    }

    /** Grow the stack to hold `size` bytes, rounded up to a page. */
    method SetUserStack(size: nat) returns (ret: int)
      requires Valid() && size <= KERNEL_BASE
      modifies `currentStack, pdt
      ensures Valid() && currentStack >= old(currentStack)
      ensures StackMapped(old(pdt.dir), old(currentStack)) ==> StackMapped(pdt.dir, currentStack)
      ensures ret == 0 || ret == -1
      ensures ret == 0 ==> currentStack == if size < old(currentStack) then old(currentStack) else Rounded(size)
      ensures ret == -1 ==> size >= old(currentStack)
      ensures ret == -1 ==>
        (Rounded(size) > maxStack || KERNEL_BASE - Rounded(size) < breakPoint || pdt.pool == [] ||
         exists p :: 0 <= p < PAGES && KERNEL_BASE - Rounded(size) <= p * PAGE_SIZE < KERNEL_BASE - old(currentStack)
                     && View(old(pdt.dir), p) != 0)
      ensures Deepened(old(pdt.dir), pdt.dir, old(currentStack), currentStack)
      ensures Conserved(old(pdt.dir), old(pdt.pool), pdt.dir, pdt.pool)
    {
      hide Bind, Occupied, View, Conserved, Deepened, HeapMapped, StackMapped;
      ConservedStarts(pdt.dir, pdt.pool);
      DeepenedStarts(pdt.dir, currentStack);
      if size < currentStack {
        return 0;
      }
      var rounded := size - size % PAGE_SIZE + PAGE_SIZE;
      if rounded > maxStack {
        return -1;
      }
      if KERNEL_BASE - rounded < breakPoint {
        return -1;
      }
      ghost var d0, s0 := pdt.dir, currentStack;
      while currentStack < rounded
        invariant pdt.Ready() && currentStack % PAGE_SIZE == 0 && s0 <= currentStack <= rounded
        invariant Deepened(d0, pdt.dir, s0, currentStack) && HeapMapped(pdt.dir, elfBreak, breakPoint)
        invariant StackMapped(d0, s0) ==> StackMapped(pdt.dir, currentStack)
        invariant Conserved(d0, old(pdt.pool), pdt.dir, pdt.pool)
      {
        var page := KERNEL_BASE - currentStack - PAGE_SIZE;
        DeepenedOn(d0, pdt.dir, elfBreak, breakPoint, s0, currentStack);
        NextConserves(d0, old(pdt.pool), pdt.dir, pdt.pool, page / PAGE_SIZE);
        var ok := pdt.Allocate(page, 0);
        if !ok {
          return -1;
        }
        currentStack := currentStack + PAGE_SIZE;
      }
      return 0;
    }

    /** Map the pages that a larger break needs; `top` is where this stops. */
    method Grow(addr: nat) returns (ok: bool, ghost top: nat)
      requires pdt.Ready() && PAGE_SIZE <= breakPoint && addr < KERNEL_BASE
      modifies pdt
      ensures pdt.Ready() && Grown(old(pdt.dir), pdt.dir, breakPoint, addr, top)
      ensures ok ==> addr <= top * PAGE_SIZE
      ensures !ok ==> addr > breakPoint
      ensures !ok ==> pdt.pool == [] || exists p :: 0 <= p < PAGES && Needed(p, breakPoint, addr) && View(old(pdt.dir), p) != 0
      ensures Conserved(old(pdt.dir), old(pdt.pool), pdt.dir, pdt.pool)
    {
      hide Bind, Occupied, View, Grown, Conserved;
      ConservedStarts(pdt.dir, pdt.pool);
      ghost var d0 := pdt.dir;
      GrownStarts(d0, breakPoint, addr);
      var bottom := if breakPoint % PAGE_SIZE == 0 then breakPoint - PAGE_SIZE else breakPoint - breakPoint % PAGE_SIZE;
      top := bottom / PAGE_SIZE + 1;
      while addr > bottom + PAGE_SIZE
        invariant pdt.Ready() && bottom % PAGE_SIZE == 0 && bottom / PAGE_SIZE >= LastPage(breakPoint)
        invariant top == bottom / PAGE_SIZE + 1 && Grown(d0, pdt.dir, breakPoint, addr, top)
        invariant Conserved(d0, old(pdt.pool), pdt.dir, pdt.pool)
        decreases addr - bottom
      {
        GrownOn(d0, pdt.dir, breakPoint, addr, top);
        NextConserves(d0, old(pdt.pool), pdt.dir, pdt.pool, top);
        ok := pdt.Allocate(bottom + PAGE_SIZE, 0);
        if !ok {
          return;
        }
        bottom := bottom + PAGE_SIZE;
        top := top + 1;
      }
      ok := true;
    }

    /** Free the pages behind a smaller break. */
    method Shrink(addr: nat)
      requires pdt.Ready() && breakPoint <= KERNEL_BASE
      modifies pdt
      ensures pdt.Ready() && Shrunk(old(pdt.dir), pdt.dir, breakPoint, addr, -1)
      ensures Conserved(old(pdt.dir), old(pdt.pool), pdt.dir, pdt.pool)
    {
      hide Unbind, Occupied, View, Shrunk, Conserved;
      ConservedStarts(pdt.dir, pdt.pool);
      var top := addr - addr % PAGE_SIZE + PAGE_SIZE;
      var vbp := breakPoint;
      ghost var d0 := pdt.dir;
      ShrunkStarts(d0, breakPoint, addr);
      while top <= vbp
        invariant pdt.Ready() && vbp % PAGE_SIZE == breakPoint % PAGE_SIZE && 0 <= vbp <= breakPoint
        invariant Shrunk(d0, pdt.dir, breakPoint, addr, vbp / PAGE_SIZE)
        invariant Conserved(d0, old(pdt.pool), pdt.dir, pdt.pool)
        decreases vbp
      {
        ShrunkOn(d0, pdt.dir, breakPoint, addr, vbp / PAGE_SIZE);
        FreedConserves(d0, old(pdt.pool), pdt.dir, pdt.pool, vbp / PAGE_SIZE);
        pdt.Free(vbp, true);
        vbp := vbp - PAGE_SIZE;
      }
      ShrunkAll(d0, pdt.dir, breakPoint, addr, vbp / PAGE_SIZE);
    }

    /** Move the break. Address zero asks for the break, which comes back as a signed number. */
    method Brk(addr: nat) returns (ret: int)
      requires Valid() && addr < KERNEL_BASE
      modifies `breakPoint, pdt
      ensures Valid()
      ensures addr == 0 ==> ret == if breakPoint < 0x8000_0000 then breakPoint else breakPoint - SPACE
      ensures addr == 0 ==> breakPoint == old(breakPoint) && pdt.dir == old(pdt.dir)
      ensures addr != 0 ==> ret == 0 || ret == -1
      ensures addr != 0 ==> breakPoint == if ret == 0 then addr else old(breakPoint)
      ensures addr != 0 && !Allowed(elfBreak, old(currentStack), addr) ==> ret == -1 && pdt.dir == old(pdt.dir)
      ensures addr != 0 && ret == 0 && addr >= old(breakPoint) ==>
        Grown(old(pdt.dir), pdt.dir, old(breakPoint), addr, PAGES)
      ensures addr != 0 && ret == 0 && addr < old(breakPoint) ==>
        Shrunk(old(pdt.dir), pdt.dir, old(breakPoint), addr, -1)
      ensures addr != 0 && ret == -1 ==> exists top: nat :: Grown(old(pdt.dir), pdt.dir, old(breakPoint), addr, top)
      ensures addr != 0 && Allowed(elfBreak, currentStack, addr) && addr < old(breakPoint) ==> ret == 0
      ensures addr != 0 && ret == 0 ==> forall p :: 0 <= p < PAGES && Needed(p, old(breakPoint), addr) ==> View(old(pdt.dir), p) == 0
      ensures addr != 0 && ret == -1 && Allowed(elfBreak, currentStack, addr) ==>
        pdt.pool == [] || exists p :: 0 <= p < PAGES && Needed(p, old(breakPoint), addr) && View(old(pdt.dir), p) != 0
      ensures Conserved(old(pdt.dir), old(pdt.pool), pdt.dir, pdt.pool)
    {
      hide View, HeapMapped, Shrunk, Grown, Conserved;
      ConservedStarts(pdt.dir, pdt.pool);
      if addr == 0 {
        return if breakPoint < 0x8000_0000 then breakPoint else breakPoint - SPACE;
      }
      ghost var d0 := pdt.dir;
      GrownStarts(d0, breakPoint, addr);
      if addr < elfBreak {
        return -1;
      }
      var top := addr - addr % PAGE_SIZE + PAGE_SIZE;
      if top >= KERNEL_BASE - currentStack {
        return -1;
      }
      var ok, mapped := Grow(addr);
      if !ok {
        GrownKeepsHeap(d0, pdt.dir, elfBreak, breakPoint, addr, mapped);
        return -1;
      }
      GrownEnds(d0, pdt.dir, elfBreak, breakPoint, addr, mapped);
      ghost var d1, left := pdt.dir, pdt.pool;
      Shrink(addr);
      ConservedOn(d0, old(pdt.pool), d1, left, pdt.dir, pdt.pool);
      ShrunkEnds(d0, d1, pdt.dir, elfBreak, breakPoint, addr);
      breakPoint := addr;
      return 0;
    }
  }

  /** A break that `brk` accepts: not below the end of the program, and its page below the stack. */
  predicate Allowed(elfBreak: nat, stack: nat, addr: nat)
    requires stack <= KERNEL_BASE
  {
    elfBreak <= addr && addr - addr % PAGE_SIZE + PAGE_SIZE < KERNEL_BASE - stack
  }

  lemma DeepenedStarts(d: Directory, depth: nat)
    requires |d| == SLOTS
    ensures Deepened(d, d, depth, depth)
  {
  }

  /** Mapping the next page of a stack that stays above the heap. */
  lemma DeepenedOn(d: Directory, e: Directory, elfBreak: nat, break_: nat, depth: nat, deeper: nat)
    requires |d| == SLOTS && Paging.Valid(e) && depth <= deeper && Deepened(d, e, depth, deeper)
    requires deeper % PAGE_SIZE == 0 && deeper + PAGE_SIZE <= KERNEL_BASE
    ensures var page := (KERNEL_BASE - deeper - PAGE_SIZE) / PAGE_SIZE;
      && page < PAGES && |e| == SLOTS && View(e, page) == View(d, page)
      && KERNEL_BASE - deeper - PAGE_SIZE <= page * PAGE_SIZE < KERNEL_BASE - depth
      && (View(e, page) == 0 ==> forall frame: nat :: frame != 0 ==>
            var g := Bind(e, page, frame);
            && |g| == SLOTS && Deepened(d, g, depth, deeper + PAGE_SIZE)
            && (HeapMapped(e, elfBreak, break_) ==> HeapMapped(g, elfBreak, break_))
            && (StackMapped(e, deeper) ==> StackMapped(g, deeper + PAGE_SIZE)))
  {
    BindAny(e, (KERNEL_BASE - deeper - PAGE_SIZE) / PAGE_SIZE);
  }

  /** Mapping one page more to the allocator's next frame. */
  lemma NextConserves(d: Directory, pool: seq<nat>, e: Directory, left: seq<nat>, page: nat)
    requires |d| == SLOTS && Paging.Valid(e) && page < PAGES && Conserved(d, pool, e, left)
    requires forall i :: 0 <= i < |left| ==> left[i] != 0
    ensures View(e, page) == 0 && left != [] ==>
      var g := Bind(e, page, left[0]); |g| == SLOTS && Conserved(d, pool, g, left[1..])
  {
    if View(e, page) == 0 && left != [] {
      BindConserves(e, left, page);
      ConservedOn(d, pool, e, left, Bind(e, page, left[0]), left[1..]);
    }
  }

  /** Giving back the frame of one page more. */
  lemma FreedConserves(d: Directory, pool: seq<nat>, e: Directory, left: seq<nat>, page: nat)
    requires |d| == SLOTS && Paging.Valid(e) && page < PAGES && Conserved(d, pool, e, left)
    ensures View(e, page) != 0 ==>
      var g := Unbind(e, page); |g| == SLOTS && Conserved(d, pool, g, left + [View(e, page)])
  {
    if View(e, page) != 0 {
      UnbindConserves(e, left, page);
      ConservedOn(d, pool, e, left, Unbind(e, page), left + [View(e, page)]);
    }
  }

  lemma GrownStarts(d: Directory, break_: nat, addr: nat)
    requires |d| == SLOTS && break_ >= PAGE_SIZE
    ensures Grown(d, d, break_, addr, LastPage(break_) + 1)
  {
  }

  /** Mapping the next page of a larger break. */
  lemma GrownOn(d: Directory, e: Directory, break_: nat, addr: nat, top: nat)
    requires Paging.Valid(d) && Paging.Valid(e) && break_ >= PAGE_SIZE && top < PAGES && top * PAGE_SIZE < addr
    requires LastPage(break_) < top && Grown(d, e, break_, addr, top)
    ensures View(d, top) == View(e, top) && Needed(top, break_, addr) && |d| == SLOTS && |e| == SLOTS
    ensures View(e, top) == 0 ==> forall frame: nat :: frame != 0 ==>
      |Bind(e, top, frame)| == SLOTS && Grown(d, Bind(e, top, frame), break_, addr, top + 1)
  {
    BindAny(e, top);
  }

  lemma GrownKeepsHeap(d: Directory, e: Directory, elfBreak: nat, break_: nat, addr: nat, top: nat)
    requires |d| == SLOTS && |e| == SLOTS && break_ >= PAGE_SIZE
    requires Grown(d, e, break_, addr, top) && HeapMapped(d, elfBreak, break_)
    ensures HeapMapped(e, elfBreak, break_)
  {
  }

  /** Once all pages are mapped, the heap up to the new break is. */
  lemma GrownEnds(d: Directory, e: Directory, elfBreak: nat, break_: nat, addr: nat, top: nat)
    requires |d| == SLOTS && |e| == SLOTS && break_ >= PAGE_SIZE && addr < KERNEL_BASE
    requires Grown(d, e, break_, addr, top) && HeapMapped(d, elfBreak, break_) && addr <= top * PAGE_SIZE
    ensures Grown(d, e, break_, addr, PAGES) && HeapMapped(e, elfBreak, break_)
    ensures addr >= break_ ==> HeapMapped(e, elfBreak, addr)
    ensures addr < break_ ==> forall p :: 0 <= p < PAGES ==> View(e, p) == View(d, p)
    ensures forall p :: 0 <= p < PAGES && Needed(p, break_, addr) ==> View(d, p) == 0
  {
  }

  lemma ShrunkStarts(d: Directory, break_: nat, addr: nat)
    requires |d| == SLOTS
    ensures Shrunk(d, d, break_, addr, break_ / PAGE_SIZE)
  {
  }

  lemma ShrunkOn(d: Directory, e: Directory, break_: nat, addr: nat, page: nat)
    requires Paging.Valid(d) && Paging.Valid(e) && page < PAGES && addr / PAGE_SIZE < page <= break_ / PAGE_SIZE
    requires Shrunk(d, e, break_, addr, page)
    ensures View(e, page) == 0 ==> Shrunk(d, e, break_, addr, page - 1)
    ensures View(e, page) != 0 ==>
      e[page / SLOTS].Table? && |e[page / SLOTS].frames| == SLOTS && Shrunk(d, Unbind(e, page), break_, addr, page - 1)
  {
    if View(e, page) != 0 {
      UnbindUnbinds(e, page);
    }
  }

  lemma ShrunkAll(d: Directory, e: Directory, break_: nat, addr: nat, page: nat)
    requires |d| == SLOTS && |e| == SLOTS && Shrunk(d, e, break_, addr, page) && page <= addr / PAGE_SIZE
    ensures Shrunk(d, e, break_, addr, -1)
  {
  }

  lemma ShrunkEnds(d0: Directory, d: Directory, e: Directory, elfBreak: nat, break_: nat, addr: nat)
    requires |d0| == SLOTS && |d| == SLOTS && |e| == SLOTS && break_ >= PAGE_SIZE
    requires Shrunk(d, e, break_, addr, -1) && Grown(d0, d, break_, addr, PAGES)
    requires addr >= break_ ==> HeapMapped(d, elfBreak, addr)
    requires addr < break_ ==> HeapMapped(d, elfBreak, break_) && forall p :: 0 <= p < PAGES ==> View(d, p) == View(d0, p)
    ensures HeapMapped(e, elfBreak, addr)
    ensures addr < break_ ==> Shrunk(d0, e, break_, addr, -1)
    ensures addr >= break_ ==> Grown(d0, e, break_, addr, PAGES)
  {
  }

  lemma BindAny(d: Directory, page: nat)
    requires Paging.Valid(d) && page < PAGES
    ensures forall frame: nat :: frame != 0 ==>
      forall p :: 0 <= p < PAGES ==> View(Bind(d, page, frame), p) == if p == page then frame else View(d, p)
  {
    forall frame: nat | frame != 0
      ensures forall p :: 0 <= p < PAGES ==> View(Bind(d, page, frame), p) == if p == page then frame else View(d, p)
    {
      BindBinds(d, page, frame);
    }
  }

  /** Moving the break down keeps the stack mapped exactly if the old break is below the stack: a break at
      its bottom has the lowest page of the stack freed. */
  lemma ShrinkingAndStack(d: Directory, e: Directory, break_: nat, addr: nat, stack: nat)
    requires |d| == SLOTS && |e| == SLOTS && stack % PAGE_SIZE == 0 && 0 < stack <= KERNEL_BASE
    requires addr < break_ <= KERNEL_BASE - stack && Shrunk(d, e, break_, addr, -1) && StackMapped(d, stack)
    ensures StackMapped(e, stack) <==> break_ < KERNEL_BASE - stack
  {
    if break_ == KERNEL_BASE - stack {
      assert Dropped(break_ / PAGE_SIZE, break_, addr);
      assert View(e, break_ / PAGE_SIZE) == 0;
    }
  }

  /** Moving the break down over a page boundary leaves the first page that a larger break needs mapped
      exactly if the new break is page aligned; mapping that page again then fails. */
  lemma ShrinkingAndGrowth(d: Directory, e: Directory, elfBreak: nat, break_: nat, addr: nat, next: nat)
    requires |d| == SLOTS && |e| == SLOTS && PAGE_SIZE <= addr && break_ <= KERNEL_BASE
    requires elfBreak <= addr && addr / PAGE_SIZE < break_ / PAGE_SIZE
    requires HeapMapped(d, elfBreak, break_) && Shrunk(d, e, break_, addr, -1)
    ensures View(e, LastPage(addr) + 1) != 0 <==> addr % PAGE_SIZE == 0
    ensures addr % PAGE_SIZE == 0 && addr < next ==> Needed(LastPage(addr) + 1, addr, next)
  {
    assert Dropped(addr / PAGE_SIZE + 1, break_, addr);
    assert !Dropped(addr / PAGE_SIZE, break_, addr);
  }

  /** A call of `brk` that fails after mapping a page leaves it mapped: a second call, for any break that needs
      a page, stops at that page and maps none. */
  lemma FailingAndGrowth(d: Directory, e: Directory, break_: nat, addr: nat, top: nat, g: Directory, next: nat, last: nat)
    requires |d| == SLOTS && |e| == SLOTS && |g| == SLOTS && PAGE_SIZE <= break_ && addr <= KERNEL_BASE
    requires Grown(d, e, break_, addr, top) && LastPage(break_) + 1 < top && (LastPage(break_) + 1) * PAGE_SIZE < addr
    requires Grown(e, g, break_, next, last) && (LastPage(break_) + 1) * PAGE_SIZE < next
    ensures last <= LastPage(break_) + 1 && last * PAGE_SIZE < next
    ensures forall p :: 0 <= p < PAGES ==> View(g, p) == View(e, p)
  {
    var page := LastPage(break_) + 1;
    assert Needed(page, break_, addr) && Needed(page, break_, next);
    assert View(e, page) != 0;
  }

  /** A directory with every page mapped. */
  function Full(): Directory { seq(SLOTS, _ => Table(seq(SLOTS, _ => 1))) }

  /** A break at the bottom of a stack of one page, moved down by a page: the stack is freed. */
  lemma StackFreedExample()
    ensures var bottom := KERNEL_BASE - PAGE_SIZE;
      && Paging.Valid(Full()) && StackMapped(Full(), PAGE_SIZE)
      && var e := Unbind(Full(), bottom / PAGE_SIZE);
      |e| == SLOTS && Shrunk(Full(), e, bottom, bottom - PAGE_SIZE, -1) && !StackMapped(e, PAGE_SIZE)
  {
    var bottom := KERNEL_BASE - PAGE_SIZE;
    assert forall i :: 0 <= i < SLOTS ==> Full()[i].frames[0] == 1;
    assert forall p :: 0 <= p < PAGES ==> View(Full(), p) == 1;
    UnbindUnbinds(Full(), bottom / PAGE_SIZE);
    ShrinkingAndStack(Full(), Unbind(Full(), bottom / PAGE_SIZE), bottom, bottom - PAGE_SIZE, PAGE_SIZE);
  }
}
