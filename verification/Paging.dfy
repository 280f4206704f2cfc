/** The two-level page table as a partial map from virtual pages to physical frames. */
module Paging {

  const SLOTS: nat := 1024
  const PAGES: nat := 1048576
  const PAGE_SIZE: nat := 4096
  const SPACE: nat := 0x1_0000_0000

  /** An entry of the directory. A page table holds the frame of each page, zero for a page not present. */
  datatype Slot = NoTable | Table(frames: seq<nat>)

  type Directory = seq<Slot>

  /** Every page table has a page, and no frame is frame zero. */
  ghost predicate Valid(d: Directory) {
    |d| == SLOTS && forall i :: 0 <= i < SLOTS && d[i].Table? ==> |d[i].frames| == SLOTS && Occupied(d[i].frames)
  }

  predicate Occupied(frames: seq<nat>) {
    exists k :: 0 <= k < |frames| && frames[k] != 0
  }

  /** The frame of a virtual page, zero if it is not mapped. */
  function View(d: Directory, page: nat): nat
    requires |d| == SLOTS && page < PAGES
  {
    var s := d[page / SLOTS];
    if s.Table? && page % SLOTS < |s.frames| then s.frames[page % SLOTS] else 0
  }

  /** The directory after a page is given a frame. */
  function Bind(d: Directory, page: nat, frame: nat): Directory
    requires |d| == SLOTS && page < PAGES
    requires d[page / SLOTS].Table? ==> |d[page / SLOTS].frames| == SLOTS
  {
    var frames := if d[page / SLOTS].Table? then d[page / SLOTS].frames else seq(SLOTS, _ => 0);
    d[page / SLOTS := Table(frames[page % SLOTS := frame])]
  }

  /** The directory after a page is removed; its page table goes with its last page. */
  function Unbind(d: Directory, page: nat): Directory
    requires |d| == SLOTS && page < PAGES
    requires d[page / SLOTS].Table? && |d[page / SLOTS].frames| == SLOTS
  {
    var frames := d[page / SLOTS].frames[page % SLOTS := 0];
    d[page / SLOTS := if Occupied(frames) then Table(frames) else NoTable]
  }

  lemma BindBinds(d: Directory, page: nat, frame: nat)
    requires Valid(d) && page < PAGES && frame != 0
    ensures var e := Bind(d, page, frame);
      Valid(e) && forall p :: 0 <= p < PAGES ==> View(e, p) == if p == page then frame else View(d, p)
  {
    var e := Bind(d, page, frame);
    assert e[page / SLOTS].frames[page % SLOTS] == frame;
  }

  lemma UnbindUnbinds(d: Directory, page: nat)
    requires Valid(d) && page < PAGES && View(d, page) != 0
    ensures var e := Unbind(d, page);
      Valid(e) && forall p :: 0 <= p < PAGES ==> View(e, p) == if p == page then 0 else View(d, p)
  {
    var e := Unbind(d, page);
    var frames := d[page / SLOTS].frames[page % SLOTS := 0];
    forall p | 0 <= p < PAGES
      ensures View(e, p) == if p == page then 0 else View(d, p)
    {
      if p / SLOTS == page / SLOTS && p != page {
        assert frames[p % SLOTS] == d[page / SLOTS].frames[p % SLOTS];
      }
    }
  }

  /** Directories that map the same pages to the same frames are the same, page tables included. */
  lemma ViewDetermines(d: Directory, e: Directory)
    requires Valid(d) && Valid(e) && forall p :: 0 <= p < PAGES ==> View(d, p) == View(e, p)
    ensures d == e
  {
    forall i | 0 <= i < SLOTS
      ensures d[i] == e[i]
    {
      forall k | 0 <= k < SLOTS
        ensures (if d[i].Table? then d[i].frames[k] else 0) == (if e[i].Table? then e[i].frames[k] else 0)
      {
        assert View(d, i * SLOTS + k) == View(e, i * SLOTS + k);
      }
      if d[i].Table? {
        var k :| 0 <= k < SLOTS && d[i].frames[k] != 0;
        assert (if e[i].Table? then e[i].frames[k] else 0) != 0;
        assert d[i].frames == e[i].frames;
      }
    }
  }

  // Mapping a range of physical addresses.

  /** The `t`-th page after a page, as 32-bit addresses count. */
  function Page(start: nat, t: nat): (p: nat)
    ensures p < PAGES
  {
    (start + t) % PAGES
  }

  /** None of `n` pages from `start` is mapped. */
  ghost predicate FreeRun(d: Directory, start: nat, n: nat)
    requires |d| == SLOTS
  {
    forall t :: 0 <= t < n ==> View(d, Page(start, t)) == 0
  }

  /** How many pages `map` and `unmap` take for a size and an address. */
  function Count(offset: nat, size: nat): (n: nat)
    ensures 0 < n <= PAGES
  {
    (size + offset) % SPACE / PAGE_SIZE + 1
  }

  /** The run of `n` pages from `start`, free in `d`, holds the physical pages from `phys` in `e`, and
      nothing else changed. Physical page zero stands for any frame. */
  ghost predicate Mapped(d: Directory, e: Directory, start: nat, phys: nat, n: nat)
    requires |d| == SLOTS && |e| == SLOTS
  {
    && (forall p :: 0 <= p < PAGES && !InRun(p, start, n) ==> View(e, p) == View(d, p))
    && (forall t :: 0 <= t < n ==> View(d, Page(start, t)) == 0 && View(e, Page(start, t)) != 0)
    && (forall t :: 0 <= t < n && Page(phys, t) != 0 ==> View(e, Page(start, t)) == Page(phys, t))
  }

  ghost predicate InRun(p: nat, start: nat, n: nat) {
    exists t :: 0 <= t < n && Page(start, t) == p
  }

  /** The page `map` chooses: the lowest free run from the hint on; failing that, the highest page below the
      hint that is not mapped, however long the run from it is; zero for none. */
  ghost predicate Chosen(d: Directory, hint: nat, n: nat, start: nat)
    requires |d| == SLOTS && hint < PAGES
  {
    if exists q :: hint <= q < PAGES && FreeRun(d, q, n) then
      hint <= start < PAGES && FreeRun(d, start, n) && forall q :: hint <= q < start ==> !FreeRun(d, q, n)
    else if exists q :: 0 <= q < hint && View(d, q) == 0 then
      start < hint && View(d, start) == 0 && forall q :: start < q < hint ==> View(d, q) != 0
    else start == 0
  }

  lemma RunGrows(d: Directory, e: Directory, start: nat, phys: nat, m: nat, frame: nat)
    requires Valid(d) && Valid(e) && Mapped(d, e, start, phys, m)
    requires View(e, Page(start, m)) == 0 && frame != 0 && (Page(phys, m) != 0 ==> frame == Page(phys, m))
    ensures var e' := Bind(e, Page(start, m), frame); Valid(e') && Mapped(d, e', start, phys, m + 1)
  {
    hide Bind, View, Page, Occupied;
    BindBinds(e, Page(start, m), frame);
    SizeOf(e);
    SizeOf(d);
    var e' := Bind(e, Page(start, m), frame);
    SizeOf(e');
    assert !InRun(Page(start, m), start, m);
    forall p | 0 <= p < PAGES && !InRun(p, start, m + 1)
      ensures View(e', p) == View(d, p)
    {
      assert p != Page(start, m) && !InRun(p, start, m);
    }
  }

  lemma SizeOf(d: Directory)
    requires Valid(d)
    ensures |d| == SLOTS
  {
  }

  /** The pages of a run are different pages. */
  lemma RunPagesDiffer(start: nat, t: nat, u: nat)
    requires t < u < PAGES
    ensures Page(start, t) != Page(start, u)
  {
  }

  /** A page that is mapped spoils every run it lies in: the search may go on behind it. */
  lemma SkipAhead(d: Directory, page: nat, n: nat, test: nat, q: nat)
    requires |d| == SLOTS && test < n && View(d, Page(page, test)) != 0 && page <= q <= page + test
    ensures !FreeRun(d, q, n)
  {
    assert Page(q, page + test - q) == Page(page, test);
  }

  /** Every address of a mapped range translates to the physical address it was mapped to. */
  lemma MappedTranslates(d: Directory, e: Directory, start: nat, phys: nat, size: nat, k: nat)
    requires Valid(d) && Valid(e) && start < PAGES && phys < SPACE && phys % PAGE_SIZE + size < SPACE && k < size
    requires var n := Count(phys % PAGE_SIZE, size);
      Mapped(d, e, start, phys / PAGE_SIZE, n) && forall t :: 0 <= t < n ==> Page(phys / PAGE_SIZE, t) != 0
    ensures var v := (start * PAGE_SIZE + phys % PAGE_SIZE + k) % SPACE;
      View(e, v / PAGE_SIZE) * PAGE_SIZE + v % PAGE_SIZE == (phys + k) % SPACE
  {
    hide View, Valid;
    var o := phys % PAGE_SIZE;
    var t := (o + k) / PAGE_SIZE;
    var v := (start * PAGE_SIZE + o + k) % SPACE;
    Whole(start, o + k);
    Whole(phys / PAGE_SIZE, o + k);
    assert t < Count(o, size);
    assert Page(phys / PAGE_SIZE, t) != 0;
  }

  lemma Whole(page: nat, x: nat)
    ensures var v := (page * PAGE_SIZE + x) % SPACE;
      v / PAGE_SIZE == Page(page, x / PAGE_SIZE) && v % PAGE_SIZE == x % PAGE_SIZE
  {
  }

  /** Removing the pages of a run leaves the others. */
  ghost predicate Unmapped(d: Directory, e: Directory, start: nat, n: nat)
    requires |d| == SLOTS && |e| == SLOTS
  {
    forall p :: 0 <= p < PAGES ==> View(e, p) == if InRun(p, start, n) then 0 else View(d, p)
  }

  /** Unmapping what was mapped restores the directory, page tables included. */
  lemma UnmapUndoesMap(d: Directory, e: Directory, f: Directory, start: nat, phys: nat, n: nat)
    requires Valid(d) && Valid(e) && Valid(f) && Mapped(d, e, start, phys, n) && Unmapped(e, f, start, n)
    ensures f == d
  {
    hide View, Valid;
    SizeOf(d);
    SizeOf(e);
    SizeOf(f);
    forall p | 0 <= p < PAGES
      ensures View(d, p) == View(f, p)
    {
    }
    ViewDetermines(d, f);
  }

  /** A directory in which only pages 1 and 2 are free. */
  function AlmostFull(): Directory {
    seq(SLOTS, i => Table(seq(SLOTS, k => if i == 0 && 1 <= k <= 2 then 0 else 1)))
  }

  /** Below the hint, the search misses a free run: it settles for page 2, and page 3 is mapped. */
  lemma SecondSearchMisses()
    ensures var d := AlmostFull();
      Valid(d) && FreeRun(d, 1, 2) && Chosen(d, 4, 2, 2) && !FreeRun(d, 2, 2)
  {
    var d := AlmostFull();
    forall i | 0 <= i < SLOTS
      ensures d[i].Table? && |d[i].frames| == SLOTS && Occupied(d[i].frames)
    {
      assert d[i].frames[5] == 1;
    }
    assert forall p :: 0 <= p < PAGES ==> View(d, p) == if p == 1 || p == 2 then 0 else 1;
    forall q | 4 <= q < PAGES
      ensures !FreeRun(d, q, 2)
    {
      assert View(d, Page(q, 0)) == 1;
    }
    assert View(d, Page(2, 1)) == 1;
    assert View(d, 2) == 0;
  }
}
