/** The allocator of page frames, and what reading the memory map makes of its bitmap. */
module PageFrameAllocators {
  import opened PageFrames

  class PageFrameAllocator {
    var usedPages: Bitmap
    var lastAlloc: nat
    var memSize: nat
    var mapped: bool

    ghost predicate Valid()
      reads this
    {
      Shape(usedPages) && lastAlloc < FRAMES && memSize < 0x1_0000_0000
    }

    constructor (usedPages: Bitmap, memSize: nat)
      requires Shape(usedPages) && memSize < 0x1_0000_0000
      ensures Valid() && this.usedPages == usedPages && this.memSize == memSize && lastAlloc == 1024 && !mapped
    {
      this.usedPages, this.memSize, lastAlloc, mapped := usedPages, memSize, 1024, false;
    }

    /** Find a free page and mark it used. The second search looks at page zero only. */
    method Allocate() returns (addr: nat)
      requires Valid()
      modifies `usedPages, `lastAlloc
      ensures Valid()
      ensures Used(old(usedPages), 0) ==>
        (addr == 0 <==> forall p :: old(lastAlloc) < p < FRAMES ==> Used(old(usedPages), p))
      ensures addr != 0 ==> addr % PAGE == 0 && lastAlloc == addr / PAGE && old(lastAlloc) < lastAlloc
      ensures addr != 0 ==> !Used(old(usedPages), lastAlloc) && usedPages == SetBit(old(usedPages), lastAlloc, true)
      ensures addr != 0 ==> forall p :: old(lastAlloc) < p < lastAlloc ==> Used(old(usedPages), p)
      ensures addr == 0 && Used(old(usedPages), 0) ==> usedPages == old(usedPages) && lastAlloc == old(lastAlloc)
      ensures addr == 0 && !Used(old(usedPages), 0) ==> usedPages == SetBit(old(usedPages), 0, true) && lastAlloc == 0
    {
      hide Used;
      var loc, found := 0, false;
      var test := lastAlloc + 1;
      while test < FRAMES
        invariant lastAlloc < test <= FRAMES && Valid() && usedPages == old(usedPages) && lastAlloc == old(lastAlloc)
        invariant !found && forall p :: lastAlloc < p < test ==> Used(usedPages, p)
      {
        found := !Used(usedPages, test);
        if found {
          loc := test;
          break;
        }
        test := test + 1;
      }
      if !found {
        found := !Used(usedPages, 0);
        loc := 0;
      }
      if !found {
        return 0;
      }
      lastAlloc := loc;
      usedPages := SetBit(usedPages, loc, true);
      return loc * PAGE;
    }

    /** Mark a page free. The search still goes on from the page allocated last. */
    method Free(addr: nat)
      requires Valid() && addr < 0x1_0000_0000
      modifies `usedPages
      ensures Valid() && usedPages == SetBit(old(usedPages), addr / PAGE, false)
    {
      usedPages := SetBit(usedPages, addr / PAGE, false);
    }

    /** The words that one region of available memory frees. */
    static method FreeRegion(m: Bitmap, r: Region) returns (t: Bitmap)
      requires Shape(m) && r.Valid() && r.InTable()
      ensures Shape(t) && forall p :: 0 <= p < FRAMES ==> (Used(t, p) <==> AfterAvailable(r, p, Used(m, p)))
    {
      var low, high := r.Low(), r.High();
      t := SetWord(m, low / 32, false);
      for i := low / 32 * 32 to low
        invariant Shape(t)
        invariant forall p :: 0 <= p < FRAMES ==> (Used(t, p) <==> if p / 32 == low / 32 then p < i else Used(m, p))
      {
        t := SetBit(t, i, true);
      }
      var i := low / 32 + 1;
      while i < high / 32
        invariant low / 32 < i && Shape(t)
        invariant forall p :: 0 <= p < FRAMES ==>
          (Used(t, p) <==> if p / 32 == low / 32 then p < low else !(low / 32 < p / 32 < i) && Used(m, p))
        invariant i <= high / 32 || i == low / 32 + 1
      {
        t := SetWord(t, i, false);
        i := i + 1;
      }
      ghost var u := t;
      t := SetWord(t, high / 32, false);
      for j := high to (high / 32 + 1) * 32
        invariant Shape(t)
        invariant forall p :: 0 <= p < FRAMES ==> (Used(t, p) <==> if p / 32 == high / 32 then high <= p < j else Used(u, p))
      {
        t := SetBit(t, j, true);
      }
    }

    /** The words that one region of other memory marks used. */
    static method ReserveRegion(m: Bitmap, r: Region) returns (t: Bitmap)
      requires Shape(m) && r.Valid() && r.kind == Reserved
      ensures Shape(t) && forall p :: 0 <= p < FRAMES ==> (Used(t, p) <==> AfterReserved(r, p, Used(m, p)))
    {
      var low, high := r.Low(), r.High();
      t := m;
      for i := low to (low / 32 + 1) * 32
        invariant Shape(t)
        invariant forall p :: 0 <= p < FRAMES ==> (Used(t, p) <==> Used(m, p) || low <= p < i)
      {
        t := SetBit(t, i, true);
      }
      var i := low / 32 + 1;
      while i < high / 32
        invariant low / 32 < i && Shape(t)
        invariant forall p :: 0 <= p < FRAMES ==>
          (Used(t, p) <==> Used(m, p) || (p >= low && p / 32 == low / 32) || low / 32 < p / 32 < i)
        invariant i <= high / 32 || i == low / 32 + 1
      {
        t := SetWord(t, i, true);
        i := i + 1;
      }
      ghost var u := t;
      for j := high / 32 * 32 to high
        invariant Shape(t)
        invariant forall p :: 0 <= p < FRAMES ==> (Used(t, p) <==> Used(u, p) || (p / 32 == high / 32 && p < j))
      {
        t := SetBit(t, j, true);
      }
    }

    /** Read the memory map: free the available memory, then mark other regions and all that was used in the
        memory known before as used. */
    method ReadMap(regions: seq<Region>)
      requires Valid() && forall j :: 0 <= j < |regions| ==> regions[j].Valid()
      requires forall j :: 0 <= j < |regions| && regions[j].kind == Available ==> regions[j].InTable()
      modifies this
      ensures Valid() && mapped
      ensures old(mapped) ==> usedPages == old(usedPages) && memSize == old(memSize)
      ensures !old(mapped) ==> forall p :: 0 <= p < FRAMES ==>
        (Used(usedPages, p) <==>
         SecondPass(regions, |regions|, p) || (p / 32 < old(memSize) / (PAGE * 32) && Used(old(usedPages), p)))
      ensures !old(mapped) ==> memSize >= old(memSize)
      ensures !old(mapped) ==>
        forall j :: 0 <= j < |regions| && regions[j].kind != Invalid ==> regions[j].End() <= memSize
    {
      if mapped {
        return;
      }
      var temp: Bitmap := seq(WORDS, _ => Word(true));
      var size := memSize;
      for k := 0 to |regions|
        invariant usedPages == old(usedPages) && memSize == old(memSize) && lastAlloc == old(lastAlloc)
        invariant Shape(temp) && memSize <= size < 0x1_0000_0000
        invariant forall p :: 0 <= p < FRAMES ==> (Used(temp, p) <==> FirstPass(regions, k, p))
        invariant forall j :: 0 <= j < k && regions[j].kind == Available ==> regions[j].End() <= size
      {
        if regions[k].kind == Available {
          size := if regions[k].End() > size then regions[k].End() else size;
          temp := FreeRegion(temp, regions[k]);
        }
      }
      for k := 0 to |regions|
        invariant usedPages == old(usedPages) && memSize == old(memSize) && lastAlloc == old(lastAlloc)
        invariant Shape(temp) && memSize <= size < 0x1_0000_0000
        invariant forall p :: 0 <= p < FRAMES ==> (Used(temp, p) <==> SecondPass(regions, k, p))
        invariant forall j :: 0 <= j < |regions| && regions[j].kind == Available ==> regions[j].End() <= size
        invariant forall j :: 0 <= j < k && regions[j].kind == Reserved ==> regions[j].End() <= size
      {
        if regions[k].kind == Reserved {
          size := if regions[k].End() > size then regions[k].End() else size;
          temp := ReserveRegion(temp, regions[k]);
        }
      }
      temp := Merge(temp, usedPages, memSize / (PAGE * 32));
      usedPages, memSize, mapped := temp, size, true;
    }

    /** Keep the used pages of the first `n` words. */
    static method Merge(m: Bitmap, used: Bitmap, n: nat) returns (t: Bitmap)
      requires Shape(m) && Shape(used) && n <= WORDS
      ensures Shape(t) && forall p :: 0 <= p < FRAMES ==> (Used(t, p) <==> Used(m, p) || (p / 32 < n && Used(used, p)))
    {
      t := m;
      for i := 0 to n
        invariant Shape(t)
        invariant forall p :: 0 <= p < FRAMES ==> (Used(t, p) <==> Used(m, p) || (p / 32 < i && Used(used, p)))
      {
        t := t[i := seq(32, k requires 0 <= k < 32 => t[i][k] || used[i][k])];
      }
    }
  }

  /** After the map is read, no page of a reserved region and none used before in the known memory is free;
      if the available regions are all careful, every free page lies in one of them. */
  lemma FreeAfterReadMap(regions: seq<Region>, before: Bitmap, words: nat, after: Bitmap, p: nat)
    requires Shape(before) && Shape(after) && p < FRAMES && !Used(after, p)
    requires forall j :: 0 <= j < |regions| && regions[j].kind == Available ==> regions[j].InTable()
    requires forall q :: 0 <= q < FRAMES ==>
      (Used(after, q) <==> SecondPass(regions, |regions|, q) || (q / 32 < words && Used(before, q)))
    ensures forall j :: 0 <= j < |regions| && regions[j].kind == Reserved ==> !Inside(regions[j], p)
    ensures p / 32 < words ==> !Used(before, p)
    ensures (forall j :: 0 <= j < |regions| && regions[j].kind == Available ==> Careful(regions[j])) ==>
      exists j :: 0 <= j < |regions| && regions[j].kind == Available && Inside(regions[j], p)
  {
    forall j | 0 <= j < |regions| && regions[j].kind == Reserved
      ensures !Inside(regions[j], p)
    {
      if Inside(regions[j], p) {
        ReservedIsUsed(regions, |regions|, j, p);
      }
    }
    SecondPassKeeps(regions, |regions|, p);
    if forall j :: 0 <= j < |regions| && regions[j].kind == Available ==> Careful(regions[j]) {
      FreeIsAvailable(regions, |regions|, p);
    }
  }

  /** After the map is read, a page is free exactly if some available region holds it, or has it as a stray page, no
      later one marks it used, no reserved region takes it, and it was not used before. */
  lemma FreePages(regions: seq<Region>, before: Bitmap, words: nat, after: Bitmap, p: nat)
    requires Shape(before) && Shape(after) && p < FRAMES
    requires Used(after, p) <==> SecondPass(regions, |regions|, p) || (p / 32 < words && Used(before, p))
    ensures !Used(after, p) <==>
      && (exists j: nat :: FreesLast(regions, j, p))
      && (forall i :: 0 <= i < |regions| && regions[i].kind == Reserved ==> !Takes(regions[i], p))
      && !(p / 32 < words && Used(before, p))
  {
    hide Used, AfterAvailable, AfterReserved, Inside, Stray, Marks, Takes;
    SecondPassExactly(regions, |regions|, p);
    FirstPassExactly(regions, |regions|, p);
    forall i: nat | i < |regions|
      ensures !AfterAvailable(regions[i], p, true) <==> Inside(regions[i], p) || Stray(regions[i], p)
      ensures AfterAvailable(regions[i], p, false) <==> Marks(regions[i], p)
      ensures AfterReserved(regions[i], p, false) <==> Takes(regions[i], p)
    {
      PassesExactly(regions[i], p);
    }
    if j: nat :| FreedBy(regions, |regions|, j, p) {
      assert FreesLast(regions, j, p);
    }
    if j: nat :| FreesLast(regions, j, p) {
      assert FreedBy(regions, |regions|, j, p);
    }
  }

  /** The available region frees the page, and no later one marks it. */
  ghost predicate FreesLast(regions: seq<Region>, j: nat, p: nat) {
    && j < |regions| && regions[j].kind == Available && (Inside(regions[j], p) || Stray(regions[j], p))
    && forall i :: j < i < |regions| && regions[i].kind == Available ==> !Marks(regions[i], p)
  }

  /** All of the memory that a single available region lists is free afterwards, but for what was used before. */
  lemma OneRegionIsFree(r: Region, before: Bitmap, words: nat, after: Bitmap, p: nat)
    requires Shape(before) && Shape(after) && p < FRAMES && r.kind == Available && Inside(r, p)
    requires Used(after, p) <==> SecondPass([r], 1, p) || (p / 32 < words && Used(before, p))
    ensures Used(after, p) <==> p / 32 < words && Used(before, p)
  {
    hide Used;
    FreePages([r], before, words, after, p);
    assert FreesLast([r], 0, p);
  }

  ghost predicate InAvailable(regions: seq<Region>, p: nat) {
    exists j :: 0 <= j < |regions| && regions[j].kind == Available && Inside(regions[j], p)
  }

  /** A stray page that region `j` frees for good: no later available region rewrites it, no reserved region
      takes it, it was not used before, and no available region holds it. */
  ghost predicate Escapes(regions: seq<Region>, before: Bitmap, words: nat, j: nat, p: nat)
    requires Shape(before)
  {
    && j < |regions| && p < FRAMES && regions[j].kind == Available && Stray(regions[j], p)
    && (forall i :: j < i < |regions| && regions[i].kind == Available ==> !AfterAvailable(regions[i], p, false))
    && (forall i :: 0 <= i < |regions| && regions[i].kind == Reserved ==> !AfterReserved(regions[i], p, false))
    && !(p / 32 < words && Used(before, p)) && !InAvailable(regions, p)
  }

  /** All free pages lie in available regions exactly if no stray page escapes, however many regions there are
      and however they overlap. */
  lemma FreeExactly(regions: seq<Region>, before: Bitmap, words: nat, after: Bitmap)
    requires Shape(before) && Shape(after)
    requires forall q :: 0 <= q < FRAMES ==>
      (Used(after, q) <==> SecondPass(regions, |regions|, q) || (q / 32 < words && Used(before, q)))
    ensures (forall p :: 0 <= p < FRAMES && !Used(after, p) ==> InAvailable(regions, p)) <==>
      !exists j: nat, p: nat :: Escapes(regions, before, words, j, p)
  {
    hide Used, AfterAvailable, AfterReserved, Inside, Stray;
    forall p | 0 <= p < FRAMES
      ensures !Used(after, p) && !InAvailable(regions, p) <==> exists j: nat :: Escapes(regions, before, words, j, p)
    {
      EscapesFree(regions, before, words, after, p);
    }
  }

  lemma EscapesFree(regions: seq<Region>, before: Bitmap, words: nat, after: Bitmap, p: nat)
    requires Shape(before) && Shape(after) && p < FRAMES
    requires Used(after, p) <==> SecondPass(regions, |regions|, p) || (p / 32 < words && Used(before, p))
    ensures !Used(after, p) && !InAvailable(regions, p) <==> exists j: nat :: Escapes(regions, before, words, j, p)
  {
    hide Used, AfterAvailable, AfterReserved, Inside, Stray;
    SecondPassExactly(regions, |regions|, p);
    FirstPassExactly(regions, |regions|, p);
    if !InAvailable(regions, p) {
      forall j: nat | j < |regions| && regions[j].kind == Available
        ensures !AfterAvailable(regions[j], p, true) <==> Stray(regions[j], p)
      {
        StrayExactly(regions[j], p);
      }
      if j: nat :| FreedBy(regions, |regions|, j, p) {
        if !Used(after, p) {
          assert Escapes(regions, before, words, j, p);
        }
      }
      if j: nat :| Escapes(regions, before, words, j, p) {
        assert FreedBy(regions, |regions|, j, p);
      }
    }
  }

  lemma StrayExactly(r: Region, p: nat)
    ensures !Inside(r, p) ==> (!AfterAvailable(r, p, true) <==> Stray(r, p))
  {
  }

  /** A region from page 1 to page 3, in the first word: page 0 is marked free as well. */
  lemma CarelessExample()
    ensures var r := PageFrames.Region(Available, 4096, 8192);
      r.InTable() && !Careful(r) && !Inside(r, 0) && !SecondPass([r], 1, 0)
  {
    var r := PageFrames.Region(Available, 4096, 8192);
    assert r.Low() == 1 && r.High() == 3;
    assert !FirstPass([r], 1, 0);
  }
}
