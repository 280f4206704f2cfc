/** The page descriptor table, for pages of 4096 bytes. */
module PageTables {
  import opened Paging

  class PageDescriptorTable {
    var dir: Directory
    /** The frames that the page frame allocator hands out next. */
    var pool: seq<nat>

    ghost predicate Ready()
      reads this
    {
      Paging.Valid(dir) && forall i :: 0 <= i < |pool| ==> pool[i] != 0
    }

    constructor (pool: seq<nat>)
      requires forall i :: 0 <= i < |pool| ==> pool[i] != 0
      ensures Ready() && this.pool == pool && forall p :: 0 <= p < PAGES ==> View(dir, p) == 0
    {
      dir, this.pool := seq(SLOTS, _ => NoTable), pool;
    }

    /** The physical address of a virtual one, zero if its page is not mapped. */
    method Translate(v: nat) returns (phys: nat)
      requires Ready() && v < SPACE
      ensures phys == if View(dir, v / PAGE_SIZE) == 0 then 0 else View(dir, v / PAGE_SIZE) * PAGE_SIZE + v % PAGE_SIZE
    {
      var i, k := v / 4194304, v / PAGE_SIZE % SLOTS;
      if dir[i].NoTable? {
        return 0;
      }
      var frame := dir[i].frames[k];
      if frame == 0 {
        return 0;
      }
      phys := frame * PAGE_SIZE + v % PAGE_SIZE;
    }

    /** Map the page of a virtual address, to the frame of a physical address or, for address zero, to a
        frame of the page frame allocator. */
    method Allocate(v: nat, phys: nat) returns (ok: bool)
      requires Ready() && v < SPACE
      modifies this
      ensures Ready()
      ensures ok <==> View(old(dir), v / PAGE_SIZE) == 0 && (if phys == 0 then old(pool) != [] else phys >= PAGE_SIZE)
      ensures !ok ==> dir == old(dir) && pool == old(pool)
      ensures ok ==> dir == Bind(old(dir), v / PAGE_SIZE, if phys == 0 then old(pool)[0] else phys / PAGE_SIZE)
      ensures ok ==> pool == if phys == 0 then old(pool)[1..] else old(pool)
    {
      var mapped := Translate(v);
      if mapped != 0 {
        return false;
      }
      var i := v / 4194304;
      var frame;
      if phys == 0 {
        if |pool| == 0 {
          return false;
        }
        frame := pool[0];
        pool := pool[1..];
      } else {
        frame := phys / PAGE_SIZE;
      }
      if frame == 0 {
        return false;
      }
      BindBinds(dir, v / PAGE_SIZE, frame);
      if dir[i].NoTable? {
        dir := dir[i := Table(seq(SLOTS, _ => 0))];
      }
      var frames := dir[i].frames;
      dir := dir[i := Table(frames[v / PAGE_SIZE % SLOTS := frame])];
      return true;
    }

    /** Whether a page table holds no page. */
    static method Empty(frames: seq<nat>) returns (empty: bool)
      ensures empty <==> !Occupied(frames)
    {
      for i := 0 to |frames|
        invariant forall k :: 0 <= k < i ==> frames[k] == 0
      {
        if frames[i] != 0 {
          return false;
        }
      }
      return true;
    }

    /** Remove the page of a virtual address, and its page table with the last page in it. */
    method Free(v: nat, physFree: bool)
      requires Ready() && v < SPACE
      modifies this
      ensures Ready()
      ensures View(old(dir), v / PAGE_SIZE) == 0 ==> dir == old(dir) && pool == old(pool)
      ensures View(old(dir), v / PAGE_SIZE) != 0 ==>
        dir == Unbind(old(dir), v / PAGE_SIZE) &&
        pool == if physFree then old(pool) + [View(old(dir), v / PAGE_SIZE)] else old(pool)
    {
      var phys := Translate(v);
      if phys == 0 {
        return;
      }
      UnbindUnbinds(dir, v / PAGE_SIZE);
      if physFree {
        pool := pool + [phys / PAGE_SIZE];
      }
      var i := v / 4194304;
      var frames := dir[i].frames[v / PAGE_SIZE % SLOTS := 0];
      dir := dir[i := Table(frames)];
      var empty := Empty(frames);
      if empty {
        dir := dir[i := NoTable];
      }
    }

    /** Look for `n` unmapped pages, from the hint on and then below it. */
    method FindRun(hint: nat, n: nat) returns (start: nat)
      requires Ready() && hint < PAGES && 0 < n
      ensures Chosen(dir, hint, n, start)
    {
      var page := hint;
      while page < PAGES
        invariant hint <= page
        invariant forall q :: hint <= q < page && q < PAGES ==> !FreeRun(dir, q, n)
      {
        var found, test := true, 0;
        while test < n
          invariant found && 0 <= test <= n
          invariant forall t :: 0 <= t < test ==> View(dir, Page(page, t)) == 0
        {
          var phys := Translate(Page(page, test) * PAGE_SIZE);
          if phys != 0 {
            found := false;
            break;
          }
          test := test + 1;
        }
        if found {
          return page;
        }
        forall q | page <= q <= page + test
          ensures !FreeRun(dir, q, n)
        {
          SkipAhead(dir, page, n, test, q);
        }
        page := page + test + 1;
      }
      // The second search looks at one page of each run only, and does not stop when it finds one.
      start := 0;
      page := 0;
      while page < hint
        invariant 0 <= page <= hint
        invariant if exists q :: 0 <= q < page && View(dir, q) == 0 then
                    start < page && View(dir, start) == 0 && forall q :: start < q < page ==> View(dir, q) != 0
                  else start == 0
      {
        var found, test := true, 0;
        while test < n
          invariant found && 0 <= test <= n && (test > 0 ==> View(dir, page) == 0)
        {
          var phys := Translate(page * PAGE_SIZE);
          if phys != 0 {
            found := false;
            page := page + test;
            break;
          }
          test := test + 1;
        }
        if found {
          start := page;
        }
        page := page + 1;
      }
    }

    /** Map a range of physical addresses. `start` is the page chosen for it and `m` how many pages of it were
        mapped; when that stops early, those pages stay mapped. */
    method Map(phys: nat, size: nat, hint: nat) returns (addr: nat, ghost start: nat, ghost m: nat)
      requires Ready() && phys < SPACE && size < SPACE && hint < SPACE
      modifies this
      ensures Ready()
      ensures var n := Count(phys % PAGE_SIZE, size);
        && Chosen(old(dir), hint / PAGE_SIZE, n, start) && m <= n
        && Mapped(old(dir), dir, start, phys / PAGE_SIZE, m)
        && (addr != 0 <==> start != 0 && m == n) && (addr != 0 ==> addr == start * PAGE_SIZE + phys % PAGE_SIZE)
        && (start == 0 ==> m == 0)
      ensures var n := Count(phys % PAGE_SIZE, size);
        addr != 0 <==> (start != 0 && FreeRun(old(dir), start, n) &&
                        (old(pool) != [] || forall t :: 0 <= t < n ==> Page(phys / PAGE_SIZE, t) != 0))
    {
      hide Bind, Occupied, View, Chosen, Page, Mapped, FreeRun;
      var offset, n := phys % PAGE_SIZE, Count(phys % PAGE_SIZE, size);
      var first := FindRun(hint / PAGE_SIZE, n);
      ChosenIsPage(dir, hint / PAGE_SIZE, n, first);
      start, m := first, 0;
      MappedStarts(dir, start, phys / PAGE_SIZE);
      if first == 0 {
        return 0, start, 0;
      }
      ghost var d0 := dir;
      var v, p, i := first * PAGE_SIZE, phys / PAGE_SIZE * PAGE_SIZE, 0;
      while i < n
        invariant 0 <= i <= n && Ready() && m == i && Mapped(d0, dir, start, phys / PAGE_SIZE, i)
        invariant v == Page(start, i) * PAGE_SIZE && p == Page(phys / PAGE_SIZE, i) * PAGE_SIZE
        invariant FreshLeft(old(pool), pool, phys / PAGE_SIZE, i)
      {
        NextPage(start, i);
        NextPage(phys / PAGE_SIZE, i);
        MappedOrFree(d0, dir, start, phys / PAGE_SIZE, i, n);
        FreshLeftHere(old(pool), pool, phys / PAGE_SIZE, i, n);
        ghost var frame := if p == 0 && pool != [] then pool[0] else Page(phys / PAGE_SIZE, i);
        if View(dir, Page(start, i)) == 0 && frame != 0 {
          RunGrows(d0, dir, start, phys / PAGE_SIZE, i, frame);
        }
        ghost var left := pool;
        var ok := Allocate(v, p);
        if !ok {
          return 0, start, m;
        }
        FreshLeftOn(old(pool), left, pool, phys / PAGE_SIZE, i);
        i := i + 1;
        m := i;
        v := (v + PAGE_SIZE) % SPACE;
        p := (p + PAGE_SIZE) % SPACE;
      }
      FreshLeftEnds(d0, dir, start, phys / PAGE_SIZE, n);
      addr := first * PAGE_SIZE + offset;
    }

    /** Remove the pages of a range of virtual addresses, and keep their frames. */
    method Unmap(v: nat, size: nat)
      requires Ready() && v < SPACE && size < SPACE
      modifies this
      ensures Ready() && pool == old(pool)
      ensures Unmapped(old(dir), dir, v / PAGE_SIZE, Count(v % PAGE_SIZE, size))
    {
      hide Unbind, Occupied, View, Page, Unmapped;
      UnmappedStarts(dir, v / PAGE_SIZE);
      var n := Count(v % PAGE_SIZE, size);
      var a, i := v / PAGE_SIZE * PAGE_SIZE, 0;
      while i < n
        invariant 0 <= i <= n && Ready() && a == Page(v / PAGE_SIZE, i) * PAGE_SIZE && pool == old(pool)
        invariant Unmapped(old(dir), dir, v / PAGE_SIZE, i)
      {
        NextPage(v / PAGE_SIZE, i);
        UnmappedOn(old(dir), dir, v / PAGE_SIZE, i);
        Free(a, false);
        i := i + 1;
        a := (a + PAGE_SIZE) % SPACE;
      }
    }
  }

  lemma ChosenIsPage(d: Directory, hint: nat, n: nat, start: nat)
    requires |d| == SLOTS && hint < PAGES && Chosen(d, hint, n, start)
    ensures start < PAGES
  {
  }

  lemma MappedStarts(d: Directory, start: nat, phys: nat)
    requires |d| == SLOTS
    ensures Mapped(d, d, start, phys, 0) && (start < PAGES ==> Page(start, 0) == start) && Page(phys, 0) == phys % PAGES
  {
  }

  lemma UnmappedStarts(d: Directory, start: nat)
    requires |d| == SLOTS
    ensures Unmapped(d, d, start, 0) && (start < PAGES ==> Page(start, 0) == start)
  {
  }

  /** Going on by one page in the address is going on by one page in the run. */
  lemma NextPage(start: nat, i: nat)
    ensures (Page(start, i) * PAGE_SIZE + PAGE_SIZE) % SPACE == Page(start, i + 1) * PAGE_SIZE
    ensures Page(start, i) * PAGE_SIZE / PAGE_SIZE == Page(start, i)
  {
  }

  /** The allocator has lost a frame only if the pages before `i` had physical page zero among them; then
      it had one. */
  ghost predicate FreshLeft(pool: seq<nat>, left: seq<nat>, phys: nat, i: nat) {
    && (left == pool || exists t :: 0 <= t < i && Page(phys, t) == 0)
    && (pool != [] || forall t :: 0 <= t < i ==> Page(phys, t) != 0)
  }

  lemma FreshLeftHere(pool: seq<nat>, left: seq<nat>, phys: nat, i: nat, n: nat)
    requires FreshLeft(pool, left, phys, i) && i < n <= PAGES
    ensures Page(phys, i) == 0 ==> left == pool
  {
    if t :| 0 <= t < i && Page(phys, t) == 0 {
      RunPagesDiffer(phys, t, i);
    }
  }

  lemma FreshLeftOn(pool: seq<nat>, left: seq<nat>, next: seq<nat>, phys: nat, i: nat)
    requires FreshLeft(pool, left, phys, i)
    requires if Page(phys, i) == 0 then pool != [] else next == left
    ensures FreshLeft(pool, next, phys, i + 1)
  {
  }

  lemma FreshLeftEnds(d: Directory, e: Directory, start: nat, phys: nat, n: nat)
    requires |d| == SLOTS && |e| == SLOTS && Mapped(d, e, start, phys, n)
    ensures FreeRun(d, start, n)
  {
  }

  /** The next page of a run is as it was before the pages in front of it were mapped. */
  lemma MappedOrFree(d: Directory, e: Directory, start: nat, phys: nat, i: nat, n: nat)
    requires |d| == SLOTS && |e| == SLOTS && Mapped(d, e, start, phys, i) && i < n <= PAGES
    ensures View(e, Page(start, i)) == View(d, Page(start, i))
    ensures View(e, Page(start, i)) != 0 ==> !FreeRun(d, start, n)
  {
    if InRun(Page(start, i), start, i) {
      var t :| 0 <= t < i && Page(start, t) == Page(start, i);
      RunPagesDiffer(start, t, i);
    }
  }

  lemma UnmappedOn(d: Directory, e: Directory, start: nat, i: nat)
    requires Paging.Valid(d) && Paging.Valid(e) && Unmapped(d, e, start, i)
    ensures View(e, Page(start, i)) == 0 ==> Unmapped(d, e, start, i + 1)
    ensures View(e, Page(start, i)) != 0 ==>
      e[Page(start, i) / SLOTS].Table? && |e[Page(start, i) / SLOTS].frames| == SLOTS &&
      Unmapped(d, Unbind(e, Page(start, i)), start, i + 1)
  {
    if View(e, Page(start, i)) != 0 {
      UnbindUnbinds(e, Page(start, i));
    }
  }
}
