/** Whether a block that was set is found again. */
module FileBlockTheorems {
  import opened BlockMap
  import opened FileBlocks

  /** Setting a block changes the address the layout gives that block and no other, in all four ranges;
      the address is lost exactly when its last-level pointer block is a new one that was not linked. */
  lemma SetOne(f: File, g: File, bl: nat, addr: nat)
    requires f.Valid() && g.Valid() && DIRECT <= bl < f.Reach3()
    requires Stored(f, g, f.Where(bl - DIRECT), addr)
    ensures forall c :: 0 <= c < f.Reach3() ==>
      g.Intended(c) == if c == bl && f.Linked(f.Where(bl - DIRECT).ref) then addr else f.Intended(c)
  {
    hide File.Valid, File.At, Two, Three, Squared, File.Linked;
    Shape(f);
    forall c | 0 <= c < f.Reach3()
      ensures g.Intended(c) == if c == bl && f.Linked(f.Where(bl - DIRECT).ref) then addr else f.Intended(c)
    {
      if c >= DIRECT {
        WhereInRange(f, c - DIRECT);
        WhereRoundTrip(f, c - DIRECT);
        WhereRoundTrip(f, bl - DIRECT);
      }
    }
  }

  /** An address that is not in the file yet, as that of a newly allocated block. */
  ghost predicate Unused(f: File, addr: nat) {
    addr != 0 && forall r, k: nat :: f.InRange(r) && Leaf(r) && k < f.per ==> f.At(Spot(r, k)) != addr
  }

  lemma Below(f: File)
    ensures f.Reach2() <= f.Reach3()
  {
    Ranges(f.per);
  }

  lemma IntendedSpot(f: File, bl: nat)
    requires f.Valid() && DIRECT <= bl < f.Reach3()
    ensures f.Intended(bl) == f.At(f.Where(bl - DIRECT))
  {
  }

  lemma AstrayOfShape(f: File, g: File, bl: nat)
    requires f.per == g.per > 0 && f.Reach2() <= bl < f.Reach3()
    ensures Astray(f, bl) == Astray(g, bl) && f.Where(bl - DIRECT) == g.Where(bl - DIRECT)
    ensures f.Reach2() == g.Reach2() && f.Reach3() == g.Reach3()
  {
  }

  /** After a successful `inode_set`, a lookup of the block gives the new address exactly when the block is
      in the single or double range and its pointer block is linked. All other lookups below the triple
      range stay as they were. */
  lemma SetThenLookup(f: File, g: File, bl: nat, addr: nat)
    requires f.Valid() && g.Valid() && DIRECT <= bl < f.Reach3() && Unused(f, addr)
    requires Stored(f, g, f.Where(bl - DIRECT), addr)
    ensures g.Lookup(bl) == addr <==> bl < f.Reach2() && f.Linked(f.Where(bl - DIRECT).ref)
    ensures forall c :: 0 <= c < f.Reach2() && c != bl ==> g.Lookup(c) == f.Lookup(c)
  {
    hide File.Valid, File.At, File.Where, File.Lookup, File.Intended, Two, Three, Squared, File.Linked;
    Shape(f);
    SetOne(f, g, bl, addr);
    Below(f);
    forall c | 0 <= c < f.Reach2()
      ensures g.Lookup(c) == g.Intended(c) && f.Lookup(c) == f.Intended(c)
    {
      LookupFollowsLayout(f, c);
      LookupFollowsLayout(g, c);
    }
    WhereInRange(f, bl - DIRECT);
    if bl < f.Reach2() {
      IntendedSpot(f, bl);
    } else {
      LookupGoesAstray(g, bl);
      AstrayOfShape(f, g, bl);
      LookupGoesAstray(f, bl);
    }
  }

  /** Whether the inode has a triple indirect pointer after `inode_set`. */
  lemma TripleAfter(f: File, g: File, pool: seq<nat>, bl: nat)
    requires f.Valid() && Apart(f, pool) && DIRECT <= bl < f.Reach3()
    requires g.inode == InodeAfter(f, pool, f.Where(bl - DIRECT).ref)
    ensures g.inode.triple == if f.inode.triple == 0 && bl >= f.Reach2() && pool != [] then pool[0] else f.inode.triple
    ensures pool != [] ==> pool[0] != 0
    ensures f.inode.triple == 0 && bl >= f.Reach2() ==> !f.Linked(f.Where(bl - DIRECT).ref)
  {
  }

  /** Which lookups of the triple range a successful `inode_set` changes: those that go astray into the very
      entry that it writes, or, if it links a new triple indirect pointer, those that go astray into a used
      entry of the single indirect block. */
  lemma SetThenAstray(f: File, g: File, pool: seq<nat>, bl: nat, addr: nat, c: nat)
    requires f.Valid() && g.Valid() && Apart(f, pool) && DIRECT <= bl < f.Reach3() && Unused(f, addr)
    requires Stored(f, g, f.Where(bl - DIRECT), addr) && f.Missing(f.Where(bl - DIRECT).ref) <= |pool|
    requires g.inode == InodeAfter(f, pool, f.Where(bl - DIRECT).ref) && f.Reach2() <= c < f.Reach3()
    ensures g.Lookup(c) != f.Lookup(c) <==>
      if f.inode.triple != 0 then Astray(f, c) == f.Where(bl - DIRECT) && f.Linked(f.Where(bl - DIRECT).ref)
      else bl >= f.Reach2() && f.At(Astray(f, c)) != 0
    ensures g.Lookup(c) != f.Lookup(c) ==> g.Lookup(c) == if f.inode.triple != 0 then addr else f.At(Astray(f, c))
  {
    hide File.Valid, File.Where, File.Lookup, Two, Three, Squared, Apart, File.Linked, InodeAfter;
    Shape(f);
    TripleAfter(f, g, pool, bl);
    AstrayOfShape(f, g, c);
    LookupGoesAstray(f, c);
    LookupGoesAstray(g, c);
    if f.inode.triple == 0 && bl >= f.Reach2() {
      TripleMissing(f, bl);
    }
  }

  lemma TripleMissing(f: File, bl: nat)
    requires f.per > 0 && f.inode.triple == 0 && f.Reach2() <= bl
    ensures f.Missing(f.Where(bl - DIRECT).ref) > 0
  {
  }

  /** When `inode_set` fails after linking a new triple indirect pointer, those lookups change as well. */
  lemma FailedSetAstray(f: File, g: File, pool: seq<nat>, bl: nat, c: nat)
    requires f.Valid() && g.Valid() && Apart(f, pool) && DIRECT <= bl < f.Reach3() && Kept(f, g)
    requires g.inode == InodeAfter(f, pool, f.Where(bl - DIRECT).ref) && f.Reach2() <= c < f.Reach3()
    ensures g.Lookup(c) != f.Lookup(c) <==>
      f.inode.triple == 0 && bl >= f.Reach2() && pool != [] && f.At(Astray(f, c)) != 0
  {
    hide File.Valid, File.Where, File.Lookup, Two, Three, Squared, Apart, File.Linked, InodeAfter;
    Shape(f);
    TripleAfter(f, g, pool, bl);
    AstrayOfShape(f, g, c);
    LookupGoesAstray(f, c);
    LookupGoesAstray(g, c);
  }

  /** A valid file, with all its pointer blocks, in which setting the first block of the single range changes
      the lookup of a block of the triple range. */
  lemma ThiefBlock(addr: nat)
    requires addr != 0
    ensures var f := File(Inode(Zeros(DIRECT), 5, 0, 1), map[1 := [2], 2 := [3], 3 := [0], 5 := [0]], 1);
      && f.Valid() && f.Linked(f.Where(0).ref) && f.Lookup(14) == 0
      && forall g: File :: g.Valid() && g.inode == f.inode && Stored(f, g, f.Where(0), addr) ==> g.Lookup(14) == addr
  {
    var f := File(Inode(Zeros(DIRECT), 5, 0, 1), map[1 := [2], 2 := [3], 3 := [0], 5 := [0]], 1);
    assert f.Target(UnderPair(0, 0)) == 3 && f.At(Spot(InSingle, 0)) == 0;
    assert f.Valid();
    hide File.Valid, File.Lookup;
    assert f.Where(0) == Spot(InSingle, 0);
    LookupGoesAstray(f, 14);
    assert Astray(f, 14) == Spot(InSingle, 0);
    forall g: File | g.Valid() && g.inode == f.inode && Stored(f, g, f.Where(0), addr)
      ensures g.Lookup(14) == addr
    {
      LookupGoesAstray(g, 14);
      assert Astray(g, 14) == Spot(InSingle, 0);
    }
  }

  /** When `inode_set` fails, no address of the file has changed, even if pointer blocks were added. */
  lemma FailedSet(f: File, g: File, c: nat)
    requires f.Valid() && g.Valid() && Kept(f, g) && c < f.Reach3()
    ensures g.Intended(c) == f.Intended(c)
    ensures c < f.Reach2() ==> g.Lookup(c) == f.Lookup(c)
  {
    if c < f.Reach2() {
      LookupFollowsLayout(f, c);
      LookupFollowsLayout(g, c);
    }
    if DIRECT <= c {
      WhereInRange(f, c - DIRECT);
    }
  }

  /** A valid file, with blocks to spare, whose block 14 is lost when it is set: its double indirect block
      exists, and the single indirect block below it does not. */
  lemma LostBlock(addr: nat)
    ensures var f := File(Inode(Zeros(DIRECT), 0, 1, 0), map[1 := Zeros(2), 2 := Zeros(2)], 2);
      && f.Valid() && Apart(f, [2]) && f.Missing(f.Where(14 - DIRECT).ref) == 1
      && forall g: File :: g.Valid() && Stored(f, g, f.Where(14 - DIRECT), addr) ==> g.Lookup(14) == 0
  {
    var f := File(Inode(Zeros(DIRECT), 0, 1, 0), map[1 := Zeros(2), 2 := Zeros(2)], 2);
    assert f.Target(UnderDouble(0)) == 0 && f.Target(UnderDouble(1)) == 0;
    assert f.Where(2) == Spot(UnderDouble(0), 0);
    forall g: File | g.Valid() && Stored(f, g, f.Where(2), addr)
      ensures g.Lookup(14) == 0
    {
      SetOne(f, g, 14, addr);
      LookupFollowsLayout(g, 14);
    }
  }

  /** A valid file with all its pointer blocks, whose block in the triple range is set but not found. */
  lemma AstrayBlock(addr: nat)
    requires addr != 0
    ensures var f := File(Inode(Zeros(DIRECT), 0, 0, 1), map[1 := [2], 2 := [3], 3 := [0]], 1);
      && f.Valid() && f.Linked(f.Where(14 - DIRECT).ref)
      && forall g: File :: g.Valid() && g.inode == f.inode && Stored(f, g, f.Where(14 - DIRECT), addr) ==>
        g.Intended(14) == addr && g.Lookup(14) == 0
  {
    var f := File(Inode(Zeros(DIRECT), 0, 0, 1), map[1 := [2], 2 := [3], 3 := [0]], 1);
    assert f.Where(2) == Spot(UnderPair(0, 0), 0);
    assert f.Target(UnderPair(0, 0)) == 3;
    forall g: File | g.Valid() && g.inode == f.inode && Stored(f, g, f.Where(2), addr)
      ensures g.Intended(14) == addr && g.Lookup(14) == 0
    {
      SetOne(f, g, 14, addr);
      LookupGoesAstray(g, 14);
      assert Astray(g, 14) == Spot(InSingle, 0);
    }
  }
}
