/** Looking up and setting the blocks of an ext2 file. */
module FileBlocks {
  import opened BlockMap

  /** A file on a mounted device; `pool` lists the blocks that `allocate_new_block` hands out next. */
  class FileMap {
    var file: File
    var pool: seq<nat>
    const ro: bool

    ghost predicate Valid()
      reads this
    {
      file.Valid() && Apart(file, pool)
    }

    /** Find the address of a block of the file. */
    method InodeLookup(bl: nat) returns (addr: nat)
      requires Valid()
      ensures addr == file.Lookup(bl)
    {
      hide File.Valid, Apart, Two, Three, Squared;
      Shape(file);
      var per := file.per;
      if bl < DIRECT {
        return file.inode.direct[bl];
      }
      var b := bl - DIRECT;
      if b >= Three(per) {
        return 0;
      }
      // The pointer read in the triple range is a local of that branch: this one stays zero.
      var triple, double, single := 0, 0, 0;
      if b >= Two(per) {
        b := b - Two(per);
        var triple := file.inode.triple;
        if triple == 0 {
          return 0;
        }
        double := file.Entry(triple, b / Squared(per));
        b := b % Squared(per);
      } else {
        double := file.inode.double;
      }
      if (per <= b < Two(per)) || triple != 0 {
        if triple == 0 {
          b := b - per;
        }
        if double == 0 {
          return 0;
        }
        single := file.Entry(double, b / per);
        b := b % per;
      } else {
        single := file.inode.single;
      }
      if single == 0 {
        return 0;
      }
      addr := file.Entry(single, b);
    }

    /** Take a block for pointers, put its address in the inode if `link` says so, and fill it with zeros. */
    method NewPointerBlock(link: bool, r: Ref, ghost base: File) returns (p: nat)
      requires Valid() && Kept(base, file)
      requires link ==> (r.InSingle? || r.InDouble? || r.InTriple?) && file.Target(r) == 0
      modifies `file, `pool
      ensures Valid() && Kept(base, file)
      ensures old(pool) == [] ==> p == 0 && file == old(file) && pool == []
      ensures old(pool) != [] ==> p == old(pool)[0] != 0 && pool == old(pool)[1..] && Taken(old(file), file, pool, link, r, p)
    {
      if |pool| == 0 {
        return 0;
      }
      ghost var f, before := file, pool;
      p := pool[0];
      pool := pool[1..];
      if link {
        file := file.(inode := LinkIn(file.inode, r, p));
      }
      file := file.(disk := file.disk[p := Zeros(file.per)]);
      Took(f, before, link, r, file);
    }

    /** The walk of `inode_set` down to the pointer to the last-level pointer block, which may be missing. */
    method Descend(bl: nat) returns (ok: bool, double: nat, single: nat, k: nat)
      requires Valid() && DIRECT <= bl < file.Reach3()
      modifies `file, `pool
      ensures Valid() && Kept(old(file), file)
      ensures var r := old(file).Where(bl - DIRECT).ref;
        && (ok <==> Above(old(file), r) <= |old(pool)|)
        && file.inode == InodeAbove(old(file), old(pool), r)
        && (ok ==> pool == old(pool)[Above(old(file), r)..] && single == file.Target(r))
        && (ok ==> single == old(file).Target(r))
        && (ok ==> k == old(file).Where(bl - DIRECT).k && (double == 0 <==> r.InSingle? && old(file).inode.double == 0))
    {
      hide Apart, Kept, File.Valid, Two, Three, Squared, File.Owned;
      ghost var f := file;
      Shape(f);
      var per := file.per;
      var b := bl - DIRECT;
      ghost var spot := file.Where(b);
      WhereInRange(file, b);
      var triple := 0;
      double := 0;
      if b >= Two(per) {
        b := b - Two(per);
        triple := file.inode.triple;
        if triple == 0 {
          triple := NewPointerBlock(true, InTriple, f);
          if triple == 0 {
            return false, 0, 0, 0;
          }
        }
        double := file.Entry(triple, b / Squared(per));
        b := b % Squared(per);
        assert spot.k == b % per;
      } else {
        double := file.inode.double;
      }
      if (per <= b < Two(per)) || triple != 0 {
        if triple == 0 {
          b := b - per;
          assert spot.k == b % per;
        }
        if double == 0 {
          // Under the triple indirect block the new address is never written to its entry.
          double := NewPointerBlock(triple == 0, InDouble, f);
          if double == 0 {
            return false, 0, 0, 0;
          }
        }
        single := file.Entry(double, b / per);
        b := b % per;
      } else {
        single := file.inode.single;
      }
      ok, k := true, b;
    }

    /** The walk of `inode_set` to the last-level pointer block of a block past the direct ones. */
    method PointerBlock(bl: nat) returns (single: nat, k: nat)
      requires Valid() && DIRECT <= bl < file.Reach3()
      modifies `file, `pool
      ensures Valid() && Walked(old(file), file, bl, single, k)
      ensures single == 0 <==> old(file).Missing(old(file).Where(bl - DIRECT).ref) > |old(pool)|
      ensures file.inode == InodeAfter(old(file), old(pool), old(file).Where(bl - DIRECT).ref)
      ensures single != 0 ==> pool == old(pool)[old(file).Missing(old(file).Where(bl - DIRECT).ref)..]
      ensures single != 0 ==> single !in pool
    {
      hide Apart, SameSpots, File.Valid, Two, Three, Squared, File.Owned, File.Where;
      ghost var f := file;
      Shape(f);
      ghost var spot := file.Where(bl - DIRECT);
      WhereInRange(file, bl - DIRECT);
      var ok, double;
      ok, double, single, k := Descend(bl);
      MissingIs(f, spot.ref);
      if !ok {
        return 0, 0;
      }
      if single == 0 {
        // Linked only if no double indirect block was found: its entry is never written.
        single := NewPointerBlock(double == 0, InSingle, f);
      }
      if file.Target(spot.ref) != 0 {
        OnDevice(file, pool, spot.ref);
      }
    }

    /** Set the address of a block of the file. */
    method InodeSet(bl: nat, addr: nat) returns (ret: int)
      requires Valid()
      modifies `file, `pool
      ensures Valid() && file.per == old(file.per)
      ensures ret == 0 || ret == -1
      ensures ret == 0 <==> (!ro && bl < file.Reach3() &&
                             (bl < DIRECT || old(file).Missing(old(file).Where(bl - DIRECT).ref) <= |old(pool)|))
      ensures ret == -1 ==> Kept(old(file), file)
      ensures ro || bl >= file.Reach3() ==> file == old(file) && pool == old(pool)
      ensures !ro && DIRECT <= bl < file.Reach3() ==>
        file.inode == InodeAfter(old(file), old(pool), old(file).Where(bl - DIRECT).ref)
      ensures ret == 0 && DIRECT <= bl ==> pool == old(pool)[old(file).Missing(old(file).Where(bl - DIRECT).ref)..]
      ensures ret == 0 && bl < DIRECT ==>
        file == old(file).(inode := old(file.inode).(direct := Put(old(file.inode.direct), bl, addr)))
      ensures ret == 0 && DIRECT <= bl ==> Stored(old(file), file, old(file).Where(bl - DIRECT), addr)
    {
      if ro {
        return -1;
      }
      hide Apart, File.At, File.Valid, File.Where;
      Shape(file);
      var per := file.per;
      ghost var f := file;
      if bl < DIRECT {
        file := file.(inode := file.inode.(direct := Put(file.inode.direct, bl, addr)));
        SetDirect(f, pool, file);
        return 0;
      }
      if bl - DIRECT >= Three(per) {
        return -1;
      }
      WhereInRange(f, bl - DIRECT);
      var single, k := PointerBlock(bl);
      if single == 0 {
        return -1;
      }
      Wrote(file, pool, f.Where(bl - DIRECT), single, addr);
      file := file.(disk := file.disk[single := Put(file.disk[single], k, addr)]);
      return 0;
    }
  }

  lemma OnDevice(f: File, pool: seq<nat>, r: Ref)
    requires f.Valid() && Apart(f, pool) && f.InRange(r) && f.Target(r) != 0
    ensures f.Target(r) in f.disk && |f.disk[f.Target(r)]| == f.per && f.Target(r) !in pool
  {
  }

  /** How the walk to the last-level pointer block leaves the file; it stops when no block is free. */
  ghost predicate Walked(f: File, g: File, bl: nat, single: nat, k: nat)
    requires f.Valid() && DIRECT <= bl < f.Reach3()
  {
    var s := f.Where(bl - DIRECT);
    && Kept(f, g)
    && (single != 0 ==> k == s.k && single in g.disk && |g.disk[single]| == g.per)
    && (single != 0 ==> if f.Linked(s.ref) then g.Target(s.ref) == single else !g.Owned(single))
  }

  /** Pointer blocks do not depend on the direct addresses. */
  lemma SetDirect(f: File, pool: seq<nat>, g: File)
    requires f.Valid() && Apart(f, pool)
    requires g == f.(inode := f.inode.(direct := g.inode.direct)) && |g.inode.direct| == DIRECT
    ensures g.Valid() && Apart(g, pool)
  {
    assert forall r :: g.InRange(r) ==> g.Target(r) == f.Target(r);
  }

  /** How many blocks of pointers are missing above the last level. */
  function Above(f: File, r: Ref): nat {
    match r
    case UnderDouble(_) => if f.inode.double == 0 then 1 else 0
    case UnderPair(i, _) => if f.inode.triple == 0 then 2 else if f.Target(UnderTriple(i)) == 0 then 1 else 0
    case _ => 0
  }

  lemma MissingIs(f: File, r: Ref)
    requires Leaf(r)
    ensures f.Missing(r) == Above(f, r) + if f.Target(r) == 0 then 1 else 0
  {
  }

  function InodeAbove(f: File, pool: seq<nat>, r: Ref): Inode {
    if r.InSingle? then f.inode else InodeAfter(f, pool, r)
  }

  /** The pointers of the inode after the walk to a block: of the new blocks of pointers, the first alone is
      linked, and only where the inode itself leads to it. */
  function InodeAfter(f: File, pool: seq<nat>, r: Ref): Inode {
    if pool == [] then f.inode
    else
      match r
      case UnderPair(_, _) => if f.inode.triple == 0 then LinkIn(f.inode, InTriple, pool[0]) else f.inode
      case UnderDouble(_) => if f.inode.double == 0 then LinkIn(f.inode, InDouble, pool[0]) else f.inode
      case _ => if f.inode.single == 0 && f.inode.double == 0 then LinkIn(f.inode, InSingle, pool[0]) else f.inode
  }

  /** How taking a block for pointers changes the file. */
  ghost predicate Taken(f: File, g: File, rest: seq<nat>, link: bool, r: Ref, p: nat) {
    && p !in rest && p in g.disk && |g.disk[p]| == g.per && (forall k :: 0 <= k < g.per ==> g.disk[p][k] == 0)
    && (forall q :: g.InRange(q) ==> g.Target(q) == if link && q == r then p else f.Target(q))
    && g.inode == (if link then LinkIn(f.inode, r, p) else f.inode)
    && Kept(f, g) && (link || !g.Owned(p))
  }

  lemma Took(f: File, pool: seq<nat>, link: bool, r: Ref, g: File)
    requires f.Valid() && Apart(f, pool) && pool != []
    requires link ==> (r.InSingle? || r.InDouble? || r.InTriple?) && f.Target(r) == 0
    requires g == (if link then f.(inode := LinkIn(f.inode, r, pool[0])) else f)
                  .(disk := f.disk[pool[0] := Zeros(f.per)])
    ensures g.Valid() && Apart(g, pool[1..]) && Taken(f, g, pool[1..], link, r, pool[0])
  {
    var p := pool[0];
    WriteUnowned(f, p, Zeros(f.per));
    var z := f.(disk := f.disk[p := Zeros(f.per)]);
    if link {
      assert !z.Owned(p);
      LinkZeros(z, r, p, g);
    }
  }

  /** The last step of `inode_set`: the write into the last-level pointer block. */
  lemma Wrote(f: File, pool: seq<nat>, s: Spot, p: nat, addr: nat)
    requires f.Valid() && Apart(f, pool) && f.InRange(s.ref) && Leaf(s.ref) && s.k < f.per
    requires p != 0 && p in f.disk && p !in pool && (f.Target(s.ref) == p || !f.Owned(p))
    ensures var g := f.(disk := f.disk[p := Put(f.disk[p], s.k, addr)]);
      && g.Valid() && Apart(g, pool) && SameTargets(f, g)
      && forall r, k: nat :: f.InRange(r) && Leaf(r) && k < f.per ==>
        g.At(Spot(r, k)) == if Spot(r, k) == s && f.Target(s.ref) == p then addr else f.At(Spot(r, k))
  {
    if f.Target(s.ref) == p {
      WriteLeaf(f, s, addr);
    } else {
      WriteUnowned(f, p, Put(f.disk[p], s.k, addr));
    }
  }
}
