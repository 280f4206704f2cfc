/** The write-back cache of the block allocation bitmaps. */
module BitmapCache {

  function Mask(k: nat): bv8
    requires k < 8
  {
    1 << k
  }

  predicate Test(byte: bv8, k: nat)
    requires k < 8
  {
    byte & Mask(k) != 0
  }

  function Write(byte: bv8, k: nat, v: bool): bv8
    requires k < 8
  {
    if v then byte | Mask(k) else byte & !Mask(k)
  }

  lemma WriteOneBit(byte: bv8, k: nat, v: bool, j: nat)
    requires k < 8 && j < 8
    ensures Test(Write(byte, k, v), j) == if j == k then v else Test(byte, j)
  {
    Masks(k);
    Masks(j);
  }

  lemma Masks(k: nat)
    requires k < 8
    ensures Mask(k) == [1, 2, 4, 8, 16, 32, 64, 128][k]
  {
  }

  /** A cached bitmap, and whether it was modified since it was read. */
  datatype Cached = Cached(data: seq<bv8>, dirty: bool)

  /** The device's blocks and the cached bitmaps; `maps` lists the block that holds each group's bitmap. */
  datatype State = State(disk: map<nat, seq<bv8>>, cache: map<nat, Cached>, maps: seq<nat>, size: nat) {

    ghost predicate Valid() {
      && (forall b :: b in disk ==> |disk[b]| == size)
      && (forall g :: 0 <= g < |maps| ==> maps[g] in disk)
      && (forall g, h :: 0 <= g < h < |maps| ==> maps[g] != maps[h])
      && (forall g :: g in cache ==> g < |maps| && |cache[g].data| == size)
      && (forall g :: g in cache && !cache[g].dirty ==> cache[g].data == disk[maps[g]])
    }

    /** A bit of a group's bitmap on the device. */
    ghost predicate Stored(g: nat, i: nat)
      requires Valid() && g < |maps| && i < 8 * size
    {
      Test(disk[maps[g]][i / 8], i % 8)
    }

    /** A group's bitmap as the file system should see it. */
    ghost function View(g: nat): (data: seq<bv8>)
      requires Valid() && g < |maps|
      ensures |data| == size
    {
      if g in cache then cache[g].data else disk[maps[g]]
    }

    ghost predicate Bit(g: nat, i: nat)
      requires Valid() && g < |maps| && i < 8 * size
    {
      Test(View(g)[i / 8], i % 8)
    }

    /** A bitmap is in the cache once it has been asked for, if its group exists and the device can be read. */
    predicate Reaches(g: nat, readable: bool) {
      g < |maps| && (g in cache || readable)
    }

    function Fill(g: nat, readable: bool): State
      requires g < |maps| ==> maps[g] in disk
    {
      if Reaches(g, readable) && g !in cache then this.(cache := cache[g := Cached(disk[maps[g]], false)]) else this
    }

    function Put(g: nat, i: nat, v: bool, readable: bool): State
      requires g < |maps| ==> maps[g] in disk
      requires var data := Fill(g, readable).cache; g in data ==> i / 8 < |data[g].data|
    {
      var s := Fill(g, readable);
      if !Reaches(g, readable) then this
      else s.(cache := s.cache[g := Cached(s.cache[g].data[i / 8 := Write(s.cache[g].data[i / 8], i % 8, v)], true)])
    }
  }

  /** Setting a bit of a bitmap that is cached or can be read sets that bit, of that group, and changes nothing on
      the device. */
  lemma PutOneBit(s: State, g: nat, i: nat, v: bool, readable: bool)
    requires s.Valid() && i < 8 * s.size
    ensures var t := s.Put(g, i, v, readable);
      && t.Valid() && t.disk == s.disk && t.maps == s.maps && t.size == s.size
      && forall h: nat, j: nat :: h < |s.maps| && j < 8 * s.size ==>
        (t.Bit(h, j) <==> if (g in s.cache || readable) && h == g && j == i then v else s.Bit(h, j))
  {
    var t := s.Put(g, i, v, readable);
    forall h: nat, j: nat | h < |s.maps| && j < 8 * s.size
      ensures t.Bit(h, j) <==> if (g in s.cache || readable) && h == g && j == i then v else s.Bit(h, j)
    {
      if s.Reaches(g, readable) && h == g && j / 8 == i / 8 {
        WriteOneBit(s.Fill(g, readable).cache[g].data[i / 8], i % 8, v, j % 8);
      }
    }
  }

  lemma FillKeepsBits(s: State, g: nat, readable: bool)
    requires s.Valid()
    ensures var t := s.Fill(g, readable);
      && t.Valid() && t.disk == s.disk && t.maps == s.maps && t.size == s.size && (g in t.cache <==> g < |s.maps| && (g in s.cache || readable))
      && forall h: nat, j: nat :: h < |s.maps| && j < 8 * s.size ==> (t.Bit(h, j) <==> s.Bit(h, j))
  {
  }

  /** What a flush of the bitmaps below `n` leaves: those whose write failed stay cached, the others are as
      they were cached. The file system sees the same bitmaps, and no other block of the device changes. */
  ghost predicate Flushed(s: State, t: State, n: nat, broken: set<nat>)
    requires s.Valid()
  {
    && t.Valid() && t.maps == s.maps && t.size == s.size && t.disk.Keys == s.disk.Keys
    && (forall g :: g in t.cache <==> g in s.cache && (g < n ==> s.cache[g].dirty && g in broken))
    && (forall g :: g in t.cache ==> t.cache[g] == s.cache[g])
    && (forall b :: b in s.disk && b !in s.maps ==> t.disk[b] == s.disk[b])
    && (forall h :: 0 <= h < |s.maps| ==> t.View(h) == s.View(h))
  }

  /** One bitmap of a flush. */
  function Drop(t: State, g: nat, broken: set<nat>): State
    requires g < |t.maps|
  {
    if g !in t.cache || (t.cache[g].dirty && g in broken) then t
    else if t.cache[g].dirty then t.(disk := t.disk[t.maps[g] := t.cache[g].data], cache := t.cache - {g})
    else t.(cache := t.cache - {g})
  }

  lemma DropKeeps(t: State, g: nat, broken: set<nat>)
    requires t.Valid() && g < |t.maps|
    ensures var u := Drop(t, g, broken);
      && u.Valid() && u.maps == t.maps && u.size == t.size && u.disk.Keys == t.disk.Keys
      && (forall b :: b in t.disk && b != t.maps[g] ==> u.disk[b] == t.disk[b])
      && (forall h :: h in u.cache <==> h in t.cache && (h == g ==> t.cache[g].dirty && g in broken))
      && (forall h :: h in u.cache ==> u.cache[h] == t.cache[h])
  {
    assert t.maps[g] in t.disk;
  }

  lemma DropKeepsViews(t: State, g: nat, broken: set<nat>, h: nat)
    requires t.Valid() && g < |t.maps| && h < |t.maps| && Drop(t, g, broken).Valid()
    ensures var u := Drop(t, g, broken); u.maps == t.maps && u.View(h) == t.View(h)
  {
  }

  lemma DropFlushes(s: State, t: State, g: nat, broken: set<nat>)
    requires s.Valid() && g < |s.maps| && Flushed(s, t, g, broken)
    ensures Flushed(s, Drop(t, g, broken), g + 1, broken)
  {
    hide State.Valid, State.View, Drop;
    DropKeeps(t, g, broken);
    var u := Drop(t, g, broken);
    assert t.maps[g] in s.maps;
    forall h | 0 <= h < |s.maps|
      ensures u.View(h) == s.View(h)
    {
      DropKeepsViews(t, g, broken, h);
    }
  }

  lemma FlushStarts(s: State, broken: set<nat>)
    requires s.Valid()
    ensures Flushed(s, s, 0, broken)
  {
  }

  lemma DropIs(t: State, g: nat, broken: set<nat>)
    requires g < |t.maps|
    ensures Drop(t, g, broken).maps == t.maps
    ensures g !in t.cache || (t.cache[g].dirty && g in broken) ==> Drop(t, g, broken) == t
    ensures g in t.cache && !t.cache[g].dirty ==> Drop(t, g, broken) == t.(cache := t.cache - {g})
    ensures g in t.cache && t.cache[g].dirty && g !in broken ==>
      Drop(t, g, broken) == t.(disk := t.disk[t.maps[g] := t.cache[g].data], cache := t.cache - {g})
  {
  }

  /** When nothing stays cached, the device holds the bitmaps as the file system saw them. */
  lemma FlushEnds(s: State, t: State, broken: set<nat>)
    requires s.Valid() && Flushed(s, t, |s.maps|, broken)
    ensures t.Valid() && t.size == s.size && (t.cache == map[] <==> forall g :: g in s.cache && s.cache[g].dirty ==> g !in broken)
    ensures t.cache == map[] ==> forall h: nat, j: nat :: h < |s.maps| && j < 8 * s.size ==> (t.Stored(h, j) <==> s.Bit(h, j))
  {
    if t.cache != map[] {
      var g :| g in t.cache;
    }
    if g :| g in s.cache && s.cache[g].dirty && g in broken {
      assert g in t.cache;
    }
    if t.cache == map[] {
      forall h: nat, j: nat | h < |s.maps| && j < 8 * s.size
        ensures t.Stored(h, j) <==> s.Bit(h, j)
      {
        assert t.View(h) == s.View(h);
      }
    }
  }

  /** The file system's view of its allocation bitmaps. */
  class BlockAlloc {
    var s: State

    /** Read a group's bitmap into the cache. `readable` says whether the device can be read. */
    method CacheBlockAlloc(g: nat, readable: bool) returns (ret: int)
      requires s.Valid()
      modifies `s
      ensures s == old(s).Fill(g, readable)
      ensures ret == if g < |old(s).maps| && (g in old(s).cache || readable) then 0 else -1
    {
      if g >= |s.maps| {
        return -1;
      }
      if g in s.cache {
        return 0;
      }
      if !readable {
        return -1;
      }
      s := s.(cache := s.cache[g := Cached(s.disk[s.maps[g]], false)]);
      return 0;
    }

    /** Set a bit of a group's bitmap. */
    method Access(g: nat, i: nat, alloc: bool, readable: bool)
      requires s.Valid() && i < 8 * s.size
      modifies `s
      ensures s == old(s).Put(g, i, alloc, readable)
    {
      FillKeepsBits(s, g, readable);
      var ret := CacheBlockAlloc(g, readable);
      if ret != 0 {
        return;
      }
      var bits := s.cache[g].data;
      if alloc {
        bits := bits[i / 8 := bits[i / 8] | Mask(i % 8)];
      } else {
        bits := bits[i / 8 := bits[i / 8] & !Mask(i % 8)];
      }
      s := s.(cache := s.cache[g := Cached(bits, true)]);
    }

    /** Read a bit of a group's bitmap; a bitmap that cannot be read counts as all in use. */
    method Read(g: nat, i: nat, readable: bool) returns (alloc: bool)
      requires s.Valid() && i < 8 * s.size
      modifies `s
      ensures s == old(s).Fill(g, readable)
      ensures alloc <==> (g < |old(s).maps| && (g in old(s).cache || readable) ==> old(s).Bit(g, i))
    {
      FillKeepsBits(s, g, readable);
      var ret := CacheBlockAlloc(g, readable);
      if ret != 0 {
        return true;
      }
      alloc := s.cache[g].data[i / 8] & Mask(i % 8) != 0;
    }

    /** Write the modified bitmaps back and empty the cache, but for those that could not be written. */
    method FlushBlockAlloc(broken: set<nat>) returns (ret: int)
      requires s.Valid()
      modifies `s
      ensures Flushed(old(s), s, |s.maps|, broken)
      ensures ret == if forall g :: g in old(s).cache && old(s).cache[g].dirty ==> g !in broken then 0 else -1
      ensures ret == 0 ==> forall h: nat, j: nat :: h < |s.maps| && j < 8 * s.size ==> (s.Stored(h, j) <==> old(s).Bit(h, j))
    {
      hide Flushed, Drop;
      ghost var s0 := s;
      FlushStarts(s, broken);
      for g := 0 to |s.maps|
        invariant s.maps == s0.maps && Flushed(s0, s, g, broken)
      {
        DropFlushes(s0, s, g, broken);
        DropIs(s, g, broken);
        if g in s.cache {
          if s.cache[g].dirty {
            if g in broken {
              continue;
            }
            s := s.(disk := s.disk[s.maps[g] := s.cache[g].data]);
          }
          s := s.(cache := s.cache - {g});
        }
      }
      FlushEnds(s0, s, broken);
      ret := if s.cache == map[] then 0 else -1;
    }
  }

  // Whole runs.

  datatype Op =
    | Set(g: nat, i: nat, v: bool, readable: bool)
    | Get(g: nat, i: nat, readable: bool)
    | Flush(broken: set<nat>)

  /** A flush, bitmap by bitmap. */
  ghost function FlushBelow(s: State, n: nat, broken: set<nat>): (t: State)
    requires n <= |s.maps|
    ensures t.maps == s.maps
  {
    if n == 0 then s else Drop(FlushBelow(s, n - 1, broken), n - 1, broken)
  }

  lemma {:induction false} FlushBelowFlushes(s: State, n: nat, broken: set<nat>)
    requires s.Valid() && n <= |s.maps|
    ensures Flushed(s, FlushBelow(s, n, broken), n, broken)
  {
    hide Drop, Flushed;
    if n == 0 {
      FlushStarts(s, broken);
    } else {
      FlushBelowFlushes(s, n - 1, broken);
      DropFlushes(s, FlushBelow(s, n - 1, broken), n - 1, broken);
    }
  }

  predicate Within(size: nat, op: Op) {
    !op.Flush? ==> op.i < 8 * size
  }

  ghost function Step(s: State, op: Op): (t: State)
    requires s.Valid() && Within(s.size, op)
    ensures t.Valid() && t.maps == s.maps && t.size == s.size
  {
    match op
    case Set(g, i, v, readable) => PutOneBit(s, g, i, v, readable); s.Put(g, i, v, readable)
    case Get(g, i, readable) => FillKeepsBits(s, g, readable); s.Fill(g, readable)
    case Flush(broken) => FlushBelowFlushes(s, |s.maps|, broken); FlushBelow(s, |s.maps|, broken)
  }

  ghost function Run(s: State, ops: seq<Op>): (t: State)
    requires s.Valid() && forall k :: 0 <= k < |ops| ==> Within(s.size, ops[k])
    ensures t.Valid() && t.maps == s.maps && t.size == s.size
  {
    if ops == [] then s
    else
      var front, op := ops[..|ops| - 1], ops[|ops| - 1];
      assert Within(s.size, op);
      Step(Run(s, front), op)
  }

  /** The value last set for a bit, by an operation that reached the bitmap; the original bit if none did. */
  ghost predicate LastSet(s: State, ops: seq<Op>, g: nat, i: nat)
    requires s.Valid() && (forall k :: 0 <= k < |ops| ==> Within(s.size, ops[k])) && g < |s.maps| && i < 8 * s.size
  {
    if ops == [] then s.Stored(g, i)
    else
      var front, op := ops[..|ops| - 1], ops[|ops| - 1];
      if op.Set? && op.g == g && op.i == i && (g in Run(s, front).cache || op.readable) then op.v
      else LastSet(s, front, g, i)
  }

  /** The cache is transparent: after any run of sets, reads and flushes, started with nothing cached, the
      file system sees for each bit the value last set, and the device's other blocks are as they were. */
  lemma {:induction false} RunIsTransparent(s: State, ops: seq<Op>, g: nat, i: nat)
    requires s.Valid() && s.cache == map[] && forall k :: 0 <= k < |ops| ==> Within(s.size, ops[k])
    requires g < |s.maps| && i < 8 * s.size
    ensures Run(s, ops).Bit(g, i) <==> LastSet(s, ops, g, i)
    ensures forall b :: b in s.disk && b !in s.maps ==> b in Run(s, ops).disk && Run(s, ops).disk[b] == s.disk[b]
  {
    if ops != [] {
      hide State.Bit, State.View, State.Valid, State.Put, State.Fill, State.Stored;
      var front, op := ops[..|ops| - 1], ops[|ops| - 1];
      RunIsTransparent(s, front, g, i);
      StepKeepsBits(Run(s, front), op, g, i);
    }
  }

  lemma StepKeepsBits(s: State, op: Op, g: nat, i: nat)
    requires s.Valid() && Within(s.size, op) && g < |s.maps| && i < 8 * s.size
    ensures Step(s, op).Bit(g, i) <==>
      if op.Set? && op.g == g && op.i == i && (g in s.cache || op.readable) then op.v else s.Bit(g, i)
    ensures forall b :: b in s.disk && b !in s.maps ==> b in Step(s, op).disk && Step(s, op).disk[b] == s.disk[b]
  {
    hide State.Valid, State.Put, State.Fill;
    match op
    case Set(h, j, v, readable) => PutOneBit(s, h, j, v, readable);
    case Get(h, j, readable) => FillKeepsBits(s, h, readable);
    case Flush(broken) =>
      FlushBelowFlushes(s, |s.maps|, broken);
  }

  /** The value that the operations last set for a bit, the given one if none did. */
  function LastValue(ops: seq<Op>, g: nat, i: nat, original: bool): bool {
    if ops == [] then original
    else
      var op := ops[|ops| - 1];
      if op.Set? && op.g == g && op.i == i then op.v else LastValue(ops[..|ops| - 1], g, i, original)
  }

  /** While the device can be read no set is lost: the file system sees the value last set, whatever was flushed
      in between, written or not. */
  lemma ReadableRun(s: State, ops: seq<Op>, g: nat, i: nat)
    requires s.Valid() && s.cache == map[] && forall k :: 0 <= k < |ops| ==> Within(s.size, ops[k])
    requires g < |s.maps| && i < 8 * s.size && forall k :: 0 <= k < |ops| && ops[k].Set? ==> ops[k].readable
    ensures Run(s, ops).Bit(g, i) <==> LastValue(ops, g, i, s.Stored(g, i))
  {
    RunIsTransparent(s, ops, g, i);
    LastSetIs(s, ops, g, i);
  }

  lemma {:induction false} LastSetIs(s: State, ops: seq<Op>, g: nat, i: nat)
    requires s.Valid() && forall k :: 0 <= k < |ops| ==> Within(s.size, ops[k])
    requires g < |s.maps| && i < 8 * s.size && forall k :: 0 <= k < |ops| && ops[k].Set? ==> ops[k].readable
    ensures LastSet(s, ops, g, i) <==> LastValue(ops, g, i, s.Stored(g, i))
  {
    if ops != [] {
      hide State.Valid, State.Stored, Run;
      LastSetIs(s, ops[..|ops| - 1], g, i);
    }
  }
}
