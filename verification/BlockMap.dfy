/** The block map of an ext2 file: direct, single, double and triple indirect pointers. */
module BlockMap {
  import opened Arithmetic

  const DIRECT: nat := 12

  datatype Inode = Inode(direct: seq<nat>, single: nat, double: nat, triple: nat)

  /** The places that hold the address of a pointer block. */
  datatype Ref =
    | InSingle | InDouble | InTriple
    | UnderDouble(j: nat) | UnderTriple(i: nat) | UnderPair(i: nat, j: nat)

  /** A pointer block, and the entry in it for a block of the file. */
  datatype Spot = Spot(ref: Ref, k: nat)

  /** A file's pointers with the device they lead into; `per` is the number of addresses in a block. */
  datatype File = File(inode: Inode, disk: map<nat, seq<nat>>, per: nat) {

    function Entry(block: nat, k: nat): nat {
      if block != 0 && block in disk && k < |disk[block]| then disk[block][k] else 0
    }

    /** The pointer block a place leads to, zero for none. */
    function Target(r: Ref): nat {
      match r
      case InSingle => inode.single
      case InDouble => inode.double
      case InTriple => inode.triple
      case UnderDouble(j) => Entry(inode.double, j)
      case UnderTriple(i) => Entry(inode.triple, i)
      case UnderPair(i, j) => Entry(Entry(inode.triple, i), j)
    }

    function At(s: Spot): nat { Entry(Target(s.ref), s.k) }

    predicate InRange(r: Ref) {
      match r
      case UnderDouble(j) => j < per
      case UnderTriple(i) => i < per
      case UnderPair(i, j) => i < per && j < per
      case _ => true
    }

    /** The pointer blocks are on the device, and no block is one in two places. */
    ghost predicate Valid() {
      && per > 0 && |inode.direct| == DIRECT
      && (forall b :: b in disk ==> |disk[b]| == per)
      && (forall r :: InRange(r) && Target(r) != 0 ==> Target(r) in disk)
      && (forall r, s :: InRange(r) && InRange(s) && r != s && Target(r) != 0 ==> Target(r) != Target(s))
    }

    ghost predicate Owned(p: nat) {
      exists r :: InRange(r) && Target(r) == p
    }

    function Reach2(): nat { DIRECT + Two(per) }

    function Reach3(): nat { DIRECT + Three(per) }

    /** Where the layout of ext2 keeps the address of a block past the direct ones. */
    function Where(b: nat): Spot
      requires per > 0
    {
      if b < per then Spot(InSingle, b)
      else if b < Two(per) then Spot(UnderDouble((b - per) / per), (b - per) % per)
      else
        InPair(per, Squared(per), b - Two(per))
    }

    /** The address the layout gives a block of the file. */
    function Intended(bl: nat): nat
      requires per > 0 && |inode.direct| == DIRECT
    {
      if bl < DIRECT then inode.direct[bl] else At(Where(bl - DIRECT))
    }

    /** The search of `inode_lookup` below the triple indirect pointer, given a double indirect pointer. */
    function Resolve(b: nat, double: nat): nat
      requires per > 0
    {
      if per <= b < Two(per) then Entry(Entry(double, (b - per) / per), (b - per) % per)
      else Entry(inode.single, b)
    }

    /** What `inode_lookup` returns. In the triple range the search forgets that it came through the
        triple indirect pointer, and goes on as for a block of the lower ranges. */
    function Lookup(bl: nat): nat
      requires per > 0 && |inode.direct| == DIRECT
    {
      if bl < DIRECT then inode.direct[bl]
      else
        var b := bl - DIRECT;
        if b >= Three(per) then 0
        else if b >= Two(per) then
          var c := b - Two(per);
            if inode.triple == 0 then 0 else Resolve(c % Squared(per), Entry(inode.triple, c / Squared(per)))
        else Resolve(b, inode.double)
    }

    /** A pointer block that `inode_set` writes to, and that the file leads to afterwards. */
    predicate Linked(r: Ref) {
      Target(r) != 0 || (r.InSingle? && inode.double == 0)
    }

    /** How many pointer blocks are missing on the way to a block. */
    function Missing(r: Ref): nat {
      match r
      case UnderDouble(j) => if inode.double == 0 then 2 else if Target(r) == 0 then 1 else 0
      case UnderPair(i, j) =>
        if inode.triple == 0 then 3 else if Target(UnderTriple(i)) == 0 then 2 else if Target(r) == 0 then 1 else 0
      case _ => if Target(r) == 0 then 1 else 0
    }
  }

  /** How many blocks a double indirect pointer reaches, for pointer blocks of `per` addresses. */
  function Squared(per: nat): (n: nat)
    requires per > 0
    ensures n > 0
  {
    Square(per);
    per * per
  }

  /** How many blocks the single and the double indirect pointers reach. */
  function Two(per: nat): (n: nat)
    ensures n >= per
  {
    per * (per + 1)
  }

  /** How many blocks the single, the double and the triple indirect pointers reach. */
  function Three(per: nat): nat { per * (per * (per + 1) + 1) }

  lemma Square(m: nat)
    requires m > 0
    ensures m * m > 0
  {
  }

  // Arithmetic of the layout.

  /** The spot of a block of the triple range, given the number of addresses a double indirect pointer leads to. */
  function InPair(per: nat, squared: nat, c: nat): Spot
    requires per > 0 && squared > 0
  {
    Spot(UnderPair(c / squared, c % squared / per), c % squared % per)
  }

  lemma Split(x: nat, m: nat, n: nat)
    requires m > 0 && x < m * n
    ensures x / m < n && x % m < m && x == m * (x / m) + x % m
  {
    if x / m >= n {
      Scale(m, n, x / m);
    }
  }

  lemma Ranges(m: nat)
    ensures m * (m + 1) == m + m * m
    ensures m * (m * (m + 1) + 1) == m + m * m + m * m * m
    ensures (m * m) * m == m * m * m
  {
  }

  predicate Leaf(r: Ref) { r.InSingle? || r.UnderDouble? || r.UnderPair? }

  lemma WhereInRange(f: File, b: nat)
    requires f.per > 0 && DIRECT + b < f.Reach3()
    ensures f.InRange(f.Where(b).ref) && f.Where(b).k < f.per && Leaf(f.Where(b).ref)
  {
    var m := f.per;
    Ranges(m);
    if m <= b < m + m * m {
      Split(b - m, m, m);
    } else if b >= m + m * m {
      var c := b - m - m * m;
      Split(c, m * m, m);
      Split(c % (m * m), m, m);
    }
  }

  /** The block a spot belongs to: the inverse of `Where`. */
  function BlockAt(per: nat, s: Spot): nat {
    match s.ref
    case UnderDouble(j) => per + (per * j + s.k)
    case UnderPair(i, j) => per + per * per + (per * per * i + (per * j + s.k))
    case _ => s.k
  }

  /** The layout gives every block of the file an entry of its own. */
  lemma WhereRoundTrip(f: File, b: nat)
    requires f.per > 0 && DIRECT + b < f.Reach3()
    ensures BlockAt(f.per, f.Where(b)) == b
  {
    var m := f.per;
    Ranges(m);
    if m <= b < m + m * m {
      Split(b - m, m, m);
    } else if b >= m + m * m {
      var c := b - m - m * m;
      Split(c, m * m, m);
      Split(c % (m * m), m, m);
    }
  }

  /** Every entry of a last-level pointer block is that of a block of the file: with the direct ones, the layout
      gives a file as many blocks as there are entries. */
  lemma EveryEntryIsUsed(f: File, s: Spot)
    requires f.per > 0 && f.InRange(s.ref) && Leaf(s.ref) && s.k < f.per
    ensures DIRECT + BlockAt(f.per, s) < f.Reach3() && f.Where(BlockAt(f.per, s)) == s
  {
    match s.ref
    case InSingle => Ranges(f.per);
    case UnderDouble(j) =>
      Nested(f.per, f.per, j, s.k);
      WhereDouble(f, f.per * j + s.k, j, s.k);
    case UnderPair(i, j) =>
      PairEntry(f.per, i, j, s.k);
      WherePair(f, f.per * f.per * i + (f.per * j + s.k));
  }

  lemma WhereDouble(f: File, x: nat, j: nat, k: nat)
    requires f.per > 0 && x < f.per * f.per && x / f.per == j && x % f.per == k
    ensures DIRECT + (f.per + x) < f.Reach3() && f.Where(f.per + x) == Spot(UnderDouble(j), k)
  {
    Ranges(f.per);
  }

  lemma WherePair(f: File, x: nat)
    requires f.per > 0 && x < f.per * f.per * f.per
    ensures f.per * f.per > 0 && DIRECT + (f.per + f.per * f.per + x) < f.Reach3()
    ensures f.Where(f.per + f.per * f.per + x) == InPair(f.per, f.per * f.per, x)
  {
    Square(f.per);
    Ranges(f.per);
    hide InPair;
  }

  lemma PairEntry(m: nat, i: nat, j: nat, k: nat)
    requires i < m && j < m && k < m
    ensures m * m > 0 && m * m * i + (m * j + k) < m * m * m
    ensures InPair(m, m * m, m * m * i + (m * j + k)) == Spot(UnderPair(i, j), k)
  {
    Square(m);
    var n, rest := m * m, m * j + k;
    Nests(m, m, j, k);
    Divides(m, j, k);
    Nested(n, m, i, rest);
  }

  lemma Nested(m: nat, n: nat, q: nat, r: nat)
    requires r < m && q < n
    ensures m * q + r < m * n && (m * q + r) / m == q && (m * q + r) % m == r
  {
    Nests(m, n, q, r);
    Divides(m, q, r);
  }

  lemma Nests(m: nat, n: nat, q: nat, r: nat)
    requires r < m && q < n
    ensures m * q + r < m * n
  {
    Scale(m, q + 1, n);
    assert m * (q + 1) == m * q + m;
  }

  /** Up to the double range, a lookup follows the layout. */
  lemma LookupFollowsLayout(f: File, bl: nat)
    requires f.per > 0 && |f.inode.direct| == DIRECT && bl < f.Reach2()
    ensures f.Lookup(bl) == f.Intended(bl)
  {
    Ranges(f.per);
  }

  /** In the triple range, a lookup ends one pointer block too early, or in the single indirect block. */
  function Astray(f: File, bl: nat): Spot
    requires f.per > 0 && f.Reach2() <= bl
  {
    var c := bl - f.Reach2();
    var d := c % Squared(f.per);
    if d < f.per then Spot(InSingle, d)
    else Spot(UnderPair(c / Squared(f.per), (d - f.per) / f.per), (d - f.per) % f.per)
  }

  lemma LookupGoesAstray(f: File, bl: nat)
    requires f.per > 0 && |f.inode.direct| == DIRECT && f.Reach2() <= bl < f.Reach3()
    ensures f.Lookup(bl) == if f.inode.triple == 0 then 0 else f.At(Astray(f, bl))
    ensures Astray(f, bl) != f.Where(bl - DIRECT)
    ensures f.InRange(Astray(f, bl).ref) && Astray(f, bl).k < f.per && Leaf(Astray(f, bl).ref)
  {
    var m := f.per;
    Ranges(m);
    var c := bl - f.Reach2();
    Split(c, m * m, m);
    var d := c % (m * m);
    Split(d, m, m);
    if d >= m {
      Split(d - m, m, m);
      assert f.Where(bl - DIRECT) == Spot(UnderPair(c / (m * m), d / m), d % m);
    }
  }

  // Steps on the pointer tree.

  function Zeros(n: nat): seq<nat> { seq(n, _ => 0) }

  function Put(words: seq<nat>, k: nat, addr: nat): seq<nat>
    requires k < |words|
  {
    words[k := addr]
  }

  ghost predicate SameTargets(f: File, g: File) {
    && g.per == f.per
    && (forall r :: f.InRange(r) ==> g.Target(r) == f.Target(r))
  }

  ghost predicate SameSpots(f: File, g: File) {
    forall r, k: nat :: f.InRange(r) && Leaf(r) && k < f.per ==> g.At(Spot(r, k)) == f.At(Spot(r, k))
  }

  /** Writing to a block that is no pointer block of the file changes nothing the file leads to. */
  lemma WriteUnowned(f: File, p: nat, words: seq<nat>)
    requires f.Valid() && !f.Owned(p) && |words| == f.per
    ensures var g := f.(disk := f.disk[p := words]); g.Valid() && SameTargets(f, g) && SameSpots(f, g)
  {
    var disk' := f.disk[p := words];
    var g := f.(disk := disk');
    forall r | f.InRange(r)
      ensures g.Target(r) == f.Target(r) && f.Target(r) != p
    {
      match r
      case UnderDouble(j) => assert f.Target(InDouble) != p;
      case UnderTriple(i) => assert f.Target(InTriple) != p;
      case UnderPair(i, j) => assert f.Target(InTriple) != p && f.Target(UnderTriple(i)) != p;
      case _ =>
    }
  }

  /** Writing an entry of a last-level pointer block sets that spot and no other. */
  lemma WriteLeaf(f: File, s: Spot, addr: nat)
    requires f.Valid() && f.InRange(s.ref) && Leaf(s.ref) && s.k < f.per && f.Target(s.ref) != 0
    ensures var p := f.Target(s.ref);
      var g := f.(disk := f.disk[p := Put(f.disk[p], s.k, addr)]);
      && g.Valid() && SameTargets(f, g)
      && forall r, k: nat :: f.InRange(r) && Leaf(r) && k < f.per ==>
        g.At(Spot(r, k)) == if Spot(r, k) == s then addr else f.At(Spot(r, k))
  {
    var p := f.Target(s.ref);
    var disk' := f.disk[p := Put(f.disk[p], s.k, addr)];
    var g := f.(disk := disk');
    forall r | f.InRange(r)
      ensures g.Target(r) == f.Target(r)
    {
      match r
      case UnderDouble(j) => assert f.Target(InDouble) != p;
      case UnderTriple(i) => assert f.Target(InTriple) != p;
      case UnderPair(i, j) => assert f.Target(InTriple) != p && f.Target(UnderTriple(i)) != p;
      case _ =>
    }
  }

  /** An inode with a pointer of its own set. */
  function LinkIn(inode: Inode, r: Ref, p: nat): Inode {
    match r
    case InSingle => inode.(single := p)
    case InDouble => inode.(double := p)
    case _ => inode.(triple := p)
  }

  /** Linking an unused block of zeros into the inode adds a pointer block and changes no address. */
  lemma LinkZeros(f: File, r: Ref, p: nat, g: File)
    requires f.Valid() && f.Target(r) == 0 && p != 0 && p in f.disk && !f.Owned(p)
    requires r.InSingle? || r.InDouble? || r.InTriple?
    requires forall k :: 0 <= k < f.per ==> f.disk[p][k] == 0
    requires g == f.(inode := LinkIn(f.inode, r, p))
    ensures g.Valid() && SameSpots(f, g)
    ensures forall q :: f.InRange(q) ==> g.Target(q) == if q == r then p else f.Target(q)
  {
    forall q | f.InRange(q)
      ensures g.Target(q) == if q == r then p else f.Target(q)
    {
    }
  }

  /** The addresses a file gives its blocks, in every range of the layout, are those it gave before. */
  ghost predicate Kept(f: File, g: File) {
    g.per == f.per && g.inode.direct == f.inode.direct && SameSpots(f, g)
  }

  lemma Shape(f: File)
    requires f.Valid()
    ensures f.per > 0 && |f.inode.direct| == DIRECT && Kept(f, f)
  {
  }

  /** The blocks the device still has free, none of them part of the file. */
  ghost predicate Apart(f: File, pool: seq<nat>) {
    && (forall i :: 0 <= i < |pool| ==> pool[i] != 0 && pool[i] in f.disk && !f.Owned(pool[i]))
    && (forall i, j :: 0 <= i < j < |pool| ==> pool[i] != pool[j])
  }

  /** What a successful `inode_set` makes of the tree: one spot changes if its block is linked. */
  ghost predicate Stored(f: File, g: File, s: Spot, addr: nat)
    requires f.Valid()
  {
    && g.per == f.per && g.inode.direct == f.inode.direct
    && forall r, k: nat :: f.InRange(r) && Leaf(r) && k < f.per ==>
      g.At(Spot(r, k)) == if Spot(r, k) == s && f.Linked(r) then addr else f.At(Spot(r, k))
  }
}
