/** The walk of truncation over a file's pointer blocks, and the block map's view of them. */
module FileWalk {
  import opened Arithmetic
  import opened BlockMap
  import opened BlockTable
  import opened BlockAllocator
  import opened Truncate

  function DeviceOf(f: File): Device { Device(f.disk, f.per) }

  function Roots(f: File): (r: seq<Node>)
    ensures |r| == |f.inode.direct| + 3 && forall i :: 0 <= i < |r| ==> r[i].depth <= 3
  {
    RootsOf(f.inode.direct, f.inode.single, f.inode.double, f.inode.triple)
  }

  // ---------- the walk and the layout ----------

  /** The levels of pointer blocks from a place down. */
  function Levels(r: Ref): (n: nat)
    ensures 1 <= n <= 3 && (n == 1 <==> Leaf(r))
  {
    match r
    case InTriple => 3
    case InDouble => 2
    case UnderTriple(_) => 2
    case _ => 1
  }

  /** The place of an entry of a pointer block above the last level. */
  function Sub(r: Ref, k: nat): Ref {
    match r
    case InDouble => UnderDouble(k)
    case InTriple => UnderTriple(k)
    case UnderTriple(i) => UnderPair(i, k)
    case _ => r
  }

  predicate Under(q: Ref, r: Ref) {
    q == r ||
    match r
    case InDouble => q.UnderDouble?
    case InTriple => q.UnderTriple? || q.UnderPair?
    case UnderTriple(i) => q.UnderPair? && q.i == i
    case _ => false
  }

  function Tree(f: File, r: Ref): Node { Node(f.Target(r), Levels(r)) }

  /** The nodes below a pointer block are the trees of its entries, or the blocks of the file. */
  lemma ChildrenAre(f: File, r: Ref)
    requires f.Valid() && f.InRange(r) && f.Target(r) != 0
    ensures var c := DeviceOf(f).Children(Tree(f, r));
      && |c| == f.per
      && forall k :: 0 <= k < f.per ==>
        c[k] == if Leaf(r) then Node(f.At(Spot(r, k)), 0) else Tree(f, Sub(r, k))
  {
    var p, c := f.Target(r), DeviceOf(f).Children(Tree(f, r));
    assert p in f.disk && |f.disk[p]| == f.per;
    assert DeviceOf(f).Pointers(p) == f.disk[p];
    forall k | 0 <= k < f.per
      ensures c[k] == if Leaf(r) then Node(f.At(Spot(r, k)), 0) else Tree(f, Sub(r, k))
    {
      assert c[k] == Node(f.disk[p][k], Levels(r) - 1);
      SubTarget(f, r, k);
    }
  }

  lemma SubTarget(f: File, r: Ref, k: nat)
    ensures Leaf(r) ==> f.At(Spot(r, k)) == f.Entry(f.Target(r), k)
    ensures !Leaf(r) ==> f.Target(Sub(r, k)) == f.Entry(f.Target(r), k) && Levels(Sub(r, k)) == Levels(r) - 1
    ensures !Leaf(r) && f.InRange(r) ==> (f.InRange(Sub(r, k)) <==> k < f.per)
  {
  }

  lemma NothingUnder(f: File, r: Ref, q: Ref)
    requires f.Target(r) == 0 && Under(q, r)
    ensures f.Target(q) == 0
  {
  }

  lemma UnderSub(r: Ref, q: Ref)
    requires !Leaf(r)
    ensures Under(q, r) <==> q == r || Under(q, Sub(r, Step(r, q)))
    ensures forall k: nat :: Under(q, Sub(r, k)) ==> k == Step(r, q) && q != r
  {
  }

  /** The entry of the block at `r` that leads to a place under it. */
  function Step(r: Ref, q: Ref): nat {
    match q
    case UnderDouble(j) => j
    case UnderTriple(i) => i
    case UnderPair(i, j) => if r.InTriple? then i else j
    case _ => 0
  }

  /** The places from `r` down hold the block, as a pointer block or in an entry of a last-level one. */
  ghost predicate Has(f: File, r: Ref, b: nat) {
    || (exists q :: f.InRange(q) && Under(q, r) && f.Target(q) == b)
    || (exists s: Spot :: InFile(f, s) && Under(s.ref, r) && f.At(s) == b)
  }

  predicate InFile(f: File, s: Spot) { f.InRange(s.ref) && Leaf(s.ref) && s.k < f.per }

  lemma {:induction false} InAllOf(d: Device, nodes: seq<Node>, depth: nat, b: nat)
    requires forall i :: 0 <= i < |nodes| ==> nodes[i].depth <= depth
    ensures b in d.AllOf(nodes, depth) <==> exists i :: 0 <= i < |nodes| && b in d.All(nodes[i])
  {
    hide Device.All;
    if nodes != [] {
      InAllOf(d, nodes[1..], depth, b);
      if i :| 0 <= i < |nodes| && b in d.All(nodes[i]) {
        assert i > 0 ==> nodes[1..][i - 1] == nodes[i];
      }
    }
  }

  lemma {:induction false} AllHas(f: File, r: Ref, b: nat)
    requires f.Valid() && f.InRange(r) && b != 0
    ensures b in DeviceOf(f).All(Tree(f, r)) <==> Has(f, r, b)
    decreases Levels(r)
  {
    var d, n := DeviceOf(f), Tree(f, r);
    if f.Target(r) == 0 {
      forall q | Under(q, r)
        ensures f.Target(q) == 0
      {
        NothingUnder(f, r, q);
      }
    } else {
      ChildrenAre(f, r);
      InAllOf(d, d.Children(n), n.depth - 1, b);
      if Leaf(r) {
        LeafHas(f, r, b);
      } else {
        forall k | 0 <= k < f.per
          ensures b in d.All(Tree(f, Sub(r, k))) <==> Has(f, Sub(r, k), b)
        {
          SubTarget(f, r, k);
          AllHas(f, Sub(r, k), b);
        }
        SubHas(f, r, b);
      }
      hide Has;
      var c := d.Children(n);
      assert b in d.All(n) <==> b == n.bl || exists k :: 0 <= k < |c| && b in d.All(c[k]);
    }
  }

  lemma LeafHas(f: File, r: Ref, b: nat)
    requires f.InRange(r) && Leaf(r) && b != 0
    ensures Has(f, r, b) <==> f.Target(r) == b || exists k :: 0 <= k < f.per && f.At(Spot(r, k)) == b
  {
    if k :| 0 <= k < f.per && f.At(Spot(r, k)) == b {
      assert InFile(f, Spot(r, k)) && Under(r, r);
    }
    if s: Spot :| InFile(f, s) && Under(s.ref, r) && f.At(s) == b {
      assert s == Spot(r, s.k);
    }
    assert Under(r, r);
  }

  lemma SubHas(f: File, r: Ref, b: nat)
    requires f.Valid() && f.InRange(r) && !Leaf(r) && b != 0
    ensures Has(f, r, b) <==> f.Target(r) == b || exists k :: 0 <= k < f.per && Has(f, Sub(r, k), b)
  {
    if q :| f.InRange(q) && Under(q, r) && f.Target(q) == b {
      UnderSub(r, q);
      if q != r {
        StepInRange(f, r, q);
        assert Has(f, Sub(r, Step(r, q)), b);
      }
    }
    if s: Spot :| InFile(f, s) && Under(s.ref, r) && f.At(s) == b {
      UnderSub(r, s.ref);
      StepInRange(f, r, s.ref);
      assert Has(f, Sub(r, Step(r, s.ref)), b);
    }
    forall k | 0 <= k < f.per && Has(f, Sub(r, k), b)
      ensures Has(f, r, b)
    {
      forall q | Under(q, Sub(r, k))
        ensures Under(q, r)
      {
        UnderSub(r, q);
      }
    }
    assert Under(r, r);
  }

  lemma StepInRange(f: File, r: Ref, q: Ref)
    requires f.InRange(q) && Under(q, r) && q != r
    ensures Step(r, q) < f.per
  {
  }

  /** The file's blocks: those its layout gives addresses, and its blocks of pointers. */
  ghost predicate Holds(f: File, b: nat)
    requires f.per > 0 && |f.inode.direct| == DIRECT
  {
    || (exists bl: nat :: bl < f.Reach3() && f.Intended(bl) == b)
    || (exists r :: f.InRange(r) && f.Target(r) == b)
  }

  /** Behind the direct blocks, the blocks of the layout are the entries of the last-level pointer blocks. */
  lemma EntriesAre(f: File, s: Spot)
    requires f.Valid() && InFile(f, s)
    ensures var bl := DIRECT + BlockAt(f.per, s);
      bl < f.Reach3() && f.Where(bl - DIRECT) == s && f.Intended(bl) == f.At(s)
  {
    EveryEntryIsUsed(f, s);
  }

  lemma BlocksAre(f: File, bl: nat)
    requires f.Valid() && DIRECT <= bl < f.Reach3()
    ensures InFile(f, f.Where(bl - DIRECT)) && f.Intended(bl) == f.At(f.Where(bl - DIRECT))
  {
    WhereInRange(f, bl - DIRECT);
  }

  lemma RootsAreTrees(f: File)
    requires |f.inode.direct| == DIRECT
    ensures var r := Roots(f);
      && |r| == 15 && (forall i :: 0 <= i < 12 ==> r[i] == Node(f.inode.direct[i], 0))
      && r[12] == Tree(f, InSingle) && r[13] == Tree(f, InDouble) && r[14] == Tree(f, InTriple)
  {
    RootsAre(f.inode.direct, f.inode.single, f.inode.double, f.inode.triple);
  }

  /** The walk of truncation covers exactly the blocks that the layout gives the file. */
  lemma WalkCoversFile(f: File, b: nat)
    requires f.Valid() && b != 0
    ensures b in DeviceOf(f).AllOf(Roots(f), 3) <==> Holds(f, b)
  {
    var d, roots := DeviceOf(f), Roots(f);
    RootsAreTrees(f);
    InAllOf(d, roots, 3, b);
    AllHas(f, InSingle, b);
    AllHas(f, InDouble, b);
    AllHas(f, InTriple, b);
    hide File.Valid, Has, File.Intended, File.At, Two, Three, Squared;
    assert b in d.AllOf(roots, 3) <==>
      ((exists i :: 0 <= i < 12 && f.inode.direct[i] == b) || Has(f, InSingle, b) || Has(f, InDouble, b) || Has(f, InTriple, b)) by {
      DirectIn(d, roots, f.inode.direct, b);
    }
    HoldsIs(f, b);
  }

  lemma DirectIn(d: Device, roots: seq<Node>, direct: seq<nat>, b: nat)
    requires |roots| == 15 && |direct| == 12 && b != 0 && forall i :: 0 <= i < 12 ==> roots[i] == Node(direct[i], 0)
    ensures (exists i :: 0 <= i < 15 && b in d.All(roots[i])) <==>
      ((exists i :: 0 <= i < 12 && direct[i] == b) || b in d.All(roots[12]) || b in d.All(roots[13]) || b in d.All(roots[14]))
  {
    if i :| 0 <= i < 12 && direct[i] == b {
      assert b in d.All(roots[i]);
    }
    assert forall i :: 0 <= i < 12 ==> (b in d.All(roots[i]) <==> direct[i] == b);
  }

  lemma HoldsIs(f: File, b: nat)
    requires f.Valid() && b != 0
    ensures Holds(f, b) <==>
      ((exists i :: 0 <= i < 12 && f.inode.direct[i] == b) || Has(f, InSingle, b) || Has(f, InDouble, b) || Has(f, InTriple, b))
  {
    Shape(f);
    Below12(f);
    hide File.Valid, File.At, Two, Three, Squared, File.Where;
    if bl: nat :| bl < f.Reach3() && f.Intended(bl) == b {
      if bl >= DIRECT {
        BlocksAre(f, bl);
        SomeRoot(f.Where(bl - DIRECT).ref);
      }
    }
    if r :| f.InRange(r) && f.Target(r) == b {
      SomeRoot(r);
    }
    if i :| 0 <= i < 12 && f.inode.direct[i] == b {
      assert f.Intended(i) == b;
    }
    if s: Spot :| InFile(f, s) && f.At(s) == b {
      EntriesAre(f, s);
    }
  }

  lemma Below12(f: File)
    ensures f.Reach3() >= DIRECT
  {
  }

  lemma SomeRoot(r: Ref)
    ensures Under(r, InSingle) || Under(r, InDouble) || Under(r, InTriple)
  {
  }

  // ---------- no block twice ----------

  /** No address stands for two blocks of the file, or for one and a block of pointers. */
  ghost predicate Unshared(f: File)
    requires f.per > 0 && |f.inode.direct| == DIRECT
  {
    && (forall b: nat, c: nat :: b < c < f.Reach3() && f.Intended(b) != 0 ==> f.Intended(b) != f.Intended(c))
    && (forall b: nat, r :: b < f.Reach3() && f.InRange(r) && f.Intended(b) != 0 ==> f.Intended(b) != f.Target(r))
  }

  lemma SpotsApart(f: File, s: Spot, t: Spot)
    requires f.Valid() && Unshared(f) && InFile(f, s) && InFile(f, t) && s != t && f.At(s) != 0
    ensures f.At(s) != f.At(t)
  {
    EntriesAre(f, s);
    EntriesAre(f, t);
  }

  lemma SpotIsNoPointer(f: File, s: Spot, r: Ref)
    requires f.Valid() && Unshared(f) && InFile(f, s) && f.InRange(r) && f.At(s) != 0
    ensures f.At(s) != f.Target(r)
  {
    EntriesAre(f, s);
  }

  ghost predicate Disjoint(q: Ref, r: Ref) {
    forall p :: !(Under(p, q) && Under(p, r))
  }

  /** Trees that have no place in common have no block in common. */
  lemma HeldOnce(f: File, q: Ref, r: Ref, b: nat)
    requires f.Valid() && Unshared(f) && Disjoint(q, r) && b != 0
    ensures !(Has(f, q, b) && Has(f, r, b))
  {
    forall s: Spot | InFile(f, s) && f.At(s) == b
      ensures forall t: Spot :: InFile(f, t) && f.At(t) == b ==> t == s
      ensures forall p :: f.InRange(p) ==> f.Target(p) != b
    {
      forall t: Spot | InFile(f, t) && t != s
        ensures f.At(t) != b
      {
        SpotsApart(f, s, t);
      }
      forall p | f.InRange(p)
        ensures f.Target(p) != b
      {
        SpotIsNoPointer(f, s, p);
      }
    }
  }

  ghost predicate Once(list: seq<nat>) {
    forall b :: multiset(list)[b] <= 1
  }

  lemma JoinOnce(a: seq<nat>, b: seq<nat>)
    requires Once(a) && Once(b) && forall x :: !(x in a && x in b)
    ensures Once(a + b)
  {
    forall x
      ensures multiset(a + b)[x] <= 1
    {
      assert x in multiset(a) <==> x in a;
      assert x in multiset(b) <==> x in b;
    }
  }

  lemma {:induction false} AllOfOnce(d: Device, nodes: seq<Node>, depth: nat)
    requires forall i :: 0 <= i < |nodes| ==> nodes[i].depth <= depth && Once(d.All(nodes[i]))
    requires forall i, j, b :: 0 <= i < j < |nodes| ==> !(b in d.All(nodes[i]) && b in d.All(nodes[j]))
    ensures Once(d.AllOf(nodes, depth))
  {
    hide Device.All, Once;
    if nodes == [] {
      OnceNone(d.AllOf(nodes, depth));
    } else {
      var rest := nodes[1..];
      forall i, j, b | 0 <= i < j < |rest|
        ensures !(b in d.All(rest[i]) && b in d.All(rest[j]))
      {
        assert rest[i] == nodes[i + 1] && rest[j] == nodes[j + 1];
      }
      AllOfOnce(d, rest, depth);
      forall b
        ensures !(b in d.All(nodes[0]) && b in d.AllOf(rest, depth))
      {
        InAllOf(d, rest, depth, b);
      }
      JoinOnce(d.All(nodes[0]), d.AllOf(rest, depth));
    }
  }

  lemma OnceNone(list: seq<nat>)
    requires list == []
    ensures Once(list)
  {
  }

  lemma {:induction false} AllNonZero(d: Device, n: Node)
    ensures 0 !in d.All(n)
    decreases n.depth, 0
  {
    if n.bl != 0 && n.depth > 0 {
      AllOfNonZero(d, d.Children(n), n.depth - 1);
    }
  }

  lemma {:induction false} AllOfNonZero(d: Device, nodes: seq<Node>, depth: nat)
    requires forall i :: 0 <= i < |nodes| ==> nodes[i].depth <= depth
    ensures 0 !in d.AllOf(nodes, depth)
    decreases depth, |nodes| + 1
  {
    if nodes != [] {
      AllNonZero(d, nodes[0]);
      AllOfNonZero(d, nodes[1..], depth);
    }
  }

  /** A tree of an unshared file lists no block twice. */
  lemma {:induction false} TreeOnce(f: File, r: Ref)
    requires f.Valid() && Unshared(f) && f.InRange(r)
    ensures Once(DeviceOf(f).All(Tree(f, r)))
    decreases Levels(r)
  {
    var d, n := DeviceOf(f), Tree(f, r);
    if n.bl == 0 {
      OnceNone(d.All(n));
    } else {
      ChildrenAre(f, r);
      var c := d.Children(n);
      forall k | 0 <= k < |c|
        ensures Once(d.All(c[k]))
        ensures n.bl !in d.All(c[k])
      {
        if Leaf(r) {
          LeafOnce(f, r, k);
        } else {
          SubTarget(f, r, k);
          TreeOnce(f, Sub(r, k));
          AboveIsApart(f, r, k);
        }
      }
      forall i, j, b | 0 <= i < j < |c|
        ensures !(b in d.All(c[i]) && b in d.All(c[j]))
      {
        ChildrenApart(f, r, i, j, b);
      }
      hide Once;
      AllOfOnce(d, c, n.depth - 1);
      InAllOf(d, c, n.depth - 1, n.bl);
      OnceOne(n.bl);
      JoinOnce(d.AllOf(c, n.depth - 1), [n.bl]);
    }
  }

  lemma OnceOne(b: nat)
    ensures Once([b])
  {
  }

  lemma LeafOnce(f: File, r: Ref, k: nat)
    requires f.Valid() && Unshared(f) && f.InRange(r) && Leaf(r) && k < f.per && f.Target(r) != 0
    ensures var a := DeviceOf(f).All(Node(f.At(Spot(r, k)), 0)); Once(a) && f.Target(r) !in a
  {
    if f.At(Spot(r, k)) != 0 {
      SpotIsNoPointer(f, Spot(r, k), r);
    }
  }

  lemma AboveIsApart(f: File, r: Ref, k: nat)
    requires f.Valid() && Unshared(f) && f.InRange(r) && !Leaf(r) && k < f.per && f.Target(r) != 0
    ensures f.Target(r) !in DeviceOf(f).All(Tree(f, Sub(r, k)))
  {
    var b := f.Target(r);
    SubTarget(f, r, k);
    AllHas(f, Sub(r, k), b);
    hide Device.All;
    if s: Spot :| InFile(f, s) && f.At(s) == b {
      SpotIsNoPointer(f, s, r);
    }
    forall q | f.InRange(q) && Under(q, Sub(r, k))
      ensures f.Target(q) != b
    {
      UnderSub(r, q);
    }
  }

  lemma ChildrenApart(f: File, r: Ref, i: nat, j: nat, b: nat)
    requires f.Valid() && Unshared(f) && f.InRange(r) && i < j < f.per && f.Target(r) != 0
    requires var c := DeviceOf(f).Children(Tree(f, r));
      && |c| == f.per
      && forall k :: 0 <= k < f.per ==> c[k] == if Leaf(r) then Node(f.At(Spot(r, k)), 0) else Tree(f, Sub(r, k))
    ensures var d, c := DeviceOf(f), DeviceOf(f).Children(Tree(f, r)); !(b in d.All(c[i]) && b in d.All(c[j]))
  {
    var d := DeviceOf(f);
    AllNonZero(d, d.Children(Tree(f, r))[i]);
    if b != 0 {
      if Leaf(r) {
        if f.At(Spot(r, i)) == b {
          SpotsApart(f, Spot(r, i), Spot(r, j));
        }
      } else {
        SubTarget(f, r, i);
        SubTarget(f, r, j);
        AllHas(f, Sub(r, i), b);
        AllHas(f, Sub(r, j), b);
        hide Device.All, Has;
        SubsDisjoint(r, i, j);
        HeldOnce(f, Sub(r, i), Sub(r, j), b);
      }
    }
  }

  lemma SubsDisjoint(r: Ref, i: nat, j: nat)
    requires !Leaf(r) && i != j
    ensures Disjoint(Sub(r, i), Sub(r, j))
  {
    forall p
      ensures !(Under(p, Sub(r, i)) && Under(p, Sub(r, j)))
    {
      UnderSub(r, p);
    }
  }

  /** The walk over an unshared file lists no block twice. */
  lemma WalkOnce(f: File)
    requires f.Valid() && Unshared(f)
    ensures Once(DeviceOf(f).AllOf(Roots(f), 3))
  {
    var d, roots := DeviceOf(f), Roots(f);
    RootsAreTrees(f);
    forall i | 0 <= i < 15
      ensures Once(d.All(roots[i]))
    {
      if i == 12 {
        TreeOnce(f, InSingle);
      } else if i == 13 {
        TreeOnce(f, InDouble);
      } else if i == 14 {
        TreeOnce(f, InTriple);
      }
    }
    forall i, j, b | 0 <= i < j < 15
      ensures !(b in d.All(roots[i]) && b in d.All(roots[j]))
    {
      RootsApart(f, i, j, b);
    }
    hide Once, Device.All;
    AllOfOnce(d, roots, 3);
  }

  function RootRef(i: nat): Ref
    requires 12 <= i < 15
  {
    if i == 12 then InSingle else if i == 13 then InDouble else InTriple
  }

  lemma RootsApart(f: File, i: nat, j: nat, b: nat)
    requires f.Valid() && Unshared(f) && i < j < 15
    ensures var d, roots := DeviceOf(f), Roots(f); |roots| == 15 && !(b in d.All(roots[i]) && b in d.All(roots[j]))
  {
    var d, roots := DeviceOf(f), Roots(f);
    RootsAreTrees(f);
    AllNonZero(d, roots[j]);
    if b != 0 {
      if i >= 12 {
        AllHas(f, RootRef(i), b);
        AllHas(f, RootRef(j), b);
        hide Device.All, Has;
        HeldOnce(f, RootRef(i), RootRef(j), b);
      } else if f.inode.direct[i] == b {
        DirectApart(f, i, j, b);
      }
    }
  }

  lemma DirectApart(f: File, i: nat, j: nat, b: nat)
    requires f.Valid() && Unshared(f) && i < 12 && i < j < 15 && b != 0 && f.inode.direct[i] == b
    ensures |Roots(f)| == 15 && b !in DeviceOf(f).All(Roots(f)[j])
  {
    RootsAreTrees(f);
    Below12(f);
    assert f.Intended(i) == b;
    if j < 12 {
      assert f.Intended(j) == f.inode.direct[j];
    } else {
      AllHas(f, RootRef(j), b);
      hide Device.All, Three;
      forall s: Spot | InFile(f, s)
        ensures f.At(s) != b
      {
        EntriesAre(f, s);
      }
    }
  }
}
