/** Which blocks of a file, by its block map, truncating it frees. */
module FileTruncation {
  import opened Arithmetic
  import opened BlockMap
  import opened BlockTable
  import opened BlockAllocator
  import opened Truncate
  import opened FileWalk

  function Times(m: nat, n: nat): nat { m * n }

  /** The first block of the file that a place leads to. */
  function First(per: nat, r: Ref): nat {
    var pair := Times(per, per);
    DIRECT +
    match r
    case InSingle => 0
    case InDouble => per
    case UnderDouble(j) => per + Times(per, j)
    case InTriple => per + pair
    case UnderTriple(i) => per + pair + Times(pair, i)
    case UnderPair(i, j) => per + pair + (Times(pair, i) + Times(per, j))
  }

  /** How many blocks the places with so many levels lead to. */
  function Span(per: nat, levels: nat): nat {
    if levels == 0 then 1
    else if levels == 1 then per
    else if levels == 2 then Times(per, per)
    else Times(Times(per, per), per)
  }

  function Last(per: nat, r: Ref): nat { First(per, r) + Span(per, Levels(r)) }

  /** Nothing comes behind a missing block: no block of the file, and no block of pointers that leads to later
      blocks only. */
  ghost predicate Gapless(f: File)
    requires f.per > 0 && |f.inode.direct| == DIRECT
  {
    GaplessIn(f, 0, f.Reach3())
  }

  ghost predicate GaplessIn(f: File, lo: nat, hi: nat)
    requires f.per > 0 && |f.inode.direct| == DIRECT
  {
    forall b: nat :: lo <= b < hi && f.Intended(b) == 0 ==>
      && (forall c: nat :: b < c < hi ==> f.Intended(c) == 0)
      && (forall r :: f.InRange(r) && b < First(f.per, r) < hi ==> f.Target(r) == 0)
  }

  ghost predicate Whole(f: File, lo: nat, hi: nat)
    requires f.per > 0 && |f.inode.direct| == DIRECT
  {
    forall b: nat :: lo <= b < hi ==> f.Intended(b) != 0
  }

  ghost predicate Empty(f: File, lo: nat, hi: nat)
    requires f.per > 0 && |f.inode.direct| == DIRECT
  {
    && (forall b: nat :: lo <= b < hi ==> f.Intended(b) == 0)
    && (forall r :: f.InRange(r) && lo <= First(f.per, r) < hi ==> f.Target(r) == 0)
  }

  // Intervals of blocks.

  lemma WholeThenGapless(f: File, lo: nat, mid: nat, hi: nat)
    requires f.Valid() && lo <= mid <= hi && Whole(f, lo, mid)
    ensures GaplessIn(f, lo, hi) <==> GaplessIn(f, mid, hi)
  {
  }

  lemma GapThenEmpty(f: File, lo: nat, mid: nat, hi: nat)
    requires f.Valid() && lo <= mid <= hi && !Whole(f, lo, mid)
    ensures GaplessIn(f, lo, hi) <==> GaplessIn(f, lo, mid) && Empty(f, mid, hi)
  {
    var b: nat :| lo <= b < mid && f.Intended(b) == 0;
  }

  lemma EmptyJoin(f: File, lo: nat, mid: nat, hi: nat)
    requires f.Valid() && lo <= mid <= hi
    ensures Empty(f, lo, hi) <==> Empty(f, lo, mid) && Empty(f, mid, hi)
  {
  }

  lemma WholeJoin(f: File, lo: nat, mid: nat, hi: nat)
    requires f.Valid() && lo <= mid <= hi
    ensures Whole(f, lo, hi) <==> Whole(f, lo, mid) && Whole(f, mid, hi)
  {
  }

  lemma NoBlocks(f: File, lo: nat)
    requires f.Valid()
    ensures GaplessIn(f, lo, lo) && Whole(f, lo, lo) && Empty(f, lo, lo)
  {
  }

  /** A node covers an interval of blocks. */
  ghost predicate Covers(f: File, n: Node, lo: nat, hi: nat)
    requires f.per > 0 && |f.inode.direct| == DIRECT
  {
    && lo <= hi
    && (DeviceOf(f).Full(n) <==> Whole(f, lo, hi))
    && (DeviceOf(f).Dense(n) <==> GaplessIn(f, lo, hi))
  }

  /** A list of nodes covers consecutive intervals; all but the first are zero exactly if theirs is empty. */
  ghost predicate CoverAll(f: File, nodes: seq<Node>, bounds: seq<nat>)
    requires f.per > 0 && |f.inode.direct| == DIRECT
  {
    && |bounds| == |nodes| + 1
    && (forall i, j :: 0 <= i < |nodes| && j == i + 1 ==> Covers(f, nodes[i], bounds[i], bounds[j]))
    && (forall i, j :: 1 <= i < |nodes| && j == i + 1 ==> (nodes[i].bl == 0 <==> Empty(f, bounds[i], bounds[j])))
  }

  lemma CoverRest(f: File, nodes: seq<Node>, bounds: seq<nat>)
    requires f.Valid() && CoverAll(f, nodes, bounds) && nodes != []
    ensures CoverAll(f, nodes[1..], bounds[1..]) && Covers(f, nodes[0], bounds[0], bounds[1])
    ensures |nodes| > 1 ==> (nodes[1].bl == 0 <==> Empty(f, bounds[1], bounds[2]))
  {
    hide Covers, Empty, File.Valid;
    assert forall i :: 0 <= i < |nodes| - 1 ==> nodes[1..][i] == nodes[i + 1];
    assert forall i :: 0 <= i < |nodes| ==> bounds[1..][i] == bounds[i + 1];
  }

  lemma {:induction false} BoundsGrow(f: File, nodes: seq<Node>, bounds: seq<nat>)
    requires f.Valid() && CoverAll(f, nodes, bounds)
    ensures bounds[0] <= bounds[|nodes|]
  {
    if nodes != [] {
      CoverRest(f, nodes, bounds);
      BoundsGrow(f, nodes[1..], bounds[1..]);
    }
  }

  lemma {:induction false} EmptyAll(f: File, nodes: seq<Node>, bounds: seq<nat>)
    requires f.Valid() && CoverAll(f, nodes, bounds) && nodes != []
    requires nodes[0].bl == 0 <==> Empty(f, bounds[0], bounds[1])
    ensures (forall i :: 0 <= i < |nodes| ==> nodes[i].bl == 0) <==> Empty(f, bounds[0], bounds[|nodes|])
  {
    CoverRest(f, nodes, bounds);
    BoundsGrow(f, nodes[1..], bounds[1..]);
    hide Empty, File.Valid, CoverAll;
    EmptyJoin(f, bounds[0], bounds[1], bounds[|nodes|]);
    var rest := nodes[1..];
    assert forall i :: 0 <= i < |rest| ==> rest[i] == nodes[i + 1];
    if rest == [] {
      NoBlocks(f, bounds[1]);
    } else {
      EmptyAll(f, rest, bounds[1..]);
      assert (forall i :: 0 <= i < |nodes| ==> nodes[i].bl == 0) <==>
        (nodes[0].bl == 0 && forall i :: 0 <= i < |rest| ==> rest[i].bl == 0) by {
        if nodes[0].bl == 0 && forall i :: 0 <= i < |rest| ==> rest[i].bl == 0 {
          forall i | 0 <= i < |nodes|
            ensures nodes[i].bl == 0
          {
            assert i > 0 ==> rest[i - 1] == nodes[i];
          }
        }
      }
    }
  }

  lemma {:induction false} WholeAll(f: File, nodes: seq<Node>, bounds: seq<nat>)
    requires f.Valid() && CoverAll(f, nodes, bounds)
    ensures (forall i :: 0 <= i < |nodes| ==> DeviceOf(f).Full(nodes[i])) <==> Whole(f, bounds[0], bounds[|nodes|])
  {
    hide Device.Full;
    if nodes == [] {
      NoBlocks(f, bounds[0]);
    } else {
      CoverRest(f, nodes, bounds);
      BoundsGrow(f, nodes[1..], bounds[1..]);
      hide Whole, File.Valid, CoverAll;
      WholeJoin(f, bounds[0], bounds[1], bounds[|nodes|]);
      var rest := nodes[1..];
      WholeAll(f, rest, bounds[1..]);
      assert forall i :: 0 <= i < |rest| ==> rest[i] == nodes[i + 1];
      if DeviceOf(f).Full(nodes[0]) && forall i :: 0 <= i < |rest| ==> DeviceOf(f).Full(rest[i]) {
        forall i | 0 <= i < |nodes|
          ensures DeviceOf(f).Full(nodes[i])
        {
          assert i > 0 ==> rest[i - 1] == nodes[i];
        }
      }
    }
  }

  /** A list of nodes is dense exactly if the interval it covers has no gap. */
  lemma {:induction false} DenseAllIs(f: File, nodes: seq<Node>, depth: nat, bounds: seq<nat>)
    requires f.Valid() && CoverAll(f, nodes, bounds) && forall i :: 0 <= i < |nodes| ==> nodes[i].depth <= depth
    ensures DeviceOf(f).DenseAll(nodes, depth) <==> GaplessIn(f, bounds[0], bounds[|nodes|])
  {
    hide Device.Full, Device.Dense;
    if nodes == [] {
      NoBlocks(f, bounds[0]);
    } else {
      var rest, lo, mid, hi := nodes[1..], bounds[0], bounds[1], bounds[|nodes|];
      CoverRest(f, nodes, bounds);
      BoundsGrow(f, rest, bounds[1..]);
      DenseAllIs(f, rest, depth, bounds[1..]);
      hide Whole, GaplessIn, Empty, File.Valid, CoverAll;
      if DeviceOf(f).Full(nodes[0]) {
        WholeThenGapless(f, lo, mid, hi);
      } else {
        GapThenEmpty(f, lo, mid, hi);
        assert forall i :: 1 <= i < |nodes| ==> rest[i - 1] == nodes[i];
        assert forall i :: 0 <= i < |rest| ==> rest[i] == nodes[i + 1];
        if rest == [] {
          NoBlocks(f, mid);
        } else {
          EmptyAll(f, rest, bounds[1..]);
        }
      }
    }
  }

  // Where the trees lie.

  lemma Slot(m: nat, q: nat, r: nat, p: nat)
    requires r < m
    ensures Times(m, p) <= Times(m, q) + r < Times(m, p) + m <==> q == p
  {
    if q < p {
      Scale(m, q + 1, p);
    } else if q > p {
      Scale(m, p + 1, q);
    }
    assert m * (q + 1) == m * q + m && m * (p + 1) == m * p + m;
  }

  lemma Room(m: nat, q: nat, n: nat)
    requires q < n
    ensures Times(m, q) + m <= Times(m, n)
  {
    Scale(m, q + 1, n);
    assert m * (q + 1) == m * q + m;
  }

  /** The block of the file that an entry is for. */
  function BlockOf(per: nat, s: Spot): nat { DIRECT + BlockAt(per, s) }

  lemma AtIs(per: nat, s: Spot)
    ensures s.ref.InSingle? ==> BlockOf(per, s) == DIRECT + s.k
    ensures s.ref.UnderDouble? ==> BlockOf(per, s) == DIRECT + per + Times(per, s.ref.j) + s.k
    ensures s.ref.UnderPair? ==>
      BlockOf(per, s) == DIRECT + per + Times(per, per) + Times(Times(per, per), s.ref.i) + Times(per, s.ref.j) + s.k
  {
  }

  /** A block lies in the interval of a place exactly if its entry is under the place. */
  lemma EntryUnder(f: File, r: Ref, s: Spot)
    requires f.per > 0 && f.InRange(r) && InFile(f, s)
    ensures First(f.per, r) <= BlockOf(f.per, s) < Last(f.per, r) <==> Under(s.ref, r)
  {
    hide Times, BlockOf;
    var per := f.per;
    AtIs(per, s);
    match s.ref
    case InSingle =>
    case UnderDouble(j) => DoubleUnder(f, r, j, s.k);
    case UnderPair(i, j) => PairUnder(f, r, i, j, s.k);
  }

  lemma DoubleUnder(f: File, r: Ref, j: nat, k: nat)
    requires f.InRange(r) && j < f.per && k < f.per
    ensures First(f.per, r) <= DIRECT + f.per + Times(f.per, j) + k < Last(f.per, r) <==> r == InDouble || r == UnderDouble(j)
  {
    hide Times;
    Room(f.per, j, f.per);
    match r
    case UnderDouble(p) => Slot(f.per, j, k, p);
    case _ =>
  }

  lemma PairUnder(f: File, r: Ref, i: nat, j: nat, k: nat)
    requires f.InRange(r) && i < f.per && j < f.per && k < f.per
    ensures var pair := Times(f.per, f.per);
      First(f.per, r) <= DIRECT + f.per + pair + Times(pair, i) + Times(f.per, j) + k < Last(f.per, r) <==> Under(UnderPair(i, j), r)
  {
    hide Times;
    var per, pair := f.per, Times(f.per, f.per);
    Room(per, j, per);
    Room(pair, i, per);
    match r
    case UnderDouble(p) => Room(per, p, per);
    case UnderTriple(p) => Slot(pair, i, Times(per, j) + k, p);
    case UnderPair(p, q) =>
      Room(per, q, per);
      Slot(pair, i, Times(per, j) + k, p);
      Slot(per, j, k, q);
    case _ =>
  }

  lemma BlockUnder(f: File, r: Ref, b: nat)
    requires f.Valid() && f.InRange(r) && DIRECT <= b < f.Reach3()
    ensures First(f.per, r) <= b < Last(f.per, r) <==> Under(f.Where(b - DIRECT).ref, r)
  {
    BlocksAre(f, b);
    WhereRoundTrip(f, b - DIRECT);
    hide First, Last, BlockAt, File.Valid, File.Where, Three;
    EntryUnder(f, r, f.Where(b - DIRECT));
  }

  /** The first entry under a place. */
  function FirstEntry(r: Ref): Spot {
    match r
    case InDouble => Spot(UnderDouble(0), 0)
    case InTriple => Spot(UnderPair(0, 0), 0)
    case UnderTriple(i) => Spot(UnderPair(i, 0), 0)
    case _ => Spot(r, 0)
  }

  lemma FirstIs(f: File, r: Ref)
    requires f.Valid() && f.InRange(r)
    ensures InFile(f, FirstEntry(r)) && First(f.per, r) == BlockOf(f.per, FirstEntry(r))
    ensures First(f.per, r) < f.Reach3() && f.Intended(First(f.per, r)) == f.At(FirstEntry(r))
  {
    AtIs(f.per, FirstEntry(r));
    EntriesAre(f, FirstEntry(r));
  }

  /** A place that begins in the interval of another is under it, or above it. */
  lemma Locate(f: File, q: Ref, r: Ref)
    requires f.Valid() && f.InRange(q) && f.InRange(r) && First(f.per, r) <= First(f.per, q) < Last(f.per, r)
    ensures Under(q, r) || Under(r, q)
  {
    FirstIs(f, q);
    hide First, Last, BlockOf, File.Valid;
    EntryUnder(f, r, FirstEntry(q));
  }

  lemma AboveFirst(per: nat, q: Ref, r: Ref)
    requires Under(r, q)
    ensures First(per, q) <= First(per, r)
  {
    hide Times;
  }

  lemma FirstOfSub(f: File, r: Ref, k: nat)
    requires f.InRange(r) && !Leaf(r)
    ensures First(f.per, Sub(r, k)) == First(f.per, r) + Times(Span(f.per, Levels(r) - 1), k)
    ensures Times(Span(f.per, Levels(r) - 1), f.per) == Span(f.per, Levels(r))
    ensures Times(Span(f.per, Levels(r) - 1), k + 1) == Times(Span(f.per, Levels(r) - 1), k) + Span(f.per, Levels(r) - 1)
    ensures Levels(Sub(r, k)) == Levels(r) - 1
  {
    var m := Span(f.per, Levels(r) - 1);
    assert m * (k + 1) == m * k + m;
  }

  lemma SpansSome(per: nat, r: Ref)
    requires per > 0
    ensures First(per, r) < Last(per, r)
  {
    Square(per);
    Square2(per);
  }

  lemma Square2(m: nat)
    requires m > 0
    ensures m * m * m > 0
  {
    Square(m);
    Positive(m * m, m);
  }

  lemma Positive(m: nat, n: nat)
    requires m > 0 && n > 0
    ensures m * n > 0
  {
  }

  /** Without its pointer block a place leads to nothing. */
  lemma AbsentTree(f: File, r: Ref)
    requires f.Valid() && f.InRange(r) && f.Target(r) == 0
    ensures forall b: nat :: First(f.per, r) <= b < Last(f.per, r) && b < f.Reach3() ==> f.Intended(b) == 0
    ensures forall q :: f.InRange(q) && First(f.per, r) < First(f.per, q) < Last(f.per, r) ==> f.Target(q) == 0
  {
    forall b: nat | First(f.per, r) <= b < Last(f.per, r) && b < f.Reach3()
      ensures f.Intended(b) == 0
    {
      DirectBefore(f.per, r);
      BlockUnder(f, r, b);
      BlocksAre(f, b);
      NothingUnder(f, r, f.Where(b - DIRECT).ref);
    }
    forall q | f.InRange(q) && First(f.per, r) < First(f.per, q) < Last(f.per, r)
      ensures f.Target(q) == 0
    {
      Locate(f, q, r);
      if Under(r, q) {
        AboveFirst(f.per, q, r);
      } else {
        NothingUnder(f, r, q);
      }
    }
  }

  lemma DirectBefore(per: nat, r: Ref)
    ensures First(per, r) >= DIRECT
  {
    hide Times;
  }

  /** An interval is empty exactly without its pointer block, if no place above begins there too. */
  lemma EmptyTree(f: File, r: Ref)
    requires f.Valid() && f.InRange(r) && Last(f.per, r) <= f.Reach3()
    requires forall q :: f.InRange(q) && Under(r, q) && q != r ==> First(f.per, q) < First(f.per, r)
    ensures f.Target(r) == 0 <==> Empty(f, First(f.per, r), Last(f.per, r))
  {
    SpansSome(f.per, r);
    if f.Target(r) == 0 {
      AbsentTree(f, r);
      forall q | f.InRange(q) && First(f.per, r) <= First(f.per, q) < Last(f.per, r)
        ensures f.Target(q) == 0
      {
        Locate(f, q, r);
        if Under(q, r) {
          NothingUnder(f, r, q);
        }
      }
    }
  }

  lemma LastReach(f: File, r: Ref)
    requires f.per > 0 && f.InRange(r)
    ensures Last(f.per, r) <= f.Reach3()
  {
    var per, pair := f.per, Times(f.per, f.per);
    ReachIs(f);
    hide Times, Three;
    match r
    case UnderDouble(j) => Room(per, j, per);
    case UnderTriple(i) => Room(pair, i, per);
    case UnderPair(i, j) =>
      Room(per, j, per);
      Room(pair, i, per);
    case _ =>
  }

  lemma ReachIs(f: File)
    ensures f.Reach3() == DIRECT + f.per + Times(f.per, f.per) + Times(Times(f.per, f.per), f.per)
  {
    Ranges(f.per);
  }

  /** An entry of a last-level pointer block covers its block. */
  lemma EntryCovers(f: File, r: Ref, k: nat)
    requires f.Valid() && f.InRange(r) && Leaf(r) && k < f.per
    ensures var n, b := Node(f.At(Spot(r, k)), 0), First(f.per, r) + k;
      && Covers(f, n, b, b + 1)
      && (k > 0 ==> (n.bl == 0 <==> Empty(f, b, b + 1)))
  {
    var b := First(f.per, r) + k;
    LeafEntry(f, r, k);
    hide First, Times;
    if k > 0 {
      forall q | f.InRange(q)
        ensures First(f.per, q) != b
      {
        if First(f.per, q) == b {
          LeafSpan(f.per, r);
          Locate(f, q, r);
          if Under(r, q) {
            AboveFirst(f.per, q, r);
          }
        }
      }
    }
  }

  lemma LeafSpan(per: nat, r: Ref)
    requires Leaf(r)
    ensures Last(per, r) == First(per, r) + per
  {
  }

  lemma LeafEntry(f: File, r: Ref, k: nat)
    requires f.Valid() && f.InRange(r) && Leaf(r) && k < f.per
    ensures f.Intended(First(f.per, r) + k) == f.At(Spot(r, k)) && First(f.per, r) + k < f.Reach3()
  {
    EntriesAre(f, Spot(r, k));
    AtIs(f.per, Spot(r, k));
  }

  function Bounds(f: File, r: Ref): (b: seq<nat>)
    ensures |b| == f.per + 1
  {
    var m := Span(f.per, Levels(r) - 1);
    seq(f.per + 1, k requires k >= 0 => First(f.per, r) + Times(m, k))
  }

  lemma BoundsEnd(f: File, r: Ref)
    ensures Bounds(f, r)[0] == First(f.per, r) && Bounds(f, r)[f.per] == Last(f.per, r)
  {
    var m := Span(f.per, Levels(r) - 1);
    assert Times(m, 0) == 0 && Times(m, f.per) == Span(f.per, Levels(r));
  }

  /** The tree of a place covers the place's interval. */
  lemma {:induction false} TreeCovers(f: File, r: Ref)
    requires f.Valid() && f.InRange(r)
    ensures Covers(f, Tree(f, r), First(f.per, r), Last(f.per, r))
    decreases Levels(r)
  {
    LastReach(f, r);
    SpansSome(f.per, r);
    if f.Target(r) == 0 {
      AbsentCovers(f, r);
    } else {
      var d, n, c, b := DeviceOf(f), Tree(f, r), DeviceOf(f).Children(Tree(f, r)), Bounds(f, r);
      ChildrenAre(f, r);
      BoundsEnd(f, r);
      forall i, j | 0 <= i < f.per && j == i + 1
        ensures Covers(f, c[i], b[i], b[j])
        ensures i > 0 ==> (c[i].bl == 0 <==> Empty(f, b[i], b[j]))
      {
        if Leaf(r) {
          EntryCovers(f, r, i);
          LeafBounds(f, r, i);
        } else {
          SubTarget(f, r, i);
          TreeCovers(f, Sub(r, i));
          SubBounds(f, r, i);
          if i > 0 {
            SubEmpty(f, r, i);
          }
        }
      }
      hide Covers, Empty, Bounds, First, Last, File.Valid;
      WholeAll(f, c, b);
      DenseAllIs(f, c, n.depth - 1, b);
      FullAbove(d, n);
      hide Device.Full;
      CoversIs(f, n, First(f.per, r), Last(f.per, r));
    }
  }

  lemma CoversIs(f: File, n: Node, lo: nat, hi: nat)
    requires f.Valid() && lo <= hi
    ensures Covers(f, n, lo, hi) <==>
      (DeviceOf(f).Full(n) <==> Whole(f, lo, hi)) && (DeviceOf(f).Dense(n) <==> GaplessIn(f, lo, hi))
  {
  }

  lemma FullAbove(d: Device, n: Node)
    requires n.bl != 0 && n.depth > 0
    ensures d.Full(n) <==> forall i :: 0 <= i < d.per ==> d.Full(d.Children(n)[i])
  {
    assert forall i :: 0 <= i < d.per ==> d.Children(n)[i] == Node(d.Pointers(n.bl)[i], n.depth - 1);
  }

  lemma AbsentCovers(f: File, r: Ref)
    requires f.Valid() && f.InRange(r) && f.Target(r) == 0 && Last(f.per, r) <= f.Reach3() && First(f.per, r) < Last(f.per, r)
    ensures Covers(f, Tree(f, r), First(f.per, r), Last(f.per, r))
  {
    AbsentTree(f, r);
    hide First, Last;
    assert f.Intended(First(f.per, r)) == 0;
  }

  lemma LeafBounds(f: File, r: Ref, k: nat)
    requires Leaf(r) && k < f.per
    ensures Bounds(f, r)[k] == First(f.per, r) + k && Bounds(f, r)[k + 1] == First(f.per, r) + k + 1
  {
  }

  lemma SubBounds(f: File, r: Ref, k: nat)
    requires f.InRange(r) && !Leaf(r) && k < f.per
    ensures Bounds(f, r)[k] == First(f.per, Sub(r, k)) && Bounds(f, r)[k + 1] == Last(f.per, Sub(r, k))
  {
    FirstOfSub(f, r, k);
  }

  lemma SubEmpty(f: File, r: Ref, k: nat)
    requires f.Valid() && f.InRange(r) && !Leaf(r) && 0 < k < f.per
    ensures var q := Sub(r, k); f.Target(q) == 0 <==> Empty(f, First(f.per, q), Last(f.per, q))
  {
    var s := Sub(r, k);
    SubTarget(f, r, k);
    LastReach(f, s);
    forall q | f.InRange(q) && Under(s, q) && q != s
      ensures First(f.per, q) < First(f.per, s)
    {
      AboveSub(r, k, q);
      AboveFirst(f.per, q, r);
      FirstOfSub(f, r, k);
      Steps(Span(f.per, Levels(r) - 1), k);
    }
    EmptyTree(f, s);
  }

  lemma AboveSub(r: Ref, k: nat, q: Ref)
    requires !Leaf(r) && Under(Sub(r, k), q) && q != Sub(r, k)
    ensures Under(r, q)
  {
  }

  lemma Steps(m: nat, k: nat)
    requires k > 0 && m > 0
    ensures Times(m, k) > 0
  {
    Positive(m, k);
  }

  /** Where the intervals of the inode's pointers begin, and the end of the last. */
  function RootBounds(f: File): (b: seq<nat>)
    ensures |b| == 16
  {
    [0, 1, 2, 3, 4, 5, 6, 7, 8, 9, 10, 11, First(f.per, InSingle), First(f.per, InDouble), First(f.per, InTriple), f.Reach3()]
  }

  lemma RootIntervals(f: File)
    requires f.per > 0
    ensures First(f.per, InSingle) == DIRECT && Last(f.per, InSingle) == First(f.per, InDouble)
    ensures Last(f.per, InDouble) == First(f.per, InTriple) && Last(f.per, InTriple) == f.Reach3()
  {
    ReachIs(f);
  }

  lemma DirectCovers(f: File, i: nat)
    requires f.Valid() && i < DIRECT
    ensures var n := Node(f.inode.direct[i], 0); Covers(f, n, i, i + 1) && (n.bl == 0 <==> Empty(f, i, i + 1))
  {
    forall q
      ensures First(f.per, q) >= DIRECT
    {
      DirectBefore(f.per, q);
    }
    hide First;
    assert f.Intended(i) == f.inode.direct[i];
  }

  lemma RootsCover(f: File)
    requires f.Valid()
    ensures CoverAll(f, Roots(f), RootBounds(f))
  {
    var roots, b := Roots(f), RootBounds(f);
    RootsAreTrees(f);
    RootIntervals(f);
    hide File.Valid, Covers, Empty, First, Last, Tree, Three, Roots;
    forall i, j | 0 <= i < 15 && j == i + 1
      ensures Covers(f, roots[i], b[i], b[j])
      ensures roots[i].bl == 0 <==> Empty(f, b[i], b[j])
    {
      if i < 12 {
        DirectCovers(f, i);
      } else {
        RootCovers(f, RootRef(i));
      }
    }
  }

  lemma RootCovers(f: File, r: Ref)
    requires f.Valid() && (r.InSingle? || r.InDouble? || r.InTriple?)
    ensures Covers(f, Tree(f, r), First(f.per, r), Last(f.per, r))
    ensures Tree(f, r).bl == 0 <==> Empty(f, First(f.per, r), Last(f.per, r))
  {
    TreeCovers(f, r);
    LastReach(f, r);
    EmptyTree(f, r);
  }

  /** The walk is dense exactly for files without gaps. */
  lemma WalkIsGapless(f: File)
    requires f.Valid()
    ensures DeviceOf(f).DenseAll(Roots(f), 3) <==> Gapless(f)
  {
    RootsCover(f);
    RootsAreTrees(f);
    hide CoverAll, GaplessIn, First;
    DenseAllIs(f, Roots(f), 3, RootBounds(f));
  }

  /** Truncating a file whose blocks are in use and unshared frees blocks of the file only, keeps the count in
      step, and frees all of them exactly if nothing comes behind a missing block. */
  lemma TruncateFreesFile(f: File, t: Table)
    requires f.Valid() && Unshared(f) && t.Shape() && forall b :: b != 0 && Holds(f, b) ==> Allocated(t, b)
    ensures 0 !in DeviceOf(f).VisitAll(Roots(f), 3).freed
    ensures var freed := DeviceOf(f).VisitAll(Roots(f), 3).freed;
      var u := FreeAll(t, freed);
      && Balance(u) == Balance(t) && u.free == t.free + |freed|
      && (forall b: nat :: Allocated(t, b) && !Allocated(u, b) ==> Holds(f, b))
      && (forall b: nat :: Allocated(u, b) ==> Allocated(t, b))
      && (Gapless(f) <==> forall b: nat :: b != 0 && Holds(f, b) ==> !Allocated(u, b))
  {
    var d, roots := DeviceOf(f), Roots(f);
    var freed, all := d.VisitAll(roots, 3).freed, d.AllOf(roots, 3);
    WalkOnce(f);
    WalkIsGapless(f);
    AllOfNonZero(d, roots, 3);
    forall b: nat
      ensures b in all <==> b != 0 && Holds(f, b)
    {
      if b != 0 {
        WalkCoversFile(f, b);
      }
    }
    hide Holds, Gapless, Unshared, File.Valid, Device.VisitAll, Device.AllOf, Device.DenseAll, Roots;
    NoZeroIn(d, roots, 3);
    VisitAllFreesDense(d, roots, 3);
    VisitAllFreesPart(d, roots, 3);
    FreedOnce(freed, all);
    FreeAllExact(t, freed);
    if forall b: nat :: b in all ==> b in freed {
      FreedAll(freed, all);
    }
  }

  lemma FreedOnce(freed: seq<nat>, all: seq<nat>)
    requires Once(all) && multiset(freed) <= multiset(all)
    ensures forall b :: b in freed ==> b in all && multiset(freed)[b] == 1
  {
    forall b | b in freed
      ensures b in all && multiset(freed)[b] == 1
    {
      assert b in multiset(freed) && b in multiset(all);
    }
  }

  lemma FreedAll(freed: seq<nat>, all: seq<nat>)
    requires Once(all) && multiset(freed) <= multiset(all) && forall b :: b in all ==> b in freed
    ensures |freed| == |all|
  {
    forall b
      ensures multiset(freed)[b] == multiset(all)[b]
    {
      assert b in multiset(freed) <==> b in freed;
      assert b in multiset(all) <==> b in all;
    }
    assert multiset(freed) == multiset(all);
    assert |multiset(freed)| == |freed| && |multiset(all)| == |all|;
  }
}
