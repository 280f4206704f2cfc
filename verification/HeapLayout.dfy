/** The kernel heap seen as a list of blocks: what one call to malloc or free does to the list,
    and what every call keeps. `KernelHeap.dfy` proves the pointer code against this module. */
module HeapLayout {
  import opened Arithmetic

  const HEAP_ALIGN: nat := 16
  const DATA_SIZE: nat := 16
  const TWO32: nat := 0x1_0000_0000

  /** A block: its header's address, the bytes after the header, and whether it is available. */
  datatype Block = Block(addr: nat, size: nat, free: bool) {
    function Data(): nat { addr + DATA_SIZE }
    function End(): nat { addr + DATA_SIZE + size }
  }

  predicate Aligned(n: int) { n % HEAP_ALIGN == 0 }

  lemma AlignedSum(a: int, b: int)
    requires Aligned(a) && Aligned(b)
    ensures Aligned(a + b) && Aligned(a - b)
  {
  }

  lemma AlignedNext(n: int)
    requires Aligned(n)
    ensures Aligned(n + DATA_SIZE) && Aligned(n - DATA_SIZE)
  {
  }

  /** Subtraction of two `size_t` values. */
  function Sub32(a: int, b: int): nat { (a - b) % TWO32 }

  function RoundUp(size: nat): nat
    requires size > 0
  {
    ((size - 1) / HEAP_ALIGN + 1) * HEAP_ALIGN
  }

  function Pow2(p: nat): (m: nat)
    ensures m > 0
  {
    if p == 0 then 1 else 2 * Pow2(p - 1)
  }

  /** The number of times `align` can be shifted right before it becomes zero, less one. */
  function Log2(align: nat): nat
    requires align > 0
  {
    if align == 1 then 0 else 1 + Log2(align / 2)
  }

  /** The power of two the data is aligned to, as an exponent. */
  function Power(align: nat): nat
    requires align > 0
  {
    if Log2(align) < 4 then 4 else Log2(align)
  }

  /** Where the data would begin if the block's data started at `s`. */
  function AlignedStart(s: nat, align: nat): nat
    requires s > 0
  {
    if align == 0 then s else ((s - 1) / Pow2(Power(align)) + 1) * Pow2(Power(align))
  }

  // ---------- well-formed lists ----------

  ghost predicate Tiled(bs: seq<Block>) {
    && |bs| > 0
    && bs[0].addr > 0
    && (forall i :: 0 <= i < |bs| ==> Aligned(bs[i].addr))
    && (forall i :: 0 <= i < |bs| - 1 ==> bs[i].size >= HEAP_ALIGN && Aligned(bs[i].size))
    && (forall i, j :: 0 <= i < j < |bs| && j == i + 1 ==> bs[j].addr == bs[i].End())
    && bs[|bs| - 1].size == 0 && bs[|bs| - 1].free
  }

  /** The whole of the address arithmetic of a request stays below 2^32. */
  predicate InRange(bs: seq<Block>, size: nat, align: nat)
    requires |bs| > 0
  {
    bs[|bs| - 1].addr + 2 * DATA_SIZE + size + align < TWO32
  }

  /** The test by which the search takes a block. */
  predicate Accepts(b: Block, size: nat, align: nat) {
    && b.free
    && size <= b.size
    && (align == 0 || size <= Sub32(b.End(), AlignedStart(b.Data(), align)))
  }

  /** The aligned start lies beyond the block, so the subtraction in the test wraps. */
  predicate Overshoots(b: Block, align: nat) {
    AlignedStart(b.Data(), align) > b.End()
  }

  /** Index of the block the search stops at; the last index when it finds none. */
  function FirstFit(bs: seq<Block>, from: nat, size: nat, align: nat): (k: nat)
    requires from < |bs|
    ensures from <= k < |bs|
    decreases |bs| - from
  {
    if from == |bs| - 1 || Accepts(bs[from], size, align) then from
    else FirstFit(bs, from + 1, size, align)
  }

  // ---------- malloc ----------

  /** Everything below the block taken at `k`, once its data has been moved up by `gap`. */
  function Front(bs: seq<Block>, k: nat, gap: nat, spare: nat): seq<Block>
    requires k < |bs|
    requires spare >= DATA_SIZE
  {
    if gap == 0 then bs[..k]
    else if gap >= spare then bs[..k] + [Block(bs[k].addr, gap - DATA_SIZE, true)]
    else if k == 0 then []
    else bs[..k - 1] + [bs[k - 1].(size := bs[k - 1].size + gap)]
  }

  function Back(start: nat, end: nat, size: nat): seq<Block>
    requires DATA_SIZE <= start <= end
    requires size <= end - start
  {
    if end - start >= size + DATA_SIZE + HEAP_ALIGN then
      [Block(start - DATA_SIZE, size, false), Block(start + size, end - start - size - DATA_SIZE, true)]
    else
      [Block(start - DATA_SIZE, end - start, false)]
  }

  /** The list after block `k` has been taken for a request whose data begins at `at`. */
  function Carve(bs: seq<Block>, k: nat, size: nat, at: nat): seq<Block>
    requires k < |bs|
    requires bs[k].Data() <= at <= bs[k].End()
    requires size <= bs[k].End() - at
  {
    Front(bs, k, at - bs[k].Data(), DATA_SIZE + HEAP_ALIGN) + Back(at, bs[k].End(), size) + bs[k + 1..]
  }

  /** The list after a new block, with its data at `at`, has been made at the end of the heap. */
  function Extend(bs: seq<Block>, size: nat, at: nat): seq<Block>
    requires |bs| > 0 && bs[|bs| - 1].Data() <= at
  {
    Front(bs, |bs| - 1, at - bs[|bs| - 1].Data(), 2 * DATA_SIZE + HEAP_ALIGN)
    + [Block(at - DATA_SIZE, size, false), Block(at + size, 0, true)]
  }

  // ---------- free ----------

  /** Joins block `i` with the run of available blocks after it, but never with the last one. */
  function Merge(bs: seq<Block>, i: nat): seq<Block>
    requires i < |bs|
    decreases |bs|
  {
    if i + 2 < |bs| && bs[i + 1].free then
      Merge(bs[..i] + [bs[i].(size := bs[i].size + DATA_SIZE + bs[i + 1].size)] + bs[i + 2..], i)
    else bs
  }

  function Release(bs: seq<Block>, i: nat): seq<Block>
    requires i < |bs|
  {
    Merge(bs[i := bs[i].(free := true)], i)
  }

  // ---------- alignment ----------

  lemma Pow2Positive(p: nat)
    ensures Pow2(p) > 0
    ensures p >= 4 ==> Aligned(Pow2(p))
  {
    if p == 4 {
      assert Pow2(4) == 16;
    } else if p > 4 {
      Pow2Positive(p - 1);
      MultipleOf16(2, Pow2(p - 1));
    }
  }

  lemma {:induction false} Log2Bounds(align: nat)
    requires align > 0
    ensures Pow2(Log2(align)) <= align < 2 * Pow2(Log2(align))
  {
    if align > 1 {
      Log2Bounds(align / 2);
    }
  }

  /** For a power of two the shifts find its exponent, so the data is aligned to the request itself. */
  lemma {:induction false} Log2OfPow2(q: nat)
    ensures Pow2(q) > 0 && Log2(Pow2(q)) == q
  {
    if q > 0 {
      Log2OfPow2(q - 1);
    }
  }

  /** An address that is aligned already stays where it is. */
  lemma AlignedStartFixed(s: nat, align: nat)
    requires s > 0 && align > 0 && s % Pow2(Power(align)) == 0
    ensures AlignedStart(s, align) == s
  {
    var m := Pow2(Power(align));
    var q := s / m;
    assert s == q * m;
    assert q > 0;
    assert s - 1 == (q - 1) * m + (m - 1);
    QuotientIs(s - 1, m, q - 1, m - 1);
  }

  lemma AlignedStartBounds(s: nat, align: nat)
    requires s > 0 && Aligned(s)
    ensures s <= AlignedStart(s, align) <= s + align
    ensures align > 0 ==> AlignedStart(s, align) < s + Pow2(Power(align))
    ensures Aligned(AlignedStart(s, align))
    ensures align > 0 ==> AlignedStart(s, align) % Pow2(Power(align)) == 0
  {
    if align > 0 {
      var m, at := Pow2(Power(align)), AlignedStart(s, align);
      CeilMultiple(s, m);
      Pow2Positive(Power(align));
      MultipleOf16((s - 1) / m + 1, m);
      if Power(align) == 4 {
        assert Pow2(4) == 16;
        assert at == s;
      } else {
        Log2Bounds(align);
      }
    }
  }

  lemma RoundUpBounds(n: nat)
    requires n > 0
    ensures n <= RoundUp(n) < n + HEAP_ALIGN
    ensures Aligned(RoundUp(n)) && RoundUp(n) >= HEAP_ALIGN
  {
    CeilMultiple(n, HEAP_ALIGN);
  }

  // ---------- segments ----------

  /** Blocks that exactly fill the addresses from `lo` to `hi`. */
  ghost predicate Segment(bs: seq<Block>, lo: nat, hi: nat) {
    && Aligned(lo) && Aligned(hi)
    && (|bs| == 0 ==> lo == hi)
    && (|bs| > 0 ==> bs[0].addr == lo && bs[|bs| - 1].End() == hi)
    && (forall i :: 0 <= i < |bs| ==> Aligned(bs[i].addr))
    && (forall i :: 0 <= i < |bs| ==> bs[i].size >= HEAP_ALIGN && Aligned(bs[i].size))
    && (forall i, j :: 0 <= i < j < |bs| && j == i + 1 ==> bs[j].addr == bs[i].End())
  }

  lemma SegmentJoin(a: seq<Block>, b: seq<Block>, lo: nat, mid: nat, hi: nat)
    requires Segment(a, lo, mid) && Segment(b, mid, hi)
    ensures Segment(a + b, lo, hi)
  {
  }

  lemma TiledSplit(bs: seq<Block>, k: nat)
    requires Tiled(bs) && k < |bs|
    ensures Segment(bs[..k], bs[0].addr, bs[k].addr)
    ensures Segment(bs[k..|bs| - 1], bs[k].addr, bs[|bs| - 1].addr)
  {
  }

  /** Blocks of a tiled list never overlap: an earlier one ends before a later one begins. */
  lemma {:induction false} BlocksDisjoint(bs: seq<Block>, i: nat, j: nat)
    requires Tiled(bs) && i < j < |bs|
    ensures bs[i].End() <= bs[j].addr
    decreases j - i
  {
    if i + 1 < j {
      BlocksDisjoint(bs, i + 1, j);
    }
  }
}
