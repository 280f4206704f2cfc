/** The page frame allocator: a bitmap of used pages, kept in words of 32 bits. */
module PageFrames {

  const PAGE: nat := 4096
  const WORDS: nat := 32768
  const FRAMES: nat := 1048576

  /** The words of the bitmap, bit by bit; a set bit is a used page. */
  type Bitmap = seq<seq<bool>>

  ghost predicate Shape(m: Bitmap) {
    |m| == WORDS && forall i :: 0 <= i < WORDS ==> |m[i]| == 32
  }

  predicate Used(m: Bitmap, p: nat)
    requires |m| == WORDS && p < FRAMES && |m[p / 32]| == 32
  {
    m[p / 32][p % 32]
  }

  function Word(b: bool): (w: seq<bool>)
    ensures |w| == 32 && forall k :: 0 <= k < 32 ==> w[k] == b
  {
    seq(32, _ => b)
  }

  function SetBit(m: Bitmap, p: nat, b: bool): (r: Bitmap)
    requires Shape(m) && p < FRAMES
    ensures Shape(r) && forall q :: 0 <= q < FRAMES ==> Used(r, q) == if q == p then b else Used(m, q)
  {
    m[p / 32 := m[p / 32][p % 32 := b]]
  }

  function SetWord(m: Bitmap, i: nat, b: bool): (r: Bitmap)
    requires Shape(m) && i < WORDS
    ensures Shape(r) && forall q :: 0 <= q < FRAMES ==> Used(r, q) == if q / 32 == i then b else Used(m, q)
  {
    m[i := Word(b)]
  }

  // The memory map.

  datatype Kind = Available | Invalid | Reserved

  datatype Region = Region(kind: Kind, base: nat, length: nat) {

    predicate Valid() { base < 0x1_0000_0000 }

    /** The end of the region, as 32-bit addresses count. */
    function End(): nat { (base + length) % 0x1_0000_0000 }

    /** The first whole page of available memory; the page of the start of any other. */
    function Low(): nat {
      if kind == Available && base % PAGE != 0 then base / PAGE + 1 else base / PAGE
    }

    /** The page behind the last whole page of available memory; behind the last page of any other. */
    function High(): nat {
      var high := if kind != Available && End() % PAGE != 0 then End() / PAGE + 1 else End() / PAGE;
      if high == 0 && Low() != 0 then FRAMES else high
    }

    /** Whether the words that `pfa_read_map` writes for available memory are in the table. */
    predicate InTable() { Low() / 32 < WORDS && High() / 32 < WORDS }
  }

  /** What the pass over available memory makes of a page, for one region: it rewrites the words of both
      ends, the upper one last. */
  predicate AfterAvailable(r: Region, p: nat, used: bool) {
    if p / 32 == r.High() / 32 then p >= r.High()
    else if p / 32 == r.Low() / 32 then p < r.Low()
    else if r.Low() / 32 < p / 32 < r.High() / 32 then false
    else used
  }

  /** What the pass over the other regions makes of a page, for one region. */
  predicate AfterReserved(r: Region, p: nat, used: bool) {
    used || (p >= r.Low() && p / 32 == r.Low() / 32) || r.Low() / 32 < p / 32 < r.High() / 32
    || (p / 32 == r.High() / 32 && p < r.High())
  }

  predicate FirstPass(regions: seq<Region>, k: nat, p: nat)
    requires k <= |regions|
  {
    if k == 0 then true
    else if regions[k - 1].kind == Available then AfterAvailable(regions[k - 1], p, FirstPass(regions, k - 1, p))
    else FirstPass(regions, k - 1, p)
  }

  predicate SecondPass(regions: seq<Region>, k: nat, p: nat)
    requires k <= |regions|
  {
    if k == 0 then FirstPass(regions, |regions|, p)
    else if regions[k - 1].kind == Reserved then AfterReserved(regions[k - 1], p, SecondPass(regions, k - 1, p))
    else SecondPass(regions, k - 1, p)
  }

  /** An available region frees no page outside it exactly if it reaches into another word, or starts or
      ends at a word. */
  predicate Careful(r: Region) {
    r.Low() / 32 < r.High() / 32 || (r.Low() / 32 == r.High() / 32 && (r.Low() % 32 == 0 || r.High() % 32 == 0))
  }

  lemma CarefulExactly(r: Region)
    requires r.InTable()
    ensures (forall p :: 0 <= p < FRAMES && !AfterAvailable(r, p, true) ==> r.Low() <= p < r.High()) <==> Careful(r)
  {
    var low, high := r.Low(), r.High();
    if !Careful(r) {
      var p := if low / 32 == high / 32 then low / 32 * 32 else low;
      assert !AfterAvailable(r, p, true);
    }
  }

  predicate Inside(r: Region, p: nat) { r.Low() <= p < r.High() }

  /** After both passes a page that is free lies in an available region, if those are all careful, and in
      no reserved one. */
  lemma {:induction false} FreeIsAvailable(regions: seq<Region>, k: nat, p: nat)
    requires k <= |regions| && p < FRAMES && !FirstPass(regions, k, p)
    requires forall j :: 0 <= j < |regions| && regions[j].kind == Available ==> regions[j].InTable() && Careful(regions[j])
    ensures exists j :: 0 <= j < k && regions[j].kind == Available && Inside(regions[j], p)
  {
    var r := regions[k - 1];
    if r.kind == Available {
      CarefulExactly(r);
      if AfterAvailable(r, p, true) {
        FreeIsAvailable(regions, k - 1, p);
      } else {
        assert Inside(r, p);
      }
    } else {
      FreeIsAvailable(regions, k - 1, p);
    }
  }

  /** A page outside an available region whose word it rewrites as free: one in front of the region in the word
      it ends in, or one behind a start that lies behind the end. */
  predicate Stray(r: Region, p: nat) {
    || (p / 32 == r.High() / 32 && p < r.High() && p < r.Low())
    || (p / 32 == r.Low() / 32 && r.Low() / 32 != r.High() / 32 && p >= r.Low() && p >= r.High())
  }

  /** The last available region that rewrites a page, below `k`, frees it. */
  ghost predicate FreedBy(regions: seq<Region>, k: nat, j: nat, p: nat)
    requires k <= |regions|
  {
    && j < k && regions[j].kind == Available && !AfterAvailable(regions[j], p, true)
    && forall i :: j < i < k && regions[i].kind == Available ==> !AfterAvailable(regions[i], p, false)
  }

  lemma {:induction false} FirstPassExactly(regions: seq<Region>, k: nat, p: nat)
    requires k <= |regions|
    ensures !FirstPass(regions, k, p) <==> exists j: nat :: FreedBy(regions, k, j, p)
  {
    hide AfterAvailable;
    if k > 0 {
      FirstPassExactly(regions, k - 1, p);
      AfterAvailableCases(regions[k - 1], p);
      var m: nat := k - 1;
      if j: nat :| FreedBy(regions, m, j, p) {
        if regions[k - 1].kind != Available || !AfterAvailable(regions[k - 1], p, false) {
          assert FreedBy(regions, k, j, p);
        }
      }
      if j: nat :| FreedBy(regions, k, j, p) {
        if j < k - 1 {
          assert FreedBy(regions, k - 1, j, p);
        }
      }
      if regions[k - 1].kind == Available && !AfterAvailable(regions[k - 1], p, true) {
        assert FreedBy(regions, k, k - 1, p);
      }
    }
  }

  lemma AfterAvailableCases(r: Region, p: nat)
    ensures AfterAvailable(r, p, false) ==> AfterAvailable(r, p, true)
  {
  }

  /** The second pass only marks pages. */
  lemma {:induction false} SecondPassExactly(regions: seq<Region>, k: nat, p: nat)
    requires k <= |regions|
    ensures SecondPass(regions, k, p) <==>
      (FirstPass(regions, |regions|, p)
       || exists j :: 0 <= j < k && regions[j].kind == Reserved && AfterReserved(regions[j], p, false))
  {
    if k > 0 {
      SecondPassExactly(regions, k - 1, p);
    }
  }

  /** A page that an available region marks used: in the words of its two ends, what lies outside of it, save for
      stray pages. */
  predicate Marks(r: Region, p: nat) {
    || (p / 32 == r.High() / 32 && p >= r.High())
    || (p / 32 == r.Low() / 32 && r.Low() / 32 != r.High() / 32 && p < r.Low())
  }

  /** A page that a reserved region marks used: one inside it; any page of its word, if it lies in one; and the
      pages at both ends of a region that wraps. */
  predicate Takes(r: Region, p: nat) {
    || Inside(r, p)
    || (p / 32 == r.Low() / 32 == r.High() / 32 && (p >= r.Low() || p < r.High()))
    || (r.Low() / 32 > r.High() / 32 && ((p / 32 == r.Low() / 32 && p >= r.Low()) || (p / 32 == r.High() / 32 && p < r.High())))
  }

  /** The pages that each pass rewrites, by the region and the words of its ends. */
  lemma PassesExactly(r: Region, p: nat)
    ensures !AfterAvailable(r, p, true) <==> Inside(r, p) || Stray(r, p)
    ensures AfterAvailable(r, p, false) <==> Marks(r, p)
    ensures AfterReserved(r, p, false) <==> Takes(r, p)
  {
  }

  /** The pages inside a region: of available memory those that lie in it as a whole, of any other those that have
      a byte in it. A region inside page zero, behind its start, is taken for one that ends with the address space. */
  lemma InsideExactly(r: Region, p: nat)
    requires r.Valid() && r.length > 0 && r.base + r.length < 0x1_0000_0000
    ensures r.kind == Available && (r.base == 0 || r.base + r.length >= PAGE) ==>
      (Inside(r, p) <==> r.base <= p * PAGE && (p + 1) * PAGE <= r.base + r.length)
    ensures r.kind == Available && 0 < r.base && r.base + r.length < PAGE ==> r.High() == FRAMES && !r.InTable()
    ensures r.kind != Available ==> (Inside(r, p) <==> p * PAGE < r.base + r.length && r.base < (p + 1) * PAGE)
  {
    assert r.End() == r.base + r.length;
    hide Region.End;
    if r.kind == Available {
      AvailablePages(r, p);
    } else {
      ReservedPages(r, p);
    }
  }

  lemma AvailablePages(r: Region, p: nat)
    requires r.kind == Available && r.End() == r.base + r.length && r.length > 0
    ensures r.base == 0 || r.End() >= PAGE ==>
      (r.Low() <= p <==> r.base <= p * PAGE) && (p < r.High() <==> (p + 1) * PAGE <= r.End())
    ensures 0 < r.base && r.End() < PAGE ==> r.High() == FRAMES
  {
    hide Region.End;
    PageOf(r.base, p);
    PageOf(r.End(), p);
  }

  lemma ReservedPages(r: Region, p: nat)
    requires r.kind != Available && r.End() == r.base + r.length && r.length > 0
    ensures (r.Low() <= p <==> r.base < (p + 1) * PAGE) && (p < r.High() <==> p * PAGE < r.End())
  {
    hide Region.End;
    PageOf(r.base, p);
    PageOf(r.End(), p);
  }

  /** The page of an address, rounded down and up. */
  lemma PageOf(a: nat, p: nat)
    ensures a / PAGE <= p <==> a < (p + 1) * PAGE
    ensures (if a % PAGE == 0 then a / PAGE else a / PAGE + 1) <= p <==> a <= p * PAGE
    ensures p < a / PAGE <==> (p + 1) * PAGE <= a
  {
  }

  lemma {:induction false} ReservedIsUsed(regions: seq<Region>, k: nat, j: nat, p: nat)
    requires j < k <= |regions| && p < FRAMES && regions[j].kind == Reserved && Inside(regions[j], p)
    ensures SecondPass(regions, k, p)
  {
    if j < k - 1 {
      ReservedIsUsed(regions, k - 1, j, p);
    }
  }

  lemma {:induction false} SecondPassKeeps(regions: seq<Region>, k: nat, p: nat)
    requires k <= |regions| && !SecondPass(regions, k, p)
    ensures !FirstPass(regions, |regions|, p)
  {
    if k > 0 {
      SecondPassKeeps(regions, k - 1, p);
    }
  }
}
