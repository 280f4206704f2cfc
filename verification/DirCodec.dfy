/** The directory entries of ext2, as bytes of the directory's file. */
module DirCodec {
  import opened Arithmetic

  type Byte = x: nat | x < 256

  /** An entry as it is kept in memory. `low` and `high` are the two bytes that follow its size. */
  datatype Entry = Entry(inode: nat, size: nat, low: Byte, high: Byte, name: seq<Byte>) {

    predicate Valid() { inode < 0x1_0000_0000 && size < 65536 }
  }

  /** The length of an entry's name. With a type field, its second byte is the type. */
  function NameLength(low: Byte, high: Byte, hasType: bool): nat {
    if hasType then low else (low as nat) + 256 * (high as nat)
  }

  predicate Named(e: Entry, hasType: bool) {
    |e.name| == NameLength(e.low, e.high, hasType)
  }

  function Word16(x: nat): seq<Byte>
    requires x < 65536
  {
    [x % 256, x / 256]
  }

  function Word32(x: nat): seq<Byte>
    requires x < 0x1_0000_0000
  {
    Word16(x % 65536) + Word16(x / 65536)
  }

  function Read16(s: seq<Byte>): nat
    requires |s| >= 2
  {
    (s[0] as nat) + 256 * (s[1] as nat)
  }

  function Read32(s: seq<Byte>): nat
    requires |s| >= 4
  {
    Read16(s) + 65536 * Read16(s[2..])
  }

  /** A read that the file may be too short for: the buffer was filled with zeros. */
  function Buffer(s: seq<Byte>, n: nat): (b: seq<Byte>)
    ensures |b| == n && (n <= |s| ==> b == s[..n])
  {
    if n <= |s| then s[..n] else s + seq(n - |s|, _ => 0)
  }

  function Skip(s: seq<Byte>, n: nat): (r: seq<Byte>)
    ensures |r| <= |s| && (0 < n && s != [] ==> |r| < |s|)
  {
    if n <= |s| then s[n..] else []
  }

  /** What is read of a directory; not `complete` if an entry's size does not cover its own fields. */
  datatype Listing = Listing(entries: seq<Entry>, complete: bool)

  function Parse(s: seq<Byte>, hasType: bool): Listing
    decreases |s|
  {
    if |s| < 6 then Listing([], true)
    else
      var inode, size := Read32(s), Read16(s[4..]);
      if inode == 0 then
        if size < 6 then Listing([], false) else Parse(Skip(s, size), hasType)
      else if |s| < 8 then Listing([], true)
      else
        var length := NameLength(s[6], s[7], hasType);
        if size < 8 + length then Listing([], false)
        else
          var rest := Parse(Skip(s, size), hasType);
          Listing([Entry(inode, size, s[6], s[7], Buffer(s[8..], length))] + rest.entries, rest.complete)
  }

  /** The bytes of an entry. */
  function Bytes(e: Entry): seq<Byte>
    requires e.Valid() && e.size >= 8 + |e.name|
  {
    Word32(e.inode) + Word16(e.size) + [e.low, e.high] + e.name + seq(e.size - 8 - |e.name|, _ => 0)
  }

  /** The size an entry needs: its fields and its name, rounded up to a multiple of four. */
  function Base(e: Entry, hasType: bool): (n: nat)
    ensures n % 4 == 0 && 8 + NameLength(e.low, e.high, hasType) <= n < 12 + NameLength(e.low, e.high, hasType)
  {
    var n := 8 + NameLength(e.low, e.high, hasType);
    if n % 4 != 0 then n + (4 - n % 4) else n
  }

  /** The size written for an entry at `pos`. When the next entry would come into another block, a block is
      added, less the part of it before `pos`; the comment beside it asks for the rest of the block only. */
  function SizeAt(pos: nat, base: nat, next: nat, bl: nat): nat
    requires bl > 0
  {
    if Block(pos + base, bl) != Block(pos + base + next, bl) then base + Rest(pos, bl) else base
  }

  /** The block a position is in. */
  function Block(pos: nat, bl: nat): nat
    requires bl > 0
  {
    pos / bl
  }

  /** How much of its block is left at a position. */
  function Rest(pos: nat, bl: nat): (n: nat)
    requires bl > 0
    ensures 0 < n <= bl
  {
    bl - pos % bl
  }

  /** The entries with the sizes that `flush` writes, the first of them at `pos`. */
  function Layout(es: seq<Entry>, hasType: bool, bl: nat, pos: nat): (r: seq<Entry>)
    requires bl > 0
    ensures |r| == |es|
  {
    if es == [] then []
    else
      var base := Base(es[0], hasType);
      var size := if |es| == 1 then base else SizeAt(pos, base, Base(es[1], hasType), bl);
      [es[0].(size := size)] + Layout(es[1..], hasType, bl, pos + size)
  }

  /** Entries whose sizes stay within sixteen bits when they are written. */
  predicate Fits(es: seq<Entry>, hasType: bool, bl: nat) {
    forall i :: 0 <= i < |es| ==>
      es[i].inode < 0x1_0000_0000 && Named(es[i], hasType) && Base(es[i], hasType) + bl < 65536
  }

  predicate Writable(es: seq<Entry>) {
    forall i :: 0 <= i < |es| ==> es[i].Valid() && es[i].size >= 8 + |es[i].name|
  }

  function AllBytes(es: seq<Entry>): seq<Byte>
    requires Writable(es)
  {
    if es == [] then [] else Bytes(es[0]) + AllBytes(es[1..])
  }

  /** The entries a reader sees: those with an inode. */
  function Live(es: seq<Entry>): seq<Entry> {
    if es == [] then [] else (if es[0].inode == 0 then [] else [es[0]]) + Live(es[1..])
  }

  lemma WordsRead(x: nat, y: nat, tail: seq<Byte>)
    requires x < 0x1_0000_0000 && y < 65536
    ensures Read32(Word32(x) + Word16(y) + tail) == x
    ensures Read16((Word32(x) + Word16(y) + tail)[4..]) == y
  {
  }

  lemma FieldsRead(e: Entry, tail: seq<Byte>)
    requires e.Valid() && e.size >= 8 + |e.name|
    ensures var s := Bytes(e) + tail;
      && |s| >= 8 && Read32(s) == e.inode && Read16(s[4..]) == e.size && s[6] == e.low && s[7] == e.high
      && Buffer(s[8..], |e.name|) == e.name && Skip(s, e.size) == tail
  {
    var s := Bytes(e) + tail;
    var zeros: seq<Byte> := seq(e.size - 8 - |e.name|, _ => 0);
    var rest := [e.low, e.high] + (e.name + (zeros + tail));
    assert s == Word32(e.inode) + Word16(e.size) + rest;
    WordsRead(e.inode, e.size, rest);
    assert s[8..] == e.name + (zeros + tail);
  }

  lemma OneEntryReads(e: Entry, tail: seq<Byte>, hasType: bool)
    requires e.Valid() && Named(e, hasType) && e.size >= 8 + |e.name|
    ensures var rest := Parse(tail, hasType);
      Parse(Bytes(e) + tail, hasType) ==
      Listing((if e.inode == 0 then [] else [e]) + rest.entries, rest.complete)
  {
    hide Bytes, Read16, Read32, Buffer, Skip;
    FieldsRead(e, tail);
  }

  /** Reading the bytes of entries gives back the entries that have an inode. */
  lemma {:induction false} ParseAllBytes(es: seq<Entry>, hasType: bool)
    requires Writable(es) && forall i :: 0 <= i < |es| ==> Named(es[i], hasType)
    ensures Parse(AllBytes(es), hasType) == Listing(Live(es), true)
  {
    if es != [] {
      ParseAllBytes(es[1..], hasType);
      OneEntryReads(es[0], AllBytes(es[1..]), hasType);
    }
  }

  // Sizes and positions.

  function TotalSize(es: seq<Entry>): nat {
    if es == [] then 0 else es[0].size + TotalSize(es[1..])
  }

  function TotalBase(es: seq<Entry>, hasType: bool): nat {
    if es == [] then 0 else Base(es[0], hasType) + TotalBase(es[1..], hasType)
  }

  /** The entries without their sizes, which are worked out anew for every flush. */
  function Unsized(es: seq<Entry>): seq<Entry> {
    if es == [] then [] else [es[0].(size := 0)] + Unsized(es[1..])
  }

  lemma RestDivides(pos: nat, bl: nat)
    requires bl > 0 && bl % 4 == 0 && pos % 4 == 0
    ensures Rest(pos, bl) % 4 == 0
  {
    FourTimes(bl / 4, pos / bl);
    Remainder(pos, bl * (pos / bl), pos % bl);
    Remainder(bl, pos % bl, Rest(pos, bl));
  }

  lemma Remainder(x: nat, y: nat, r: nat)
    requires x % 4 == 0 && y % 4 == 0 && x == y + r
    ensures r % 4 == 0
  {
  }

  lemma FourTimes(m: nat, q: nat)
    ensures (4 * m) * q == 4 * (m * q) && ((4 * m) * q) % 4 == 0
  {
    assert (4 * m) * q == 4 * (m * q);
  }

  lemma LayoutStep(es: seq<Entry>, hasType: bool, bl: nat, pos: nat)
    requires bl > 0 && es != []
    ensures var base, r := Base(es[0], hasType), Layout(es, hasType, bl, pos);
      && r[0] == es[0].(size := if |es| == 1 then base else SizeAt(pos, base, Base(es[1], hasType), bl))
      && r[1..] == Layout(es[1..], hasType, bl, pos + r[0].size)
  {
  }

  /** The sizes written cover each entry. */
  lemma {:induction false} LayoutFits(es: seq<Entry>, hasType: bool, bl: nat, pos: nat)
    requires bl > 0 && Fits(es, hasType, bl)
    ensures var r := Layout(es, hasType, bl, pos);
      Writable(r) && forall i :: 0 <= i < |r| ==> Named(r[i], hasType)
  {
    if es != [] {
      hide Block, Rest, Base;
      var base := Base(es[0], hasType);
      var size := Layout(es, hasType, bl, pos)[0].size;
      assert Named(es[0], hasType) && es[0].inode < 0x1_0000_0000 && base + bl < 65536;
      assert Fits(es[1..], hasType, bl);
      LayoutFits(es[1..], hasType, bl, pos + size);
      Rejoin(Layout(es, hasType, bl, pos), hasType);
    }
  }

  lemma Rejoin(r: seq<Entry>, hasType: bool)
    requires r != [] && r[0].Valid() && r[0].size >= 8 + |r[0].name| && Named(r[0], hasType)
    requires Writable(r[1..]) && forall i :: 0 <= i < |r| - 1 ==> Named(r[1..][i], hasType)
    ensures Writable(r) && forall i :: 0 <= i < |r| ==> Named(r[i], hasType)
  {
    forall i | 0 <= i < |r|
      ensures r[i].Valid() && r[i].size >= 8 + |r[i].name| && Named(r[i], hasType)
    {
      if i > 0 {
        assert r[i] == r[1..][i - 1];
      }
    }
  }

  /** The sizes written are multiples of four, and nothing but the size of an entry changes. */
  lemma {:induction false} LayoutAligned(es: seq<Entry>, hasType: bool, bl: nat, pos: nat)
    requires bl > 0 && bl % 4 == 0 && pos % 4 == 0
    ensures var r := Layout(es, hasType, bl, pos); forall i :: 0 <= i < |r| ==> r[i].size % 4 == 0
  {
    if es != [] {
      hide Block, Rest, Base, Layout;
      RestDivides(pos, bl);
      LayoutStep(es, hasType, bl, pos);
      var r := Layout(es, hasType, bl, pos);
      FourAdds(Base(es[0], hasType), Rest(pos, bl));
      FourAdds(pos, r[0].size);
      LayoutAligned(es[1..], hasType, bl, pos + r[0].size);
      forall i | 0 <= i < |r|
        ensures r[i].size % 4 == 0
      {
        if i > 0 {
          assert r[i] == r[1..][i - 1];
        }
      }
    }
  }

  lemma FourAdds(a: nat, b: nat)
    requires a % 4 == 0 && b % 4 == 0
    ensures (a + b) % 4 == 0
  {
  }

  lemma {:induction false} LayoutLive(es: seq<Entry>, hasType: bool, bl: nat, pos: nat)
    requires bl > 0
    ensures Unsized(Live(Layout(es, hasType, bl, pos))) == Unsized(Live(es))
  {
    if es != [] {
      hide Block, Rest, Base;
      LayoutLive(es[1..], hasType, bl, pos + Layout(es, hasType, bl, pos)[0].size);
      UnsizedJoins(es[0], Live(es[1..]));
      UnsizedJoins(Layout(es, hasType, bl, pos)[0], Live(Layout(es, hasType, bl, pos)[1..]));
    }
  }

  lemma UnsizedJoins(e: Entry, es: seq<Entry>)
    ensures Unsized([e] + es) == [e.(size := 0)] + Unsized(es) && Unsized([] + es) == Unsized(es)
  {
    assert [] + es == es;
  }

  lemma {:induction false} SizesChain(es: seq<Entry>)
    requires Writable(es)
    ensures |AllBytes(es)| == TotalSize(es)
  {
    if es != [] {
      SizesChain(es[1..]);
    }
  }

  /** Flushing and reading again gives the same entries, those without an inode left out, in a file that
      their sizes fill exactly. */
  lemma RoundTrip(es: seq<Entry>, hasType: bool, bl: nat)
    requires bl > 0 && Fits(es, hasType, bl)
    ensures var r := Layout(es, hasType, bl, 0);
      && Writable(r) && |AllBytes(r)| == TotalSize(r)
      && Parse(AllBytes(r), hasType) == Listing(Live(r), true)
      && Unsized(Live(r)) == Unsized(Live(es))
      && (bl % 4 == 0 ==> forall i :: 0 <= i < |r| ==> r[i].size % 4 == 0)
  {
    if bl % 4 == 0 {
      LayoutAligned(es, hasType, bl, 0);
    }
    LayoutFits(es, hasType, bl, 0);
    LayoutLive(es, hasType, bl, 0);
    ParseAllBytes(Layout(es, hasType, bl, 0), hasType);
    SizesChain(Layout(es, hasType, bl, 0));
  }

  /** Each entry, the first of them at `pos`, lies in one block. */
  predicate InBlocks(es: seq<Entry>, bl: nat, pos: nat)
    requires bl > 0 && forall i :: 0 <= i < |es| ==> es[i].size > 0
  {
    es == [] || (Block(pos, bl) == Block(pos + es[0].size - 1, bl) && InBlocks(es[1..], bl, pos + es[0].size))
  }

  lemma BlocksGrow(a: nat, b: nat, bl: nat)
    requires bl > 0 && a <= b
    ensures Block(a, bl) <= Block(b, bl)
  {
    if a / bl > b / bl {
      Scale(bl, b / bl + 1, a / bl);
    }
  }

  lemma PaddedCrosses(pos: nat, base: nat, bl: nat)
    requires bl > 0 && base > 0
    ensures Block(pos, bl) < Block(pos + (base + Rest(pos, bl)) - 1, bl)
  {
    var q := pos / bl;
    assert pos + Rest(pos, bl) == bl * (q + 1);
    Divides(bl, q + 1, 0);
    BlocksGrow(bl * (q + 1), pos + (base + Rest(pos, bl)) - 1, bl);
  }

  lemma LayoutSizes(es: seq<Entry>, hasType: bool, bl: nat, pos: nat)
    requires bl > 0
    ensures var r := Layout(es, hasType, bl, pos); forall i :: 0 <= i < |r| ==> r[i].size > 0
  {
  }

  lemma InBlocksStep(r: seq<Entry>, bl: nat, pos: nat)
    requires bl > 0 && r != [] && forall i :: 0 <= i < |r| ==> r[i].size > 0
    ensures InBlocks(r, bl, pos) <==>
      Block(pos, bl) == Block(pos + r[0].size - 1, bl) && InBlocks(r[1..], bl, pos + r[0].size)
  {
  }

  lemma InBlocksNone(bl: nat, pos: nat)
    requires bl > 0
    ensures InBlocks([], bl, pos)
  {
  }

  lemma TotalBaseStep(es: seq<Entry>, hasType: bool)
    requires es != []
    ensures TotalBase(es, hasType) == Base(es[0], hasType) + TotalBase(es[1..], hasType)
    ensures |es| == 1 ==> TotalBase(es[1..], hasType) == 0
  {
  }

  lemma {:induction false} InBlocksFrom(es: seq<Entry>, hasType: bool, bl: nat, pos: nat)
    requires bl > 0 && es != []
    requires forall i :: 0 <= i < |es| ==> Layout(es, hasType, bl, pos)[i].size > 0
    ensures var base := Base(es[0], hasType);
      InBlocks(Layout(es, hasType, bl, pos), bl, pos) <==>
      Block(pos, bl) == Block(pos + base - 1, bl) && Block(pos + TotalBase(es, hasType), bl) == Block(pos + base, bl)
  {
    hide Block, Rest, Base, Layout, InBlocks, TotalBase;
    var base := Base(es[0], hasType);
    var r := Layout(es, hasType, bl, pos);
    LayoutStep(es, hasType, bl, pos);
    InBlocksStep(r, bl, pos);
    TotalBaseStep(es, hasType);
    if |es| == 1 {
      InBlocksNone(bl, pos + base);
    } else {
      var next := Base(es[1], hasType);
      var rest := es[1..];
      TotalBaseStep(rest, hasType);
      BlocksGrow(pos + base + next, pos + TotalBase(es, hasType), bl);
      BlocksGrow(pos + base, pos + base + next, bl);
      if Block(pos + base, bl) != Block(pos + base + next, bl) {
        PaddedCrosses(pos, base, bl);
      } else {
        LayoutSizes(rest, hasType, bl, pos + base);
        InBlocksFrom(rest, hasType, bl, pos + base);
        BlocksGrow(pos + base, pos + base + next - 1, bl);
        BlocksGrow(pos + base + next - 1, pos + base + next, bl);
      }
    }
  }

  /** No entry crosses a block boundary exactly when the first fits a block and, unless it fills it, all
      entries together end before that block does: padding an entry always makes it cross. */
  lemma InBlocksExactly(es: seq<Entry>, hasType: bool, bl: nat)
    requires bl > 0 && es != []
    ensures forall i :: 0 <= i < |es| ==> Layout(es, hasType, bl, 0)[i].size > 0
    ensures InBlocks(Layout(es, hasType, bl, 0), bl, 0) <==>
      Base(es[0], hasType) <= bl && Block(TotalBase(es, hasType), bl) == Block(Base(es[0], hasType), bl)
  {
    LayoutSizes(es, hasType, bl, 0);
    InBlocksFrom(es, hasType, bl, 0);
    FirstBlock(Base(es[0], hasType), bl);
  }

  lemma FirstBlock(base: nat, bl: nat)
    requires 0 < base && bl > 0
    ensures Block(0, bl) == Block(base - 1, bl) <==> base <= bl
  {
    if base > bl {
      BlocksGrow(bl, base - 1, bl);
    }
  }

  /** Two entries of twelve bytes in blocks of sixteen: the first is padded over the end of its block. */
  lemma PaddingExample(e: Entry)
    requires e.low == 4 && e.high == 0
    ensures forall i :: 0 <= i < 2 ==> Layout([e, e], true, 16, 0)[i].size > 0
    ensures Layout([e, e], true, 16, 0)[0].size == 28 && !InBlocks(Layout([e, e], true, 16, 0), 16, 0)
  {
    InBlocksExactly([e, e], true, 16);
    TotalBaseStep([e, e], true);
    TotalBaseStep([e, e][1..], true);
    assert Block(24, 16) == 1 && Block(12, 16) == 0;
  }

  /** Padding to the end of the block instead, as the comment asks, keeps an entry in its block. */
  lemma PaddingAsMeant(pos: nat, base: nat, next: nat, bl: nat)
    requires 0 < next <= bl && 0 < base <= Rest(pos, bl)
    ensures var size := if Block(pos + base, bl) != Block(pos + base + next, bl) then Rest(pos, bl) else base;
      base <= size && Block(pos, bl) == Block(pos + size - 1, bl) && next <= Rest(pos + size, bl)
  {
    hide Block, Rest;
    var left := Rest(pos, bl);
    Ahead(pos, left - 1, bl);
    Ahead(pos, left, bl);
    Ahead(pos, base, bl);
    Ahead(pos, base - 1, bl);
    if base < left {
      Ahead(pos, base + next, bl);
    }
  }

  /** The entries with the sizes that the comment asks for: one whose successor would cross a block boundary is
      padded to the end of its block. */
  function Meant(es: seq<Entry>, hasType: bool, bl: nat, pos: nat): (r: seq<Entry>)
    requires bl > 0
    ensures |r| == |es| && forall i :: 0 <= i < |r| ==> r[i].size > 0
  {
    if es == [] then []
    else
      var base := Base(es[0], hasType);
      var size := if |es| > 1 && Block(pos + base, bl) != Block(pos + base + Base(es[1], hasType), bl) then Rest(pos, bl)
                  else base;
      [es[0].(size := size)] + Meant(es[1..], hasType, bl, pos + size)
  }

  lemma MeantStep(es: seq<Entry>, hasType: bool, bl: nat, pos: nat)
    requires bl > 0 && es != []
    ensures var base, r := Base(es[0], hasType), Meant(es, hasType, bl, pos);
      && r[0].size == (if |es| > 1 && Block(pos + base, bl) != Block(pos + base + Base(es[1], hasType), bl) then Rest(pos, bl)
                       else base)
      && r[1..] == Meant(es[1..], hasType, bl, pos + r[0].size)
  {
  }

  /** Every entry is whole. */
  ghost predicate Covers(r: seq<Entry>, es: seq<Entry>, hasType: bool)
    requires |r| == |es|
  {
    forall i :: 0 <= i < |r| ==> r[i].size >= Base(es[i], hasType)
  }

  lemma CoversStep(r: seq<Entry>, es: seq<Entry>, hasType: bool)
    requires |r| == |es| && r != [] && r[0].size >= Base(es[0], hasType) && Covers(r[1..], es[1..], hasType)
    ensures Covers(r, es, hasType)
  {
    assert forall i :: 1 <= i < |r| ==> r[i] == r[1..][i - 1] && es[i] == es[1..][i - 1];
  }

  /** The first entry is whole and in one block, and the next one fits behind it. */
  lemma MeantHead(es: seq<Entry>, hasType: bool, bl: nat, pos: nat)
    requires bl > 0 && es != [] && forall i :: 0 <= i < |es| ==> Base(es[i], hasType) <= bl
    requires Base(es[0], hasType) <= Rest(pos, bl)
    ensures var size := Meant(es, hasType, bl, pos)[0].size;
      && size >= Base(es[0], hasType) && Block(pos, bl) == Block(pos + size - 1, bl)
      && (|es| > 1 ==> Base(es[1], hasType) <= Rest(pos + size, bl))
  {
    var base := Base(es[0], hasType);
    MeantStep(es, hasType, bl, pos);
    hide Block, Rest, Base, Meant;
    if |es| == 1 {
      Ahead(pos, base - 1, bl);
    } else {
      PaddingAsMeant(pos, base, Base(es[1], hasType), bl);
    }
  }

  lemma {:induction false} MeantFrom(es: seq<Entry>, hasType: bool, bl: nat, pos: nat)
    requires bl > 0 && forall i :: 0 <= i < |es| ==> Base(es[i], hasType) <= bl
    requires es != [] ==> Base(es[0], hasType) <= Rest(pos, bl)
    ensures InBlocks(Meant(es, hasType, bl, pos), bl, pos) && Covers(Meant(es, hasType, bl, pos), es, hasType)
  {
    if es != [] {
      hide Block, Rest, Base, InBlocks, Meant, Covers;
      var r := Meant(es, hasType, bl, pos);
      MeantHead(es, hasType, bl, pos);
      MeantStep(es, hasType, bl, pos);
      MeantFrom(es[1..], hasType, bl, pos + r[0].size);
      InBlocksStep(r, bl, pos);
      CoversStep(r, es, hasType);
    } else {
      InBlocksNone(bl, pos);
    }
  }

  lemma {:induction false} InBlocksFit(r: seq<Entry>, bl: nat, pos: nat)
    requires bl > 0 && (forall i :: 0 <= i < |r| ==> r[i].size > 0) && InBlocks(r, bl, pos)
    ensures forall i :: 0 <= i < |r| ==> r[i].size <= bl
  {
    if r != [] {
      hide Block;
      InBlocksStep(r, bl, pos);
      if r[0].size > bl {
        PaddedCrosses(pos, r[0].size - Rest(pos, bl), bl);
      }
      InBlocksFit(r[1..], bl, pos + r[0].size);
      assert forall i :: 1 <= i < |r| ==> r[i] == r[1..][i - 1];
    }
  }

  /** With that padding every entry is whole and lies in one block exactly if every entry fits a block. */
  lemma MeantExactly(es: seq<Entry>, hasType: bool, bl: nat)
    requires bl > 0
    ensures var r := Meant(es, hasType, bl, 0);
      (InBlocks(r, bl, 0) && Covers(r, es, hasType)) <==> forall i :: 0 <= i < |es| ==> Base(es[i], hasType) <= bl
  {
    hide Block, Base, InBlocks;
    var r := Meant(es, hasType, bl, 0);
    if InBlocks(r, bl, 0) {
      InBlocksFit(r, bl, 0);
    }
    if forall i :: 0 <= i < |es| ==> Base(es[i], hasType) <= bl {
      MeantFrom(es, hasType, bl, 0);
    }
  }

  /** The block and the rest of it at a position up to one block further on. */
  lemma Ahead(pos: nat, n: nat, bl: nat)
    requires bl > 0 && n < Rest(pos, bl) + bl
    ensures if n < Rest(pos, bl) then Block(pos + n, bl) == Block(pos, bl) && Rest(pos + n, bl) == Rest(pos, bl) - n
            else Block(pos + n, bl) == Block(pos, bl) + 1 && Rest(pos + n, bl) == Rest(pos, bl) + bl - n
  {
    var q, r := pos / bl, pos % bl;
    assert bl * (q + 1) == bl * q + bl;
    if n < bl - r {
      assert pos + n == bl * q + (r + n);
      Divides(bl, q, r + n);
    } else {
      assert pos + n == bl * (q + 1) + (r + n - bl);
      Divides(bl, q + 1, r + n - bl);
    }
  }
}
