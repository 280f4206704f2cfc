/** An open directory. */
module DirectoryFile {
  import opened DirCodec

  lemma {:induction false} AllBytesAppends(es: seq<Entry>, e: Entry)
    requires Writable(es) && e.Valid() && e.size >= 8 + |e.name|
    ensures Writable(es + [e]) && AllBytes(es + [e]) == AllBytes(es) + Bytes(e)
  {
    hide Bytes;
    if es == [] {
      assert es + [e] == [e] && [e][1..] == [];
    } else {
      var rest := es[1..];
      assert Writable(rest);
      AllBytesAppends(rest, e);
      assert es + [e] == [es[0]] + (rest + [e]) && (es + [e])[1..] == rest + [e];
      assert Bytes(es[0]) + (AllBytes(rest) + Bytes(e)) == (Bytes(es[0]) + AllBytes(rest)) + Bytes(e);
    }
  }

  /** One turn of the reading loop. */
  lemma ParseStep(s: seq<Byte>, hasType: bool)
    ensures |s| < 6 ==> Parse(s, hasType) == Listing([], true)
    ensures |s| >= 6 && Read32(s) == 0 ==>
      Parse(s, hasType) == var size := Read16(s[4..]); if size < 6 then Listing([], false) else Parse(Skip(s, size), hasType)
    ensures 6 <= |s| < 8 && Read32(s) != 0 ==> Parse(s, hasType) == Listing([], true)
    ensures |s| >= 8 && Read32(s) != 0 ==>
      Parse(s, hasType) ==
        var size, length := Read16(s[4..]), NameLength(s[6], s[7], hasType);
        if size < 8 + length then Listing([], false)
        else
          var rest := Parse(Skip(s, size), hasType);
          Listing([Entry(Read32(s), size, s[6], s[7], Buffer(s[8..], length))] + rest.entries, rest.complete)
  {
  }

  /** The entries that were read, with what the rest of the bytes give. */
  ghost function Onto(entries: seq<Entry>, rest: Listing): Listing {
    Listing(entries + rest.entries, rest.complete)
  }

  lemma OntoEnds(entries: seq<Entry>, rest: Listing)
    ensures Onto([], rest) == rest && (rest.entries == [] ==> Onto(entries, rest) == Listing(entries, rest.complete))
  {
  }

  lemma OntoGrows(entries: seq<Entry>, e: Entry, rest: Listing)
    ensures Onto(entries + [e], rest) == Onto(entries, Listing([e] + rest.entries, rest.complete))
  {
    assert (entries + [e]) + rest.entries == entries + ([e] + rest.entries);
  }

  /** Entries with the sizes they need. */
  ghost predicate Sized(was: seq<Entry>, es: seq<Entry>, hasType: bool) {
    |es| == |was| && forall k :: 0 <= k < |es| ==> es[k] == was[k].(size := Base(was[k], hasType))
  }

  /** How far a flush has come: of the entries `now`, those before `i` are written, the others have the
      sizes they need, and `pos` is where the next one goes. */
  ghost predicate Writing(was: seq<Entry>, now: seq<Entry>, hasType: bool, bl: nat, i: nat, pos: nat, file: seq<Byte>) {
    && bl > 0 && i <= |now| == |was|
    && (forall k :: i <= k < |now| ==> now[k] == was[k].(size := Base(was[k], hasType)))
    && var goal := Layout(was, hasType, bl, 0);
    && now[..i] == goal[..i] && goal[i..] == Layout(was[i..], hasType, bl, pos)
    && Writable(goal) && file == AllBytes(goal[..i])
  }

  lemma WritingStep(was: seq<Entry>, now: seq<Entry>, hasType: bool, bl: nat, i: nat, pos: nat, file: seq<Byte>)
    returns (e: Entry)
    requires i < |now| && Writing(was, now, hasType, bl, i, pos, file)
    ensures bl > 0
    ensures e == now[i].(size := if i + 1 < |now| then SizeAt(pos, now[i].size, now[i + 1].size, bl) else now[i].size)
    ensures e.Valid() && e.size >= 8 + |e.name|
    ensures Writing(was, now[i := e], hasType, bl, i + 1, pos + e.size, file + Bytes(e))
  {
    e := now[i].(size := if i + 1 < |now| then SizeAt(pos, now[i].size, now[i + 1].size, bl) else now[i].size);
    hide AllBytes, Bytes, Base, SizeAt, Layout, Fits, Writing, Writable;
    WritingEntry(was, now, hasType, bl, i, pos, file);
    WritingOn(was, now, Layout(was, hasType, bl, 0), hasType, bl, i, pos, file);
  }

  lemma WritingEntry(was: seq<Entry>, now: seq<Entry>, hasType: bool, bl: nat, i: nat, pos: nat, file: seq<Byte>)
    requires i < |now| && Writing(was, now, hasType, bl, i, pos, file)
    ensures bl > 0 && |now| == |was| && var e := Layout(was, hasType, bl, 0)[i];
      && e == now[i].(size := if i + 1 < |now| then SizeAt(pos, now[i].size, now[i + 1].size, bl) else now[i].size)
      && e.Valid() && e.size >= 8 + |e.name|
  {
    hide AllBytes, Base, SizeAt, Layout;
    var goal := Layout(was, hasType, bl, 0);
    LayoutStep(was[i..], hasType, bl, pos);
    assert goal[i..][0] == goal[i] && was[i..][0] == was[i] && (i + 1 < |was| ==> was[i..][1] == was[i + 1]);
  }

  lemma WritingOn(was: seq<Entry>, now: seq<Entry>, goal: seq<Entry>, hasType: bool, bl: nat, i: nat, pos: nat, file: seq<Byte>)
    requires i < |now| && Writing(was, now, hasType, bl, i, pos, file) && goal == Layout(was, hasType, bl, 0)
    requires goal[i].Valid() && goal[i].size >= 8 + |goal[i].name|
    ensures Writing(was, now[i := goal[i]], hasType, bl, i + 1, pos + goal[i].size, file + Bytes(goal[i]))
  {
    hide AllBytes, Bytes, Base, SizeAt, Layout, Fits;
    LayoutStep(was[i..], hasType, bl, pos);
    assert goal[i..][0] == goal[i];
    assert was[i..][1..] == was[i + 1..] && goal[i..][1..] == goal[i + 1..];
    AllBytesAppends(goal[..i], goal[i]);
    assert goal[..i] + [goal[i]] == goal[..i + 1];
    assert now[i := goal[i]][..i + 1] == now[..i] + [goal[i]];
  }

  lemma WritingStarts(was: seq<Entry>, now: seq<Entry>, hasType: bool, bl: nat)
    requires bl > 0 && Fits(was, hasType, bl) && Sized(was, now, hasType)
    ensures Writing(was, now, hasType, bl, 0, 0, [])
  {
    LayoutFits(was, hasType, bl, 0);
    assert was[0..] == was && Layout(was, hasType, bl, 0)[0..] == Layout(was, hasType, bl, 0);
  }

  lemma WritingEnds(was: seq<Entry>, now: seq<Entry>, hasType: bool, bl: nat, pos: nat, file: seq<Byte>)
    requires Writing(was, now, hasType, bl, |now|, pos, file)
    ensures bl > 0 && now == Layout(was, hasType, bl, 0) && Writable(now) && file == AllBytes(now)
  {
    assert now[..|now|] == now;
    assert Layout(was, hasType, bl, 0)[..|now|] == Layout(was, hasType, bl, 0);
  }

  /** The size computed for a new entry, in sixteen bits. */
  lemma SizeKept(n: nat)
    ensures var size := (8 + n) % 65536; n < 65520 ==> (size + (4 - size % 4)) % 65536 == 12 + n - n % 4
  {
  }

  /** The length kept in one byte or in two. */
  lemma LengthKept(n: nat)
    ensures n % 256 == n <==> n < 256
    ensures n % 256 + 256 * (n / 256 % 256) == n <==> n < 65536
  {
  }

  class Directory {
    var contents: seq<Entry>
    var complete: bool
    var edited: bool
    var file: seq<Byte>
    const hasType: bool
    const writing: bool
    const bl: nat

    /** Read all entries of the directory's file. */
    constructor (file: seq<Byte>, hasType: bool, writing: bool, bl: nat)
      ensures Listing(contents, complete) == Parse(file, hasType) && !edited
      ensures this.file == file && this.hasType == hasType && this.writing == writing && this.bl == bl
    {
      hide Parse, Read16, Read32, Buffer, Skip, NameLength, Onto;
      this.file, this.hasType, this.writing, this.bl, edited := file, hasType, writing, bl, false;
      var entries: seq<Entry>, ok, s := [], true, file;
      OntoEnds(entries, Parse(file, hasType));
      while true
        invariant Parse(file, hasType) == if ok then Onto(entries, Parse(s, hasType)) else Listing(entries, false)
        decreases if ok then |s| + 1 else 0
      {
        ParseStep(s, hasType);
        OntoEnds(entries, Parse(s, hasType));
        if |s| < 6 || !ok {
          break;
        }
        var inode, size := Read32(s), Read16(s[4..]);
        if inode == 0 {
          if size < 6 {
            ok := false;
          } else {
            s := Skip(s, size);
          }
          continue;
        }
        if |s| < 8 {
          break;
        }
        var low, high := s[6], s[7];
        var length := NameLength(low, high, hasType);
        var name := Buffer(s[8..], length);
        if size < 8 + length {
          ok := false;
          continue;
        }
        s := Skip(s, size);
        OntoGrows(entries, Entry(inode, size, low, high, name), Parse(s, hasType));
        entries := entries + [Entry(inode, size, low, high, name)];
      }
      contents, complete := entries, ok;
    }

    /** Set the size of each entry to what it needs. */
    method SizeEntries()
      modifies `contents
      ensures Sized(old(contents), contents, hasType)
    {
      for i := 0 to |contents|
        invariant |contents| == |old(contents)|
        invariant forall k :: i <= k < |contents| ==> contents[k] == old(contents)[k]
        invariant forall k :: 0 <= k < i ==> contents[k] == old(contents)[k].(size := Base(old(contents)[k], hasType))
      {
        contents := contents[i := contents[i].(size := Base(contents[i], hasType))];
      }
    }

    /** Pad an entry if the next one would come into another block, and write it. */
    method WriteEntry(i: nat, pos: nat, ghost was: seq<Entry>) returns (end: nat)
      requires i < |contents| && Writing(was, contents, hasType, bl, i, pos, file)
      modifies `contents, `file
      ensures |contents| == |old(contents)| && Writing(was, contents, hasType, bl, i + 1, end, file)
    {
      hide Layout, AllBytes, Bytes, Base, Block, Rest, Writing, Writable;
      ghost var e := WritingStep(was, contents, hasType, bl, i, pos, file);
      var size := contents[i].size;
      if i + 1 < |contents| && Block(pos + size, bl) != Block(pos + size + contents[i + 1].size, bl) {
        size := size + Rest(pos, bl);
      }
      contents := contents[i := contents[i].(size := size)];
      file := file + Bytes(contents[i]);
      end := pos + size;
    }

    /** Write all entries back to the directory's file. */
    method Flush() returns (ret: int)
      requires bl > 0 && Fits(contents, hasType, bl)
      modifies `contents, `file, `edited
      ensures ret == 0
      ensures !writing || !old(edited) ==> contents == old(contents) && file == old(file) && edited == old(edited)
      ensures writing && old(edited) ==>
        !edited && contents == Layout(old(contents), hasType, bl, 0) && Writable(contents) && file == AllBytes(contents)
    {
      if !writing || !edited {
        return 0;
      }
      hide Layout, AllBytes, Bytes, Base, Block, Rest, Fits, Sized, Writing, Writable, Named;
      file := [];
      var pos: nat := 0;
      ghost var was := contents;
      SizeEntries();
      WritingStarts(was, contents, hasType, bl);
      var n := |contents|;
      for i := 0 to n
        invariant |contents| == n && Writing(was, contents, hasType, bl, i, pos, file)
      {
        pos := WriteEntry(i, pos, was);
      }
      WritingEnds(was, contents, hasType, bl, pos, file);
      edited := false;
      return 0;
    }

    /** Add an entry to the directory in memory. Its name is kept whole, but the length kept beside it is
        the name's length only if that fits: one byte of it with a type field, two bytes without. */
    method NewEntry(inode: nat, name: seq<Byte>, kind: Byte) returns (ret: int)
      requires inode < 0x1_0000_0000 && bl < 65536
      modifies `contents, `edited
      ensures ret == 0 || ret == -1
      ensures ret == -1 ==> contents == old(contents) && edited == old(edited)
      ensures |name| < 65520 ==> (ret == 0 <==> writing && name != [] && 12 + |name| - |name| % 4 <= bl)
      ensures ret == 0 ==> edited && |contents| == |old(contents)| + 1 && contents[..|old(contents)|] == old(contents)
      ensures ret == 0 ==>
        var e := contents[|old(contents)|];
        e.inode == inode && e.name == name && (hasType ==> e.high == kind) && e.Valid() &&
        (|name| < 65520 ==> e.size == 12 + |name| - |name| % 4) &&
        (Named(e, hasType) <==> |name| < if hasType then 256 else 65536)
    {
      if !writing {
        return -1;
      }
      if name == [] {
        return -1;
      }
      var low: Byte := |name| % 256;
      var high: Byte := if !hasType then |name| / 256 % 256 else kind;
      var size := (8 + |name|) % 65536;
      size := (size + (4 - size % 4)) % 65536;
      SizeKept(|name|);
      LengthKept(|name|);
      if size > bl {
        return -1;
      }
      edited := true;
      contents := contents + [Entry(inode, size, low, high, name)];
      return 0;
    }
  }
}
