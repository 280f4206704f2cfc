/** The block allocation tables of an ext2 file system: bitmaps, group descriptors and superblock count. */
module BlockTable {

  /** `used` holds the bitmap of each block group, `counts` the free blocks its descriptor claims, and
      `free` the superblock's count. `first` is the address of the first block of group zero. */
  datatype Table = Table(used: seq<seq<bool>>, counts: seq<nat>, free: nat, perGroup: nat, blocks: nat, first: nat) {

    ghost predicate Shape() {
      && |counts| == |used| > 0 && perGroup > 0 && first <= 1
      && (forall g :: 0 <= g < |used| ==> |used[g]| == perGroup && counts[g] < 65536)
      && blocks <= |used| * perGroup + first
    }

    /** No descriptor claims more free blocks than its bitmap has. Freeing does not keep this. */
    ghost predicate Honest() {
      Shape() && forall g :: 0 <= g < |used| ==> counts[g] <= Clear(used[g])
    }

    /** The superblock's count is the number of clear bits over all bitmaps. */
    ghost predicate Counted() {
      free == Total(used)
    }

    predicate In(g: nat, n: nat) { g < |used| && n < |used[g]| }

    predicate InUse(g: nat, n: nat) { In(g, n) && used[g][n] }

    function Address(g: nat, n: nat): nat { g * perGroup + n + first }

    function Mark(g: nat, n: nat, b: bool): Table
      requires In(g, n)
    {
      this.(used := used[g := used[g][n := b]])
    }

    /** The final search of `allocate_new_block` looks at this group. */
    predicate Admitted(inodeGroup: nat, startGroup: nat, g: nat)
      requires |counts| == |used| && g < |used|
    {
      g != inodeGroup && g != startGroup && counts[g] != 0
    }

    /** Where the final search ends, over the groups below `k`. It takes the last group with a clear bit, but
        a group without one that it looks at later leaves the index behind the bitmap. */
    function Rest(inodeGroup: nat, startGroup: nat, k: nat): Choice
      requires k <= |used| && |counts| == |used|
    {
      if k == 0 then None
      else if !Admitted(inodeGroup, startGroup, k - 1) then Rest(inodeGroup, startGroup, k - 1)
      else if HasClear(used[k - 1], 0, perGroup) then Some(k - 1, FirstClear(used[k - 1], 0, perGroup))
      else
        var c := Rest(inodeGroup, startGroup, k - 1);
        if c.None? then None else Some(c.group, perGroup)
    }

    /** The last group that the final search looks at has a clear bit, or none has. */
    predicate Lands(inodeGroup: nat, startGroup: nat, k: nat)
      requires k <= |used| && |counts| == |used|
    {
      if k == 0 then true
      else if !Admitted(inodeGroup, startGroup, k - 1) then Lands(inodeGroup, startGroup, k - 1)
      else
        || HasClear(used[k - 1], 0, perGroup)
        || forall g :: 0 <= g < k && Admitted(inodeGroup, startGroup, g) ==> !HasClear(used[g], 0, perGroup)
    }

    /** The bit that the searches of `allocate_new_block` end at. In the group of the previous block they
        go on after a find, and leave the index at `start` if no bit below it is clear. */
    function Pick(inodeGroup: nat, startGroup: nat, start: nat): Choice
      requires |counts| == |used| && inodeGroup < |used| && startGroup < |used|
    {
      var i, s := used[inodeGroup], used[startGroup];
      if startGroup == inodeGroup && counts[inodeGroup] != 0 then
        if HasClear(i, start + 1, perGroup) then Some(inodeGroup, FirstClear(i, start + 1, perGroup))
        else if HasClear(i, 0, start) then Some(inodeGroup, FirstClear(i, 0, start))
        else Rest(inodeGroup, startGroup, |used|)
      else
        var inInode := counts[inodeGroup] != 0 && HasClear(i, 0, perGroup);
        if counts[startGroup] != 0 then
          if HasClear(s, 0, start) then Some(startGroup, FirstClear(s, 0, start))
          else if HasClear(s, start + 1, perGroup) then Some(startGroup, start)
          else if inInode then Some(inodeGroup, start)
          else Rest(inodeGroup, startGroup, |used|)
        else if inInode then Some(inodeGroup, FirstClear(i, 0, perGroup))
        else Rest(inodeGroup, startGroup, |used|)
    }

    /** The search leaves its index at `start`, whether or not that block is free. */
    predicate Overrun(inodeGroup: nat, startGroup: nat, start: nat)
      requires |counts| == |used| && inodeGroup < |used| && startGroup < |used|
    {
      && startGroup != inodeGroup && counts[startGroup] != 0 && !HasClear(used[startGroup], 0, start)
      && (HasClear(used[startGroup], start + 1, perGroup) || InInode(inodeGroup))
    }

    /** The group of the inode has a free block and admits it. */
    predicate InInode(inodeGroup: nat)
      requires |counts| == |used| && inodeGroup < |used|
    {
      counts[inodeGroup] != 0 && HasClear(used[inodeGroup], 0, perGroup)
    }

    /** The searches stay within the bitmaps, and so does the bit they end at. Only a descriptor that claims
        free blocks for a full bitmap can make them leave it. */
    predicate Readable(inodeGroup: nat, startGroup: nat, start: nat)
      requires |counts| == |used| && inodeGroup < |used| && startGroup < |used|
    {
      var elsewhere := startGroup != inodeGroup && InInode(inodeGroup);
      && (counts[startGroup] == 0 || start < perGroup || HasClear(used[startGroup], 0, perGroup)
          || (start == perGroup && !elsewhere))
      && (elsewhere || (counts[startGroup] != 0
                        && (HasClear(used[startGroup], 0, start) || HasClear(used[startGroup], start + 1, perGroup)))
          || Lands(inodeGroup, startGroup, |used|))
    }
  }

  datatype Choice = None | Some(group: nat, index: nat)

  /** Where a search loop from `lo` up to `hi` stops: at the first clear bit, or at its end. */
  function FirstClear(bits: seq<bool>, lo: nat, hi: nat): (n: nat)
    ensures lo <= n && (n <= hi || n == lo)
    ensures n < hi && n < |bits| ==> !bits[n]
    ensures forall k :: lo <= k < n && k < |bits| ==> bits[k]
    decreases hi - lo
  {
    if lo >= hi || (lo < |bits| && !bits[lo]) then lo else FirstClear(bits, lo + 1, hi)
  }

  predicate HasClear(bits: seq<bool>, lo: nat, hi: nat) {
    exists k :: lo <= k < hi && k < |bits| && !bits[k]
  }

  function Clear(bits: seq<bool>): nat {
    if |bits| == 0 then 0 else Clear(bits[..|bits| - 1]) + if bits[|bits| - 1] then 0 else 1
  }

  function Total(used: seq<seq<bool>>): nat {
    if |used| == 0 then 0 else Total(used[..|used| - 1]) + Clear(used[|used| - 1])
  }

  lemma {:induction false} ClearAfter(bits: seq<bool>, n: nat, b: bool)
    requires n < |bits|
    ensures Clear(bits[n := b]) == Clear(bits) + (if bits[n] then 1 else 0) - (if b then 1 else 0)
  {
    var last := |bits| - 1;
    if n < last {
      ClearAfter(bits[..last], n, b);
      assert bits[n := b][..last] == bits[..last][n := b];
    } else {
      assert bits[n := b][..last] == bits[..last];
    }
  }

  lemma {:induction false} TotalAfter(used: seq<seq<bool>>, g: nat, row: seq<bool>)
    requires g < |used|
    ensures Total(used[g := row]) == Total(used) - Clear(used[g]) + Clear(row)
  {
    var last := |used| - 1;
    if g < last {
      TotalAfter(used[..last], g, row);
      assert used[g := row][..last] == used[..last][g := row];
    } else {
      assert used[g := row][..last] == used[..last];
    }
  }

  lemma {:induction false} ClearMeansBit(bits: seq<bool>)
    ensures Clear(bits) > 0 <==> HasClear(bits, 0, |bits|)
  {
    if |bits| > 0 {
      var last := |bits| - 1;
      ClearMeansBit(bits[..last]);
      if HasClear(bits[..last], 0, last) {
        var k :| 0 <= k < last && !bits[..last][k];
        assert !bits[k];
      }
    }
  }

  /** Setting or clearing one bit moves the total by one if the bit changes. */
  lemma TotalAfterMark(t: Table, g: nat, n: nat, b: bool)
    requires t.In(g, n)
    ensures Total(t.Mark(g, n, b).used) == Total(t.used) + (if t.used[g][n] then 1 else 0) - (if b then 1 else 0)
    ensures Clear(t.Mark(g, n, b).used[g]) == Clear(t.used[g]) + (if t.used[g][n] then 1 else 0) - (if b then 1 else 0)
  {
    ClearAfter(t.used[g], n, b);
    TotalAfter(t.used, g, t.used[g][n := b]);
  }

  lemma FirstClearStops(bits: seq<bool>, lo: nat, hi: nat)
    requires HasClear(bits, lo, hi)
    ensures lo <= FirstClear(bits, lo, hi) < hi && FirstClear(bits, lo, hi) < |bits|
    ensures !bits[FirstClear(bits, lo, hi)]
  {
    var k :| lo <= k < hi && k < |bits| && !bits[k];
    assert FirstClear(bits, lo, hi) <= k;
  }

  lemma {:induction false} RestIsClear(t: Table, i: nat, s: nat, k: nat)
    requires t.Shape() && k <= |t.used|
    ensures var c := t.Rest(i, s, k);
      && (c.Some? ==> c.group < |t.used| && t.counts[c.group] != 0 && c.group != i && c.group != s)
      && (c.Some? && t.Lands(i, s, k) ==> t.In(c.group, c.index) && !t.InUse(c.group, c.index))
      && (!t.Lands(i, s, k) ==> c.Some? && c.index == t.perGroup)
      && (c.None? <==> forall g :: 0 <= g < k && t.Admitted(i, s, g) ==> !HasClear(t.used[g], 0, t.perGroup))
  {
    if k > 0 {
      RestIsClear(t, i, s, k - 1);
      if HasClear(t.used[k - 1], 0, t.perGroup) {
        FirstClearStops(t.used[k - 1], 0, t.perGroup);
      }
    }
  }

  /** The block picked is a free one, unless the search overran: then it is the block at `start`. */
  lemma PickIsClear(t: Table, i: nat, s: nat, start: nat)
    requires t.Shape() && i < |t.used| && s < |t.used| && t.Readable(i, s, start) && t.Pick(i, s, start).Some?
    ensures var c := t.Pick(i, s, start);
      && t.In(c.group, c.index) && t.counts[c.group] != 0
      && (t.Overrun(i, s, start) ==>
            c.index == start && c.group == if HasClear(t.used[s], start + 1, t.perGroup) then s else i)
      && (t.InUse(c.group, c.index) ==> t.Overrun(i, s, start))
  {
    hide Table.Lands, Table.Rest;
    RestIsClear(t, i, s, |t.used|);
    var bits, other := t.used[i], t.used[s];
    if HasClear(bits, start + 1, t.perGroup) { FirstClearStops(bits, start + 1, t.perGroup); }
    if HasClear(bits, 0, start) { FirstClearStops(bits, 0, start); }
    if HasClear(bits, 0, t.perGroup) { FirstClearStops(bits, 0, t.perGroup); }
    if HasClear(other, 0, start) { FirstClearStops(other, 0, start); }
  }

  /** The condition on a search leaves out exactly those that test a bit behind the bitmap of the previous
      block's group or end at a bit behind a bitmap. */
  lemma ReadableExactly(t: Table, i: nat, s: nat, start: nat)
    requires t.Shape() && i < |t.used| && s < |t.used|
    ensures var c := t.Pick(i, s, start);
      t.Readable(i, s, start) <==>
        && !(t.counts[s] != 0 && start > t.perGroup && !HasClear(t.used[s], 0, t.perGroup))
        && (c.Some? ==> t.In(c.group, c.index))
  {
    hide Table.Lands, Table.Rest;
    RestIsClear(t, i, s, |t.used|);
    if t.Readable(i, s, start) {
      if t.Pick(i, s, start).Some? {
        PickIsClear(t, i, s, start);
      }
    }
  }

  /** Searches of tables whose descriptors are honest stay within the bitmaps wherever they start. */
  lemma HonestIsReadable(t: Table, i: nat, s: nat, start: nat)
    requires t.Honest() && i < |t.used| && s < |t.used|
    ensures t.Readable(i, s, start)
  {
    ClearMeansBit(t.used[s]);
    HonestLands(t, i, s, |t.used|);
  }

  lemma {:induction false} HonestLands(t: Table, i: nat, s: nat, k: nat)
    requires t.Honest() && k <= |t.used|
    ensures t.Lands(i, s, k)
  {
    if k > 0 {
      HonestLands(t, i, s, k - 1);
      ClearMeansBit(t.used[k - 1]);
    }
  }

  /** A free block of a group whose descriptor admits it, other than block `start` of group `s`. */
  predicate Available(t: Table, g: nat, n: nat, s: nat, start: nat)
    requires |t.counts| == |t.used|
  {
    t.In(g, n) && !t.used[g][n] && t.counts[g] != 0 && !(g == s && n == start)
  }

  /** A block is found exactly when one is available; only the previous block of the file is not looked at. */
  lemma PickFinds(t: Table, i: nat, s: nat, start: nat)
    requires t.Shape() && i < |t.used| && s < |t.used| && t.Readable(i, s, start)
    ensures t.Pick(i, s, start).Some? <==> exists g: nat, n: nat :: Available(t, g, n, s, start)
  {
    hide Table.Lands, Table.Rest;
    RestIsClear(t, i, s, |t.used|);
    var c := t.Pick(i, s, start);
    if c.Some? {
      PickIsClear(t, i, s, start);
      if t.Overrun(i, s, start) {
        if HasClear(t.used[s], start + 1, t.perGroup) {
          FirstClearStops(t.used[s], start + 1, t.perGroup);
          assert Available(t, s, FirstClear(t.used[s], start + 1, t.perGroup), s, start);
        } else {
          FirstClearStops(t.used[i], 0, t.perGroup);
          assert Available(t, i, FirstClear(t.used[i], 0, t.perGroup), s, start);
        }
      } else {
        PickAvoidsStart(t, i, s, start);
        assert Available(t, c.group, c.index, s, start);
      }
    }
  }

  lemma PickAvoidsStart(t: Table, i: nat, s: nat, start: nat)
    requires t.Shape() && i < |t.used| && s < |t.used|
    requires t.Pick(i, s, start).Some? && !t.Overrun(i, s, start)
    ensures var c := t.Pick(i, s, start); !(c.group == s && c.index == start)
  {
    hide Table.Lands, Table.Rest;
    RestIsClear(t, i, s, |t.used|);
    if HasClear(t.used[s], 0, start) { FirstClearStops(t.used[s], 0, start); }
    if HasClear(t.used[i], 0, start) { FirstClearStops(t.used[i], 0, start); }
  }

  /** The first clear bit of a stretch. */
  predicate Least(bits: seq<bool>, lo: nat, hi: nat, n: nat) {
    lo <= n < hi && n < |bits| && !bits[n] && forall k :: lo <= k < n ==> bits[k]
  }

  lemma FirstClearIsLeast(bits: seq<bool>, lo: nat, hi: nat)
    requires HasClear(bits, lo, hi)
    ensures Least(bits, lo, hi, FirstClear(bits, lo, hi))
  {
    FirstClearStops(bits, lo, hi);
  }

  /** Which of the free blocks is taken, where the search does not overrun. In the group of the inode, if the
      previous block is there: the first one behind it, or else the first one in the group. Else the first one
      of the previous block's group, if it comes before that block; the first one of the inode's group, if the
      other admits none; and the first one of the last other group that has one. */
  lemma PickOrder(t: Table, i: nat, s: nat, start: nat)
    requires t.Shape() && i < |t.used| && s < |t.used| && t.Readable(i, s, start)
    requires t.Pick(i, s, start).Some? && !t.Overrun(i, s, start)
    ensures var c := t.Pick(i, s, start);
      if s == i && t.counts[i] != 0 && exists k: nat :: start < k < t.perGroup && !t.used[i][k] then
        c.group == i && Least(t.used[i], start + 1, t.perGroup, c.index)
      else if t.counts[s] != 0 && exists k: nat :: k < start && k < t.perGroup && !t.used[s][k] then
        c.group == s && Least(t.used[s], 0, start, c.index)
      else if s != i && t.counts[i] != 0 && exists k: nat :: k < t.perGroup && !t.used[i][k] then
        c.group == i && Least(t.used[i], 0, t.perGroup, c.index)
      else
        && c.group < |t.used| && c.group != i && c.group != s && t.counts[c.group] != 0
        && Least(t.used[c.group], 0, t.perGroup, c.index)
        && forall g, k :: c.group < g < |t.used| && g != i && g != s && t.counts[g] != 0 && 0 <= k < t.perGroup ==> t.used[g][k]
  {
    hide Table.Lands, Table.Rest, FirstClear;
    var bits, other := t.used[i], t.used[s];
    assert HasClear(bits, start + 1, t.perGroup) <==> exists k: nat :: start < k < t.perGroup && !bits[k];
    assert HasClear(other, 0, start) <==> exists k: nat :: k < start && k < t.perGroup && !other[k];
    assert HasClear(bits, 0, t.perGroup) <==> exists k: nat :: k < t.perGroup && !bits[k];
    if HasClear(bits, start + 1, t.perGroup) { FirstClearIsLeast(bits, start + 1, t.perGroup); }
    if HasClear(other, 0, start) { FirstClearIsLeast(other, 0, start); }
    if HasClear(bits, 0, t.perGroup) { FirstClearIsLeast(bits, 0, t.perGroup); }
    hide HasClear, Least;
    RestOrder(t, i, s, |t.used|);
  }

  lemma {:induction false} RestOrder(t: Table, i: nat, s: nat, k: nat)
    requires t.Shape() && k <= |t.used|
    ensures t.Rest(i, s, k).Some? && t.Lands(i, s, k) ==>
      var c := t.Rest(i, s, k);
      && c.group < k && c.group != i && c.group != s && t.counts[c.group] != 0
      && Least(t.used[c.group], 0, t.perGroup, c.index)
      && forall g, n :: c.group < g < k && g != i && g != s && t.counts[g] != 0 && 0 <= n < t.perGroup ==> t.used[g][n]
  {
    if k > 0 {
      RestIsClear(t, i, s, k);
      RestOrder(t, i, s, k - 1);
      if HasClear(t.used[k - 1], 0, t.perGroup) {
        FirstClearIsLeast(t.used[k - 1], 0, t.perGroup);
      }
    }
  }
}
