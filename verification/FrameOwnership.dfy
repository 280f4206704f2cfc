/** The physical frames of a process: each is mapped once or free, and none is lost. */
module FrameOwnership {
  import opened Paging

  /** A frame is at hand: it is mapped by a page, or the allocator may hand it out. */
  ghost predicate AtHand(d: Directory, pool: seq<nat>, frame: nat)
    requires |d| == SLOTS
  {
    frame in pool || exists p :: 0 <= p < PAGES && View(d, p) == frame
  }

  /** No frame is in use twice: no two pages share one, and the allocator hands out none that is mapped, nor one
      twice. */
  ghost predicate Apart(d: Directory, pool: seq<nat>)
    requires |d| == SLOTS
  {
    && (forall p, q :: 0 <= p < q < PAGES && View(d, p) != 0 ==> View(d, p) != View(d, q))
    && (forall p :: 0 <= p < PAGES && View(d, p) != 0 ==> View(d, p) !in pool)
    && (forall i, j :: 0 <= i < j < |pool| ==> pool[i] != pool[j])
  }

  /** From one directory and pool to another, no frame is lost or won, and none comes into use twice. */
  ghost predicate Conserved(d: Directory, pool: seq<nat>, e: Directory, left: seq<nat>)
    requires |d| == SLOTS && |e| == SLOTS
  {
    && (forall frame: nat :: frame != 0 ==> (AtHand(d, pool, frame) <==> AtHand(e, left, frame)))
    && (Apart(d, pool) ==> Apart(e, left))
  }

  lemma ConservedStarts(d: Directory, pool: seq<nat>)
    requires |d| == SLOTS
    ensures Conserved(d, pool, d, pool)
  {
  }

  lemma ConservedOn(d: Directory, pool: seq<nat>, e: Directory, left: seq<nat>, g: Directory, last: seq<nat>)
    requires |d| == SLOTS && |e| == SLOTS && |g| == SLOTS
    requires Conserved(d, pool, e, left) && Conserved(e, left, g, last)
    ensures Conserved(d, pool, g, last)
  {
  }

  /** Mapping a page to the frame that the allocator hands out. */
  lemma BindConserves(d: Directory, pool: seq<nat>, page: nat)
    requires Valid(d) && page < PAGES && View(d, page) == 0 && pool != [] && pool[0] != 0
    ensures var e := Bind(d, page, pool[0]); |e| == SLOTS && Conserved(d, pool, e, pool[1..])
  {
    var e := Bind(d, page, pool[0]);
    BindBinds(d, page, pool[0]);
    Takes(d, pool, e, pool[1..], page, pool[0]);
  }

  /** Removing a page and giving its frame back. */
  lemma UnbindConserves(d: Directory, pool: seq<nat>, page: nat)
    requires Valid(d) && page < PAGES && View(d, page) != 0
    ensures var e := Unbind(d, page); |e| == SLOTS && Conserved(d, pool, e, pool + [View(d, page)])
  {
    var e := Unbind(d, page);
    UnbindUnbinds(d, page);
    Gives(d, pool, e, pool + [View(d, page)], page);
  }

  lemma Takes(d: Directory, pool: seq<nat>, e: Directory, left: seq<nat>, page: nat, frame: nat)
    requires |d| == SLOTS && |e| == SLOTS && page < PAGES && View(d, page) == 0 && frame != 0
    requires pool == [frame] + left
    requires forall p :: 0 <= p < PAGES ==> View(e, p) == if p == page then frame else View(d, p)
    ensures Conserved(d, pool, e, left)
  {
    hide View;
    forall f: nat | f != 0
      ensures AtHand(d, pool, f) <==> AtHand(e, left, f)
    {
      assert f in pool <==> f == frame || f in left;
      assert View(e, page) == frame;
      if p :| 0 <= p < PAGES && View(d, p) == f {
        assert View(e, p) == f;
      }
    }
    if Apart(d, pool) {
      assert pool[0] == frame;
      forall i | 0 <= i < |left|
        ensures left[i] == pool[1 + i]
      {
      }
    }
  }

  lemma Gives(d: Directory, pool: seq<nat>, e: Directory, left: seq<nat>, page: nat)
    requires |d| == SLOTS && |e| == SLOTS && page < PAGES && View(d, page) != 0
    requires left == pool + [View(d, page)]
    requires forall p :: 0 <= p < PAGES ==> View(e, p) == if p == page then 0 else View(d, p)
    ensures Conserved(d, pool, e, left)
  {
    hide View;
    forall f: nat | f != 0
      ensures AtHand(d, pool, f) <==> AtHand(e, left, f)
    {
      assert f in left <==> f == View(d, page) || f in pool;
      if p :| 0 <= p < PAGES && View(d, p) == f && p != page {
        assert View(e, p) == f;
      }
    }
  }
}
