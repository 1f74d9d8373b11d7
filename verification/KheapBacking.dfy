/** Backing the kernel heap: every heap page gets its own frame, although the mapper draws its page
    tables from the same allocator between one heap page and the next. */
module KheapBacking {
  import opened Pmm
  import opened Paging
  import opened PageMapper
  import opened TableNeed

  /** `frames` are in use, different, and none of them is a page table; heap page k below `m` that
      is not under a huge entry translates to frame k; every other translation is as before. */
  ghost predicate Backed(ts0: Tables, ts: Tables, root: nat, v: nat, frames: seq<nat>, free: set<nat>, m: nat) {
    && m <= |frames| && SameCoverage(ts0, ts, root)
    && (forall k :: 0 <= k < |frames| ==> FrameAddress(frames[k]) && frames[k] / PAGE_SIZE !in free && frames[k] !in ts)
    && (forall j, k :: 0 <= j < k < |frames| ==> frames[j] != frames[k])
    && (forall k :: 0 <= k < m && !Covered(ts0, root, PageAt(v, k)) ==> Walk(ts, root, PageAt(v, k)) == Page(frames[k], WritableAbove(ts0, root, PageAt(v, k))))
    && (forall q: Path :: q.Valid() && (Covered(ts0, root, q) || forall k :: 0 <= k < m ==> q != PageAt(v, k)) ==>
         Walk(ts, root, q) == Walk(ts0, root, q))
  }

  lemma BackNone(ts: Tables, root: nat, v: nat, free: set<nat>)
    ensures Backed(ts, ts, root, v, [], free, 0) && Grew(ts, ts, free, free)
  {
  }

  /** A new frame is none of the earlier ones, and none of the tables there are or will be. */
  lemma NewFrame(ts0: Tables, ts: Tables, root: nat, v: nat, frames: seq<nat>, free: set<nat>, m: nat, pg: nat, free': set<nat>, ts': Tables, free'': set<nat>)
    requires Backed(ts0, ts, root, v, frames, free, m) && NoneFree(ts, free)
    requires FrameAddress(pg) && pg / PAGE_SIZE in free && free' == free - {pg / PAGE_SIZE}
    requires Grew(ts, ts', free', free'')
    ensures var fs := frames + [pg];
      && (forall k :: 0 <= k < |fs| ==> FrameAddress(fs[k]) && fs[k] / PAGE_SIZE !in free'' && fs[k] !in ts')
      && (forall j, k :: 0 <= j < k < |fs| ==> fs[j] != fs[k])
  {
    hide Walk, WritableAbove, Covered, PageAt, FrameAddress;
  }

  lemma BackStep(ts0: Tables, ts: Tables, ts': Tables, root: nat, v: nat, frames: seq<nat>, free: set<nat>, free'': set<nat>, pg: nat, n: nat)
    requires Backed(ts0, ts, root, v, frames, free, |frames|) && |frames| < PAGES && n <= 1
    requires RangeMapped(ts, ts', root, v + |frames| * PAGE_SIZE, pg, n)
    requires var fs := frames + [pg];
      && (forall k :: 0 <= k < |fs| ==> FrameAddress(fs[k]) && fs[k] / PAGE_SIZE !in free'' && fs[k] !in ts')
      && (forall j, k :: 0 <= j < k < |fs| ==> fs[j] != fs[k])
    ensures Backed(ts0, ts', root, v, frames + [pg], free'', |frames| + n)
  {
    BackStepMapped(ts0, ts, ts', root, v, frames, free, pg, n);
    BackStepElse(ts0, ts, ts', root, v, frames, free, pg, n);
    hide Walk, WritableAbove, Covered, PageAt, FrameAddress;
  }

  lemma BackStepMapped(ts0: Tables, ts: Tables, ts': Tables, root: nat, v: nat, frames: seq<nat>, free: set<nat>, pg: nat, n: nat)
    requires Backed(ts0, ts, root, v, frames, free, |frames|) && |frames| < PAGES && n <= 1
    requires RangeMapped(ts, ts', root, v + |frames| * PAGE_SIZE, pg, n)
    ensures forall k :: 0 <= k < |frames| + n && !Covered(ts0, root, PageAt(v, k)) ==> Walk(ts', root, PageAt(v, k)) == Page((frames + [pg])[k], WritableAbove(ts0, root, PageAt(v, k)))
  {
    hide Walk, WritableAbove, Covered, PageAt, FrameAddress, Backed, RangeMapped;
    forall k | 0 <= k < |frames| + n && !Covered(ts0, root, PageAt(v, k)) ensures Walk(ts', root, PageAt(v, k)) == Page((frames + [pg])[k], WritableAbove(ts0, root, PageAt(v, k))) {
      if k < |frames| {
        EarlierStays(ts0, ts, ts', root, v, frames, free, pg, n, k);
      } else {
        NewMapped(ts0, ts, ts', root, v, frames, free, pg, n);
      }
    }
  }

  lemma EarlierStays(ts0: Tables, ts: Tables, ts': Tables, root: nat, v: nat, frames: seq<nat>, free: set<nat>, pg: nat, n: nat, k: nat)
    requires Backed(ts0, ts, root, v, frames, free, |frames|) && |frames| < PAGES && n <= 1
    requires RangeMapped(ts, ts', root, v + |frames| * PAGE_SIZE, pg, n)
    requires k < |frames| && !Covered(ts0, root, PageAt(v, k))
    ensures Walk(ts', root, PageAt(v, k)) == Page(frames[k], WritableAbove(ts0, root, PageAt(v, k)))
  {
    hide Walk, WritableAbove, Covered, PageAt, FrameAddress;
    PagesDiffer(v, k, |frames|);
    PageShift(v, |frames|);
    assert !Covered(ts, root, PageAt(v, k));
    assert Walk(ts, root, PageAt(v, k)) == Page(frames[k], WritableAbove(ts0, root, PageAt(v, k)));
  }

  lemma PagesDiffer(v: nat, k: nat, i: nat)
    requires k < i < PAGES
    ensures PageAt(v, k) != PageAt(v, i) && PageAt(v, k).Valid()
  {
    PathsDiffer(v, k, i);
  }

  lemma PageShift(v: nat, i: nat)
    ensures PageAt(v + i * PAGE_SIZE, 0) == PageAt(v, i)
  {}

  lemma NewMapped(ts0: Tables, ts: Tables, ts': Tables, root: nat, v: nat, frames: seq<nat>, free: set<nat>, pg: nat, n: nat)
    requires Backed(ts0, ts, root, v, frames, free, |frames|) && |frames| < PAGES && n == 1
    requires RangeMapped(ts, ts', root, v + |frames| * PAGE_SIZE, pg, n)
    requires !Covered(ts0, root, PageAt(v, |frames|))
    ensures Walk(ts', root, PageAt(v, |frames|)) == Page(pg, WritableAbove(ts0, root, PageAt(v, |frames|)))
  {
    hide Walk, WritableAbove, Covered, PageAt, FrameAddress;
    PageShift(v, |frames|);
  }

  lemma BackStepElse(ts0: Tables, ts: Tables, ts': Tables, root: nat, v: nat, frames: seq<nat>, free: set<nat>, pg: nat, n: nat)
    requires Backed(ts0, ts, root, v, frames, free, |frames|) && |frames| < PAGES && n <= 1
    requires RangeMapped(ts, ts', root, v + |frames| * PAGE_SIZE, pg, n)
    ensures forall q: Path :: q.Valid() && (Covered(ts0, root, q) || forall k :: 0 <= k < |frames| + n ==> q != PageAt(v, k)) ==>
      Walk(ts', root, q) == Walk(ts0, root, q)
  {
    hide Walk, WritableAbove, Covered, PageAt, FrameAddress;
    PageShift(v, |frames|);
  }

  lemma FrameOfPage(addr: nat, free: set<nat>, total: nat)
    requires addr % PAGE_SIZE == 0 && addr / PAGE_SIZE in free && addr / PAGE_SIZE < total && total * PAGE_SIZE <= FRAME_LIMIT
    ensures FrameAddress(addr) && addr + PAGE_SIZE <= FRAME_LIMIT && PageBase(addr) == addr && PageCount(addr, PAGE_SIZE) == 1
  {
  }

  lemma StillNoneFree(ts: Tables, free: set<nat>, free': set<nat>)
    requires NoneFree(ts, free) && free' <= free
    ensures NoneFree(ts, free')
  {
  }

  method HeapFrame(space: AddressSpace) returns (page: nat)
    requires space.Valid()
    modifies space.pmm, space.pmm.words
    ensures space.Valid() && (page == 0 <==> old(space.pmm.FreePages()) == {})
    ensures page == 0 ==> space.pmm.FreePages() == {}
    ensures page != 0 ==> FrameAddress(page) && page + PAGE_SIZE <= FRAME_LIMIT && PageBase(page) == page && PageCount(page, PAGE_SIZE) == 1
    ensures page != 0 ==> page / PAGE_SIZE in old(space.pmm.FreePages()) && |space.pmm.FreePages()| == |old(space.pmm.FreePages())| - 1
    ensures page != 0 ==> space.pmm.FreePages() == old(space.pmm.FreePages()) - {page / PAGE_SIZE}
  {
    hide Bits.Pow2, Bit, Tree, FrameAddress, NoneFree;
    ghost var free := space.pmm.FreePages();
    page := space.pmm.AllocPage();
    if page != 0 {
      FrameOfPage(page, free, space.pmm.total);
      StillNoneFree(space.tables, free, space.pmm.FreePages());
    }
  }

  lemma OnePage(ts: Tables, root: nat, v: nat, i: nat)
    ensures MissingIn(ts, root, v + i * PAGE_SIZE, 1) == Missing(ts, root, PageAt(v, i))
  {
    hide Missing, PageAt;
    PageShift(v, i);
    MissingInNext(ts, root, v + i * PAGE_SIZE, 0);
  }

  /** One turn of the loop: a frame for heap page `i`, then its mapping, which takes one more for each
      table missing on its path; the page is left unmapped exactly when they are not all there. */
  method BackPage(space: AddressSpace, ghost ts0: Tables, heapVirt: nat, ghost frames: seq<nat>, ghost m: nat, i: nat)
    returns (done: bool, ghost pg: nat, ghost n: nat)
    requires space.Valid() && |frames| == i < PAGES
    requires Backed(ts0, space.tables, space.root, heapVirt, frames, space.pmm.FreePages(), m)
    requires m == i || space.pmm.FreePages() == {}
    modifies space, space.pmm, space.pmm.words
    ensures space.Valid()
    ensures !done ==> old(space.pmm.FreePages()) == {} && space.pmm.FreePages() == {} && Backed(ts0, space.tables, space.root, heapVirt, frames, {}, m)
    ensures done ==> old(space.pmm.FreePages()) != {} && n <= 1 && (n == 0 ==> space.pmm.FreePages() == {})
    ensures done ==> Backed(ts0, space.tables, space.root, heapVirt, frames + [pg], space.pmm.FreePages(), m + n)
    ensures done ==> (n == 1 <==> |old(space.pmm.FreePages())| >= 1 + |Missing(old(space.tables), space.root, PageAt(heapVirt, i))|)
    ensures done && n == 1 ==> Made(old(space.tables), space.tables, space.root, Missing(old(space.tables), space.root, PageAt(heapVirt, i)))
    ensures done && n == 1 ==>
      |space.pmm.FreePages()| + 1 + |Missing(old(space.tables), space.root, PageAt(heapVirt, i))| == |old(space.pmm.FreePages())|
  {
    hide Made, Missing, MissingIn, PageAt, Walk, WritableAbove, Covered, Backed, Bits.Pow2, Bit, RangeMapped,
         SameCoverage, PathOf, Tree, Grew, FrameAddress, FrameAllocator.Valid, FrameAllocator.FreePages, NoneFree, PageBase, PageCount;
    ghost var ts, free := space.tables, space.pmm.FreePages();
    var page := HeapFrame(space);
    pg, n := page, 0;
    if page == 0 {
      return false, pg, n;
    }
    ghost var free' := space.pmm.FreePages();
    n := space.MapAt(heapVirt + i * PAGE_SIZE, page, PAGE_SIZE);
    GrewCount(ts, space.tables, free', space.pmm.FreePages());
    OnePage(ts, space.root, heapVirt, i);
    NewFrame(ts0, ts, space.root, heapVirt, frames, free, m, page, free', space.tables, space.pmm.FreePages());
    BackStep(ts0, ts, space.tables, space.root, heapVirt, frames, free, space.pmm.FreePages(), page, n);
    done := true;
  }

  /** With `i` pages mapped: exactly the tables they need were made, and the frames are accounted for. */
  ghost predicate Counted(ts0: Tables, ts: Tables, root: nat, v: nat, free0: set<nat>, free: set<nat>, i: nat) {
    Made(ts0, ts, root, MissingIn(ts0, root, v, i)) && |free| + i + |MissingIn(ts0, root, v, i)| == |free0|
  }

  lemma CountNone(ts: Tables, root: nat, v: nat, free: set<nat>)
    ensures Counted(ts, ts, root, v, free, free, 0)
  {
    MadeNone(ts, root);
    hide Made;
  }

  lemma CountStep(ts0: Tables, ts1: Tables, ts2: Tables, root: nat, v: nat, free0: set<nat>, free1: set<nat>, free2: set<nat>, i: nat, n: nat)
    requires Counted(ts0, ts1, root, v, free0, free1, i) && SameCoverage(ts0, ts1, root) && free1 != {}
    requires n == 1 <==> |free1| >= 1 + |Missing(ts1, root, PageAt(v, i))|
    requires n == 1 ==> Made(ts1, ts2, root, Missing(ts1, root, PageAt(v, i))) && |free2| + 1 + |Missing(ts1, root, PageAt(v, i))| == |free1|
    ensures n == 1 ==> Counted(ts0, ts2, root, v, free0, free2, i + 1)
    ensures n != 1 ==> i + |MissingIn(ts0, root, v, i)| < |free0| < i + 1 + |MissingIn(ts0, root, v, i + 1)|
  {
    hide Missing, PageAt, Made, MissingIn, Covered;
    MissingInNext(ts0, root, v, i);
    MissingAdds(ts0, ts1, root, MissingIn(ts0, root, v, i), PageAt(v, i));
    if n == 1 {
      MadeMore(ts0, ts1, ts2, root, MissingIn(ts0, root, v, i), PageAt(v, i));
    }
  }

  /** The loop stops at page `i` for want of a frame: there were too few even for the pages before the last. */
  lemma OutOfFrames(ts0: Tables, ts: Tables, root: nat, v: nat, free0: set<nat>, i: nat, pages: nat, short: bool)
    requires i < pages && if short then i > 0 && |free0| < i + |MissingIn(ts0, root, v, i)| else Counted(ts0, ts, root, v, free0, {}, i)
    ensures |free0| < pages + |MissingIn(ts0, root, v, pages - 1)| && |free0| < pages + |MissingIn(ts0, root, v, pages)|
  {
    hide Made, MissingIn;
    MissingInGrows(ts0, root, v, i, pages - 1);
    MissingInGrows(ts0, root, v, pages - 1, pages);
  }

  /** The mapping loop of kheap_init; it stops the machine when it gets no frame for a heap page. A
      frame shortage inside the mapper goes unseen until the next heap page, so the last page can be
      left unmapped: the heap is mapped whole exactly when there is a free frame for each of its pages
      and for each table missing on their paths at the start, and the shortage goes unseen exactly
      when that holds without the tables only the last page needs. */
  method BackHeap(space: AddressSpace, heapVirt: nat, pages: nat) returns (done: bool, ghost frames: seq<nat>, ghost m: nat)
    requires space.Valid() && pages <= PAGES
    modifies space, space.pmm, space.pmm.words
    ensures space.Valid() && m <= |frames| <= pages
    ensures Backed(old(space.tables), space.tables, space.root, heapVirt, frames, space.pmm.FreePages(), m)
    ensures if done then |frames| == pages && pages <= m + 1 else |frames| < pages
    ensures done && m == pages <==> |old(space.pmm.FreePages())| >= pages + |MissingIn(old(space.tables), space.root, heapVirt, pages)|
    ensures done <==> pages == 0 || |old(space.pmm.FreePages())| >= pages + |MissingIn(old(space.tables), space.root, heapVirt, pages - 1)|
    ensures pages >= 2 && (heapVirt / PAGE_SIZE + pages - 1) % ENTRIES != 0 ==> done ==> m == pages
    ensures done && m < pages ==> space.pmm.FreePages() == {}
    ensures !done ==> space.pmm.FreePages() == {}
    ensures |old(space.pmm.FreePages())| >= 4 * pages ==> done && m == pages
  {
    hide Walk, WritableAbove, Covered, Backed, Bits.Pow2, Bit, RangeMapped, SameCoverage, PathOf, Tree, Grew, FrameAddress, NoneFree,
         Missing, MissingIn, Made, PageAt, Counted, FrameAllocator.FreePages, FrameAllocator.Valid;
    ghost var ts0, free0 := space.tables, space.pmm.FreePages();
    frames, m := [], 0;
    BackNone(ts0, space.root, heapVirt, free0);
    CountNone(ts0, space.root, heapVirt, free0);
    MissingInBound(ts0, space.root, heapVirt, pages);
    if pages >= 2 && (heapVirt / PAGE_SIZE + pages - 1) % ENTRIES != 0 { LastSame(ts0, space.root, heapVirt, pages); }
    ghost var short := false;
    for i := 0 to pages
      invariant space.Valid() && |frames| == i
      invariant if short then m + 1 == i && space.pmm.FreePages() == {} else m == i
      invariant Backed(ts0, space.tables, space.root, heapVirt, frames, space.pmm.FreePages(), m)
      invariant !short ==> Counted(ts0, space.tables, space.root, heapVirt, free0, space.pmm.FreePages(), i)
      invariant short ==> i - 1 + |MissingIn(ts0, space.root, heapVirt, i - 1)| < |free0| < i + |MissingIn(ts0, space.root, heapVirt, i)|
    {
      ghost var pg, n, ts1, free1 := 0, 0, space.tables, space.pmm.FreePages();
      BackedCovers(ts0, ts1, space.root, heapVirt, frames, free1, m);
      done, pg, n := BackPage(space, ts0, heapVirt, frames, m, i);
      if !done {
        OutOfFrames(ts0, ts1, space.root, heapVirt, free0, i, pages, short);
        return false, frames, m;
      }
      CountStep(ts0, ts1, space.tables, space.root, heapVirt, free0, free1, space.pmm.FreePages(), i, n);
      frames := frames + [pg];
      m := m + n;
      short := n == 0;
    }
    done := true;
    WholeNeed(ts0, space.tables, space.root, heapVirt, free0, space.pmm.FreePages(), pages);
  }

  lemma BackedCovers(ts0: Tables, ts: Tables, root: nat, v: nat, frames: seq<nat>, free: set<nat>, m: nat)
    requires Backed(ts0, ts, root, v, frames, free, m)
    ensures SameCoverage(ts0, ts, root)
  {
    hide Walk, WritableAbove, Covered, PageAt;
  }

  lemma WholeNeed(ts0: Tables, ts: Tables, root: nat, v: nat, free0: set<nat>, free: set<nat>, pages: nat)
    ensures Counted(ts0, ts, root, v, free0, free, pages) ==> |free0| >= pages + |MissingIn(ts0, root, v, pages)|
    ensures pages > 0 ==> |MissingIn(ts0, root, v, pages - 1)| <= |MissingIn(ts0, root, v, pages)|
  {
    hide Made, MissingIn;
    if pages > 0 {
      MissingInGrows(ts0, root, v, pages - 1, pages);
    }
  }

  const HEAP_PAGES: nat := 24576
  const LARGE: nat := 0x20_0000

  /** kheap_init up to its block list: 96 MiB behind the first 2 MiB boundary past the end of memory,
      in the direct map. With the offset of the direct map on a 2 MiB boundary the last page shares its
      tables with the page before it, so the loop stops the machine or maps every page; a shortage goes
      unseen only when the offset lies one page past such a boundary. */
  method InitHeap(space: AddressSpace, hhdm: nat, maxEnd: nat) returns (done: bool, heapVirt: nat, ghost frames: seq<nat>, ghost m: nat)
    requires space.Valid()
    modifies space, space.pmm, space.pmm.words
    ensures space.Valid() && m <= |frames| <= HEAP_PAGES
    ensures maxEnd <= heapVirt - hhdm < maxEnd + 0x20_0000 && (heapVirt - hhdm) % 0x20_0000 == 0
    ensures Backed(old(space.tables), space.tables, space.root, heapVirt, frames, space.pmm.FreePages(), m)
    ensures if done then |frames| == 24576 && 24576 <= m + 1 else |frames| < 24576
    ensures done && m == HEAP_PAGES <==>
      |old(space.pmm.FreePages())| >= HEAP_PAGES + |MissingIn(old(space.tables), space.root, heapVirt, HEAP_PAGES)|
    ensures done <==> |old(space.pmm.FreePages())| >= HEAP_PAGES + |MissingIn(old(space.tables), space.root, heapVirt, HEAP_PAGES - 1)|
    ensures done && m < HEAP_PAGES ==> hhdm / PAGE_SIZE % ENTRIES == 1
    ensures hhdm % LARGE == 0 ==> (done <==> m == HEAP_PAGES)
  {
    hide Walk, WritableAbove, Covered, Backed, Bits.Pow2, Bit, Tree, MissingIn, FrameAllocator.FreePages, FrameAllocator.Valid;
    var virtOff := (maxEnd + LARGE - 1) / LARGE * LARGE;
    heapVirt := hhdm + virtOff;
    LastOfHeap(hhdm, (maxEnd + LARGE - 1) / LARGE);
    done, frames, m := BackHeap(space, heapVirt, HEAP_PAGES);
  }

  lemma LastOfHeap(hhdm: nat, k: nat)
    ensures ((hhdm + k * LARGE) / PAGE_SIZE + HEAP_PAGES - 1) % ENTRIES == 0 <==> hhdm / PAGE_SIZE % ENTRIES == 1
  {
    assert (hhdm + k * LARGE) / PAGE_SIZE == hhdm / PAGE_SIZE + k * ENTRIES;
  }

  /** A shortage that goes unseen: a direct map that starts one page past a 2 MiB boundary, only the top
      table, and a free frame for every heap page and for all tables but that of the last page. */
  method OffsetHeap() returns (done: bool, space: AddressSpace, heapVirt: nat)
    ensures done && space.Valid() && Walk(space.tables, space.root, PageAt(heapVirt, HEAP_PAGES - 1)) == Unmapped
  {
    hide Bits.Pow2, Bit, MissingIn, Walk, WritableAbove, Covered, PageAt, Tree;
    var pmm := new FrameAllocator(0x1_0000);
    pmm.FreeRange(1024, 1024 + HEAP_PAGES + 50);
    RangeSize(1024, 1024 + HEAP_PAGES + 50, pmm.FreePages());
    var root := 256 * PAGE_SIZE;
    ghost var sh: Shape := map[root := Place(4, 0, 0)];
    RootAlone(root, sh, 0xFFFF_8000_1000_1000);
    space := new AddressSpace(pmm, root, map[root := Zeros()], sh);
    ghost var ts0, frames, m := space.tables, [], 0;
    done, heapVirt, frames, m := InitHeap(space, 0xFFFF_8000_0000_1000, 0x1000_0000);
    LastUnmapped(ts0, space.tables, root, heapVirt, frames, space.pmm.FreePages());
  }

  lemma LastUnmapped(ts0: Tables, ts: Tables, root: nat, v: nat, frames: seq<nat>, free: set<nat>)
    requires Backed(ts0, ts, root, v, frames, free, HEAP_PAGES - 1)
    ensures Walk(ts, root, PageAt(v, HEAP_PAGES - 1)) == Walk(ts0, root, PageAt(v, HEAP_PAGES - 1))
  {
    hide Walk, WritableAbove, Covered;
    forall k | 0 <= k < HEAP_PAGES - 1 ensures PageAt(v, HEAP_PAGES - 1) != PageAt(v, k) {
      PathsDiffer(v, k, HEAP_PAGES - 1);
    }
    hide PageAt;
  }

  lemma {:induction false} RangeSize(lo: nat, hi: nat, s: set<nat>)
    requires lo <= hi && forall p :: p in s <==> lo <= p < hi
    ensures |s| == hi - lo
    decreases hi
  {
    if lo < hi {
      RangeSize(lo, hi - 1, s - {hi - 1});
    } else {
      assert s == {};
    }
  }

  /** The top table alone: nothing is mapped or covered, and the heap needs 50 tables without its last
      page and 51 with it. */
  lemma RootAlone(root: nat, sh: Shape, v: nat)
    requires FrameAddress(root) && sh == map[root := Place(4, 0, 0)]
    requires v / PAGE_SIZE / 0x4_0000 == (v / PAGE_SIZE + HEAP_PAGES - 1) / 0x4_0000 && v / PAGE_SIZE % ENTRIES == 1
    ensures var ts := map[root := Zeros()];
      && Tree(ts, root, sh) && Walk(ts, root, PageAt(v, HEAP_PAGES - 1)) == Unmapped
      && |MissingIn(ts, root, v, HEAP_PAGES - 1)| == 50 && |MissingIn(ts, root, v, HEAP_PAGES)| == 51
  {
    hide PageAt, MissingIn;
    var ts := map[root := Zeros()];
    forall k | 0 <= k < HEAP_PAGES ensures Missing(ts, root, PageAt(v, k)) == Beyond(PageAt(v, k), 0) {
      RootPage(root, PageAt(v, k));
    }
    RootPage(root, PageAt(v, HEAP_PAGES - 1));
    NeedInGiB(ts, root, v, HEAP_PAGES, 0);
    NeedInGiB(ts, root, v, HEAP_PAGES - 1, 0);
  }

  lemma RootPage(root: nat, p: Path)
    ensures var ts := map[root := Zeros()]; Walk(ts, root, p) == Unmapped && Missing(ts, root, p) == Beyond(p, 0)
  {
    hide Beyond;
  }

  /** A heap page can be written when every table entry there was on its way beforehand allows it, and
      so always when there was none. */
  lemma HeapWritable(ts0: Tables, ts: Tables, root: nat, v: nat, frames: seq<nat>, free: set<nat>, m: nat, k: nat)
    requires Backed(ts0, ts, root, v, frames, free, m) && k < m && !Covered(ts0, root, PageAt(v, k))
    ensures Walk(ts, root, PageAt(v, k)) == Page(frames[k], true) <==> WritableAbove(ts0, root, PageAt(v, k))
    ensures Depth(ts0, root, PageAt(v, k)) == 0 ==> Walk(ts, root, PageAt(v, k)) == Page(frames[k], true)
  {
    WritableAboveIff(ts0, root, PageAt(v, k));
    hide Walk, WritableAbove, Covered, PageAt, Depth;
  }

  /** What the heap relies on: over the mapped pages outside huge entries the translation is
      one-to-one, and no frame behind the heap is also a page table. */
  lemma HeapTranslationInjective(ts0: Tables, ts: Tables, root: nat, v: nat, frames: seq<nat>, free: set<nat>, m: nat, j: nat, k: nat)
    requires Backed(ts0, ts, root, v, frames, free, m) && j < k < m
    requires !Covered(ts0, root, PageAt(v, j)) && !Covered(ts0, root, PageAt(v, k))
    ensures var a, b := Walk(ts, root, PageAt(v, j)), Walk(ts, root, PageAt(v, k));
      a.Page? && b.Page? && a != b && a.frame !in ts && b.frame !in ts
  {
    hide Walk, WritableAbove, Covered, PageAt;
  }
}
