/** The page-table mapper, proved against the flat translation. */
module PageMapper {
  import opened Pmm
  import opened Paging
  import opened TableNeed

  class AddressSpace {
    const pmm: FrameAllocator
    const root: nat
    var tables: Tables
    ghost var shape: Shape

    /** The tables the processor is using, found through its CR3 register. */
    constructor (pmm: FrameAllocator, root: nat, tables: Tables, ghost shape: Shape)
      requires pmm.Valid() && pmm.total * PAGE_SIZE <= FRAME_LIMIT && Tree(tables, root, shape)
      requires NoneFree(tables, pmm.FreePages())
      ensures Valid() && this.pmm == pmm && this.root == root && this.tables == tables
    {
      this.pmm := pmm;
      this.root := root;
      this.tables := tables;
      this.shape := shape;
    }

    /** The tables are a tree, and no table's frame is free. */
    ghost predicate Valid()
      reads this, pmm, pmm.words
    {
      && pmm.Valid() && pmm.total * PAGE_SIZE <= FRAME_LIMIT
      && Tree(tables, root, shape)
      && NoneFree(tables, pmm.FreePages())
    }

    /** paging_new_table and the store that links the new table; 0 when no frame is left. */
    method NewTable(t: nat, i: nat) returns (np: nat)
      requires Valid() && t in tables && i < ENTRIES && shape[t].level >= 2
      requires !Present(tables[t][i]) && (shape[t].level < 4 ==> !Huge(tables[t][i]))
      modifies this, pmm, pmm.words
      ensures Valid() && Grew(old(tables), tables, old(pmm.FreePages()), pmm.FreePages())
      ensures np == 0 ==> pmm.FreePages() == {} && tables == old(tables) && shape == old(shape)
      ensures np != 0 ==> np !in old(tables) && FrameAddress(np) && tables == Linked(old(tables), t, i, np)
      ensures np != 0 ==> shape == old(shape)[np := Place(old(shape)[t].level - 1, t, i)]
      ensures SameWalks(old(tables), tables, root) && (np != 0 ==> |tables| == |old(tables)| + 1)
    {
      hide Entry, Frame, Huge, Present, Bits.Pow2, Bit, Walk, WritableAbove, Covered, Tree, Linkable, SameWalks, FrameAddress,
           FrameAllocator.Valid, FrameAllocator.FreePages, Linked, NoneFree, Grew;
      ghost var ts, sh, free := tables, shape, pmm.FreePages();
      np := TableFrame(t, i);
      if np == 0 {
        GrewNone(ts, free);
        return;
      }
      RootLevel(ts, root, sh);
      LinkedSame(ts, root, sh, t, i, np);
      GrewOne(ts, Linked(ts, t, i, np), free, pmm.FreePages(), np);
      shape := sh[np := Place(sh[t].level - 1, t, i)];
      tables := Linked(tables, t, i, np);
    }

    /** A frame for a new table: aligned, zero for none, and no table yet. */
    method TableFrame(t: nat, i: nat) returns (np: nat)
      requires Valid() && t in tables && i < ENTRIES && shape[t].level >= 2
      requires !Present(tables[t][i]) && (shape[t].level < 4 ==> !Huge(tables[t][i]))
      modifies pmm, pmm.words
      ensures pmm.Valid()
      ensures np == 0 ==> old(pmm.FreePages()) == {} && pmm.FreePages() == {} && Valid()
      ensures np != 0 ==> Linkable(tables, root, shape, t, i, np) && FrameAddress(np) && np !in tables
      ensures np != 0 ==> np % PAGE_SIZE == 0 && np / PAGE_SIZE in old(pmm.FreePages()) && pmm.FreePages() == old(pmm.FreePages()) - {np / PAGE_SIZE}
    {
      hide Entry, Frame, Huge, Present, Bits.Pow2, Bit, Walk, WritableAbove, Covered;
      NotFree(tables, pmm.FreePages());
      np := pmm.AllocPage();
    }

    /** One level of the walk down to the last-level table. The top level does not look at the huge bit. */
    method Descend(t: nat, i: nat, ghost level: nat, top: bool, ghost p: Path) returns (d: Descent)
      requires Valid() && t in tables && i < ENTRIES && t in shape && 2 <= level <= 4 && shape[t].level == level && (top <==> level == 4)
      requires p.Valid() && OnWay(tables, root, p, 4 - level, t, i)
      modifies this, pmm, pmm.words
      ensures Valid() && Grew(old(tables), tables, old(pmm.FreePages()), pmm.FreePages())
      ensures SameWalks(old(tables), tables, root)
      ensures d.Down? || tables == old(tables)
      ensures d.NoFrame? ==> pmm.FreePages() == {}
      ensures d.Down? ==> d.child in tables && shape[d.child].level == level - 1
      ensures d.Skip? <==> Stops(old(tables), root, p, 4 - level) && Covered(old(tables), root, p)
      ensures d.NoFrame? ==> Stops(old(tables), root, p, 4 - level) && !Covered(old(tables), root, p)
      ensures d.Down? ==> Deepened(old(tables), tables, root, p, 5 - level)
      ensures d.Down? ==> OnWay(tables, root, p, 5 - level, d.child, IndexAt(p, 5 - level))
      ensures d.Down? ==> if Stops(old(tables), root, p, 4 - level) then |tables| == |old(tables)| + 1 else tables == old(tables)
    {
      hide Entry, Frame, Huge, Present, Bits.Pow2, Bit, Walk, WritableAbove, Covered, FrameAddress, FrameAllocator.Valid, FrameAllocator.FreePages, NoneFree,
           Deepened, OnWay, Stops;
      var e := tables[t][i];
      ghost var ts, sh := tables, shape;
      StepCases(ts, root, p, 4 - level, t, i);
      if !top && Huge(e) {
        d := Skip;
      } else if Present(e) {
        assert Links(level, e) && Hangs(tables, root, shape, t, i);
        d := Down(Frame(e));
      } else {
        var np := NewTable(t, i);
        if np == 0 {
          d := NoFrame;
        } else {
          EntryFields(np);
          d := Down(np);
          StepLinked(ts, root, sh, p, 4 - level, t, i, np);
        }
      }
    }

    /** The walk of one turn of the mapping loop, down to the last-level table. It makes a table for
        each level that has none, fails exactly when the free frames do not suffice for them, and makes
        nothing for a page under a huge entry. */
    method WalkDown(p: Path) returns (r: Outcome, t1: nat)
      requires Valid() && p.Valid()
      modifies this, pmm, pmm.words
      ensures Valid() && Grew(old(tables), tables, old(pmm.FreePages()), pmm.FreePages())
      ensures SameWalks(old(tables), tables, root)
      ensures r.Failed? ==> pmm.FreePages() == {} && !Covered(old(tables), root, p)
      ensures r.Failed? ==> |old(pmm.FreePages())| < 3 - Depth(old(tables), root, p)
      ensures r.Passed? ==> Covered(old(tables), root, p) && tables == old(tables)
      ensures r.Done? ==> Reaches(tables, root, p, t1) && Went(old(tables), tables, root, p, 3)
    {
      hide Entry, Frame, Huge, Present, Bits.Pow2, Bit, Walk, WritableAbove,
           FrameAddress, FrameAllocator.Valid, FrameAllocator.FreePages, Tree, Grew, SameWalks, NoneFree,
           Depth, Went, Deepened, Stops, Covered, OnWay, Reaches;
      ghost var ts0, free0 := tables, pmm.FreePages();
      t1 := 0;
      RootLevel(tables, root, shape);
      WentNowhere(ts0, root, p);
      AtRoot(ts0, root, p);
      var d := Descend(root, p.l4, 4, true, p);
      if !d.Down? {
        GrewNone(ts0, free0);
        StopsThere(ts0, ts0, root, p, 0, free0, pmm.FreePages());
        return if d.Skip? then Passed else Failed, t1;
      }
      var t3 := d.child;
      RootLevel(tables, root, shape);
      GoesDown(ts0, ts0, tables, root, p, 0);
      ghost var ts1, free1 := tables, pmm.FreePages();
      d := Descend(t3, p.l3, 3, false, p);
      Compose(ts0, ts1, tables, root, free0, free1, pmm.FreePages());
      if !d.Down? {
        StopsThere(ts0, ts1, root, p, 1, free0, pmm.FreePages());
        return if d.Skip? then Passed else Failed, t1;
      }
      var t2 := d.child;
      RootLevel(tables, root, shape);
      GoesDown(ts0, ts1, tables, root, p, 1);
      ghost var ts2, free2 := tables, pmm.FreePages();
      d := Descend(t2, p.l2, 2, false, p);
      Compose(ts0, ts2, tables, root, free0, free2, pmm.FreePages());
      if !d.Down? {
        StopsThere(ts0, ts2, root, p, 2, free0, pmm.FreePages());
        return if d.Skip? then Passed else Failed, t1;
      }
      GoesDown(ts0, ts2, tables, root, p, 2);
      ReachesThere(tables, root, p, d.child);
      return Done, d.child;
    }

    /** One turn of the mapping loop: the page is mapped unless it is under a huge entry or the free
        frames are fewer than the tables missing on its path; otherwise exactly those were made. */
    method MapPage(v: nat, page: nat) returns (r: Outcome)
      requires Valid() && FrameAddress(page)
      modifies this, pmm, pmm.words
      ensures Valid() && Grew(old(tables), tables, old(pmm.FreePages()), pmm.FreePages())
      ensures SameCoverage(old(tables), tables, root)
      ensures r.Failed? ==> pmm.FreePages() == {}
      ensures r.Failed? <==> |old(pmm.FreePages())| < |Missing(old(tables), root, PathOf(v))|
      ensures !r.Failed? ==> Made(old(tables), tables, root, Missing(old(tables), root, PathOf(v)))
      ensures !r.Failed? ==> |tables| == |old(tables)| + |Missing(old(tables), root, PathOf(v))|
      ensures r.Passed? <==> Covered(old(tables), root, PathOf(v))
      ensures forall q: Path :: q.Valid() ==>
        Walk(tables, root, q) == if r.Done? && q == PathOf(v) then Page(page, WritableAbove(old(tables), root, q)) else Walk(old(tables), root, q)
    {
      hide Entry, Frame, Huge, Present, Bits.Pow2, Bit, Walk, WritableAbove,
           FrameAddress, FrameAllocator.Valid, FrameAllocator.FreePages, Tree, Grew, SameWalks, NoneFree, Mapped, PathOf,
           Depth, Missing, Made, Went, Covered, Reaches;
      var p := PathOf(v);
      var t1: nat;
      r, t1 := WalkDown(p);
      ghost var ts0, ts, sh := old(tables), tables, shape;
      SameWalksMeans(ts0, ts, root);
      MissingCount(ts0, root, p);
      if r.Done? {
        PageMade(ts0, ts, root, sh, p, t1, page);
        MappedSame(ts, root, sh, p, t1, page);
        GrewSameKeys(ts0, ts, Mapped(ts, t1, p.l1, page), old(pmm.FreePages()), pmm.FreePages());
        tables := Mapped(tables, t1, p.l1, page);
      } else if r.Passed? {
        MadeNone(ts0, root);
        MissingNone(ts0, root, p);
      }
      GrewCount(ts0, tables, old(pmm.FreePages()), pmm.FreePages());
    }

    /** paging_map_physical_at. It returns nothing; `n` is how many pages the loop got through: all
        of them exactly when there is a free frame for every table missing on their paths. */
    method MapAt(v: nat, phys: nat, len: nat) returns (ghost n: nat)
      requires Valid() && phys + len <= FRAME_LIMIT && PageCount(phys, len) <= PAGES
      modifies this, pmm, pmm.words
      ensures Valid() && Grew(old(tables), tables, old(pmm.FreePages()), pmm.FreePages())
      ensures n <= PageCount(phys, len) && RangeMapped(old(tables), tables, root, v, PageBase(phys), n)
      ensures n < PageCount(phys, len) ==> pmm.FreePages() == {}
      ensures n == PageCount(phys, len) <==> |old(pmm.FreePages())| >= |MissingIn(old(tables), root, v, PageCount(phys, len))|
      ensures n == PageCount(phys, len) ==> Made(old(tables), tables, root, MissingIn(old(tables), root, v, n))
      ensures n == PageCount(phys, len) ==> |tables| == |old(tables)| + |MissingIn(old(tables), root, v, n)|
    {
      hide Walk, WritableAbove, Covered, Valid, Grew, Bits.Pow2, Bit, FrameAllocator.FreePages, RangeMapped, SameCoverage, PathOf, Made, Missing, MissingIn;
      var start := PageBase(phys);
      var end := phys + len;
      n := 0;
      ghost var ts0, free0 := tables, pmm.FreePages();
      RangeNone(ts0, root, v, start, free0);
      var page, va := start, v;
      while page < end
        invariant Valid() && Grew(ts0, tables, free0, pmm.FreePages())
        invariant Made(ts0, tables, root, MissingIn(ts0, root, v, n)) && |tables| == |ts0| + |MissingIn(ts0, root, v, n)|
        invariant page == start + n * PAGE_SIZE && va == v + n * PAGE_SIZE && n <= PageCount(phys, len)
        invariant page < end <==> n < PageCount(phys, len)
        invariant RangeMapped(ts0, tables, root, v, start, n)
      {
        ghost var ts1, free1 := tables, pmm.FreePages();
        var r := MapPage(va, page);
        GrewTwice(ts0, ts1, tables, free0, free1, pmm.FreePages());
        if r.Failed? {
          RangeSame(ts0, ts1, tables, root, v, start, n);
          TooFew(ts0, ts1, root, v, start, n, PageCount(phys, len), free0, free1);
          return;
        }
        RangeStep(ts0, ts1, tables, root, v, start, n, r.Done?);
        MissingStep(ts0, ts1, tables, root, v, start, n);
        page := page + PAGE_SIZE;
        va := va + PAGE_SIZE;
        n := n + 1;
      }
      GrewCount(ts0, tables, free0, pmm.FreePages());
    }
  }

  lemma GrewCount(ts: Tables, ts': Tables, free: set<nat>, free': set<nat>)
    requires Grew(ts, ts', free, free')
    ensures |free'| + |ts'| == |free| + |ts|
  {
  }

  /** One more page mapped: what the first `n + 1` pages needed was made. */
  lemma MissingStep(ts0: Tables, ts1: Tables, ts2: Tables, root: nat, v: nat, start: nat, n: nat)
    requires RangeMapped(ts0, ts1, root, v, start, n) && Made(ts0, ts1, root, MissingIn(ts0, root, v, n))
    requires Made(ts1, ts2, root, Missing(ts1, root, PageAt(v, n))) && |ts2| == |ts1| + |Missing(ts1, root, PageAt(v, n))|
    requires |ts1| == |ts0| + |MissingIn(ts0, root, v, n)|
    ensures Made(ts0, ts2, root, MissingIn(ts0, root, v, n + 1)) && |ts2| == |ts0| + |MissingIn(ts0, root, v, n + 1)|
  {
    hide Walk, WritableAbove, Covered, PageAt, Made, Missing, MissingIn;
    MissingInNext(ts0, root, v, n);
    MadeMore(ts0, ts1, ts2, root, MissingIn(ts0, root, v, n), PageAt(v, n));
    MissingAdds(ts0, ts1, root, MissingIn(ts0, root, v, n), PageAt(v, n));
  }

  /** A page that finds too few frames: the frames at the start were too few for the range. */
  lemma TooFew(ts0: Tables, ts1: Tables, root: nat, v: nat, start: nat, n: nat, count: nat, free0: set<nat>, free1: set<nat>)
    requires n < count && Grew(ts0, ts1, free0, free1) && RangeMapped(ts0, ts1, root, v, start, n)
    requires Made(ts0, ts1, root, MissingIn(ts0, root, v, n)) && |ts1| == |ts0| + |MissingIn(ts0, root, v, n)|
    requires |free1| < |Missing(ts1, root, PageAt(v, n))|
    ensures |free0| < |MissingIn(ts0, root, v, count)|
  {
    hide Walk, WritableAbove, Covered, PageAt, Made, Missing, MissingIn, Grew;
    GrewCount(ts0, ts1, free0, free1);
    MissingInNext(ts0, root, v, n);
    MissingAdds(ts0, ts1, root, MissingIn(ts0, root, v, n), PageAt(v, n));
    MissingInGrows(ts0, root, v, n + 1, count);
  }

  lemma PageMade(ts0: Tables, ts: Tables, root: nat, sh: Shape, p: Path, t: nat, page: nat)
    requires Tree(ts, root, sh) && p.Valid() && Reaches(ts, root, p, t) && Went(ts0, ts, root, p, 3) && SameWalks(ts0, ts, root)
    ensures t in ts && p.l1 < |ts[t]| && !Covered(ts0, root, p)
    ensures Made(ts0, Mapped(ts, t, p.l1, page), root, Missing(ts0, root, p)) && |ts| == |ts0| + |Missing(ts0, root, p)|
  {
    ReachesBare(ts, root, p, t);
    hide Walk, WritableAbove, Covered, Reaches, Depth, Missing, Mapped, Tree, Made, Deepened;
    DeepenedMakes(ts0, ts, root, p);
    MissingCount(ts0, root, p);
    MappedDepth(ts, root, sh, p, t, page, p);
    var ts' := Mapped(ts, t, p.l1, page);
    forall q: Path | q.Valid() ensures Depth(ts', root, q) == Depth(ts, root, q) {
      MappedDepth(ts, root, sh, p, t, page, q);
    }
    MadeSameDepth(ts0, ts, ts', root, Missing(ts0, root, p));
  }

  lemma ReachesBare(ts: Tables, root: nat, p: Path, t: nat)
    requires Reaches(ts, root, p, t)
    ensures !Covered(ts, root, p)
  {
  }

  lemma RangeNone(ts: Tables, root: nat, v: nat, start: nat, free: set<nat>)
    ensures RangeMapped(ts, ts, root, v, start, 0) && Grew(ts, ts, free, free)
    ensures Made(ts, ts, root, MissingIn(ts, root, v, 0)) && |MissingIn(ts, root, v, 0)| == 0
  {
    MadeNone(ts, root);
    hide Walk, WritableAbove, Covered, Depth, Made;
  }

  lemma RangeSame(ts: Tables, ts1: Tables, ts2: Tables, root: nat, v: nat, start: nat, n: nat)
    requires RangeMapped(ts, ts1, root, v, start, n) && SameCoverage(ts1, ts2, root)
    requires forall q: Path :: q.Valid() ==> Walk(ts2, root, q) == Walk(ts1, root, q)
    ensures RangeMapped(ts, ts2, root, v, start, n)
  {
    hide Walk, WritableAbove, Covered, PageAt;
  }

  lemma GrewTwice(ts0: Tables, ts1: Tables, ts2: Tables, free0: set<nat>, free1: set<nat>, free2: set<nat>)
    requires Grew(ts0, ts1, free0, free1) && Grew(ts1, ts2, free1, free2)
    ensures Grew(ts0, ts2, free0, free2)
  {
  }

  datatype Outcome = Done | Passed | Failed

  /** How many 4 KiB pages the loop over [phys, phys + len) visits. */
  function PageCount(phys: nat, len: nat): nat {
    (phys % PAGE_SIZE + len + PAGE_SIZE - 1) / PAGE_SIZE
  }

  function PageBase(phys: nat): nat {
    phys - phys % PAGE_SIZE
  }

  /** The flat view of mapping `n` pages: each page not under a huge entry translates to its frame,
      and every other translation, and what is under huge entries, is as before. */
  ghost predicate RangeMapped(ts: Tables, ts': Tables, root: nat, v: nat, start: nat, n: nat) {
    && SameCoverage(ts, ts', root)
    && (forall k :: 0 <= k < n && !Covered(ts, root, PageAt(v, k)) ==> Walk(ts', root, PageAt(v, k)) == Page(start + k * PAGE_SIZE, WritableAbove(ts, root, PageAt(v, k))))
    && (forall q: Path :: q.Valid() && (Covered(ts, root, q) || forall k :: 0 <= k < n ==> q != PageAt(v, k)) ==>
         Walk(ts', root, q) == Walk(ts, root, q))
  }

  lemma RangeStep(ts: Tables, ts1: Tables, ts2: Tables, root: nat, v: nat, start: nat, n: nat, done: bool)
    requires RangeMapped(ts, ts1, root, v, start, n) && SameCoverage(ts1, ts2, root) && n < PAGES
    requires done <==> !Covered(ts1, root, PageAt(v, n))
    requires forall q: Path :: q.Valid() ==>
      Walk(ts2, root, q) == if done && q == PageAt(v, n) then Page(start + n * PAGE_SIZE, WritableAbove(ts1, root, q)) else Walk(ts1, root, q)
    ensures RangeMapped(ts, ts2, root, v, start, n + 1)
  {
    hide Walk, WritableAbove, Covered;
    forall k | 0 <= k < n ensures PageAt(v, k) != PageAt(v, n) {
      PathsDiffer(v, k, n);
    }
    hide PageAt;
  }

  ghost predicate SameCoverage(ts: Tables, ts': Tables, root: nat) {
    forall p: Path :: p.Valid() ==> Covered(ts', root, p) == Covered(ts, root, p) && WritableAbove(ts', root, p) == WritableAbove(ts, root, p)
  }

  lemma RootLevel(ts: Tables, root: nat, sh: Shape)
    requires Tree(ts, root, sh)
    ensures root in ts && root in sh && sh[root].level == 4 && sh.Keys == ts.Keys && forall t :: t in ts ==> |ts[t]| == ENTRIES
  {
  }

  ghost predicate NoneFree(ts: Tables, free: set<nat>) {
    forall t :: t in ts ==> t / PAGE_SIZE !in free
  }

  lemma NotFree(ts: Tables, free: set<nat>)
    requires NoneFree(ts, free)
    ensures forall p :: p in free ==> p * PAGE_SIZE !in ts
  {
    forall p | p in free ensures p * PAGE_SIZE !in ts {
      assert p * PAGE_SIZE / PAGE_SIZE == p;
    }
  }

  lemma GrewNone(ts: Tables, free: set<nat>)
    ensures Grew(ts, ts, free, free) && (forall root :: SameWalks(ts, ts, root))
  {}

  lemma GrewOne(ts: Tables, ts': Tables, free: set<nat>, free': set<nat>, np: nat)
    requires NoneFree(ts, free) && np % PAGE_SIZE == 0 && np / PAGE_SIZE in free && np !in ts
    requires ts'.Keys == ts.Keys + {np} && |ts'| == |ts| + 1 && free' == free - {np / PAGE_SIZE}
    ensures Grew(ts, ts', free, free') && NoneFree(ts', free')
  {
  }

  lemma SameWalksMeans(ts: Tables, ts': Tables, root: nat)
    requires SameWalks(ts, ts', root)
    ensures SameCoverage(ts, ts', root) && forall q: Path :: q.Valid() ==> Walk(ts', root, q) == Walk(ts, root, q)
  {
  }

  lemma Compose(ts0: Tables, ts1: Tables, ts2: Tables, root: nat, free0: set<nat>, free1: set<nat>, free2: set<nat>)
    requires Grew(ts0, ts1, free0, free1) && Grew(ts1, ts2, free1, free2)
    requires SameWalks(ts0, ts1, root) && SameWalks(ts1, ts2, root)
    ensures Grew(ts0, ts2, free0, free2) && SameWalks(ts0, ts2, root)
  {
  }

  lemma GoesDown(ts0: Tables, ts1: Tables, ts2: Tables, root: nat, p: Path, k: nat)
    requires p.Valid() && k <= 2 && Went(ts0, ts1, root, p, k) && SameWalks(ts0, ts1, root)
    requires Deepened(ts1, ts2, root, p, k + 1) && !(Stops(ts1, root, p, k) && Covered(ts1, root, p))
    requires if Stops(ts1, root, p, k) then |ts2| == |ts1| + 1 else ts2 == ts1
    ensures Went(ts0, ts2, root, p, k + 1)
  {
    WentDown(ts0, ts1, ts2, root, p, k);
  }

  lemma StopsThere(ts0: Tables, ts: Tables, root: nat, p: Path, k: nat, free0: set<nat>, free: set<nat>)
    requires p.Valid() && k <= 2 && Went(ts0, ts, root, p, k) && Stops(ts, root, p, k)
    requires SameWalks(ts0, ts, root) && Grew(ts0, ts, free0, free)
    ensures Covered(ts, root, p) == Covered(ts0, root, p)
    ensures if Covered(ts, root, p) then ts == ts0 else free == {} ==> |free0| < 3 - Depth(ts0, root, p)
  {
    WentStopped(ts0, ts, root, p, k);
  }

  lemma GrewSameKeys(ts0: Tables, ts1: Tables, ts2: Tables, free0: set<nat>, free1: set<nat>)
    requires Grew(ts0, ts1, free0, free1) && NoneFree(ts1, free1) && ts2.Keys == ts1.Keys
    ensures Grew(ts0, ts2, free0, free1) && NoneFree(ts2, free1)
  {
    assert |ts2.Keys| == |ts1.Keys|;
  }

  lemma LinkedSame(ts: Tables, root: nat, sh: Shape, t: nat, i: nat, np: nat)
    requires Linkable(ts, root, sh, t, i, np)
    ensures Tree(Linked(ts, t, i, np), root, sh[np := Place(sh[t].level - 1, t, i)])
    ensures SameWalks(ts, Linked(ts, t, i, np), root)
    ensures Linked(ts, t, i, np).Keys == ts.Keys + {np} && |Linked(ts, t, i, np)| == |ts| + 1
  {
    hide Walk, WritableAbove, Covered, Entry, Present, Huge, Frame;
    LinkedTree(ts, root, sh, t, i, np);
    var ts' := Linked(ts, t, i, np);
    forall p: Path | p.Valid()
      ensures Walk(ts', root, p) == Walk(ts, root, p) && Covered(ts', root, p) == Covered(ts, root, p) && WritableAbove(ts', root, p) == WritableAbove(ts, root, p)
    {
      LinkedWalk(ts, root, sh, t, i, np, p);
    }
    assert ts'.Keys == ts.Keys + {np};
    assert |ts'.Keys| == |ts.Keys| + 1;
  }

  lemma MappedSame(ts: Tables, root: nat, sh: Shape, p: Path, t: nat, page: nat)
    requires Tree(ts, root, sh) && p.Valid() && Reaches(ts, root, p, t) && FrameAddress(page)
    ensures t in ts && |ts[t]| == ENTRIES
    ensures var ts' := Mapped(ts, t, p.l1, page);
      && Tree(ts', root, sh) && SameCoverage(ts, ts', root) && ts'.Keys == ts.Keys && |ts'| == |ts|
      && (forall q: Path :: q.Valid() ==> Walk(ts', root, q) == if q == p then Page(page, WritableAbove(ts, root, p)) else Walk(ts, root, q))
  {
    hide Walk, WritableAbove, Covered, Entry, Present, Huge, Frame;
    MappedWalk(ts, root, sh, p, t, page, p);
    MappedTree(ts, root, sh, t, p.l1, page);
    var ts' := Mapped(ts, t, p.l1, page);
    forall q: Path | q.Valid()
      ensures Covered(ts', root, q) == Covered(ts, root, q) && WritableAbove(ts', root, q) == WritableAbove(ts, root, q)
      ensures Walk(ts', root, q) == if q == p then Page(page, WritableAbove(ts, root, p)) else Walk(ts, root, q)
    {
      MappedWalk(ts, root, sh, p, t, page, q);
    }
    assert ts'.Keys == ts.Keys;
    assert |ts'.Keys| == |ts.Keys|;
  }

  /** The next table down; or the page is covered by a huge entry, or no frame was left for a table. */
  datatype Descent = Skip | NoFrame | Down(child: nat)

  /** What a change may do to the frames: tables only come, each from a free page, one page each. */
  ghost predicate Grew(ts: Tables, ts': Tables, free: set<nat>, free': set<nat>) {
    && free' <= free && ts.Keys <= ts'.Keys
    && (forall t :: t in ts' && t !in ts ==> t / PAGE_SIZE in free)
    && |free'| + |ts'| == |free| + |ts|
  }

  ghost predicate SameWalks(ts: Tables, ts': Tables, root: nat) {
    && (forall p: Path :: p.Valid() ==> Walk(ts', root, p) == Walk(ts, root, p))
    && (forall p: Path :: p.Valid() ==> Covered(ts', root, p) == Covered(ts, root, p) && WritableAbove(ts', root, p) == WritableAbove(ts, root, p))
  }
}
