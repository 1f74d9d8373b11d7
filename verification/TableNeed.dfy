/** How many tables a mapping has to create: how deep the tables already reach on a page's path, how
    creating tables for one page deepens the paths of others, and the count for a whole range. */
module TableNeed {
  import opened Common
  import opened Pmm
  import opened Paging

  /** How many tables below the root the walk of a path reaches. */
  function Depth(ts: Tables, root: nat, p: Path): (d: nat)
    ensures d <= 3
  {
    var e4 := Get(ts, root, p.l4);
    if !Present(e4) then 0 else
    var e3 := Get(ts, Frame(e4), p.l3);
    if !Present(e3) || Huge(e3) then 1 else
    var e2 := Get(ts, Frame(e3), p.l2);
    if !Present(e2) || Huge(e2) then 2 else 3
  }

  /** The table the walk is in after `d` steps down, and the entry it looks at there. */
  function TableAt(ts: Tables, root: nat, p: Path, d: nat): nat {
    if d == 0 then root else
    var t3 := Frame(Get(ts, root, p.l4));
    if d == 1 then t3 else
    var t2 := Frame(Get(ts, t3, p.l3));
    if d == 2 then t2 else Frame(Get(ts, t2, p.l2))
  }

  function IndexAt(p: Path, d: nat): nat {
    if d == 0 then p.l4 else if d == 1 then p.l3 else if d == 2 then p.l2 else p.l1
  }

  /** How many leading indices two paths share, of the three that lead to tables. */
  function Shared(p: Path, q: Path): (k: nat)
    ensures k <= 3
  {
    if p.l4 != q.l4 then 0 else if p.l3 != q.l3 then 1 else if p.l2 != q.l2 then 2 else 3
  }

  /** From `ts` to `ts'` the walk of every path got as deep as the first `k` tables on `p` make it. */
  ghost predicate Deepened(ts: Tables, ts': Tables, root: nat, p: Path, k: nat) {
    forall q: Path :: q.Valid() ==> Depth(ts', root, q) == Max(Depth(ts, root, q), Min(Shared(p, q), k))
  }

  /** Paths that share `k` indices reach the same tables that far. */
  lemma SharedDepth(ts: Tables, root: nat, p: Path, q: Path, k: nat)
    requires Shared(p, q) >= k && Depth(ts, root, p) >= k
    ensures Depth(ts, root, q) >= k
  {}

  /** Linking an empty table at the end of the walk of `p` deepens exactly the paths that go through it. */
  lemma LinkedDepth(ts: Tables, root: nat, sh: Shape, p: Path, d: nat, np: nat, q: Path)
    requires p.Valid() && q.Valid() && d <= 2 && Depth(ts, root, p) == d
    requires Linkable(ts, root, sh, TableAt(ts, root, p, d), IndexAt(p, d), np)
    ensures var ts' := Linked(ts, TableAt(ts, root, p, d), IndexAt(p, d), np);
      Depth(ts', root, q) == Max(Depth(ts, root, q), Min(Shared(p, q), d + 1))
  {
    EntryFields(np);
    WalkTables(ts, root, sh, p);
    WalkTables(ts, root, sh, q);
    assert !Present(0) && !Huge(0);
    hide Entry, Frame, Huge, Present, FrameAddress;
    var t, i := TableAt(ts, root, p, d), IndexAt(p, d);
    var ts' := Linked(ts, t, i, np);
    assert forall k :: Get(ts', np, k) == 0;
    assert forall a, k :: a != np && !(a == t && k == i) ==> Get(ts', a, k) == Get(ts, a, k);
    assert Get(ts', t, i) == Entry(np);
  }

  /** Writing a last-level entry changes no depth. */
  lemma MappedDepth(ts: Tables, root: nat, sh: Shape, p: Path, t: nat, frame: nat, q: Path)
    requires Tree(ts, root, sh) && p.Valid() && q.Valid() && Reaches(ts, root, p, t)
    ensures t in ts && p.l1 < |ts[t]| && Depth(Mapped(ts, t, p.l1, frame), root, q) == Depth(ts, root, q)
  {
    WalkTables(ts, root, sh, p);
    WalkTables(ts, root, sh, q);
    hide Entry, Frame, Huge, Present, FrameAddress;
    var ts' := Mapped(ts, t, p.l1, frame);
    assert forall a, k :: a != t ==> Get(ts', a, k) == Get(ts, a, k);
  }

  /** One step down: it reaches a table exactly when the entry is present and, below the top level, not huge. */
  lemma StepDown(ts: Tables, root: nat, p: Path, d: nat)
    requires d <= 2 && Depth(ts, root, p) >= d
    ensures var e := Get(ts, TableAt(ts, root, p, d), IndexAt(p, d));
      (Depth(ts, root, p) > d <==> Present(e) && (d == 0 || !Huge(e))) && TableAt(ts, root, p, d + 1) == Frame(e)
  {
    hide Present, Huge, Frame;
  }

  /** Where the walk stops, the page is covered exactly when the entry has the huge bit below the top level. */
  lemma CoveredBelow(ts: Tables, root: nat, p: Path)
    ensures var d := Depth(ts, root, p);
      d <= 2 ==> (Covered(ts, root, p) <==> d > 0 && Huge(Get(ts, TableAt(ts, root, p, d), IndexAt(p, d))))
  {
    hide Present, Huge, Frame;
  }

  /** Writing is allowed above a page exactly when every entry its walk goes down by allows it; with
      nothing there yet it is. */
  lemma WritableAboveIff(ts: Tables, root: nat, p: Path)
    ensures WritableAbove(ts, root, p) <==>
      forall d: nat :: d < Depth(ts, root, p) ==> Writable(Get(ts, TableAt(ts, root, p, d), IndexAt(p, d)))
  {
    hide Present, Huge, Frame, Writable;
    var w := Depth(ts, root, p);
    assert w > 0 ==> TableAt(ts, root, p, 0) == root && IndexAt(p, 0) == p.l4;
    assert w > 1 ==> IndexAt(p, 1) == p.l3;
    assert w > 2 ==> IndexAt(p, 2) == p.l2;
  }

  lemma AlreadyDeep(ts: Tables, root: nat, p: Path, k: nat)
    requires Depth(ts, root, p) >= k
    ensures Deepened(ts, ts, root, p, k)
  {
    forall q: Path | q.Valid() ensures Depth(ts, root, q) == Max(Depth(ts, root, q), Min(Shared(p, q), k)) {
      SharedDepth(ts, root, p, q, Min(Shared(p, q), k));
    }
  }

  lemma LinkDeepens(ts: Tables, root: nat, sh: Shape, p: Path, d: nat, t: nat, i: nat, np: nat)
    requires p.Valid() && d <= 2 && Depth(ts, root, p) == d && t == TableAt(ts, root, p, d) && i == IndexAt(p, d)
    requires Linkable(ts, root, sh, t, i, np)
    ensures t in ts && i < |ts[t]| && Deepened(ts, Linked(ts, t, i, np), root, p, d + 1)
  {
    hide Linked, Depth, TableAt, IndexAt, Shared;
    var ts' := Linked(ts, t, i, np);
    forall q: Path | q.Valid() ensures Depth(ts', root, q) == Max(Depth(ts, root, q), Min(Shared(p, q), d + 1)) {
      LinkedDepth(ts, root, sh, p, d, np, q);
    }
  }

  /** The walk of `p` stands before entry `i` of table `t`, `d` steps down. */
  ghost predicate OnWay(ts: Tables, root: nat, p: Path, d: nat, t: nat, i: nat) {
    Depth(ts, root, p) >= d && t == TableAt(ts, root, p, d) && i == IndexAt(p, d)
  }

  lemma AtRoot(ts: Tables, root: nat, p: Path)
    ensures OnWay(ts, root, p, 0, root, p.l4)
  {}

  lemma ReachesThere(ts: Tables, root: nat, p: Path, t: nat)
    requires OnWay(ts, root, p, 3, t, IndexAt(p, 3))
    ensures Reaches(ts, root, p, t)
  {}

  /** It gets no further. */
  ghost predicate Stops(ts: Tables, root: nat, p: Path, d: nat) {
    Depth(ts, root, p) == d
  }

  /** What the entry there says: covered, nothing there yet, or a table to go on to. */
  lemma StepCases(ts: Tables, root: nat, p: Path, d: nat, t: nat, i: nat)
    requires d <= 2 && OnWay(ts, root, p, d, t, i)
    ensures var e := Get(ts, t, i);
      if d > 0 && Huge(e) then Stops(ts, root, p, d) && Covered(ts, root, p)
      else if Present(e) then !Stops(ts, root, p, d) && Deepened(ts, ts, root, p, d + 1) && OnWay(ts, root, p, d + 1, Frame(e), IndexAt(p, d + 1))
      else Stops(ts, root, p, d) && !Covered(ts, root, p)
  {
    StepDown(ts, root, p, d);
    CoveredBelow(ts, root, p);
    if Depth(ts, root, p) >= d + 1 {
      AlreadyDeep(ts, root, p, d + 1);
    }
    hide Present, Huge, Frame, Depth, TableAt, IndexAt, Covered, Deepened;
  }

  lemma StepLinked(ts: Tables, root: nat, sh: Shape, p: Path, d: nat, t: nat, i: nat, np: nat)
    requires p.Valid() && d <= 2 && OnWay(ts, root, p, d, t, i) && Stops(ts, root, p, d) && Linkable(ts, root, sh, t, i, np)
    ensures var ts' := Linked(ts, t, i, np); Deepened(ts, ts', root, p, d + 1) && OnWay(ts', root, p, d + 1, np, IndexAt(p, d + 1))
  {
    LinkDeepens(ts, root, sh, p, d, t, i, np);
    DeepenedSelf(ts, Linked(ts, t, i, np), root, p, d + 1);
    LinkedAt(ts, root, sh, p, d, np);
    hide Present, Huge, Frame, Depth, TableAt, IndexAt, Covered, Deepened, Linkable, Linked;
  }

  lemma LinkedAt(ts: Tables, root: nat, sh: Shape, p: Path, d: nat, np: nat)
    requires p.Valid() && d <= 2 && Depth(ts, root, p) == d
    requires Linkable(ts, root, sh, TableAt(ts, root, p, d), IndexAt(p, d), np)
    ensures TableAt(Linked(ts, TableAt(ts, root, p, d), IndexAt(p, d), np), root, p, d + 1) == np
  {
    EntryFields(np);
    WalkTables(ts, root, sh, p);
    hide Entry, Frame, Huge, Present, FrameAddress;
    var t, i := TableAt(ts, root, p, d), IndexAt(p, d);
    var ts' := Linked(ts, t, i, np);
    assert forall a, k :: a != np && !(a == t && k == i) ==> Get(ts', a, k) == Get(ts, a, k);
    assert Get(ts', t, i) == Entry(np);
  }

  lemma DeepenedTwice(ts0: Tables, ts1: Tables, ts2: Tables, root: nat, p: Path, k: nat, k': nat)
    requires Deepened(ts0, ts1, root, p, k) && Deepened(ts1, ts2, root, p, k') && k <= k'
    ensures Deepened(ts0, ts2, root, p, k')
  {
    hide Depth, Shared;
  }

  /** The walk of the path itself got that deep. */
  lemma DeepenedSelf(ts: Tables, ts': Tables, root: nat, p: Path, k: nat)
    requires p.Valid() && Deepened(ts, ts', root, p, k) && k <= 3
    ensures Depth(ts', root, p) == Max(Depth(ts, root, p), k)
  {
    hide Depth;
  }

  /** The walk down has taken `k` steps: it made a table for each level the walk of `p` did not reach, and
      none on the way to a huge entry. */
  ghost predicate Went(ts: Tables, ts': Tables, root: nat, p: Path, k: nat) {
    && Deepened(ts, ts', root, p, k)
    && |ts'| == |ts| + Max(k - Depth(ts, root, p), 0)
    && (if Depth(ts, root, p) >= k then ts' == ts else !Covered(ts, root, p))
  }

  lemma WentNowhere(ts: Tables, root: nat, p: Path)
    ensures Went(ts, ts, root, p, 0)
  {
    AlreadyDeep(ts, root, p, 0);
    hide Deepened, Depth;
  }

  lemma WentDown(ts0: Tables, ts1: Tables, ts2: Tables, root: nat, p: Path, k: nat)
    requires p.Valid() && k <= 2 && Went(ts0, ts1, root, p, k) && Covered(ts1, root, p) == Covered(ts0, root, p)
    requires Deepened(ts1, ts2, root, p, k + 1) && !(Stops(ts1, root, p, k) && Covered(ts1, root, p))
    requires if Stops(ts1, root, p, k) then |ts2| == |ts1| + 1 else ts2 == ts1
    ensures Went(ts0, ts2, root, p, k + 1)
  {
    DeepenedSelf(ts0, ts1, root, p, k);
    DeepenedTwice(ts0, ts1, ts2, root, p, k, k + 1);
    hide Deepened, Depth, Covered;
  }

  /** When the walk down stops for want of a frame it had fewer than it needed; at a huge entry it made nothing. */
  lemma WentStopped(ts0: Tables, ts: Tables, root: nat, p: Path, k: nat)
    requires p.Valid() && k <= 2 && Went(ts0, ts, root, p, k) && Stops(ts, root, p, k) && Covered(ts, root, p) == Covered(ts0, root, p)
    ensures if Covered(ts, root, p) then ts == ts0 else |ts| - |ts0| < 3 - Depth(ts0, root, p)
  {
    DeepenedSelf(ts0, ts, root, p, k);
    hide Deepened, Depth, Covered;
  }

  // ---- the tables missing on a path, and on all paths of a range ----

  /** A table's place: its depth and the indices that lead to it. */
  function Prefix(p: Path, k: nat): (nat, Path) {
    (k, Path(p.l4, if k >= 2 then p.l3 else 0, if k >= 3 then p.l2 else 0, 0))
  }

  /** The places on a path below depth `d`. */
  function Beyond(p: Path, d: nat): (s: set<(nat, Path)>)
  {
    (if d < 1 then {Prefix(p, 1)} else {}) + (if d < 2 then {Prefix(p, 2)} else {}) + (if d < 3 then {Prefix(p, 3)} else {})
  }

  lemma BeyondCount(p: Path, d: nat)
    requires d <= 3
    ensures |Beyond(p, d)| == 3 - d
  {
    var a, b, c := if d < 1 then {Prefix(p, 1)} else {}, if d < 2 then {Prefix(p, 2)} else {}, if d < 3 then {Prefix(p, 3)} else {};
    assert a !! b && (a + b) !! c;
  }

  lemma InBeyond(p: Path, d: nat, q: Path, k: nat)
    requires 1 <= k <= 3
    ensures Prefix(q, k) in Beyond(p, d) <==> d < k && Shared(p, q) >= k
  {}

  /** The tables a page still needs: none under a huge entry, else all its walk does not reach. */
  function Missing(ts: Tables, root: nat, p: Path): set<(nat, Path)> {
    if Covered(ts, root, p) then {} else Beyond(p, Depth(ts, root, p))
  }

  lemma MissingNone(ts: Tables, root: nat, p: Path)
    ensures Covered(ts, root, p) ==> Missing(ts, root, p) == {}
  {}

  /** The tables the first `n` pages of a range need, each once. */
  function MissingIn(ts: Tables, root: nat, v: nat, n: nat): set<(nat, Path)> {
    if n == 0 then {} else MissingIn(ts, root, v, n - 1) + Missing(ts, root, PageAt(v, n - 1))
  }

  /** From `ts` to `ts'` exactly the tables in `made` came to exist, seen from every page not under a huge entry. */
  ghost predicate Made(ts: Tables, ts': Tables, root: nat, made: set<(nat, Path)>) {
    forall q: Path, k: nat :: q.Valid() && !Covered(ts, root, q) && 1 <= k <= 3 ==> MadeFor(ts, ts', root, made, q, k)
  }

  predicate MadeFor(ts: Tables, ts': Tables, root: nat, made: set<(nat, Path)>, q: Path, k: nat) {
    Depth(ts', root, q) >= k <==> Depth(ts, root, q) >= k || Prefix(q, k) in made
  }

  lemma MadeNone(ts: Tables, root: nat)
    ensures Made(ts, ts, root, {})
  {}

  lemma MadeSameDepth(ts0: Tables, ts: Tables, ts': Tables, root: nat, made: set<(nat, Path)>)
    requires Made(ts0, ts, root, made) && forall q: Path :: q.Valid() ==> Depth(ts', root, q) == Depth(ts, root, q)
    ensures Made(ts0, ts', root, made)
  {
    hide Depth, Covered, Prefix;
    forall q: Path, k: nat | q.Valid() && !Covered(ts0, root, q) && 1 <= k <= 3 ensures MadeFor(ts0, ts', root, made, q, k) {
      assert MadeFor(ts0, ts, root, made, q, k);
    }
  }

  lemma DeepenedMakes(ts: Tables, ts': Tables, root: nat, p: Path)
    requires Deepened(ts, ts', root, p, 3) && !Covered(ts, root, p)
    ensures Made(ts, ts', root, Missing(ts, root, p))
  {
    forall q: Path, k: nat | q.Valid() && !Covered(ts, root, q) && 1 <= k <= 3
      ensures MadeFor(ts, ts', root, Missing(ts, root, p), q, k)
    {
      InBeyond(p, Depth(ts, root, p), q, k);
      if Shared(p, q) >= k && Depth(ts, root, p) >= k {
        SharedDepth(ts, root, p, q, k);
      }
      hide Depth, Covered, Beyond, Prefix, Shared;
    }
  }

  /** Making what one more page needs: from the start, exactly what all of them needed was made. */
  lemma MadeMore(ts0: Tables, ts1: Tables, ts2: Tables, root: nat, made: set<(nat, Path)>, p: Path)
    requires p.Valid() && Made(ts0, ts1, root, made) && Made(ts1, ts2, root, Missing(ts1, root, p))
    requires forall q: Path :: q.Valid() ==> Covered(ts1, root, q) == Covered(ts0, root, q)
    ensures Made(ts0, ts2, root, made + Missing(ts0, root, p))
  {
    var a, b := Missing(ts0, root, p), Missing(ts1, root, p);
    MissingSplits(ts0, ts1, root, made, p);
    hide Covered, Missing, MadeFor;
    assert made + a == made + b;
    forall q: Path, k: nat | q.Valid() && !Covered(ts0, root, q) && 1 <= k <= 3
      ensures MadeFor(ts0, ts2, root, made + a, q, k)
    {
      assert Covered(ts1, root, q) == Covered(ts0, root, q);
      MadeForBoth(ts0, ts1, ts2, root, made, b, q, k);
    }
  }

  lemma MadeForBoth(ts0: Tables, ts1: Tables, ts2: Tables, root: nat, a: set<(nat, Path)>, b: set<(nat, Path)>, q: Path, k: nat)
    requires MadeFor(ts0, ts1, root, a, q, k) && MadeFor(ts1, ts2, root, b, q, k)
    ensures MadeFor(ts0, ts2, root, a + b, q, k)
  {
    hide Depth, Prefix;
  }

  /** A page that now finds some tables missing adds that many to the count from the start. */
  lemma MissingAdds(ts0: Tables, ts1: Tables, root: nat, made: set<(nat, Path)>, p: Path)
    requires p.Valid() && Made(ts0, ts1, root, made) && Covered(ts1, root, p) == Covered(ts0, root, p)
    ensures |made + Missing(ts0, root, p)| == |made| + |Missing(ts1, root, p)|
  {
    var a, b := Missing(ts0, root, p), Missing(ts1, root, p);
    MissingSplits(ts0, ts1, root, made, p);
    hide Covered, Missing, Made;
    assert made + a == made + b;
    DisjointSize(made, b);
  }

  lemma DisjointSize<T>(a: set<T>, b: set<T>)
    requires a !! b
    ensures |a + b| == |a| + |b|
  {}

  lemma MissingSplits(ts0: Tables, ts1: Tables, root: nat, made: set<(nat, Path)>, p: Path)
    requires p.Valid() && Made(ts0, ts1, root, made) && Covered(ts1, root, p) == Covered(ts0, root, p)
    ensures made !! Missing(ts1, root, p)
    ensures Missing(ts1, root, p) <= Missing(ts0, root, p) <= made + Missing(ts1, root, p)
  {
    if !Covered(ts0, root, p) {
      assert MadeFor(ts0, ts1, root, made, p, 1) && MadeFor(ts0, ts1, root, made, p, 2) && MadeFor(ts0, ts1, root, made, p, 3);
      BeyondSplits(p, Depth(ts0, root, p), Depth(ts1, root, p), made);
    }
  }

  lemma BeyondSplits(p: Path, d0: nat, d1: nat, made: set<(nat, Path)>)
    requires d0 <= 3 && d1 <= 3
    requires d1 >= 1 <==> d0 >= 1 || Prefix(p, 1) in made
    requires d1 >= 2 <==> d0 >= 2 || Prefix(p, 2) in made
    requires d1 >= 3 <==> d0 >= 3 || Prefix(p, 3) in made
    ensures made !! Beyond(p, d1)
    ensures Beyond(p, d1) <= Beyond(p, d0) <= made + Beyond(p, d1)
  {
    hide Prefix;
  }

  lemma MissingInNext(ts: Tables, root: nat, v: nat, n: nat)
    ensures MissingIn(ts, root, v, n + 1) == MissingIn(ts, root, v, n) + Missing(ts, root, PageAt(v, n))
  {}

  /** The count for a range, page by page, and its bounds. */
  lemma {:induction false} MissingInGrows(ts: Tables, root: nat, v: nat, i: nat, n: nat)
    requires i <= n
    ensures MissingIn(ts, root, v, i) <= MissingIn(ts, root, v, n) && |MissingIn(ts, root, v, i)| <= |MissingIn(ts, root, v, n)|
    decreases n
  {
    hide Missing, PageAt;
    if i < n {
      MissingInGrows(ts, root, v, i, n - 1);
    }
    SubsetSize(MissingIn(ts, root, v, i), MissingIn(ts, root, v, n));
  }

  lemma {:induction false} SubsetSize<T>(a: set<T>, b: set<T>)
    requires a <= b
    ensures |a| <= |b|
  {
    assert b == a + (b - a);
  }

  lemma {:induction false} MissingInBound(ts: Tables, root: nat, v: nat, n: nat)
    ensures |MissingIn(ts, root, v, n)| <= 3 * n
  {
    hide Missing, PageAt, Covered, Depth;
    if n > 0 {
      MissingInBound(ts, root, v, n - 1);
      MissingCount(ts, root, PageAt(v, n - 1));
      UnionSize(MissingIn(ts, root, v, n - 1), Missing(ts, root, PageAt(v, n - 1)));
    }
  }

  lemma MissingCount(ts: Tables, root: nat, p: Path)
    ensures |Missing(ts, root, p)| == if Covered(ts, root, p) then 0 else 3 - Depth(ts, root, p)
  {
    BeyondCount(p, Depth(ts, root, p));
  }

  lemma UnionSize<T>(a: set<T>, b: set<T>)
    ensures |a + b| <= |a| + |b|
  {
    assert a + b == a + (b - a);
    DisjointSize(a, b - a);
    SubsetSize(b - a, b);
  }

  // ---- what the last page of a range adds ----

  /** The 2 MiB region a page of a range lies in, whose pages share all three tables. */
  function LargePage(v: nat, k: nat): nat {
    (v / PAGE_SIZE + k) / ENTRIES
  }

  lemma LargePageOf(v: nat, k: nat)
    ensures var p, r := PageAt(v, k), LargePage(v, k) % 0x800_0000;
      p.l4 == r / 0x4_0000 && p.l3 == r / 0x200 % ENTRIES && p.l2 == r % ENTRIES
  {
    var n := (v / PAGE_SIZE + k) % PAGES;
    assert (v + k * PAGE_SIZE) / PAGE_SIZE == v / PAGE_SIZE + k;
    assert n / ENTRIES == LargePage(v, k) % 0x800_0000;
    DivTwice(n);
    DivTwice(n / ENTRIES);
  }

  lemma SharedInLarge(v: nat, j: nat, k: nat)
    requires LargePage(v, j) == LargePage(v, k)
    ensures Shared(PageAt(v, j), PageAt(v, k)) == 3
  {
    hide PageAt, LargePage;
    LargePageOf(v, j);
    LargePageOf(v, k);
  }

  lemma LargeFromShared(v: nat, j: nat, k: nat)
    requires Shared(PageAt(v, j), PageAt(v, k)) == 3
    ensures LargePage(v, j) % 0x800_0000 == LargePage(v, k) % 0x800_0000
  {
    hide PageAt, LargePage;
    LargePageOf(v, j);
    LargePageOf(v, k);
    var a, b := LargePage(v, j) % 0x800_0000, LargePage(v, k) % 0x800_0000;
    assert a / 0x4_0000 == a / 0x200 / 0x200 && b / 0x4_0000 == b / 0x200 / 0x200;
  }

  /** The first page of a large page shares its last-level table with no page before it. */
  lemma FirstOfLarge(v: nat, j: nat, k: nat)
    requires j < k <= PAGES - ENTRIES && (v / PAGE_SIZE + k) % ENTRIES == 0
    ensures Shared(PageAt(v, j), PageAt(v, k)) < 3
  {
    hide PageAt, Shared;
    var a, b := LargePage(v, j), LargePage(v, k);
    assert a < b < a + 0x800_0000;
    if Shared(PageAt(v, j), PageAt(v, k)) == 3 {
      LargeFromShared(v, j, k);
    }
  }

  lemma SharedMissing(ts: Tables, root: nat, p: Path, q: Path)
    requires Shared(p, q) == 3
    ensures Missing(ts, root, p) == Missing(ts, root, q)
  {}

  /** A table in the count of a range is on the path of one of its pages. */
  lemma {:induction false} InMissingIn(ts: Tables, root: nat, v: nat, n: nat, p: Path) returns (j: nat)
    requires Prefix(p, 3) in MissingIn(ts, root, v, n)
    ensures j < n && Shared(PageAt(v, j), p) == 3
  {
    if Prefix(p, 3) in Missing(ts, root, PageAt(v, n - 1)) {
      j := n - 1;
      InBeyond(PageAt(v, j), Depth(ts, root, PageAt(v, j)), p, 3);
    } else {
      j := InMissingIn(ts, root, v, n - 1, p);
    }
  }

  lemma {:induction false} MissingInHas(ts: Tables, root: nat, v: nat, n: nat, k: nat)
    requires k < n
    ensures Missing(ts, root, PageAt(v, k)) <= MissingIn(ts, root, v, n)
    decreases n
  {
    hide Missing, PageAt;
    if k < n - 1 {
      MissingInHas(ts, root, v, n - 1, k);
    }
  }

  /** The last page of a range needs no table of its own exactly when it is covered, or its tables are
      there, or another page of the range lies before it in its large page. */
  lemma LastNeedsIff(ts: Tables, root: nat, v: nat, n: nat)
    requires 0 < n <= PAGES - ENTRIES
    ensures var p := PageAt(v, n - 1);
      MissingIn(ts, root, v, n) == MissingIn(ts, root, v, n - 1) <==>
      Covered(ts, root, p) || Depth(ts, root, p) == 3 || (n >= 2 && (v / PAGE_SIZE + n - 1) % ENTRIES != 0)
  {
    hide PageAt, Depth, Covered, MissingIn, Missing, Prefix;
    MissingInNext(ts, root, v, n - 1);
    MissingCases(ts, root, PageAt(v, n - 1));
    if n >= 2 && (v / PAGE_SIZE + n - 1) % ENTRIES != 0 {
      LastSame(ts, root, v, n);
    } else {
      LastNew(ts, root, v, n);
    }
  }

  lemma LastSame(ts: Tables, root: nat, v: nat, n: nat)
    requires n >= 2 && (v / PAGE_SIZE + n - 1) % ENTRIES != 0
    ensures MissingIn(ts, root, v, n) == MissingIn(ts, root, v, n - 1)
  {
    hide PageAt, MissingIn, Missing;
    LastShares(v, n);
    MissingInNext(ts, root, v, n - 1);
    SharedMissing(ts, root, PageAt(v, n - 2), PageAt(v, n - 1));
    MissingInHas(ts, root, v, n - 1, n - 2);
  }

  lemma LastNew(ts: Tables, root: nat, v: nat, n: nat)
    requires 0 < n <= PAGES - ENTRIES && (n == 1 || (v / PAGE_SIZE + n - 1) % ENTRIES == 0)
    ensures Prefix(PageAt(v, n - 1), 3) !in MissingIn(ts, root, v, n - 1)
  {
    hide PageAt, MissingIn, Prefix;
    if Prefix(PageAt(v, n - 1), 3) in MissingIn(ts, root, v, n - 1) {
      var j := InMissingIn(ts, root, v, n - 1, PageAt(v, n - 1));
      if n > 1 {
        FirstOfLarge(v, j, n - 1);
      }
    }
  }

  lemma MissingCases(ts: Tables, root: nat, p: Path)
    ensures if Covered(ts, root, p) || Depth(ts, root, p) == 3 then Missing(ts, root, p) == {} else Prefix(p, 3) in Missing(ts, root, p)
  {
    hide Depth, Covered;
  }

  lemma LastShares(v: nat, n: nat)
    requires n >= 2 && (v / PAGE_SIZE + n - 1) % ENTRIES != 0
    ensures Shared(PageAt(v, n - 2), PageAt(v, n - 1)) == 3
  {
    SharedInLarge(v, n - 2, n - 1);
  }

  /** The exact count for a range inside one GiB none of whose pages the tables reach deeper than `d`:
      the tables above the last level once, and one last-level table for each large page. */
  lemma {:induction false} NeedInGiB(ts: Tables, root: nat, v: nat, n: nat, d: nat)
    requires 0 < n <= 0x4_0000 && d <= 2 && v / PAGE_SIZE / 0x4_0000 == (v / PAGE_SIZE + n - 1) / 0x4_0000
    requires forall k :: 0 <= k < n ==> Missing(ts, root, PageAt(v, k)) == Beyond(PageAt(v, k), d)
    ensures |MissingIn(ts, root, v, n)| == 3 - d + LargePage(v, n - 1) - LargePage(v, 0)
    decreases n
  {
    hide PageAt, Missing, MissingIn;
    MissingInNext(ts, root, v, n - 1);
    BeyondCount(PageAt(v, n - 1), d);
    if n == 1 {
      NoneMissing(ts, root, v);
    } else {
      NeedInGiB(ts, root, v, n - 1, d);
      NeedOneMore(ts, root, v, n, d);
    }
  }

  lemma NoneMissing(ts: Tables, root: nat, v: nat)
    ensures MissingIn(ts, root, v, 0) == {}
  {}

  lemma NeedOneMore(ts: Tables, root: nat, v: nat, n: nat, d: nat)
    requires 2 <= n <= 0x4_0000 && d <= 2 && v / PAGE_SIZE / 0x4_0000 == (v / PAGE_SIZE + n - 1) / 0x4_0000
    requires forall k :: 0 <= k < n ==> Missing(ts, root, PageAt(v, k)) == Beyond(PageAt(v, k), d)
    ensures |MissingIn(ts, root, v, n)| == |MissingIn(ts, root, v, n - 1)| + LargePage(v, n - 1) - LargePage(v, n - 2)
  {
    hide PageAt, Missing, MissingIn, Beyond, LargePage;
    LargeStep(v, n);
    if (v / PAGE_SIZE + n - 1) % ENTRIES != 0 {
      LastSame(ts, root, v, n);
    } else {
      LastNew(ts, root, v, n);
      SharedGiB(v, n);
      MissingInNext(ts, root, v, n - 1);
      MissingInHas(ts, root, v, n - 1, n - 2);
      AddsOne(MissingIn(ts, root, v, n - 1), PageAt(v, n - 2), PageAt(v, n - 1), d);
    }
  }

  lemma LargeStep(v: nat, n: nat)
    requires n >= 2
    ensures LargePage(v, n - 1) - LargePage(v, n - 2) == if (v / PAGE_SIZE + n - 1) % ENTRIES == 0 then 1 else 0
  {}

  lemma AddsOne(made: set<(nat, Path)>, q: Path, p: Path, d: nat)
    requires d <= 2 && Beyond(q, d) <= made && Shared(q, p) >= 2 && Prefix(p, 3) !in made
    ensures |made + Beyond(p, d)| == |made| + 1
  {
    assert Prefix(p, 1) == Prefix(q, 1) && Prefix(p, 2) == Prefix(q, 2);
    assert d < 1 ==> Prefix(q, 1) in Beyond(q, d);
    assert d < 2 ==> Prefix(q, 2) in Beyond(q, d);
    hide Prefix;
    assert made + Beyond(p, d) == made + {Prefix(p, 3)};
  }

  lemma SharedGiB(v: nat, n: nat)
    requires 2 <= n && v / PAGE_SIZE / 0x4_0000 == (v / PAGE_SIZE + n - 1) / 0x4_0000
    ensures Shared(PageAt(v, n - 2), PageAt(v, n - 1)) >= 2
  {
    hide PageAt;
    GiBOf(v, n - 2);
    GiBOf(v, n - 1);
    assert (v / PAGE_SIZE + n - 2) / 0x4_0000 == (v / PAGE_SIZE + n - 1) / 0x4_0000;
  }

  lemma GiBNumber(a: nat)
    ensures a % PAGES / 0x4_0000 == a / 0x4_0000 % 0x4_0000
  {}

  lemma GiBOf(v: nat, k: nat)
    ensures var p, y := PageAt(v, k), (v / PAGE_SIZE + k) / 0x4_0000 % 0x4_0000; p.l4 == y / 0x200 && p.l3 == y % 0x200
  {
    var n := (v / PAGE_SIZE + k) % PAGES;
    assert (v + k * PAGE_SIZE) / PAGE_SIZE == v / PAGE_SIZE + k;
    GiBNumber(v / PAGE_SIZE + k);
    assert n / 0x800_0000 == n / 0x4_0000 / 0x200;
  }
}
