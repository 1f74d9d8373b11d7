/** The kernel heap: a first-fit allocator over blocks that tile one address range, each with a
    32-byte header linking it to its neighbours. */
module Kheap {
  const HEADER: nat := 32
  const MIN_BLOCK: nat := 16
  const MAGIC: nat := 0x48454150

  function Align16(n: nat): (a: nat)
    ensures a % 16 == 0 && n <= a < n + 16
  {
    (n + 15) / 16 * 16
  }

  // ---- the heap as a list of blocks ----

  datatype Seg = Seg(size: nat, free: bool)

  /** Bytes taken by blocks, headers included. */
  function Span(segs: seq<Seg>): nat {
    if segs == [] then 0 else Span(segs[..|segs| - 1]) + HEADER + segs[|segs| - 1].size
  }

  /** Where block `i` starts. */
  function At(base: nat, segs: seq<Seg>, i: nat): nat
    requires i <= |segs|
  {
    base + Span(segs[..i])
  }

  /** Payload bytes of the free, or of the used, blocks. */
  function Bytes(segs: seq<Seg>, free: bool): nat {
    if segs == [] then 0 else
    Bytes(segs[..|segs| - 1], free) + (if segs[|segs| - 1].free == free then segs[|segs| - 1].size else 0)
  }

  /** Blocks of `total` bytes: sizes are multiples of 16, and no two neighbours are both free. */
  ghost predicate Tiles(segs: seq<Seg>, total: nat) {
    segs != [] && Span(segs) == total && Sizes(segs) && NoFreePair(segs)
  }

  ghost predicate Sizes(segs: seq<Seg>) {
    forall i :: 0 <= i < |segs| ==> segs[i].size % 16 == 0 && segs[i].size > 0
  }

  ghost predicate NoFreePair(segs: seq<Seg>) {
    forall i, j :: 0 <= i < |segs| - 1 && j == i + 1 ==> !(segs[i].free && segs[j].free)
  }

  predicate Fits(s: Seg, n: nat) {
    s.free && s.size >= n
  }

  /** The lowest block that fits, or |segs|. */
  function FirstFit(segs: seq<Seg>, n: nat, i: nat): (k: nat)
    requires i <= |segs|
    ensures i <= k <= |segs| && (k < |segs| ==> Fits(segs[k], n))
    ensures forall j :: i <= j < k ==> !Fits(segs[j], n)
    decreases |segs| - i
  {
    if i == |segs| || Fits(segs[i], n) then i else FirstFit(segs, n, i + 1)
  }

  /** What a block becomes when `n` bytes of it are allocated: split when the rest can hold a block. */
  function Carved(s: Seg, n: nat): seq<Seg>
    requires s.size >= n
  {
    if s.size >= n + HEADER + MIN_BLOCK then [Seg(n, false), Seg(s.size - n - HEADER, true)] else [Seg(s.size, false)]
  }

  function Alloc(segs: seq<Seg>, n: nat, i: nat): seq<Seg>
    requires i < |segs| && segs[i].size >= n
  {
    segs[..i] + Carved(segs[i], n) + segs[i + 1..]
  }

  /** Joining block `i` with the one after it. */
  function Joined(segs: seq<Seg>, i: nat): seq<Seg>
    requires i + 1 < |segs|
  {
    segs[..i] + [Seg(segs[i].size + HEADER + segs[i + 1].size, true)] + segs[i + 2..]
  }

  /** Freeing block `i`: mark it, join a free predecessor, then a free successor. */
  function Release(segs: seq<Seg>, i: nat): seq<Seg>
    requires i < |segs|
  {
    var marked := segs[i := segs[i].(free := true)];
    var (joined, k) := if i > 0 && segs[i - 1].free then (Joined(marked, i - 1), i - 1) else (marked, i);
    if k + 1 < |joined| && joined[k + 1].free then Joined(joined, k) else joined
  }

  // ---- sums over lists ----

  lemma {:induction false} SpanConcat(a: seq<Seg>, b: seq<Seg>)
    ensures Span(a + b) == Span(a) + Span(b)
  {
    if b == [] {
      assert a + b == a;
    } else {
      SpanConcat(a, b[..|b| - 1]);
      assert (a + b)[..|a + b| - 1] == a + b[..|b| - 1];
    }
  }

  lemma {:induction false} BytesConcat(a: seq<Seg>, b: seq<Seg>, free: bool)
    ensures Bytes(a + b, free) == Bytes(a, free) + Bytes(b, free)
  {
    if b == [] {
      assert a + b == a;
    } else {
      BytesConcat(a, b[..|b| - 1], free);
      assert (a + b)[..|a + b| - 1] == a + b[..|b| - 1];
    }
  }

  /** Used and free payload bytes and the headers make up the whole heap. */
  lemma {:induction false} BytesAddUp(segs: seq<Seg>)
    ensures Bytes(segs, true) + Bytes(segs, false) + HEADER * |segs| == Span(segs)
  {
    if segs != [] {
      BytesAddUp(segs[..|segs| - 1]);
    }
  }

  lemma SpanSmall(s: Seg, t: Seg)
    ensures Span([s]) == HEADER + s.size
    ensures Span([s, t]) == 2 * HEADER + s.size + t.size
  {
    assert [s][..0] == [] && [s, t][..1] == [s];
  }

  // ---- allocation and release keep the tiling ----

  lemma SizesConcat(a: seq<Seg>, b: seq<Seg>)
    ensures Sizes(a + b) <==> Sizes(a) && Sizes(b)
  {
    if Sizes(a + b) {
      forall i | 0 <= i < |a| ensures a[i].size % 16 == 0 && a[i].size > 0 {
        assert a[i] == (a + b)[i];
      }
      forall i | 0 <= i < |b| ensures b[i].size % 16 == 0 && b[i].size > 0 {
        assert b[i] == (a + b)[|a| + i];
      }
    }
  }

  lemma NoPairConcat(a: seq<Seg>, b: seq<Seg>)
    ensures NoFreePair(a + b) <==>
      NoFreePair(a) && NoFreePair(b) && (a != [] && b != [] ==> !(a[|a| - 1].free && b[0].free))
  {
    var c := a + b;
    if NoFreePair(c) {
      forall i, j | 0 <= i < |a| - 1 && j == i + 1 ensures !(a[i].free && a[j].free) {
        assert a[i] == c[i] && a[j] == c[j];
      }
      forall i, j | 0 <= i < |b| - 1 && j == i + 1 ensures !(b[i].free && b[j].free) {
        assert b[i] == c[|a| + i] && b[j] == c[|a| + j];
      }
      if a != [] && b != [] {
        assert a[|a| - 1] == c[|a| - 1] && b[0] == c[|a|];
      }
    }
  }

  /** Replacing a run of blocks by others of the same span that fit in between. */
  lemma TilesReplace(a: seq<Seg>, x: seq<Seg>, y: seq<Seg>, b: seq<Seg>, total: nat)
    requires Tiles(a + x + b, total)
    requires y != [] && Span(x) == Span(y) && Sizes(y) && NoFreePair(y)
    requires a != [] ==> !(a[|a| - 1].free && y[0].free)
    requires b != [] ==> !(y[|y| - 1].free && b[0].free)
    ensures Tiles(a + y + b, total)
  {
    hide Span, NoFreePair, Sizes;
    SpanConcat(a, x);
    SpanConcat(a + x, b);
    SpanConcat(a, y);
    SpanConcat(a + y, b);
    SizesConcat(a, x);
    SizesConcat(a + x, b);
    SizesConcat(a, y);
    SizesConcat(a + y, b);
    NoPairConcat(a, x);
    NoPairConcat(a + x, b);
    NoPairConcat(a, y);
    NoPairConcat(a + y, b);
    if b != [] {
      assert (a + y)[|a + y| - 1] == y[|y| - 1];
    }
  }

  lemma AllocTiles(segs: seq<Seg>, total: nat, n: nat, i: nat)
    requires Tiles(segs, total) && i < |segs| && Fits(segs[i], n) && n > 0 && n % 16 == 0
    ensures Tiles(Alloc(segs, n, i), total)
  {
    var a, c, b := segs[..i], Carved(segs[i], n), segs[i + 1..];
    assert segs == a + [segs[i]] + b;
    CarvedFits(segs[i], n);
    assert b != [] ==> !b[0].free;
    hide Span, Sizes, NoFreePair, Carved;
    TilesReplace(a, [segs[i]], c, b, total);
  }

  /** The carved block takes the same room, starts used, and is well formed. */
  lemma CarvedFits(s: Seg, n: nat)
    requires s.free && s.size >= n > 0 && n % 16 == 0 && s.size % 16 == 0
    ensures var c := Carved(s, n);
      c != [] && Span(c) == Span([s]) && Sizes(c) && NoFreePair(c) && !c[0].free
  {
    var c := Carved(s, n);
    SpanSmall(s, s);
    SpanSmall(c[0], c[|c| - 1]);
    assert |c| == 1 ==> c == [c[0]];
    assert |c| == 2 ==> c == [c[0], c[1]];
    hide Span;
  }

  /** The run of blocks that releasing block `i` merges, and the size of the result. */
  function RunStart(segs: seq<Seg>, i: nat): (lo: nat)
    requires i < |segs|
    ensures lo <= i
  {
    if i > 0 && segs[i - 1].free then i - 1 else i
  }

  function RunEnd(segs: seq<Seg>, i: nat): (hi: nat)
    requires i < |segs|
    ensures i < hi <= |segs|
  {
    if i + 1 < |segs| && segs[i + 1].free then i + 2 else i + 1
  }

  function RunSize(segs: seq<Seg>, i: nat): nat
    requires i < |segs|
  {
    segs[i].size + (if RunStart(segs, i) < i then HEADER + segs[i - 1].size else 0)
                 + (if i + 1 < RunEnd(segs, i) then HEADER + segs[i + 1].size else 0)
  }

  /** Releasing replaces the block and its free neighbours by one free block. */
  lemma ReleaseShape(segs: seq<Seg>, i: nat)
    requires i < |segs|
    ensures Release(segs, i) == segs[..RunStart(segs, i)] + [Seg(RunSize(segs, i), true)] + segs[RunEnd(segs, i)..]
  {
    hide Joined;
    var marked := segs[i := segs[i].(free := true)];
    var k := RunStart(segs, i);
    var joined := if k < i then Joined(marked, k) else marked;
    var size := segs[i].size + (if k < i then HEADER + segs[i - 1].size else 0);
    if k < i {
      JoinBefore(segs, i);
    } else {
      assert marked == segs[..i] + [Seg(size, true)] + segs[i + 1..];
    }
    JoinAfter(segs, joined, k, i, size);
  }

  /** The first merge, with the block before the freed one. */
  lemma JoinBefore(segs: seq<Seg>, i: nat)
    requires 0 < i < |segs|
    ensures Joined(segs[i := segs[i].(free := true)], i - 1) ==
      segs[..i - 1] + [Seg(segs[i].size + (HEADER + segs[i - 1].size), true)] + segs[i + 1..]
  {
    var marked := segs[i := segs[i].(free := true)];
    assert marked[i + 1..] == segs[i + 1..] && marked[..i - 1] == segs[..i - 1];
  }

  /** The second merge, with the block after the freed one. */
  lemma JoinAfter(segs: seq<Seg>, joined: seq<Seg>, k: nat, i: nat, size: nat)
    requires k <= i < |segs| && joined == segs[..k] + [Seg(size, true)] + segs[i + 1..]
    ensures i + 1 < |segs| && segs[i + 1].free ==>
      && k + 1 < |joined| && joined[k + 1].free
      && Joined(joined, k) == segs[..k] + [Seg(size + HEADER + segs[i + 1].size, true)] + segs[i + 2..]
    ensures !(i + 1 < |segs| && segs[i + 1].free) ==> !(k + 1 < |joined| && joined[k + 1].free)
  {
    if i + 1 < |segs| {
      assert joined[k + 1] == segs[i + 1];
      assert joined[k + 2..] == segs[i + 2..];
    }
  }

  lemma {:induction false} SpanRun(x: seq<Seg>)
    ensures |x| == 1 ==> Span(x) == HEADER + x[0].size
    ensures |x| == 2 ==> Span(x) == 2 * HEADER + x[0].size + x[1].size
    ensures |x| == 3 ==> Span(x) == 3 * HEADER + x[0].size + x[1].size + x[2].size
  {
    if |x| > 0 {
      SpanRun(x[..|x| - 1]);
    }
  }

  lemma RunSpan(segs: seq<Seg>, i: nat)
    requires i < |segs|
    ensures Span(segs[RunStart(segs, i)..RunEnd(segs, i)]) == HEADER + RunSize(segs, i)
  {
    var x := segs[RunStart(segs, i)..RunEnd(segs, i)];
    SpanRun(x);
    hide Span;
  }

  lemma RunSizeOk(segs: seq<Seg>, i: nat)
    requires i < |segs| && Sizes(segs)
    ensures RunSize(segs, i) % 16 == 0 && RunSize(segs, i) > 0
  {
    var c := if i + 1 < RunEnd(segs, i) then HEADER + segs[i + 1].size else 0;
    var b := if RunStart(segs, i) < i then HEADER + segs[i - 1].size else 0;
    SizeAt(segs, i);
    if i + 1 < RunEnd(segs, i) { SizeAt(segs, i + 1); }
    if RunStart(segs, i) < i { SizeAt(segs, i - 1); }
    hide Sizes, RunStart, RunEnd;
    SixteensAdd(segs[i].size, b, c);
  }

  lemma SizeAt(segs: seq<Seg>, i: nat)
    requires i < |segs| && Sizes(segs)
    ensures segs[i].size % 16 == 0 && segs[i].size > 0 && (HEADER + segs[i].size) % 16 == 0
  {}

  lemma SixteensAdd(a: nat, b: nat, c: nat)
    requires a % 16 == b % 16 == c % 16 == 0
    ensures (a + b + c) % 16 == 0
  {}

  lemma RunEnds(segs: seq<Seg>, i: nat)
    requires i < |segs| && NoFreePair(segs) && !segs[i].free
    ensures var lo, hi := RunStart(segs, i), RunEnd(segs, i); (lo > 0 ==> !segs[lo - 1].free) && (hi < |segs| ==> !segs[hi].free)
  {}

  lemma ReleaseTiles(segs: seq<Seg>, total: nat, i: nat)
    requires Tiles(segs, total) && i < |segs| && !segs[i].free
    ensures Tiles(Release(segs, i), total)
  {
    hide Release, RunStart, RunEnd, RunSize, Span, NoFreePair, Sizes;
    RunSpan(segs, i);
    RunSizeOk(segs, i);
    RunEnds(segs, i);
    ReleaseShape(segs, i);
    var lo, hi, y := RunStart(segs, i), RunEnd(segs, i), Seg(RunSize(segs, i), true);
    var a, x, b := segs[..lo], segs[lo..hi], segs[hi..];
    assert segs == a + x + b;
    SpanSmall(y, y);
    OnePair(y);
    assert Sizes([y]) by { OneSize(y); }
    TilesReplace(a, x, [y], b, total);
  }

  lemma OneSize(y: Seg)
    requires y.size % 16 == 0 && y.size > 0
    ensures Sizes([y])
  {}

  lemma OnePair(y: Seg)
    ensures NoFreePair([y])
  {
  }

  // ---- what the heap promises ----

  /** Freeing all blocks, in any order, leaves one block: with no used block there is nothing to
      keep two free ones apart. */
  lemma AllFreeIsInitial(segs: seq<Seg>, total: nat)
    requires Tiles(segs, total) && forall i :: 0 <= i < |segs| ==> segs[i].free
    ensures total >= HEADER && segs == [Seg(total - HEADER, true)]
  {
    if |segs| > 1 {
      SomeUsed(segs);
    }
    SpanRun(segs);
  }

  lemma SomeUsed(segs: seq<Seg>)
    requires NoFreePair(segs) && |segs| > 1
    ensures exists i :: 0 <= i < |segs| && !segs[i].free
  {
    assert !(segs[0].free && segs[1].free);
  }

  /** Releasing what was just allocated restores the heap. */
  lemma ReleaseUndoesAlloc(segs: seq<Seg>, total: nat, n: nat, i: nat)
    requires Tiles(segs, total) && i < |segs| && Fits(segs[i], n)
    ensures Release(Alloc(segs, n, i), i) == segs
  {
    var t, c := Alloc(segs, n, i), |Carved(segs[i], n)|;
    assert i > 0 ==> !segs[i - 1].free && t[i - 1] == segs[i - 1];
    assert i + 1 < |segs| ==> !segs[i + 1].free && t[i + c] == segs[i + 1];
    assert t[..i] == segs[..i] && t[i + c..] == segs[i + 1..] && t[i] == Carved(segs[i], n)[0];
    assert c == 2 ==> t[i + 1] == Carved(segs[i], n)[1];
    hide Span, NoFreePair, Sizes, Alloc, Release;
    ReleaseShape(t, i);
    assert RunStart(t, i) == i && RunEnd(t, i) == i + c && RunSize(t, i) == segs[i].size;
    assert segs == segs[..i] + [segs[i]] + segs[i + 1..];
  }

  lemma {:induction false} SpanMono(segs: seq<Seg>, i: nat, j: nat)
    requires i <= j <= |segs|
    ensures Span(segs[..i]) <= Span(segs[..j])
    ensures i < j ==> Span(segs[..i]) + HEADER + segs[i].size <= Span(segs[..j])
  {
    if i < j {
      SpanMono(segs, i, j - 1);
      assert segs[..j][..j - 1] == segs[..j - 1];
    }
  }

  /** Blocks come in address order without overlap, payloads inside them, all inside the heap. */
  lemma BlocksDisjoint(base: nat, segs: seq<Seg>, total: nat, i: nat, j: nat)
    requires Tiles(segs, total) && i < j < |segs|
    ensures At(base, segs, i) + HEADER + segs[i].size <= At(base, segs, j)
    ensures At(base, segs, j) + HEADER + segs[j].size <= base + total
  {
    SpanMono(segs, i, j);
    SpanMono(segs, j, |segs|);
    assert segs[..|segs|] == segs;
  }

  // ---- what a caller sees, in numbers ----

  /** No free block has room for `n` bytes. */
  ghost predicate NoneFits(segs: seq<Seg>, n: nat) {
    forall i :: 0 <= i < |segs| ==> !segs[i].free || segs[i].size < n
  }

  /** `ptr` is 32 bytes into block `k`, the lowest free one with room for `n` bytes. It becomes a used block of
      `n` bytes and a free one of the rest when that leaves 16 bytes or more behind a header of 32, and
      otherwise is used whole. */
  ghost predicate TakenAt(before: seq<Seg>, after: seq<Seg>, base: nat, n: nat, ptr: nat, k: nat) {
    && k < |before| && before[k].free && before[k].size >= n && NoneFits(before[..k], n)
    && ptr == At(base, before, k) + 32
    && after == before[..k]
      + (if before[k].size >= n + 48 then [Seg(n, false), Seg(before[k].size - n - 32, true)] else [Seg(before[k].size, false)])
      + before[k + 1..]
  }

  /** The used block `i`, 32 bytes before `ptr`, becomes one free block together with its free neighbours
      and their headers. */
  ghost predicate GivenAt(before: seq<Seg>, after: seq<Seg>, base: nat, ptr: nat, i: nat) {
    && i < |before| && !before[i].free && ptr == At(base, before, i) + 32
    && var left, right := i > 0 && before[i - 1].free, i + 1 < |before| && before[i + 1].free;
       var size := before[i].size + (if left then 32 + before[i - 1].size else 0) + if right then 32 + before[i + 1].size else 0;
       after == before[..if left then i - 1 else i] + [Seg(size, true)] + before[if right then i + 2 else i + 1..]
  }

  /** Blocks follow each other, each 32 bytes longer than its payload. */
  lemma BlockPlaces(base: nat, segs: seq<Seg>, i: nat)
    requires i < |segs|
    ensures At(base, segs, 0) == base && At(base, segs, i + 1) == At(base, segs, i) + 32 + segs[i].size
  {
    assert segs[..0] == [] && segs[..i + 1][..i] == segs[..i];
  }

  /** First fit takes a block exactly when one fits. */
  lemma FirstFitTakes(segs: seq<Seg>, base: nat, n: nat)
    ensures var k := FirstFit(segs, n, 0);
      && (k == |segs| <==> NoneFits(segs, n))
      && (k < |segs| ==> TakenAt(segs, Alloc(segs, n, k), base, n, At(base, segs, k) + 32, k))
  {
    hide At;
    var k := FirstFit(segs, n, 0);
    if k < |segs| {
      assert Fits(segs[k], n);
    }
    forall i | 0 <= i < k ensures !segs[i].free || segs[i].size < n {
      assert !Fits(segs[i], n);
    }
  }

  lemma ReleaseGives(segs: seq<Seg>, base: nat, i: nat)
    requires i < |segs| && !segs[i].free
    ensures GivenAt(segs, Release(segs, i), base, At(base, segs, i) + 32, i)
  {
    hide At, Release;
    ReleaseShape(segs, i);
  }
}
