/** The heap allocator over its linked block headers in memory, proved against the list of blocks. */
module KheapAllocator {
  import opened Kheap

  /** A block header; prev and next are addresses, 0 for none. */
  datatype Block = Block(size: nat, magic: nat, free: bool, prev: nat, next: nat)

  type Memory = map<nat, Block>

  function HeaderOf(base: nat, segs: seq<Seg>, i: nat): Block
    requires i < |segs|
  {
    Block(segs[i].size, MAGIC, segs[i].free, if i == 0 then 0 else At(base, segs, i - 1),
          if i == |segs| - 1 then 0 else At(base, segs, i + 1))
  }

  /** Memory holds the headers of these blocks; any other header is left over from a merged free block. */
  ghost predicate Repr(mem: Memory, base: nat, segs: seq<Seg>) {
    base > 0 && (forall i :: 0 <= i < |segs| ==> Holds(mem, base, segs, i)) && (forall a :: a in mem ==> Accounted(mem, base, segs, a))
  }

  ghost predicate Holds(mem: Memory, base: nat, segs: seq<Seg>, i: nat)
    requires i < |segs|
  {
    At(base, segs, i) in mem && mem[At(base, segs, i)] == HeaderOf(base, segs, i)
  }

  ghost predicate Accounted(mem: Memory, base: nat, segs: seq<Seg>, a: nat)
    requires a in mem
  {
    mem[a].free || mem[a].magic != MAGIC || IsBlock(base, segs, a)
  }

  ghost predicate IsBlock(base: nat, segs: seq<Seg>, a: nat) {
    exists i :: 0 <= i < |segs| && At(base, segs, i) == a
  }

  lemma AtMono(base: nat, segs: seq<Seg>, i: nat, j: nat)
    requires i < j <= |segs|
    ensures base <= At(base, segs, i) < At(base, segs, j)
    ensures At(base, segs, i) + HEADER + segs[i].size <= At(base, segs, j)
    ensures j == i + 1 ==> At(base, segs, j) == At(base, segs, i) + HEADER + segs[i].size
  {
    SpanMono(segs, i, j);
    assert segs[..j][..i] == segs[..i];
  }

  lemma AtInjective(base: nat, segs: seq<Seg>)
    ensures forall i, j :: 0 <= i <= |segs| && 0 <= j <= |segs| && i != j ==> At(base, segs, i) != At(base, segs, j)
    ensures forall i :: 0 <= i <= |segs| ==> At(base, segs, i) >= base
  {
    hide At;
    forall i, j | 0 <= i <= |segs| && 0 <= j <= |segs| && i != j ensures At(base, segs, i) != At(base, segs, j) {
      if i < j {
        AtMono(base, segs, i, j);
      } else {
        AtMono(base, segs, j, i);
      }
    }
    forall i | 0 <= i <= |segs| ensures At(base, segs, i) >= base {
      AtBase(base, segs, i);
    }
  }

  lemma AtBase(base: nat, segs: seq<Seg>, i: nat)
    requires i <= |segs|
    ensures At(base, segs, i) >= base
  {
  }

  /** Changing a block's mark moves nothing. */
  lemma MarkAt(base: nat, segs: seq<Seg>, k: nat, free: bool)
    requires k < |segs|
    ensures forall i :: 0 <= i <= |segs| ==> At(base, segs[k := segs[k].(free := free)], i) == At(base, segs, i)
  {
    var segs' := segs[k := segs[k].(free := free)];
    forall i | 0 <= i <= |segs| ensures At(base, segs', i) == At(base, segs, i) {
      MarkSpan(segs, k, free, i);
    }
  }

  lemma {:induction false} MarkSpan(segs: seq<Seg>, k: nat, free: bool, i: nat)
    requires k < |segs| && i <= |segs|
    ensures Span(segs[k := segs[k].(free := free)][..i]) == Span(segs[..i])
  {
    var segs' := segs[k := segs[k].(free := free)];
    if i > 0 {
      MarkSpan(segs, k, free, i - 1);
      assert segs'[..i][..i - 1] == segs'[..i - 1] && segs[..i][..i - 1] == segs[..i - 1];
    }
  }

  lemma MarkRepr(mem: Memory, base: nat, segs: seq<Seg>, k: nat, free: bool)
    requires Repr(mem, base, segs) && k < |segs|
    ensures var b := At(base, segs, k); b in mem && Repr(mem[b := mem[b].(free := free)], base, segs[k := segs[k].(free := free)])
  {
    hide At;
    var b, segs' := At(base, segs, k), segs[k := segs[k].(free := free)];
    assert Holds(mem, base, segs, k);
    var mem' := mem[b := mem[b].(free := free)];
    MarkAt(base, segs, k, free);
    AtInjective(base, segs);
    forall i | 0 <= i < |segs'| ensures Holds(mem', base, segs', i) {
      assert Holds(mem, base, segs, i);
    }
    forall a | a in mem' ensures Accounted(mem', base, segs', a) {
      if a == b {
        assert At(base, segs', k) == b;
      } else {
        assert Accounted(mem, base, segs, a);
        if IsBlock(base, segs, a) {
          var i :| 0 <= i < |segs| && At(base, segs, i) == a;
          assert At(base, segs', i) == a;
        }
      }
    }
  }

  /** Replacing the run x after a by y of the same span moves no block outside the run. */
  lemma ReplaceBefore(base: nat, a: seq<Seg>, x: seq<Seg>, y: seq<Seg>, b: seq<Seg>, j: nat)
    requires j <= |a|
    ensures At(base, a + y + b, j) == At(base, a + x + b, j)
  {
    assert (a + y + b)[..j] == a[..j] == (a + x + b)[..j];
  }

  lemma ReplaceAfter(base: nat, a: seq<Seg>, x: seq<Seg>, y: seq<Seg>, b: seq<Seg>, j: nat)
    requires Span(x) == Span(y) && j <= |b|
    ensures At(base, a + y + b, |a| + |y| + j) == At(base, a + x + b, |a| + |x| + j)
  {
    TakeThree(a, x, b, j);
    TakeThree(a, y, b, j);
    hide Span;
    SpanConcat(a, x);
    SpanConcat(a, y);
    SpanConcat(a + x, b[..j]);
    SpanConcat(a + y, b[..j]);
  }

  lemma TakeThree(a: seq<Seg>, x: seq<Seg>, b: seq<Seg>, j: nat)
    requires j <= |b|
    ensures (a + x + b)[..|a| + |x| + j] == a + x + b[..j]
  {
  }

  // ---- joining a block with the next one ----

  function JoinMem(mem: Memory, b: nat): Memory
    requires b in mem && mem[b].next in mem
  {
    var n := mem[b].next;
    var nn := mem[n].next;
    var m1 := mem[b := mem[b].(size := mem[b].size + HEADER + mem[n].size, next := nn)];
    if nn != 0 && nn in m1 then m1[nn := m1[nn].(prev := b)] else m1
  }

  lemma JoinAt(base: nat, segs: seq<Seg>, k: nat)
    requires k + 1 < |segs|
    ensures var segs' := Joined(segs, k);
      && |segs'| == |segs| - 1
      && (forall j :: 0 <= j <= k ==> At(base, segs', j) == At(base, segs, j))
      && (forall j :: k < j <= |segs'| ==> At(base, segs', j) == At(base, segs, j + 1))
  {
    var a, x, b := segs[..k], segs[k..k + 2], segs[k + 2..];
    var y := [Seg(segs[k].size + HEADER + segs[k + 1].size, true)];
    SpanRun(x);
    SpanRun(y);
    assert segs == a + x + b && Joined(segs, k) == a + y + b;
    hide At, Span;
    forall j | 0 <= j <= k ensures At(base, Joined(segs, k), j) == At(base, segs, j) {
      ReplaceBefore(base, a, x, y, b, j);
    }
    forall j | k < j <= |segs| - 1 ensures At(base, Joined(segs, k), j) == At(base, segs, j + 1) {
      ReplaceAfter(base, a, x, y, b, j - k - 1);
    }
  }

  lemma JoinRepr(mem: Memory, base: nat, segs: seq<Seg>, k: nat)
    requires Repr(mem, base, segs) && k + 1 < |segs| && segs[k].free && segs[k + 1].free
    ensures var b := At(base, segs, k);
      && b in mem && mem[b].next == At(base, segs, k + 1) && mem[b].next in mem
      && mem[mem[b].next].next == (if k + 2 < |segs| then At(base, segs, k + 2) else 0)
      && (k + 2 < |segs| ==> At(base, segs, k + 2) in mem && At(base, segs, k + 2) > 0)
      && Repr(JoinMem(mem, b), base, Joined(segs, k))
  {
    hide At;
    var segs', b := Joined(segs, k), At(base, segs, k);
    assert Holds(mem, base, segs, k) && Holds(mem, base, segs, k + 1);
    assert k + 2 < |segs| ==> Holds(mem, base, segs, k + 2);
    var mem' := JoinMem(mem, b);
    JoinAt(base, segs, k);
    AtInjective(base, segs);
    forall i | 0 <= i < |segs'| ensures Holds(mem', base, segs', i) {
      assert Holds(mem, base, segs, if i <= k then i else i + 1);
    }
    forall a | a in mem' ensures Accounted(mem', base, segs', a) {
      assert Accounted(mem, base, segs, a);
      if IsBlock(base, segs, a) {
        var i :| 0 <= i < |segs| && At(base, segs, i) == a;
        if i != k + 1 {
          assert At(base, segs', if i <= k then i else i - 1) == a;
        }
      }
    }
  }

  // ---- splitting a free block ----

  function Split(segs: seq<Seg>, k: nat, n: nat): seq<Seg>
    requires k < |segs| && segs[k].size >= n + HEADER
  {
    segs[..k] + [Seg(n, segs[k].free), Seg(segs[k].size - n - HEADER, true)] + segs[k + 1..]
  }

  function SplitMem(mem: Memory, b: nat, n: nat): Memory
    requires b in mem && mem[b].size >= n + HEADER
  {
    var nb, nn := b + HEADER + n, mem[b].next;
    var m1 := mem[nb := Block(mem[b].size - n - HEADER, MAGIC, true, b, nn)];
    var m2 := if nn != 0 && nn in m1 then m1[nn := m1[nn].(prev := nb)] else m1;
    m2[b := m2[b].(next := nb, size := n)]
  }

  lemma SplitAt(base: nat, segs: seq<Seg>, k: nat, n: nat)
    requires k < |segs| && segs[k].size >= n + HEADER
    ensures var segs' := Split(segs, k, n);
      && |segs'| == |segs| + 1
      && (forall j :: 0 <= j <= k ==> At(base, segs', j) == At(base, segs, j))
      && At(base, segs', k + 1) == At(base, segs, k) + HEADER + n
      && (forall j :: k < j <= |segs| ==> At(base, segs', j + 1) == At(base, segs, j))
  {
    var a, x, b := segs[..k], [segs[k]], segs[k + 1..];
    var y := [Seg(n, segs[k].free), Seg(segs[k].size - n - HEADER, true)];
    SpanRun(x);
    SpanRun(y);
    assert segs == a + x + b && Split(segs, k, n) == a + y + b;
    AtMono(base, Split(segs, k, n), k, k + 1);
    hide At, Span;
    forall j | 0 <= j <= k ensures At(base, Split(segs, k, n), j) == At(base, segs, j) {
      ReplaceBefore(base, a, x, y, b, j);
    }
    forall j | k < j <= |segs| ensures At(base, Split(segs, k, n), j + 1) == At(base, segs, j) {
      ReplaceAfter(base, a, x, y, b, j - k - 1);
    }
  }

  lemma SplitHeaders(mem: Memory, base: nat, segs: seq<Seg>, k: nat, n: nat)
    requires Repr(mem, base, segs) && k < |segs| && segs[k].size >= n + HEADER
    ensures var b := At(base, segs, k);
      && b in mem && mem[b] == HeaderOf(base, segs, k)
      && forall i :: 0 <= i <= |segs| ==> Holds(SplitMem(mem, b, n), base, Split(segs, k, n), i)
  {
    hide At;
    assert Holds(mem, base, segs, k);
    hide SplitMem, HeaderOf, Split;
    forall i | 0 <= i <= |segs| ensures Holds(SplitMem(mem, At(base, segs, k), n), base, Split(segs, k, n), i) {
      SplitHeader(mem, base, segs, k, n, i);
    }
  }

  lemma SplitHeader(mem: Memory, base: nat, segs: seq<Seg>, k: nat, n: nat, i: nat)
    requires Repr(mem, base, segs) && k < |segs| && segs[k].size >= n + HEADER && i <= |segs|
    requires At(base, segs, k) in mem && mem[At(base, segs, k)] == HeaderOf(base, segs, k)
    ensures Holds(SplitMem(mem, At(base, segs, k), n), base, Split(segs, k, n), i)
  {
    hide At, Split;
    assert Holds(mem, base, segs, k);
    assert k + 1 < |segs| ==> Holds(mem, base, segs, k + 1);
    assert i != k + 1 ==> Holds(mem, base, segs, if i <= k then i else i - 1);
    SplitAt(base, segs, k, n);
    SplitSegs(segs, k, n);
    AtInjective(base, segs);
    AtInjective(base, Split(segs, k, n));
    hide Repr;
    if i == k {
    } else if i == k + 1 {
    } else if i == k + 2 {
    } else {
    }
  }

  lemma SplitSegs(segs: seq<Seg>, k: nat, n: nat)
    requires k < |segs| && segs[k].size >= n + HEADER
    ensures var segs' := Split(segs, k, n);
      && |segs'| == |segs| + 1 && segs'[k] == Seg(n, segs[k].free) && segs'[k + 1] == Seg(segs[k].size - n - HEADER, true)
      && forall i :: 0 <= i <= |segs| && i != k && i != k + 1 ==> segs'[i] == segs[if i < k then i else i - 1]
  {}

  lemma SplitRepr(mem: Memory, base: nat, segs: seq<Seg>, k: nat, n: nat)
    requires Repr(mem, base, segs) && k < |segs| && segs[k].size >= n + HEADER
    ensures var b := At(base, segs, k);
      && b in mem && mem[b] == HeaderOf(base, segs, k)
      && Repr(SplitMem(mem, b, n), base, Split(segs, k, n))
  {
    SplitHeaders(mem, base, segs, k, n);
    SplitAt(base, segs, k, n);
    hide At, HeaderOf, Holds;
    var segs', b := Split(segs, k, n), At(base, segs, k);
    var mem' := SplitMem(mem, b, n);
    assert |segs'| == |segs| + 1 && At(base, segs', k) == b;
    hide Split;
    forall a | a in mem' ensures Accounted(mem', base, segs', a) {
      if a in mem {
        assert Accounted(mem, base, segs, a);
        if IsBlock(base, segs, a) {
          var i :| 0 <= i < |segs| && At(base, segs, i) == a;
          assert At(base, segs', if i <= k then i else i + 1) == a;
        }
      }
    }
  }

  // ---- the allocator ----

  class Heap {
    const base: nat
    const total: nat
    var mem: Memory
    ghost var segs: seq<Seg>

    ghost predicate Valid()
      reads this
    {
      Tiles(segs, total) && Repr(mem, base, segs)
    }

    /** The end of kheap_init: one free block covering the heap. */
    constructor (base: nat, total: nat)
      requires base > 0 && total % 16 == 0 && total > HEADER
      ensures Valid() && this.base == base && this.total == total && segs == [Seg(total - 32, true)]
    {
      this.base := base;
      this.total := total;
      mem := map[base := Block(total - HEADER, MAGIC, true, 0, 0)];
      segs := [Seg(total - HEADER, true)];
      new;
      SpanRun(segs);
      OnePair(segs[0]);
      assert segs[..0] == [];
      assert At(base, segs, 0) == base;
      assert Holds(mem, base, segs, 0);
    }

    /** kmalloc: the lowest block that fits, split when the rest can hold a block; null exactly for
        size 0 and when no block fits. */
    method Malloc(size: nat) returns (ptr: nat)
      requires Valid()
      modifies this
      ensures Valid()
      ensures var n := Align16(size);
        var k := FirstFit(old(segs), n, 0);
        if size == 0 || k == |old(segs)| then ptr == 0 && segs == old(segs)
        else ptr == At(base, old(segs), k) + HEADER && segs == Alloc(old(segs), n, k)
      ensures var n := Align16(size);
        if size == 0 || NoneFits(old(segs), n) then ptr == 0 && segs == old(segs)
        else exists k :: TakenAt(old(segs), segs, base, n, ptr, k)
    {
      if size == 0 {
        return 0;
      }
      hide At, Tiles, Span, NoneFits, TakenAt, Alloc;
      var n := Align16(size);
      ghost var i := 0;
      FirstFitTakes(segs, base, n);
      var b := base;
      AtStart(base, segs);
      while b != 0
        invariant i <= |segs| && b == (if i < |segs| then At(base, segs, i) else 0)
        invariant FirstFit(segs, n, i) == FirstFit(segs, n, 0)
        invariant Valid() && segs == old(segs) && mem == old(mem)
        decreases |segs| - i
      {
        assert Holds(mem, base, segs, i);
        if !mem[b].free || mem[b].size < n {
          b := mem[b].next;
          i := i + 1;
        } else {
          assert FirstFit(segs, n, i) == i;
          AllocAt(b, i, n);
          ptr := b + HEADER;
          assert TakenAt(old(segs), segs, base, n, ptr, i);
          return;
        }
      }
      return 0;
    }

    /** Takes `n` bytes of the free block `b`, the i-th one. */
    method AllocAt(b: nat, ghost i: nat, n: nat)
      requires Valid() && i < |segs| && b == At(base, segs, i) && Fits(segs[i], n) && n > 0 && n % 16 == 0
      modifies this
      ensures Valid() && segs == Alloc(old(segs), n, i)
    {
      hide At, Tiles, Span, Repr;
      AllocTiles(segs, total, n, i);
      AllocIsSplit(segs, n, i);
      HeaderAt(mem, base, segs, i);
      if mem[b].size >= n + HEADER + MIN_BLOCK {
        SplitBlock(b, i, n);
      }
      MarkRepr(mem, base, segs, i, false);
      mem := mem[b := mem[b].(free := false)];
      segs := segs[i := segs[i].(free := false)];
    }

    /** The split in kmalloc: a new header inside the block, linked between it and the next one. */
    method SplitBlock(b: nat, ghost i: nat, n: nat)
      requires Repr(mem, base, segs) && i < |segs| && b == At(base, segs, i) && segs[i].size >= n + HEADER
      modifies this
      ensures Repr(mem, base, segs) && segs == Split(old(segs), i, n) && b == At(base, segs, i)
    {
      hide At, Span, Repr;
      HeaderAt(mem, base, segs, i);
      SplitRepr(mem, base, segs, i, n);
      SplitAt(base, segs, i, n);
      ghost var goal := SplitMem(mem, b, n);
      var nb, nn := b + HEADER + n, mem[b].next;
      mem := mem[nb := Block(mem[b].size - n - HEADER, MAGIC, true, b, nn)];
      if nn != 0 {
        mem := mem[nn := mem[nn].(prev := nb)];
      }
      mem := mem[b := mem[b].(next := nb, size := n)];
      segs := Split(segs, i, n);
    }

    /** kfree: a used block is released; null, a bad magic number and a block that is free already
        change nothing. The header of `ptr` must still be in memory. */
    method Free(ptr: nat)
      requires Valid() && (ptr == 0 || (ptr >= HEADER && ptr - HEADER in mem))
      modifies this
      ensures Valid()
      ensures if ptr == 0 || Idle(old(mem), ptr) then segs == old(segs) && mem == old(mem)
        else exists i :: 0 <= i < |old(segs)| && !old(segs)[i].free && At(base, old(segs), i) == ptr - HEADER && segs == Release(old(segs), i)
      ensures if ptr == 0 || old(mem)[ptr - 32].magic != 0x48454150 || old(mem)[ptr - 32].free then segs == old(segs) && mem == old(mem)
        else exists i :: GivenAt(old(segs), segs, base, ptr, i)
    {
      hide At, Tiles, Span, Release, GivenAt, Repr, Holds;
      if ptr == 0 {
        return;
      }
      var b := ptr - HEADER;
      if mem[b].magic != MAGIC {
        return;
      }
      if mem[b].free {
        return;
      }
      ghost var i := UsedBlock(mem, base, segs, b);
      ReleaseGives(segs, base, i);
      FreeAt(b, i);
      assert GivenAt(old(segs), segs, base, ptr, i);
    }

    method FreeAt(b: nat, ghost i: nat)
      requires Valid() && i < |segs| && b == At(base, segs, i) && !segs[i].free
      modifies this
      ensures Valid() && segs == Release(old(segs), i)
    {
      hide At, Tiles, Span, Repr;
      ReleaseTiles(segs, total, i);
      HeaderAt(mem, base, segs, i);
      MarkRepr(mem, base, segs, i, true);
      MarkAt(base, segs, i, true);
      mem := mem[b := mem[b].(free := true)];
      segs := segs[i := segs[i].(free := true)];
      var c := b;
      ghost var k := i;
      HeaderAt(mem, base, segs, i);
      if mem[b].prev != 0 && mem[mem[b].prev].free {
        c := mem[b].prev;
        JoinNext(c, i - 1);
        k := i - 1;
      }
      HeaderAt(mem, base, segs, k);
      if mem[c].next != 0 && mem[mem[c].next].free {
        JoinNext(c, k);
      }
    }

    /** Both merges: block `b` takes in the block after it. */
    method JoinNext(b: nat, ghost k: nat)
      requires Repr(mem, base, segs) && k + 1 < |segs| && b == At(base, segs, k) && segs[k].free && segs[k + 1].free
      modifies this
      ensures Repr(mem, base, segs) && segs == Joined(old(segs), k) && b == At(base, segs, k)
    {
      hide At, Span, Repr;
      JoinRepr(mem, base, segs, k);
      JoinAt(base, segs, k);
      HeaderAt(mem, base, segs, k);
      AtInjective(base, segs);
      var n := mem[b].next;
      mem := mem[b := mem[b].(size := mem[b].size + HEADER + mem[n].size, next := mem[n].next)];
      if mem[b].next != 0 {
        mem := mem[mem[b].next := mem[mem[b].next].(prev := b)];
      }
      segs := Joined(segs, k);
    }

    lemma NotEmpty()
      requires Valid()
      ensures segs != [] && base > 0
    {}

    method FreeBytes() returns (t: nat)
      requires Valid()
      ensures t == Bytes(segs, true)
    {
      hide At, Tiles, Span, Repr, Bytes;
      t := 0;
      var b := base;
      ghost var i := 0;
      AtStart(base, segs);
      BytesTake(segs, 0, true);
      NotEmpty();
      while b != 0
        invariant b == 0 ==> i == |segs|
        invariant i <= |segs| && b == (if i < |segs| then At(base, segs, i) else 0) && t == Bytes(segs[..i], true)
        decreases |segs| - i
      {
        HeaderAt(mem, base, segs, i);
        BytesTake(segs, i + 1, true);
        if mem[b].free { t := t + mem[b].size; }
        b := mem[b].next;
        i := i + 1;
      }
      assert segs[..i] == segs;
    }

    method UsedBytes() returns (t: nat)
      requires Valid()
      ensures t == Bytes(segs, false)
    {
      hide At, Tiles, Span, Repr, Bytes;
      t := 0;
      var b := base;
      ghost var i := 0;
      AtStart(base, segs);
      BytesTake(segs, 0, false);
      NotEmpty();
      while b != 0
        invariant b == 0 ==> i == |segs|
        invariant i <= |segs| && b == (if i < |segs| then At(base, segs, i) else 0) && t == Bytes(segs[..i], false)
        decreases |segs| - i
      {
        HeaderAt(mem, base, segs, i);
        BytesTake(segs, i + 1, false);
        if !mem[b].free { t := t + mem[b].size; }
        b := mem[b].next;
        i := i + 1;
      }
      assert segs[..i] == segs;
    }
  }

  lemma BytesTake(segs: seq<Seg>, i: nat, free: bool)
    requires i <= |segs|
    ensures Bytes(segs[..i], free) == if i == 0 then 0 else Bytes(segs[..i - 1], free) + if segs[i - 1].free == free then segs[i - 1].size else 0
  {
    if i > 0 { assert segs[..i][..i - 1] == segs[..i - 1]; }
  }

  /** A header that is in use is that of a used block. */
  lemma UsedBlock(mem: Memory, base: nat, segs: seq<Seg>, b: nat) returns (i: nat)
    requires Repr(mem, base, segs) && b in mem && mem[b].magic == MAGIC && !mem[b].free
    ensures i < |segs| && At(base, segs, i) == b && !segs[i].free
  {
    hide At;
    assert Accounted(mem, base, segs, b);
    i :| 0 <= i < |segs| && At(base, segs, i) == b;
    assert Holds(mem, base, segs, i);
  }

  ghost predicate Idle(mem: Memory, ptr: nat) {
    ptr >= HEADER && ptr - HEADER in mem && (mem[ptr - HEADER].magic != MAGIC || mem[ptr - HEADER].free)
  }

  lemma AtStart(base: nat, segs: seq<Seg>)
    ensures At(base, segs, 0) == base
  {
    assert segs[..0] == [];
  }

  /** The header of a block, and of its neighbours, is where the list says. */
  lemma HeaderAt(mem: Memory, base: nat, segs: seq<Seg>, i: nat)
    requires Repr(mem, base, segs) && i < |segs|
    ensures At(base, segs, i) in mem && mem[At(base, segs, i)] == HeaderOf(base, segs, i) && base > 0
    ensures i > 0 ==> var p := At(base, segs, i - 1); p > 0 && p in mem && mem[p] == HeaderOf(base, segs, i - 1)
    ensures i + 1 < |segs| ==> var n := At(base, segs, i + 1); n > 0 && n in mem && mem[n] == HeaderOf(base, segs, i + 1)
  {
    assert Holds(mem, base, segs, i);
    assert i > 0 ==> Holds(mem, base, segs, i - 1);
    assert i + 1 < |segs| ==> Holds(mem, base, segs, i + 1);
  }

  lemma AllocIsSplit(segs: seq<Seg>, n: nat, i: nat)
    requires i < |segs| && Fits(segs[i], n)
    ensures var t := if segs[i].size >= n + HEADER + MIN_BLOCK then Split(segs, i, n) else segs;
      i < |t| && Alloc(segs, n, i) == t[i := t[i].(free := false)]
  {
  }
}
