/** The physical frame allocator: one bit per page, packed in 64-bit words, with a moving hint. */
module Pmm {
  import opened Bits

  const PAGE_SIZE: nat := 4096
  const LOW_RESERVE: nat := 256

  // ---- bits of a word ----

  predicate Bit(w: nat, k: nat) {
    w / Pow2(k) % 2 == 1
  }

  lemma {:induction false} BitIsLsbBit(w: nat, n: nat, k: nat)
    requires k < n
    ensures LsbBits(w, n)[k] == Bit(w, k)
  {
    if k > 0 {
      BitIsLsbBit(w / 2, n - 1, k - 1);
      assert w / 2 / Pow2(k - 1) == w / Pow2(k) by {
        HalfThen(w, Pow2(k - 1));
      }
    }
  }

  lemma HalfThen(w: nat, d: nat)
    requires d > 0
    ensures w / 2 / d == w / (2 * d)
  {
    var h := w / 2;
    var q, r := h / d, h % d;
    assert w == (2 * r + w % 2) + (2 * d) * q;
    DivModUnique(w, 2 * d, q, 2 * r + w % 2);
  }

  lemma {:induction false} LsbSet(b: seq<bool>, k: nat)
    requires k < |b| && !b[k]
    ensures Lsb(b[k := true]) == Lsb(b) + Pow2(k)
  {
    if k > 0 {
      LsbSet(b[1..], k - 1);
      assert b[k := true][1..] == b[1..][k - 1 := true];
    } else {
      assert b[k := true][1..] == b[1..];
    }
  }

  /** Adding 2^k to a word whose bit k is clear sets that bit and no other. */
  lemma SetBit(w: nat, k: nat)
    requires w < Pow2(64) && k < 64 && !Bit(w, k)
    ensures w + Pow2(k) < Pow2(64)
    ensures forall j :: 0 <= j < 64 ==> Bit(w + Pow2(k), j) == (j == k || Bit(w, j))
  {
    hide Bit, Pow2, LsbBits, Lsb;
    var b := LsbBits(w, 64);
    BitIsLsbBit(w, 64, k);
    LsbOfBits(w, 64);
    LsbSet(b, k);
    LsbBound(b[k := true]);
    BitsOfLsb(b[k := true]);
    forall j | 0 <= j < 64 ensures Bit(w + Pow2(k), j) == (j == k || Bit(w, j)) {
      BitIsLsbBit(w, 64, j);
      BitIsLsbBit(w + Pow2(k), 64, j);
    }
  }

  /** Subtracting 2^k from a word whose bit k is set clears that bit and no other. */
  lemma ClearBit(w: nat, k: nat)
    requires w < Pow2(64) && k < 64 && Bit(w, k)
    ensures w >= Pow2(k)
    ensures forall j :: 0 <= j < 64 ==> Bit(w - Pow2(k), j) == (j != k && Bit(w, j))
  {
    hide Bit, Pow2, LsbBits, Lsb;
    var b := LsbBits(w, 64);
    var c := b[k := false];
    BitIsLsbBit(w, 64, k);
    LsbOfBits(w, 64);
    LsbSet(c, k);
    assert c[k := true] == b;
    BitsOfLsb(c);
    forall j | 0 <= j < 64 ensures Bit(w - Pow2(k), j) == (j != k && Bit(w, j)) {
      BitIsLsbBit(w, 64, j);
      BitIsLsbBit(w - Pow2(k), 64, j);
    }
  }

  /** How many words the code allots for `pages` pages: the byte count rounds down first. */
  function WordCount(pages: nat): nat {
    (pages / 8 + 7) / 8
  }

  /** The allotted words have a bit for every page exactly when the last partial word holds none or
      at least 8 of the pages. For other totals the last pages' bits lie beyond the bitmap. */
  lemma WordsSuffice(pages: nat)
    ensures 64 * WordCount(pages) >= pages <==> pages % 64 == 0 || pages % 64 >= 8
  {
  }

  /** All ones: every bit of an initial word is set. */
  lemma {:induction false} OnesBits(n: nat, k: nat)
    requires k < n
    ensures LsbBits(Pow2(n) - 1, n)[k]
  {
    if k > 0 {
      OnesBits(n - 1, k - 1);
      assert (Pow2(n) - 1) / 2 == Pow2(n - 1) - 1;
    }
  }

  // ---- the boot memory map ----

  datatype Region = Region(base: nat, len: nat, usable: bool) {
    function End(): nat {
      base + len
    }

    function FirstPage(): nat {
      base / PAGE_SIZE
    }

    function EndPage(): nat {
      (base + len + PAGE_SIZE - 1) / PAGE_SIZE
    }
  }

  /** The pages of a region are those it has a byte in. */
  lemma RegionPages(r: Region, p: nat)
    requires r.len > 0
    ensures r.FirstPage() <= p < r.EndPage() <==> r.base < 4096 * (p + 1) && 4096 * p < r.base + r.len
  {}

  function Highest(map_: seq<Region>): (h: nat)
    ensures forall i :: 0 <= i < |map_| && map_[i].usable ==> map_[i].End() <= h
  {
    if map_ == [] then 0 else
    var h, e := Highest(map_[..|map_| - 1]), map_[|map_| - 1];
    if e.usable && e.End() > h then e.End() else h
  }

  function TotalPages(map_: seq<Region>): nat {
    (Highest(map_) + PAGE_SIZE - 1) / PAGE_SIZE
  }

  function BitmapPages(map_: seq<Region>): nat {
    (TotalPages(map_) / 8 + PAGE_SIZE - 1) / PAGE_SIZE
  }

  ghost predicate InUsable(map_: seq<Region>, p: int) {
    exists i :: 0 <= i < |map_| && map_[i].usable && map_[i].FirstPage() <= p < map_[i].EndPage()
  }

  /** What pmm_init relies on: some usable region, the first one listed, that holds the bitmap; at
      least 1 MiB of memory; and a bit for every page. */
  ghost predicate BootMap(map_: seq<Region>, first: nat) {
    && first < |map_| && map_[first].usable
    && (forall i :: 0 <= i < first ==> !map_[i].usable)
    && map_[first].FirstPage() + BitmapPages(map_) <= TotalPages(map_)
    && TotalPages(map_) >= LOW_RESERVE && 64 * WordCount(TotalPages(map_)) >= TotalPages(map_)
  }

  /** No usable region lies below the one listed first, as in a sorted map. */
  ghost predicate LowestFirst(map_: seq<Region>, first: nat)
    requires first < |map_|
  {
    forall i :: 0 <= i < |map_| && map_[i].usable ==> map_[i].FirstPage() >= map_[first].FirstPage()
  }

  // ---- the allocator ----

  class FrameAllocator {
    const words: array<nat>
    const total: nat
    var hint: nat
    var freeCount: nat

    ghost predicate Sized()
      reads words
    {
      64 * words.Length >= total && forall i :: 0 <= i < words.Length ==> words[i] < Pow2(64)
    }

    predicate Used(p: nat)
      reads words
    {
      p / 64 < words.Length && Bit(words[p / 64], p % 64)
    }

    ghost function FreePages(): (s: set<nat>)
      reads words
      ensures forall p :: p in s <==> 0 <= p < total && !Used(p)
    {
      set p | 0 <= p < total && !Used(p)
    }

    /** Page 0 is never free, and the count is right. */
    ghost predicate Valid()
      reads this, words
    {
      && Sized() && hint <= total
      && 0 !in FreePages()
      && freeCount == |FreePages()|
    }

    /** Every page below the hint is in use. */
    ghost predicate Swept()
      reads `hint, words
    {
      forall p :: p in FreePages() ==> p >= hint
    }

    /** The bitmap with every page in use, before any region is freed. */
    constructor (total: nat)
      requires 64 * WordCount(total) >= total
      ensures this.total == total && fresh(words) && Sized() && FreePages() == {} && freeCount == 0 && hint == 0
    {
      hide LsbBits, Pow2, Bit;
      words := new nat[WordCount(total)](_ => Pow2(64) - 1);
      this.total := total;
      hint, freeCount := 0, 0;
      new;
      ghost var ones: nat := Pow2(64) - 1;
      forall k | 0 <= k < 64 ensures Bit(ones, k) {
        OnesBits(64, k);
        BitIsLsbBit(ones, 64, k);
      }
    }

    /** Frees the pages of one usable region that are not free already. */
    method FreeRange(start: nat, end: nat)
      requires Sized() && end <= total && freeCount == |FreePages()|
      modifies words, `freeCount
      ensures Sized() && freeCount == |FreePages()|
      ensures forall p :: p in FreePages() <==> p in old(FreePages()) || start <= p < end
    {
      hide Bit, Pow2;
      var p := start;
      while p < end
        invariant Sized() && freeCount == |FreePages()| && start <= p && (p <= end || p == start)
        invariant forall q :: q in FreePages() <==> q in old(FreePages()) || start <= q < p
      {
        if Used(p) {
          Release(p);
        }
        p := p + 1;
      }
    }

    /** Marks the free pages of a range as in use. */
    method Reserve(start: nat, end: nat)
      requires Sized() && end <= total && freeCount == |FreePages()|
      modifies words, `freeCount
      ensures Sized() && freeCount == |FreePages()|
      ensures forall p :: p in FreePages() <==> p in old(FreePages()) && !(start <= p < end)
    {
      hide Bit, Pow2;
      var p := start;
      while p < end
        invariant Sized() && freeCount == |FreePages()| && start <= p && (p <= end || p == start)
        invariant forall q :: q in FreePages() <==> q in old(FreePages()) && !(start <= q < p)
      {
        if !Used(p) {
          Take(p);
        }
        p := p + 1;
      }
    }

    /** bitmap_set on a clear bit, with the free count. */
    method Take(p: nat)
      requires Sized() && p in FreePages() && freeCount == |FreePages()|
      modifies words, `freeCount
      ensures Sized() && FreePages() == old(FreePages()) - {p} && freeCount == |FreePages()|
    {
      hide Bit, Pow2;
      SetBit(words[p / 64], p % 64);
      ghost var was := FreePages();
      words[p / 64] := words[p / 64] + Pow2(p % 64);
      freeCount := freeCount - 1;
    }

    /** bitmap_clear on a set bit, with the free count. */
    method Release(p: nat)
      requires Sized() && p < total && p !in FreePages() && freeCount == |FreePages()|
      modifies words, `freeCount
      ensures Sized() && FreePages() == old(FreePages()) + {p} && freeCount == |FreePages()|
    {
      hide Bit, Pow2;
      ClearBit(words[p / 64], p % 64);
      ghost var was := FreePages();
      words[p / 64] := words[p / 64] - Pow2(p % 64);
      freeCount := freeCount + 1;
    }

    /** One pass of the scan: the first free page of a range. */
    method Scan(start: nat, end: nat) returns (found: bool, p: nat)
      requires Sized() && end <= total
      ensures found ==> start <= p < end && p in FreePages() && forall q :: start <= q < p ==> q !in FreePages()
      ensures !found ==> forall q :: start <= q < end ==> q !in FreePages()
    {
      p := start;
      while p < end
        invariant start <= p && (p <= end || p == start)
        invariant forall q :: start <= q < p ==> q !in FreePages()
      {
        if !Used(p) {
          return true, p;
        }
        p := p + 1;
      }
      found := false;
    }

    /** pmm_alloc_page: the first free page from the hint on or else the lowest, and 0 exactly when no
        page is free. Once every page below the hint is in use that stays so: the page is the lowest
        free one, and the pass from 0 to the hint finds nothing. */
    method AllocPage() returns (addr: nat)
      requires Valid()
      modifies this, words
      ensures Valid()
      ensures old(FreePages()) == {} ==> addr == 0 && FreePages() == {}
      ensures old(FreePages()) != {} ==>
        var p := addr / PAGE_SIZE;
        && addr == p * PAGE_SIZE && addr > 0 && p in old(FreePages())
        && (forall q :: q in old(FreePages()) ==> if p >= old(hint) then q >= old(hint) ==> p <= q else p <= q < old(hint))
        && FreePages() == old(FreePages()) - {p}
      ensures old(Swept()) ==> Swept() && forall q :: q in old(FreePages()) ==> addr / PAGE_SIZE <= q
    {
      hide Bit, Pow2;
      var found, p := Scan(hint, total);
      if !found {
        found, p := Scan(0, hint);
      }
      if !found {
        return 0;
      }
      Take(p);
      hint := p + 1;
      addr := p * PAGE_SIZE;
    }

    /** pmm_free_page; refuses 0, unaligned and out-of-range addresses and pages already free. */
    method FreePage(addr: nat)
      requires Valid()
      modifies this, words
      ensures Valid()
      ensures FreePages() == old(FreePages()) +
        (if addr > 0 && addr % PAGE_SIZE == 0 && addr / PAGE_SIZE < total then {addr / PAGE_SIZE} else {})
      ensures old(Swept()) ==> Swept()
    {
      hide Bit, Pow2;
      if addr == 0 || addr % PAGE_SIZE != 0 {
        return;
      }
      var p := addr / PAGE_SIZE;
      if p >= total || !Used(p) {
        return;
      }
      Release(p);
      if p < hint {
        hint := p;
      }
    }
  }

  method FindHighest(map_: seq<Region>) returns (h: nat)
    ensures h == Highest(map_)
  {
    h := 0;
    for i := 0 to |map_|
      invariant h == Highest(map_[..i])
    {
      assert map_[..i + 1][..i] == map_[..i];
      if map_[i].usable && map_[i].End() > h {
        h := map_[i].End();
      }
    }
    assert map_[..|map_|] == map_;
  }

  /** pmm_init: afterwards exactly the usable pages above the first MiB and outside the bitmap are
      free, and the allocator's invariant holds; with the lowest usable region listed first, every
      page below the hint is in use. */
  method Init(map_: seq<Region>, ghost first: nat) returns (pmm: FrameAllocator)
    requires BootMap(map_, first)
    ensures fresh(pmm) && fresh(pmm.words) && pmm.Valid() && pmm.total == TotalPages(map_)
    ensures var start := map_[first].FirstPage();
      forall p :: p in pmm.FreePages() <==>
        InUsable(map_, p) && p >= LOW_RESERVE && !(start <= p < start + BitmapPages(map_))
    ensures LowestFirst(map_, first) ==> pmm.Swept()
  {
    hide Highest;
    var highest := FindHighest(map_);
    var total := (highest + PAGE_SIZE - 1) / PAGE_SIZE;
    var bitmapPages := (total / 8 + PAGE_SIZE - 1) / PAGE_SIZE;
    var i := 0;
    while !map_[i].usable
      invariant i <= first
      decreases first - i
    {
      i := i + 1;
    }
    var bitmapStart := map_[i].FirstPage();
    pmm := new FrameAllocator(total);
    FreeUsable(pmm, map_);
    hide InUsable;
    pmm.Reserve(0, LOW_RESERVE);
    pmm.Reserve(bitmapStart, bitmapStart + bitmapPages);
    pmm.hint := bitmapStart + bitmapPages;
    NothingBelow(map_, first, pmm.FreePages());
  }

  /** No usable page lies below the first usable region. */
  lemma NothingBelow(map_: seq<Region>, first: nat, free: set<nat>)
    requires first < |map_| && forall p :: p in free ==> InUsable(map_, p)
    ensures LowestFirst(map_, first) ==> forall p :: p in free ==> p >= map_[first].FirstPage()
  {
  }

  /** The loop that frees every page of every usable region. */
  method FreeUsable(pmm: FrameAllocator, map_: seq<Region>)
    requires pmm.Sized() && pmm.total == TotalPages(map_) && pmm.FreePages() == {} && pmm.freeCount == 0
    modifies pmm.words, pmm`freeCount
    ensures pmm.Sized() && pmm.freeCount == |pmm.FreePages()|
    ensures forall p :: p in pmm.FreePages() <==> InUsable(map_, p)
  {
    hide InUsable, TotalPages, Region.EndPage, Region.FirstPage, Bit;
    UsableNone(map_[..0]);
    for k := 0 to |map_|
      invariant pmm.Sized() && pmm.freeCount == |pmm.FreePages()|
      invariant forall p :: p in pmm.FreePages() <==> InUsable(map_[..k], p)
    {
      ghost var was := pmm.FreePages();
      if map_[k].usable {
        var end := map_[k].EndPage();
        if end > pmm.total {
          end := pmm.total;
        }
        pmm.FreeRange(map_[k].FirstPage(), end);
      }
      UsableAdd(map_, k, was, pmm.FreePages());
    }
    assert map_[..|map_|] == map_;
  }

  lemma UsableAdd(map_: seq<Region>, k: nat, was: set<nat>, now: set<nat>)
    requires k < |map_| && forall p :: p in was <==> InUsable(map_[..k], p)
    requires var e, total := map_[k], TotalPages(map_);
      forall p :: p in now <==> p in was || (e.usable && e.FirstPage() <= p < if e.EndPage() > total then total else e.EndPage())
    ensures forall p :: p in now <==> InUsable(map_[..k + 1], p)
  {
    UsableStep(map_, k);
    hide InUsable, TotalPages;
  }

  lemma UsableNone(map_: seq<Region>)
    requires map_ == []
    ensures forall p :: !InUsable(map_, p)
  {
  }

  lemma UsableStep(map_: seq<Region>, k: nat)
    requires k < |map_|
    ensures forall p :: InUsable(map_[..k + 1], p) <==> InUsable(map_[..k], p) || (map_[k].usable && map_[k].FirstPage() <= p < map_[k].EndPage())
    ensures map_[k].usable ==> map_[k].EndPage() <= TotalPages(map_)
  {
    var a, b := map_[..k], map_[..k + 1];
    forall p | InUsable(a, p) ensures InUsable(b, p) {
      var i :| 0 <= i < |a| && a[i].usable && a[i].FirstPage() <= p < a[i].EndPage();
      assert b[i] == a[i];
    }
    forall p | InUsable(b, p)
      ensures InUsable(a, p) || (map_[k].usable && map_[k].FirstPage() <= p < map_[k].EndPage())
    {
      var i :| 0 <= i < |b| && b[i].usable && b[i].FirstPage() <= p < b[i].EndPage();
      if i < k {
        assert a[i] == b[i];
      }
    }
    assert b[k] == map_[k];
  }
}
