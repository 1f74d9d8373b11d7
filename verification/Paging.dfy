/** Four-level page tables. A translation is what the processor's walk makes of a virtual page; the
    lemmas say what linking an empty table and writing a last-level entry do to all translations. */
module Paging {
  import opened Pmm
  import Bits

  const ENTRIES: nat := 512
  const FRAME_LIMIT: nat := 0x10_0000_0000_0000

  type Tables = map<nat, seq<nat>>

  // ---- entries ----

  predicate Present(e: nat) {
    e % 2 == 1
  }

  predicate Huge(e: nat) {
    e / 0x80 % 2 == 1
  }

  predicate Writable(e: nat) {
    e / 2 % 2 == 1
  }

  /** Bits 12 to 51 of an entry. */
  function Frame(e: nat): nat {
    e / 0x1000 % 0x100_0000_0000 * 0x1000
  }

  predicate FrameAddress(a: nat) {
    a % PAGE_SIZE == 0 && a < FRAME_LIMIT
  }

  /** A page-aligned address with the present and writable bits. */
  function Entry(frame: nat): nat {
    frame + 3
  }

  lemma EntryFields(frame: nat)
    requires FrameAddress(frame)
    ensures Present(Entry(frame)) && Writable(Entry(frame)) && !Huge(Entry(frame)) && Frame(Entry(frame)) == frame
  {
    var k := frame / 0x1000;
    assert Entry(frame) == 0x1000 * k + 3;
    LowBits(k);
    Bits.DivModUnique(0x1000 * k + 3, 0x1000, k, 3);
  }

  lemma LowBits(k: nat)
    ensures (0x1000 * k + 3) / 0x80 == 0x20 * k && 0x20 * k % 2 == 0
    ensures (0x1000 * k + 3) / 2 == 0x800 * k + 1 && (0x800 * k + 1) % 2 == 1 && (0x1000 * k + 3) % 2 == 1
  {
    Bits.DivModUnique(0x1000 * k + 3, 0x80, 0x20 * k, 3);
    Bits.DivModUnique(0x1000 * k + 3, 2, 0x800 * k + 1, 1);
    Bits.DivModUnique(0x20 * k, 2, 0x10 * k, 0);
    Bits.DivModUnique(0x800 * k + 1, 2, 0x400 * k, 1);
  }

  /** The bits of an entry the processor looks at: 0, 1 and 7, and 12 to 51 for the frame, whatever the
      others hold. */
  lemma EntryBits(e: nat)
    ensures Present(e) <==> Bit(e, 0)
    ensures Writable(e) <==> Bit(e, 1)
    ensures Huge(e) <==> Bit(e, 7)
  {
    assert Bits.Pow2(0) == 1 && Bits.Pow2(1) == 2 && Bits.Pow2(7) == 0x80;
  }

  lemma FrameBits(frame: nat, low: nat, high: nat)
    requires frame % 4096 == 0 && frame < 0x10_0000_0000_0000 && low < 4096
    ensures Frame(frame + low + high * 0x10_0000_0000_0000) == frame
  {
    var k := frame / 4096;
    assert frame + low + high * 0x10_0000_0000_0000 == (k + high * 0x100_0000_0000) * 4096 + low;
    assert (frame + low + high * 0x10_0000_0000_0000) / 4096 == k + high * 0x100_0000_0000;
  }

  // ---- virtual pages ----

  /** The four table indices of a virtual page. */
  datatype Path = Path(l4: nat, l3: nat, l2: nat, l1: nat) {
    predicate Valid() {
      l4 < ENTRIES && l3 < ENTRIES && l2 < ENTRIES && l1 < ENTRIES
    }
  }

  const PAGES: nat := 0x10_0000_0000

  function PathOf(v: nat): (p: Path)
    ensures p.Valid()
  {
    var n := v / PAGE_SIZE % PAGES;
    Path(n / 0x800_0000, n / 0x4_0000 % ENTRIES, n / 0x200 % ENTRIES, n % ENTRIES)
  }

  /** The indices are the four groups of nine bits from bit 12 of the address on. */
  lemma PathBits(v: nat)
    ensures var p := PathOf(v);
      p.l1 == v / 0x1000 % 512 && p.l2 == v / 0x20_0000 % 512 && p.l3 == v / 0x4000_0000 % 512 && p.l4 == v / 0x80_0000_0000 % 512
  {
    var n := v / 0x1000;
    DivByParts(v, 0x1000, 0x200);
    DivByParts(v, 0x1000, 0x4_0000);
    DivByParts(v, 0x1000, 0x800_0000);
    IndexBits(n);
  }

  lemma DivByParts(v: nat, a: nat, b: nat)
    requires a > 0 && b > 0
    ensures v / (a * b) == v / a / b
  {
    var q, r := v / a / b, v / a % b;
    assert v == (a * r + v % a) + (a * b) * q;
    MulBelow(a, r, v % a, b);
    Bits.DivModUnique(v, a * b, q, a * r + v % a);
  }

  lemma MulBelow(a: nat, r: nat, s: nat, b: nat)
    requires s < a && r < b
    ensures a * r + s < a * b
  {
    Bits.MulMono(a, r + 1, b);
  }

  lemma IndexBits(n: nat)
    ensures n % PAGES % 512 == n % 512 && n % PAGES / 0x200 % 512 == n / 0x200 % 512
    ensures n % PAGES / 0x4_0000 % 512 == n / 0x4_0000 % 512 && n % PAGES / 0x800_0000 == n / 0x800_0000 % 512
  {
    ModDiv(n, 1, PAGES);
    ModDiv(n, 0x200, 0x800_0000);
    ModDiv(n, 0x4_0000, 0x4_0000);
    ModDiv(n, 0x800_0000, 0x200);
    ModTwice(n, 0x800_0000);
    ModTwice(n / 0x200, 0x4_0000);
    ModTwice(n / 0x4_0000, 0x200);
  }

  lemma ModTwice(n: nat, m: nat)
    requires m > 0
    ensures n % (512 * m) % 512 == n % 512
  {
    var q, r := n / (512 * m), n % (512 * m);
    assert n == r % 512 + 512 * (r / 512 + m * q);
    Bits.DivModUnique(n, 512, r / 512 + m * q, r % 512);
  }

  lemma ModDiv(n: nat, d: nat, m: nat)
    requires d > 0 && m > 0
    ensures n % (d * m) / d == n / d % m
  {
    var dm := d * m;
    var q, r := n / dm, n % dm;
    var b, a := r / d, r % d;
    Regroup(d, m, q, b, a);
    Bits.DivModUnique(n, d, b + m * q, a);
    if b >= m {
      Bits.MulMono(d, m, b);
    }
    Bits.DivModUnique(n / d, m, q, b);
  }

  lemma Regroup(d: nat, m: nat, q: nat, b: nat, a: nat)
    ensures (d * m) * q + (d * b + a) == a + d * (b + m * q)
  {}

  /** The path of page `k` of a range. */
  function PageAt(v: nat, k: nat): (p: Path)
    ensures p.Valid()
  {
    PathOf(v + k * PAGE_SIZE)
  }

  /** The path determines the page number. */
  lemma PathDetermines(a: nat, b: nat)
    requires a / 0x800_0000 == b / 0x800_0000 && a / 0x4_0000 % ENTRIES == b / 0x4_0000 % ENTRIES
    requires a / 0x200 % ENTRIES == b / 0x200 % ENTRIES && a % ENTRIES == b % ENTRIES
    ensures a == b
  {
    DivTwice(a);
    DivTwice(b);
  }

  lemma DivTwice(a: nat)
    ensures a / 0x800_0000 == a / 0x4_0000 / 0x200
    ensures a / 0x4_0000 == a / 0x200 / 0x200
  {
  }

  /** Different pages within a window of 2^36 have different paths. */
  lemma PathsDiffer(v: nat, i: nat, j: nat)
    requires i < j < i + PAGES
    ensures PathOf(v + i * PAGE_SIZE) != PathOf(v + j * PAGE_SIZE)
  {
    var n := v / PAGE_SIZE;
    assert (v + i * PAGE_SIZE) / PAGE_SIZE == n + i && (v + j * PAGE_SIZE) / PAGE_SIZE == n + j;
    WindowDiffers(n + i, n + j);
    if PathOf(v + i * PAGE_SIZE) == PathOf(v + j * PAGE_SIZE) {
      PathDetermines((n + i) % PAGES, (n + j) % PAGES);
    }
  }

  lemma WindowDiffers(a: nat, b: nat)
    requires a < b < a + PAGES
    ensures a % PAGES != b % PAGES
  {
  }

  // ---- translation ----

  function Get(ts: Tables, t: nat, i: nat): nat {
    if t in ts && i < |ts[t]| then ts[t][i] else 0
  }

  /** A page may be written when every entry that leads to it and its own allow it. */
  datatype Mapping = Unmapped | Large(entry: nat, writable: bool) | Page(frame: nat, writable: bool)

  /** The processor's walk. */
  function Walk(ts: Tables, root: nat, p: Path): Mapping {
    var e4 := Get(ts, root, p.l4);
    if !Present(e4) then Unmapped else
    var e3 := Get(ts, Frame(e4), p.l3);
    if !Present(e3) then Unmapped else if Huge(e3) then Large(e3, Writable(e4) && Writable(e3)) else
    var e2 := Get(ts, Frame(e3), p.l2);
    if !Present(e2) then Unmapped else if Huge(e2) then Large(e2, Writable(e4) && Writable(e3) && Writable(e2)) else
    var e1 := Get(ts, Frame(e2), p.l1);
    if !Present(e1) then Unmapped else Page(Frame(e1), Writable(e4) && Writable(e3) && Writable(e2) && Writable(e1))
  }

  /** The entries there are for the tables on the way to a page all allow writing. */
  predicate WritableAbove(ts: Tables, root: nat, p: Path) {
    var e4 := Get(ts, root, p.l4);
    if !Present(e4) then true else
    var e3 := Get(ts, Frame(e4), p.l3);
    if !Present(e3) || Huge(e3) then Writable(e4) else
    var e2 := Get(ts, Frame(e3), p.l2);
    if !Present(e2) || Huge(e2) then Writable(e4) && Writable(e3) else Writable(e4) && Writable(e3) && Writable(e2)
  }

  /** The mapper leaves a page alone when an entry on its way has the huge bit, present or not. */
  predicate Covered(ts: Tables, root: nat, p: Path) {
    var e4 := Get(ts, root, p.l4);
    Present(e4) &&
    var e3 := Get(ts, Frame(e4), p.l3);
    Huge(e3) || (Present(e3) && Huge(Get(ts, Frame(e3), p.l2)))
  }

  // ---- trees of tables ----

  /** Where a table hangs: its level, and the parent entry that points to it. */
  datatype Place = Place(level: nat, parent: nat, index: nat)

  type Shape = map<nat, Place>

  /** An entry that points to a table of the next level. */
  predicate Links(level: nat, e: nat) {
    level >= 2 && Present(e) && (level == 4 || !Huge(e))
  }

  ghost predicate Tree(ts: Tables, root: nat, sh: Shape) {
    && root in ts && sh.Keys == ts.Keys && sh[root].level == 4
    && (forall t :: t in ts ==> |ts[t]| == ENTRIES && 1 <= sh[t].level <= 4 && FrameAddress(t))
    && (forall t, i :: t in ts && 0 <= i < ENTRIES && Links(sh[t].level, ts[t][i]) ==> Hangs(ts, root, sh, t, i))
  }

  /** The table that entry `i` of `t` points to hangs from that entry and no other. */
  ghost predicate Hangs(ts: Tables, root: nat, sh: Shape, t: nat, i: nat)
    requires t in ts && t in sh && i < |ts[t]| && sh[t].level >= 1
  {
    var c := Frame(ts[t][i]);
    c in ts && c in sh && c != root && sh[c] == Place(sh[t].level - 1, t, i)
  }

  function Zeros(): (z: seq<nat>)
    ensures |z| == ENTRIES && forall i :: 0 <= i < ENTRIES ==> z[i] == 0
  {
    seq(ENTRIES, _ => 0)
  }

  /** Hanging a zeroed table from an empty entry. */
  function Linked(ts: Tables, t: nat, i: nat, np: nat): Tables
    requires t in ts && i < |ts[t]|
  {
    var row: seq<nat> := ts[t][i := Entry(np)];
    ts[np := Zeros()][t := row]
  }

  ghost predicate Linkable(ts: Tables, root: nat, sh: Shape, t: nat, i: nat, np: nat) {
    && Tree(ts, root, sh) && t in ts && i < ENTRIES && sh[t].level >= 2
    && !Present(ts[t][i]) && (sh[t].level < 4 ==> !Huge(ts[t][i]))
    && np !in ts && FrameAddress(np)
  }

  lemma LinkedTree(ts: Tables, root: nat, sh: Shape, t: nat, i: nat, np: nat)
    requires Linkable(ts, root, sh, t, i, np)
    ensures Tree(Linked(ts, t, i, np), root, sh[np := Place(sh[t].level - 1, t, i)])
  {
    EntryFields(np);
    hide Entry, Frame, Huge, Present, FrameAddress;
    var ts', sh' := Linked(ts, t, i, np), sh[np := Place(sh[t].level - 1, t, i)];
    forall a, k | a in ts' && 0 <= k < ENTRIES && Links(sh'[a].level, ts'[a][k]) ensures Hangs(ts', root, sh', a, k) {
      if a == np {
        ZeroLinks(sh'[a].level);
      } else if a == t && k == i {
      } else {
        assert Links(sh[a].level, ts[a][k]) && Hangs(ts, root, sh, a, k);
      }
    }
  }

  lemma ZeroLinks(level: nat)
    ensures !Links(level, 0)
  {
  }

  /** The tables the walk of a path passes through, by level, as far as it gets. */
  lemma WalkTables(ts: Tables, root: nat, sh: Shape, p: Path)
    requires Tree(ts, root, sh) && p.Valid()
    ensures var e4 := Get(ts, root, p.l4);
      Present(e4) ==>
        && Frame(e4) in ts && Frame(e4) != root && sh[Frame(e4)] == Place(3, root, p.l4)
        && var e3 := Get(ts, Frame(e4), p.l3);
           Present(e3) && !Huge(e3) ==>
             && Frame(e3) in ts && Frame(e3) != root && sh[Frame(e3)] == Place(2, Frame(e4), p.l3)
             && var e2 := Get(ts, Frame(e3), p.l2);
                Present(e2) && !Huge(e2) ==>
                  Frame(e2) in ts && Frame(e2) != root && sh[Frame(e2)] == Place(1, Frame(e3), p.l2)
  {
    hide Frame, Huge, Present, FrameAddress;
    var e4 := Get(ts, root, p.l4);
    if Present(e4) {
      assert Links(4, e4) && Hangs(ts, root, sh, root, p.l4);
      var t3 := Frame(e4);
      var e3 := Get(ts, t3, p.l3);
      if Present(e3) && !Huge(e3) {
        assert Links(3, e3) && Hangs(ts, root, sh, t3, p.l3);
        var t2 := Frame(e3);
        var e2 := Get(ts, t2, p.l2);
        if Present(e2) && !Huge(e2) {
          assert Links(2, e2) && Hangs(ts, root, sh, t2, p.l2);
        }
      }
    }
  }

  /** Linking an empty table changes no translation and no coverage. */
  lemma LinkedWalk(ts: Tables, root: nat, sh: Shape, t: nat, i: nat, np: nat, p: Path)
    requires Linkable(ts, root, sh, t, i, np) && p.Valid()
    ensures Walk(Linked(ts, t, i, np), root, p) == Walk(ts, root, p)
    ensures Covered(Linked(ts, t, i, np), root, p) == Covered(ts, root, p)
    ensures WritableAbove(Linked(ts, t, i, np), root, p) == WritableAbove(ts, root, p)
  {
    EntryFields(np);
    WalkTables(ts, root, sh, p);
    assert !Present(0) && !Huge(0);
    hide Entry, Frame, Huge, Present, Writable, FrameAddress;
    var ts' := Linked(ts, t, i, np);
    assert forall k :: Get(ts', np, k) == 0;
    assert forall a, k :: a != np && !(a == t && k == i) ==> Get(ts', a, k) == Get(ts, a, k);
  }

  /** Writing a last-level entry. */
  function Mapped(ts: Tables, t: nat, i: nat, frame: nat): Tables
    requires t in ts && i < |ts[t]|
  {
    var row: seq<nat> := ts[t][i := Entry(frame)];
    ts[t := row]
  }

  /** `t` is the last-level table the walk of `p` reaches. */
  ghost predicate Reaches(ts: Tables, root: nat, p: Path, t: nat) {
    var e4 := Get(ts, root, p.l4);
    Present(e4) &&
    var e3 := Get(ts, Frame(e4), p.l3);
    Present(e3) && !Huge(e3) &&
    var e2 := Get(ts, Frame(e3), p.l2);
    Present(e2) && !Huge(e2) && Frame(e2) == t
  }

  lemma MappedTree(ts: Tables, root: nat, sh: Shape, t: nat, i: nat, frame: nat)
    requires Tree(ts, root, sh) && t in ts && sh[t].level == 1 && i < ENTRIES
    ensures Tree(Mapped(ts, t, i, frame), root, sh)
  {
    hide Entry, Frame, Huge, Present, FrameAddress;
    var ts' := Mapped(ts, t, i, frame);
    forall a, k | a in ts' && 0 <= k < ENTRIES && Links(sh[a].level, ts'[a][k]) ensures Hangs(ts', root, sh, a, k) {
      assert Links(sh[a].level, ts[a][k]) && Hangs(ts, root, sh, a, k);
    }
  }

  /** It maps that one page and changes no other translation: no other path reaches the entry. */
  lemma MappedWalk(ts: Tables, root: nat, sh: Shape, p: Path, t: nat, frame: nat, q: Path)
    requires Tree(ts, root, sh) && p.Valid() && q.Valid() && Reaches(ts, root, p, t) && FrameAddress(frame)
    ensures t in ts && sh[t].level == 1
    ensures Walk(Mapped(ts, t, p.l1, frame), root, q) == if q == p then Page(frame, WritableAbove(ts, root, p)) else Walk(ts, root, q)
    ensures WritableAbove(Mapped(ts, t, p.l1, frame), root, q) == WritableAbove(ts, root, q)
    ensures Covered(Mapped(ts, t, p.l1, frame), root, q) == Covered(ts, root, q)
  {
    EntryFields(frame);
    WalkTables(ts, root, sh, p);
    WalkTables(ts, root, sh, q);
    hide Entry, Frame, Huge, Present, Writable, FrameAddress;
    var ts' := Mapped(ts, t, p.l1, frame);
    assert forall a, k :: a != t ==> Get(ts', a, k) == Get(ts, a, k);
    assert forall k :: k != p.l1 ==> Get(ts', t, k) == Get(ts, t, k);
    assert Get(ts', t, p.l1) == Entry(frame);
  }
}
