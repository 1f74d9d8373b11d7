/** The desktop's windows: opening, stacking, closing, maximizing, dragging, resizing, and which
    window a point belongs to. */
module Windows {
  import opened Common

  const MAX_WINDOWS: nat := 8
  const TASKBAR_H: int := 48
  const MIN_W: int := 200
  const MIN_H: int := 120
  const TITLE_H: int := 26
  const GUTTER: int := 18
  const CURSOR_W: int := 12
  const CURSOR_H: int := 20
  const MAX32: nat := 0xFFFF_FFFF

  type u32 = x: int | 0 <= x <= MAX32

  datatype Bounds = Bounds(x: int, y: int, w: int, h: int)
  datatype Win = Win(used: bool, rect: Bounds, order: u32, minimized: bool, maximized: bool, rest: Bounds, kind: nat)

  predicate Has(r: Bounds, px: int, py: int) {
    r.x <= px < r.x + r.w && r.y <= py < r.y + r.h
  }

  predicate Visible(w: Win) {
    w.used && !w.minimized
  }

  predicate Over(w: Win, px: int, py: int) {
    Visible(w) && Has(w.rect, px, py)
  }

  predicate Meets(r: Bounds, x: int, y: int, w: int, h: int) {
    r.x < x + w && x < r.x + r.w && r.y < y + h && y < r.y + r.h
  }

  /** A window that covers any pixel of a region is not culled when the region is composed. */
  lemma CoveringIsNotCulled(r: Bounds, region: Bounds, px: int, py: int)
    requires Has(r, px, py) && Has(region, px, py)
    ensures Meets(r, region.x, region.y, region.w, region.h)
  {}

  // ---- painting order ----

  /** A window index put in its place in a list sorted by stacking order, after those of equal order. */
  function Insert(wins: seq<Win>, s: seq<nat>, i: nat): (r: seq<nat>)
    requires i < |wins| && forall k :: 0 <= k < |s| ==> s[k] < |wins|
    ensures |r| == |s| + 1 && forall k :: 0 <= k < |r| ==> r[k] < |wins|
  {
    if s == [] || wins[s[|s| - 1]].order <= wins[i].order then s + [i]
    else Insert(wins, s[..|s| - 1], i) + [s[|s| - 1]]
  }

  /** The visible windows among the first `k`, in the order they are painted. */
  function PaintOrder(wins: seq<Win>, k: nat): (r: seq<nat>)
    requires k <= |wins|
    ensures |r| <= k && forall n :: 0 <= n < |r| ==> r[n] < |wins|
  {
    if k == 0 then []
    else if Visible(wins[k - 1]) then Insert(wins, PaintOrder(wins, k - 1), k - 1)
    else PaintOrder(wins, k - 1)
  }

  predicate Ascending(wins: seq<Win>, s: seq<nat>) {
    && (forall n :: 0 <= n < |s| ==> s[n] < |wins|)
    && forall a, b :: 0 <= a < b < |s| ==> wins[s[a]].order <= wins[s[b]].order
  }

  /** Insertion puts the new window between those that stay below it and those that stay above. */
  lemma {:induction false} InsertSplits(wins: seq<Win>, s: seq<nat>, i: nat, j: nat)
    requires i < |wins| && j <= |s| && forall k :: 0 <= k < |s| ==> s[k] < |wins|
    requires j > 0 ==> wins[s[j - 1]].order <= wins[i].order
    requires forall k :: j <= k < |s| ==> wins[s[k]].order > wins[i].order
    ensures Insert(wins, s, i) == s[..j] + [i] + s[j..]
    decreases |s|
  {
    if j < |s| {
      var t := s[..|s| - 1];
      InsertSplits(wins, t, i, j);
      assert t[..j] == s[..j] && t[j..] + [s[|s| - 1]] == s[j..];
    } else {
      assert s[..j] == s && s[j..] == [];
    }
  }

  /** The place insertion finds in an ascending list. */
  function Slot(wins: seq<Win>, s: seq<nat>, i: nat): (j: nat)
    requires i < |wins| && Ascending(wins, s)
    ensures j <= |s|
    ensures forall k :: 0 <= k < j ==> wins[s[k]].order <= wins[i].order
    ensures forall k :: j <= k < |s| ==> wins[s[k]].order > wins[i].order
  {
    if s == [] || wins[s[|s| - 1]].order <= wins[i].order then |s| else Slot(wins, s[..|s| - 1], i)
  }

  lemma InsertAscends(wins: seq<Win>, s: seq<nat>, i: nat)
    requires i < |wins| && Ascending(wins, s)
    ensures Ascending(wins, Insert(wins, s, i))
    ensures forall n: nat :: n in Insert(wins, s, i) <==> n in s || n == i
  {
    hide Insert, Slot, Ascending;
    var j := Slot(wins, s, i);
    assert forall k :: 0 <= k < |s| ==> s[k] < |wins| by { AscendsInRange(wins, s); }
    InsertSplits(wins, s, i, j);
    var r := Insert(wins, s, i);
    InsertedMembers(s, i, j, r);
    InsertedAscends(wins, s, i, j, r);
  }

  lemma AscendsInRange(wins: seq<Win>, s: seq<nat>)
    requires Ascending(wins, s)
    ensures forall k :: 0 <= k < |s| ==> s[k] < |wins|
  {}

  lemma InsertedMembers(s: seq<nat>, i: nat, j: nat, r: seq<nat>)
    requires j <= |s| && r == s[..j] + [i] + s[j..]
    ensures forall n: nat :: n in r <==> n in s || n == i
  {
    assert s == s[..j] + s[j..];
  }

  lemma InsertedAscends(wins: seq<Win>, s: seq<nat>, i: nat, j: nat, r: seq<nat>)
    requires i < |wins| && Ascending(wins, s) && j <= |s| && r == s[..j] + [i] + s[j..]
    requires forall k :: 0 <= k < j ==> wins[s[k]].order <= wins[i].order
    requires forall k :: j <= k < |s| ==> wins[s[k]].order > wins[i].order
    ensures Ascending(wins, r)
  {
    forall k | 0 <= k < |r| ensures r[k] == if k < j then s[k] else if k == j then i else s[k - 1] {}
  }

  lemma EmptyAscends(wins: seq<Win>)
    ensures Ascending(wins, [])
  {}

  /** The painting order is ascending and lists exactly the visible windows. */
  lemma {:induction false} PaintOrderSorted(wins: seq<Win>, k: nat)
    requires k <= |wins|
    ensures Ascending(wins, PaintOrder(wins, k))
    ensures forall n: nat :: n in PaintOrder(wins, k) <==> n < k && Visible(wins[n])
  {
    hide Insert, Visible, Ascending;
    if k > 0 {
      PaintOrderSorted(wins, k - 1);
      if Visible(wins[k - 1]) {
        InsertAscends(wins, PaintOrder(wins, k - 1), k - 1);
      }
    } else {
      assert Ascending(wins, []) by { EmptyAscends(wins); }
    }
  }

  /** The last window of a painting order that covers a point: the one seen there. */
  function SeenAt(wins: seq<Win>, s: seq<nat>, px: int, py: int): (r: int)
    requires forall n :: 0 <= n < |s| ==> s[n] < |wins|
    ensures -1 <= r < |wins|
  {
    if s == [] then -1
    else if Has(wins[s[|s| - 1]].rect, px, py) then s[|s| - 1]
    else SeenAt(wins, s[..|s| - 1], px, py)
  }

  lemma {:induction false} SeenIsHighest(wins: seq<Win>, s: seq<nat>, px: int, py: int)
    requires Ascending(wins, s)
    ensures var r := SeenAt(wins, s, px, py);
      if r < 0 then forall n :: n in s ==> !Has(wins[n].rect, px, py)
      else r in s && Has(wins[r].rect, px, py) && forall n :: n in s && Has(wins[n].rect, px, py) ==> wins[n].order <= wins[r].order
  {
    if s != [] {
      var t := s[..|s| - 1];
      assert s == t + [s[|s| - 1]];
      SeenIsHighest(wins, t, px, py);
    }
  }

  /** What the hit test returns among the first `k` windows: the first of the highest order that cover the point. */
  predicate IsTopAt(wins: seq<Win>, k: nat, px: int, py: int, r: int)
    requires k <= |wins|
  {
    if r < 0 then r == -1 && forall n :: 0 <= n < k ==> !Over(wins[n], px, py)
    else r < k && Over(wins[r], px, py) && forall n :: 0 <= n < k && Over(wins[n], px, py) ==>
      wins[n].order < wins[r].order || (wins[n].order == wins[r].order && r <= n)
  }

  predicate Distinct(wins: seq<Win>) {
    forall i, j :: 0 <= i < j < |wins| && wins[i].used && wins[j].used ==> wins[i].order != wins[j].order
  }

  /** Equal stacking numbers are painted in slot order. */
  predicate Stacked(wins: seq<Win>, s: seq<nat>) {
    && (forall n :: 0 <= n < |s| ==> s[n] < |wins|)
    && forall a, b :: 0 <= a < b < |s| && wins[s[a]].order == wins[s[b]].order ==> s[a] < s[b]
  }

  lemma InsertStacks(wins: seq<Win>, s: seq<nat>, i: nat)
    requires i < |wins| && Ascending(wins, s) && Stacked(wins, s) && forall n :: 0 <= n < |s| ==> s[n] < i
    ensures Stacked(wins, Insert(wins, s, i))
  {
    hide Insert, Slot;
    var j := Slot(wins, s, i);
    InsertSplits(wins, s, i, j);
    var r := Insert(wins, s, i);
    forall k | 0 <= k < |r| ensures r[k] == if k < j then s[k] else if k == j then i else s[k - 1] {}
  }

  lemma {:induction false} PaintOrderStacked(wins: seq<Win>, k: nat)
    requires k <= |wins|
    ensures Stacked(wins, PaintOrder(wins, k)) && forall n :: 0 <= n < |PaintOrder(wins, k)| ==> PaintOrder(wins, k)[n] < k
  {
    hide Insert, Stacked, Ascending;
    if k > 0 {
      PaintOrderStacked(wins, k - 1);
      PaintOrderSorted(wins, k - 1);
      PaintOrderSorted(wins, k);
      BelowMeans(PaintOrder(wins, k), k);
      if Visible(wins[k - 1]) {
        InsertStacks(wins, PaintOrder(wins, k - 1), k - 1);
      }
    } else {
      assert Stacked(wins, []) by { EmptyStacks(wins); }
    }
  }

  lemma BelowMeans(s: seq<nat>, k: nat)
    requires forall n: nat :: n in s ==> n < k
    ensures forall n :: 0 <= n < |s| ==> s[n] < k
  {
    forall n | 0 <= n < |s| ensures s[n] < k {
      assert s[n] in s;
    }
  }

  lemma EmptyStacks(wins: seq<Win>)
    ensures Stacked(wins, [])
  {}

  /** Of the covering windows with the highest number, the one seen is in the last slot. */
  lemma {:induction false} SeenIsLast(wins: seq<Win>, s: seq<nat>, px: int, py: int)
    requires Ascending(wins, s) && Stacked(wins, s)
    ensures var r := SeenAt(wins, s, px, py);
      r >= 0 ==> forall n :: n in s && Has(wins[n].rect, px, py) && wins[n].order == wins[r].order ==> n <= r
  {
    if s != [] {
      var t := s[..|s| - 1];
      assert s == t + [s[|s| - 1]];
      SeenIsLast(wins, t, px, py);
    }
  }

  /** No other visible window over the point has the stacking number of window `r`. */
  predicate Alone(wins: seq<Win>, px: int, py: int, r: int)
    requires r < |wins|
  {
    r >= 0 ==> forall n :: 0 <= n < |wins| && Over(wins[n], px, py) && wins[n].order == wins[r].order ==> n == r
  }

  /** The hit test returns the window seen at a point exactly when no other window over that point
      shares its stacking number; equal numbers elsewhere do no harm. */
  lemma ClickIsSeenIffAlone(wins: seq<Win>, px: int, py: int, r: int)
    requires IsTopAt(wins, |wins|, px, py, r)
    ensures r == SeenAt(wins, PaintOrder(wins, |wins|), px, py) <==> Alone(wins, px, py, r)
  {
    var s := PaintOrder(wins, |wins|);
    PaintOrderSorted(wins, |wins|);
    PaintOrderStacked(wins, |wins|);
    SeenIsHighest(wins, s, px, py);
    SeenIsLast(wins, s, px, py);
    hide PaintOrder, SeenAt, Stacked, Ascending;
    var q := SeenAt(wins, s, px, py);
    assert r >= 0 ==> r in s;
    assert q >= 0 ==> Over(wins[q], px, py);
  }

  /** In particular while stacking numbers are distinct. */
  lemma ClickGoesToWhatIsSeen(wins: seq<Win>, px: int, py: int, r: int)
    requires Distinct(wins) && IsTopAt(wins, |wins|, px, py, r)
    ensures r == SeenAt(wins, PaintOrder(wins, |wins|), px, py)
  {
    hide PaintOrder, SeenAt;
    ClickIsSeenIffAlone(wins, px, py, r);
  }

  /** With equal stacking numbers over a point they part: painting puts the later slot on top, the
      hit test picks the earlier. `WrapRun.MakeTie` reaches such a state. */
  lemma TiesDisagree(rect: Bounds, px: int, py: int)
    requires Has(rect, px, py)
    ensures var w := Win(true, rect, 0, false, false, rect, 0);
      IsTopAt([w, w], 2, px, py, 0) && SeenAt([w, w], PaintOrder([w, w], 2), px, py) == 1
  {
    var w := Win(true, rect, 0, false, false, rect, 0);
    assert PaintOrder([w, w], 0) == [];
    assert PaintOrder([w, w], 1) == [0];
    assert PaintOrder([w, w], 2) == [0, 1];
  }

  // ---- geometry ----

  /** A window's place in a work area `sw` wide and `sh` high. */
  predicate Inside(r: Bounds, sw: int, sh: int) {
    0 <= r.x && 0 <= r.y && r.x + r.w <= sw && r.y + r.h <= sh && MIN_W <= r.w && MIN_H <= r.h
  }

  function Whole(sw: int, sh: int): Bounds {
    Bounds(0, 0, sw, sh)
  }

  predicate WinOk(w: Win, sw: int, sh: int) {
    w.used ==> Inside(w.rect, sw, sh) && (w.maximized ==> w.rect == Whole(sw, sh) && Inside(w.rest, sw, sh))
  }

  /** Where a new window of a wanted size goes: clamped first, then brought up to the minimum size. */
  function Placed(r: Bounds, sw: int, sh: int): Bounds {
    var x0, y0 := Max(r.x, 0), Max(r.y, 0);
    Bounds(if x0 + r.w > sw then sw - r.w else x0, if y0 + r.h > sh then sh - r.h else y0, Max(r.w, MIN_W), Max(r.h, MIN_H))
  }

  predicate Fits(at: int, size: int, limit: int, least: int) {
    if size >= least then size <= limit else Max(at, 0) + least <= limit
  }

  /** A new window lies in the work area exactly when its size fits there, or, for a size below the
      minimum, when the minimum fits at the wanted position: the clamp runs before the minimum is enforced. */
  lemma PlacedInsideIff(r: Bounds, sw: int, sh: int)
    ensures Inside(Placed(r, sw, sh), sw, sh) <==> Fits(r.x, r.w, sw, MIN_W) && Fits(r.y, r.h, sh, MIN_H)
  {}

  lemma SmallWindowStaysOut(sw: int, sh: int)
    requires sw >= 720 && sh >= 460
    ensures !Inside(Placed(Bounds(sw, 0, 100, 200), sw, sh), sw, sh)
  {}

  function Toggled(w: Win, sw: int, sh: int): Win {
    if !w.maximized then w.(rest := w.rect, rect := Whole(sw, sh), maximized := true)
    else w.(rect := w.rest, maximized := false)
  }

  /** Maximizing and restoring gives the window its old place back, from either state. */
  lemma ToggleTwice(w: Win, sw: int, sh: int)
    requires w.used && WinOk(w, sw, sh)
    ensures Toggled(Toggled(w, sw, sh), sw, sh).rect == w.rect && Toggled(Toggled(w, sw, sh), sw, sh).maximized == w.maximized
    ensures WinOk(Toggled(w, sw, sh), sw, sh) <==> sw >= MIN_W && sh >= MIN_H
  {}

  /** The window moved so that its corner is as near the target as the work area lets it be. */
  function Dragged(w: Win, tx: int, ty: int, sw: int, sh: int): Win {
    var r := if w.maximized then w.rest else w.rect;
    w.(rect := Bounds(Max(Min(tx, sw - r.w), 0), Max(Min(ty, sh - r.h), 0), r.w, r.h), maximized := false)
  }

  function Away(a: int, b: int): int {
    if a < b then b - a else a - b
  }

  /** Dragging keeps the window's size and the work area, and no place inside is nearer the pointer. */
  lemma DragIsNearest(w: Win, tx: int, ty: int, sw: int, sh: int, other: Bounds)
    requires w.used && WinOk(w, sw, sh) && Inside(other, sw, sh)
    requires var r := if w.maximized then w.rest else w.rect; other.w == r.w && other.h == r.h
    ensures var d := Dragged(w, tx, ty, sw, sh);
      && WinOk(d, sw, sh) && d.rect.w == other.w && d.rect.h == other.h
      && Away(d.rect.x, tx) <= Away(other.x, tx) && Away(d.rect.y, ty) <= Away(other.y, ty)
  {}

  function Resized(w: Win, nw: int, nh: int, sw: int, sh: int): Win {
    w.(rect := w.rect.(w := Min(Max(nw, MIN_W), sw - w.rect.x), h := Min(Max(nh, MIN_H), sh - w.rect.y)))
  }

  /** Resizing pins the corner and stays inside; the wanted size is met exactly when it is allowed there. */
  lemma ResizeStays(w: Win, nw: int, nh: int, sw: int, sh: int)
    requires w.used && !w.maximized && WinOk(w, sw, sh)
    ensures var d := Resized(w, nw, nh, sw, sh);
      && WinOk(d, sw, sh) && d.rect.x == w.rect.x && d.rect.y == w.rect.y
      && (d.rect.w == nw && d.rect.h == nh <==> Inside(Bounds(w.rect.x, w.rect.y, nw, nh), sw, sh))
  {}
}
