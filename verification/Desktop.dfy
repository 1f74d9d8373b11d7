/** The desktop's window table and pointer state, updated in place by presses, moves and menu choices. */
module Desktop {
  import opened DeskState
  import opened Windows

  datatype Button = NoButton | CloseButton | MaxButton | MinButton

  /** How many of the keys are Enter. */
  function Enters(keys: seq<Key>): nat {
    if keys == [] then 0 else Enters(keys[..|keys| - 1]) + if keys[|keys| - 1].Enter? then 1 else 0
  }

  /** How many files a list of rounds may open. */
  function AllEnters(inputs: seq<Input>): nat {
    if inputs == [] then 0 else AllEnters(inputs[..|inputs| - 1]) + Enters(inputs[|inputs| - 1].keys)
  }

  class Desktop {
    const gw: int
    const gh: int
    const wins: array<Win>
    var counter: u32
    var drag: int
    var resize: int
    var offX: int
    var offY: int
    var resX: int
    var resY: int
    var resW: int
    var resH: int
    var cursorX: int
    var cursorY: int
    var opens: nat
    var startMenu: bool

    function WorkH(): int {
      gh - TASKBAR_H
    }

    /** The desktop as a value. */
    ghost function View(): Sane
      requires Framed()
      reads this, wins
    {
      Desk(gw, gh, wins[..], counter, drag, resize, offX, offY, resX, resY, resW, resH, cursorX, cursorY, opens, startMenu)
    }

    ghost predicate Framed()
      reads `drag, `resize
    {
      wins.Length == MAX_WINDOWS && -1 <= drag < MAX_WINDOWS && -1 <= resize < MAX_WINDOWS
    }

    ghost predicate Sized()
    {
      gw >= 720 && gh >= 508 && wins.Length == MAX_WINDOWS
    }

    /** Every used window, and the place a maximized one returns to, lies in the work area; drag and
        resize name visible windows. */
    ghost predicate Valid()
      reads this, wins
    {
      && Sized()
      && (forall i :: 0 <= i < MAX_WINDOWS ==> WinOk(wins[i], gw, WorkH()))
      && -1 <= drag < MAX_WINDOWS && (drag >= 0 ==> Visible(wins[drag]))
      && -1 <= resize < MAX_WINDOWS && (resize >= 0 ==> Visible(wins[resize]))
    }

    /** Stacking numbers are distinct and none is above the counter. */
    ghost predicate Ordered()
      requires wins.Length == MAX_WINDOWS
      reads `counter, wins
    {
      Distinct(wins[..]) && forall i :: 0 <= i < MAX_WINDOWS && wins[i].used ==> wins[i].order <= counter
    }

    constructor (width: int, height: int)
      requires width >= 720 && height >= 508
      ensures Valid() && Ordered() && gw == width && gh == height && fresh(wins) && counter == 0 && !startMenu
      ensures forall i :: 0 <= i < MAX_WINDOWS ==> !wins[i].used
    {
      gw, gh := width, height;
      var unused := Win(false, Bounds(0, 0, 0, 0), 0, false, false, Bounds(0, 0, 0, 0), 0);
      wins := new Win[MAX_WINDOWS](i => unused);
      counter, drag, resize, offX, offY := 0, -1, -1, 0, 0;
      resX, resY, resW, resH, opens := 0, 0, 0, 0, 0;
      startMenu := false;
      cursorX, cursorY := width / 2 - CURSOR_W / 2, height / 2 - CURSOR_H / 2;
    }

    // ---- which window ----

    method TopmostIndex() returns (r: int)
      requires wins.Length == MAX_WINDOWS
      ensures if r < 0 then r == -1 && forall n :: 0 <= n < MAX_WINDOWS ==> !Visible(wins[n])
        else r < MAX_WINDOWS && Visible(wins[r]) && forall n :: 0 <= n < MAX_WINDOWS && Visible(wins[n]) ==> wins[n].order <= wins[r].order
      ensures r == TopIndex(wins[..], MAX_WINDOWS)
    {
      r := -1;
      for i := 0 to MAX_WINDOWS
        invariant r == TopIndex(wins[..], i)
        invariant if r < 0 then r == -1 && forall n :: 0 <= n < i ==> !Visible(wins[n])
          else r < i && Visible(wins[r]) && forall n :: 0 <= n < i && Visible(wins[n]) ==> wins[n].order <= wins[r].order
      {
        if wins[i].used && !wins[i].minimized && (r < 0 || wins[i].order > wins[r].order) {
          r := i;
        }
      }
    }

    method TopmostAt(px: int, py: int) returns (r: int)
      requires wins.Length == MAX_WINDOWS
      ensures IsTopAt(wins[..], MAX_WINDOWS, px, py, r)
      ensures r == SeenAt(wins[..], PaintOrder(wins[..], MAX_WINDOWS), px, py) <==> Alone(wins[..], px, py, r)
      ensures Distinct(wins[..]) ==> r == SeenAt(wins[..], PaintOrder(wins[..], MAX_WINDOWS), px, py)
      ensures r == TopAt(wins[..], MAX_WINDOWS, px, py)
    {
      r := -1;
      for i := 0 to MAX_WINDOWS
        invariant IsTopAt(wins[..], i, px, py, r)
      {
        if wins[i].used && !wins[i].minimized && Has(wins[i].rect, px, py) && (r < 0 || wins[i].order > wins[r].order) {
          r := i;
        }
      }
      TopIsSeen(px, py, r);
    }

    lemma TopIsSeen(px: int, py: int, r: int)
      requires wins.Length == MAX_WINDOWS && IsTopAt(wins[..], MAX_WINDOWS, px, py, r)
      ensures r == SeenAt(wins[..], PaintOrder(wins[..], MAX_WINDOWS), px, py) <==> Alone(wins[..], px, py, r)
      ensures Distinct(wins[..]) ==> r == SeenAt(wins[..], PaintOrder(wins[..], MAX_WINDOWS), px, py)
    {
      ClickIsSeenIffAlone(wins[..], px, py, r);
      if Distinct(wins[..]) { ClickGoesToWhatIsSeen(wins[..], px, py, r); }
    }

    /** The order windows are painted in, by insertion sort of their indices. */
    method SortWindows() returns (sorted: array<nat>, n: nat)
      requires wins.Length == MAX_WINDOWS
      ensures n <= sorted.Length == MAX_WINDOWS && sorted[..n] == PaintOrder(wins[..], MAX_WINDOWS)
    {
      sorted := new nat[MAX_WINDOWS];
      n := 0;
      for i := 0 to MAX_WINDOWS
        invariant n <= i && sorted[..n] == PaintOrder(wins[..], i)
      {
        if wins[i].used && !wins[i].minimized {
          n := InsertSorted(sorted, n, i);
        }
      }
    }

    method InsertSorted(sorted: array<nat>, n: nat, i: nat) returns (m: nat)
      requires wins.Length == MAX_WINDOWS == sorted.Length && n < MAX_WINDOWS && i < MAX_WINDOWS
      requires sorted[..n] == PaintOrder(wins[..], i)
      modifies sorted
      ensures m == n + 1 && sorted[..m] == Insert(wins[..], old(sorted[..n]), i)
    {
      hide PaintOrder, Insert, Visible;
      ghost var s := sorted[..n];
      assert forall k :: 0 <= k < n ==> s[k] < MAX_WINDOWS;
      var j := Shift(sorted, n, i);
      sorted[j] := i;
      InsertSplits(wins[..], s, i, j);
      Reassembled(sorted[..n + 1], s, i, j);
      m := n + 1;
    }

    /** Moves the entries that stay above window `i` up by one. */
    method Shift(sorted: array<nat>, n: nat, i: nat) returns (j: nat)
      requires wins.Length == MAX_WINDOWS == sorted.Length && n < MAX_WINDOWS && i < MAX_WINDOWS
      requires forall k :: 0 <= k < n ==> sorted[k] < MAX_WINDOWS
      modifies sorted
      ensures j <= n && (j > 0 ==> wins[old(sorted[j - 1])].order <= wins[i].order)
      ensures forall k :: 0 <= k < j ==> sorted[k] == old(sorted[k])
      ensures forall k :: j < k <= n ==> sorted[k] == old(sorted[k - 1])
      ensures forall k :: j <= k < n ==> wins[old(sorted[k])].order > wins[i].order
    {
      j := n;
      while j > 0 && wins[sorted[j - 1]].order > wins[i].order
        invariant 0 <= j <= n
        invariant forall k :: 0 <= k < j ==> sorted[k] == old(sorted[k])
        invariant forall k :: j < k <= n ==> sorted[k] == old(sorted[k - 1])
        invariant forall k :: j <= k < n ==> wins[old(sorted[k])].order > wins[i].order
      {
        sorted[j] := sorted[j - 1];
        j := j - 1;
      }
    }

    lemma Reassembled(r: seq<nat>, s: seq<nat>, i: nat, j: nat)
      requires j <= |s| && |r| == |s| + 1 && r[j] == i
      requires forall k :: 0 <= k < j ==> r[k] == s[k]
      requires forall k :: j < k <= |s| ==> r[k] == s[k - 1]
      ensures r == s[..j] + [i] + s[j..]
    {}

    // ---- window operations ----

    function Bumped(): u32
      reads this
    {
      Next(counter)
    }

    /** Opens a window in the lowest free slot, on top of the others. Every window is then inside the
        work area exactly when the new one fits there. */
    method Open(x: int, y: int, w: int, h: int, kind: nat) returns (r: int)
      requires Valid()
      modifies wins, `counter
      ensures counter == old(counter) || counter == old(Bumped())
      ensures if r < 0 then Valid() else Valid() <==> Fits(x, w, gw, MIN_W) && Fits(y, h, WorkH(), MIN_H)
      ensures old(Ordered()) && old(counter) < MAX32 ==> Ordered()
      ensures r < 0 ==> r == -1 && counter == old(counter) && wins[..] == old(wins[..]) && forall i :: 0 <= i < MAX_WINDOWS ==> wins[i].used
      ensures r >= 0 ==>
        && r < MAX_WINDOWS && !old(wins[r].used) && (forall i :: 0 <= i < r ==> old(wins[i].used))
        && counter == old(Bumped())
        && wins[..] == old(wins[..])[r := Win(true, Placed(Bounds(x, y, w, h), gw, WorkH()), counter, false, false, old(wins[r].rest), kind)]
      ensures Framed() && (View(), r) == Opened(old(View()), x, y, w, h, kind)
    {
      var place := Fitted(x, y, w, h);
      PlacedInsideIff(Bounds(x, y, w, h), gw, WorkH());
      for i := 0 to MAX_WINDOWS
        invariant wins[..] == old(wins[..]) && counter == old(counter)
        invariant forall k :: 0 <= k < i ==> wins[k].used
      {
        if !wins[i].used {
          counter := Bumped();
          wins[i] := Win(true, place, counter, false, false, wins[i].rest, kind);
          return i;
        }
      }
      r := -1;
    }

    method Fitted(x: int, y: int, w: int, h: int) returns (r: Bounds)
      ensures r == Placed(Bounds(x, y, w, h), gw, WorkH())
    {
      var x', y', w', h' := x, y, w, h;
      if x' < 0 { x' := 0; }
      if y' < 0 { y' := 0; }
      if x' + w' > gw { x' := gw - w'; }
      if y' + h' > WorkH() { y' := WorkH() - h'; }
      if w' < MIN_W { w' := MIN_W; }
      if h' < MIN_H { h' := MIN_H; }
      r := Bounds(x', y', w', h');
    }

    /** Gives a visible window the highest stacking number, unless it has it already. */
    method Raise(idx: nat)
      requires Valid() && idx < MAX_WINDOWS && Visible(wins[idx])
      modifies wins, `counter
      ensures counter == old(counter) || counter == old(Bumped())
      ensures Valid() && (old(Ordered()) && old(counter) < MAX32 ==> Ordered() && IsTop(idx))
      ensures wins[..] == old(wins[..])[idx := old(wins[idx]).(order := wins[idx].order)]
      ensures if counter == old(counter) then wins[..] == old(wins[..]) else wins[idx].order == counter
      ensures old(IsTop(idx)) ==> counter == old(counter)
      ensures (exists n :: 0 <= n < MAX_WINDOWS && old(Visible(wins[n])) && old(wins[n].order) > old(wins[idx].order)) ==>
        counter == old(Bumped()) && wins[idx].order == counter
      ensures View() == Raised(old(View()), idx)
    {
      var prev := TopmostIndex();
      if prev == idx {
        assert old(Ordered()) ==> IsTop(idx) by { if Ordered() { HighestIsTop(idx); } }
        return;
      }
      counter := Bumped();
      wins[idx] := wins[idx].(order := counter);
    }

    /** No other visible window lies above this one. */
    ghost predicate IsTop(idx: nat)
      requires wins.Length == MAX_WINDOWS && idx < MAX_WINDOWS
      reads wins
    {
      forall n :: 0 <= n < MAX_WINDOWS && n != idx && Visible(wins[n]) ==> wins[n].order < wins[idx].order
    }

    lemma HighestIsTop(idx: nat)
      requires wins.Length == MAX_WINDOWS && idx < MAX_WINDOWS && Ordered() && Visible(wins[idx])
      requires forall n :: 0 <= n < MAX_WINDOWS && Visible(wins[n]) ==> wins[n].order <= wins[idx].order
      ensures IsTop(idx)
    {
      forall n | 0 <= n < MAX_WINDOWS && n != idx && Visible(wins[n])
        ensures wins[n].order < wins[idx].order
      {
        assert wins[..][n] == wins[n] && wins[..][idx] == wins[idx];
      }
    }

    method Forget(idx: nat)
      requires idx < MAX_WINDOWS
      modifies `drag, `resize
      ensures drag == (if old(drag) == idx then -1 else old(drag)) && resize == (if old(resize) == idx then -1 else old(resize))
    {
      if drag == idx { drag := -1; }
      if resize == idx { resize := -1; }
    }

    method Close(idx: nat)
      requires Valid() && idx < MAX_WINDOWS && wins[idx].used
      modifies wins, `drag, `resize
      ensures Valid() && (old(Ordered()) ==> Ordered())
      ensures drag == (if old(drag) == idx then -1 else old(drag)) && resize == (if old(resize) == idx then -1 else old(resize))
      ensures wins[..] == old(wins[..])[idx := old(wins[idx]).(used := false)]
      ensures View() == Closed(old(View()), idx)
    {
      wins[idx] := wins[idx].(used := false);
      Forget(idx);
    }

    method Minimize(idx: nat)
      requires Valid() && idx < MAX_WINDOWS && wins[idx].used
      modifies wins, `drag, `resize
      ensures Valid() && (old(Ordered()) ==> Ordered())
      ensures drag == (if old(drag) == idx then -1 else old(drag)) && resize == (if old(resize) == idx then -1 else old(resize))
      ensures wins[..] == old(wins[..])[idx := old(wins[idx]).(minimized := true)]
      ensures View() == Minimized(old(View()), idx)
    {
      if wins[idx].minimized { return; }
      wins[idx] := wins[idx].(minimized := true);
      Forget(idx);
    }

    method RestoreFromTaskbar(idx: nat)
      requires Valid() && idx < MAX_WINDOWS && wins[idx].used
      modifies wins, `counter
      ensures Valid() && (old(Ordered()) && old(counter) < MAX32 ==> Ordered() && IsTop(idx))
      ensures counter == old(Bumped()) && wins[..] == old(wins[..])[idx := old(wins[idx]).(minimized := false, order := counter)]
      ensures View() == Restored(old(View()), idx)
    {
      counter := Bumped();
      wins[idx] := wins[idx].(minimized := false, order := counter);
    }

    method ToggleMax(idx: nat)
      requires Valid() && idx < MAX_WINDOWS && wins[idx].used
      modifies wins
      ensures Valid() && (old(Ordered()) ==> Ordered())
      ensures wins[..] == old(wins[..])[idx := Toggled(old(wins[idx]), gw, WorkH())]
      ensures View() == MaxToggled(old(View()), idx)
    {
      var w := wins[idx];
      if !w.maximized {
        w := w.(rest := w.rect);
        w := w.(rect := Bounds(0, 0, gw, WorkH()), maximized := true);
      } else {
        w := w.(rect := w.rest, maximized := false);
      }
      wins[idx] := w;
    }

    /** The dragged window follows the pointer, restored first if it was maximized. */
    method DragTo()
      requires Valid() && drag >= 0
      modifies wins
      ensures Valid() && (old(Ordered()) ==> Ordered())
      ensures wins[..] == old(wins[..])[drag := Dragged(old(wins[drag]), cursorX - offX, cursorY - offY, gw, WorkH())]
      ensures View() == DragMoved(old(View()))
    {
      var w := wins[drag];
      if w.maximized { w := w.(rect := w.rest, maximized := false); }
      var nx, ny := cursorX - offX, cursorY - offY;
      if nx + w.rect.w > gw { nx := gw - w.rect.w; }
      if ny + w.rect.h > WorkH() { ny := WorkH() - w.rect.h; }
      if nx < 0 { nx := 0; }
      if ny < 0 { ny := 0; }
      wins[drag] := w.(rect := w.rect.(x := nx, y := ny));
    }

    /** The resized window keeps its corner; a maximized one ends the resize instead. */
    method ResizeTo()
      requires Valid() && resize >= 0
      modifies wins, `resize
      ensures Valid() && (old(Ordered()) ==> Ordered())
      ensures if old(wins[resize].maximized) then resize == -1 && wins[..] == old(wins[..])
        else resize == old(resize) && wins[..] == old(wins[..])[resize :=
          Resized(old(wins[resize]), resW + (cursorX - resX), resH + (cursorY - resY), gw, WorkH())]
      ensures View() == ResizeMoved(old(View()))
    {
      hide Resized;
      var w := wins[resize];
      if w.maximized { resize := -1; return; }
      var nw, nh := resW + (cursorX - resX), resH + (cursorY - resY);
      var r := Fit(w, nw, nh);
      SameKind(w, nw, nh);
      wins[resize] := r;
    }

    /** A size brought up to the minimum and cut to the work area. */
    method Fit(w: Win, width: int, height: int) returns (r: Win)
      ensures r == Resized(w, width, height, gw, WorkH())
    {
      var nw, nh := width, height;
      if nw < MIN_W { nw := MIN_W; }
      if nh < MIN_H { nh := MIN_H; }
      if w.rect.x + nw > gw { nw := gw - w.rect.x; }
      if w.rect.y + nh > WorkH() { nh := WorkH() - w.rect.y; }
      if nw != w.rect.w || nh != w.rect.h {
        r := w.(rect := w.rect.(w := nw, h := nh));
      } else {
        assert w.rect == w.rect.(w := nw, h := nh);
        r := w;
      }
    }

    lemma SameKind(w: Win, nw: int, nh: int)
      requires w.used && !w.maximized && WinOk(w, gw, WorkH())
      ensures var r := Resized(w, nw, nh, gw, WorkH());
        WinOk(r, gw, WorkH()) && r == w.(rect := r.rect)
    {
      ResizeStays(w, nw, nh, gw, WorkH());
    }

    // ---- presses ----

    /** The title-bar button under a point of a window. */
    method ButtonAt(w: Win, px: int, py: int) returns (b: Button)
      ensures b != NoButton ==> Has(w.rect, px, py) && w.rect.y + 3 <= py < w.rect.y + 23
      ensures b == CloseButton <==> Has(w.rect, px, py) && 3 <= py - w.rect.y < 23 && px >= w.rect.x + w.rect.w - 26
      ensures b == MaxButton <==> Has(w.rect, px, py) && 3 <= py - w.rect.y < 23 && -50 <= px - w.rect.x - w.rect.w < -26
      ensures b == MinButton <==> Has(w.rect, px, py) && 3 <= py - w.rect.y < 23 && -74 <= px - w.rect.x - w.rect.w < -50
    {
      if !Has(w.rect, px, py) { return NoButton; }
      if py < w.rect.y || py >= w.rect.y + TITLE_H { return NoButton; }
      var top := w.rect.y + 3;
      if py < top || py >= top + 20 { return NoButton; }
      var c0 := w.rect.x + w.rect.w - 4 - 22;
      var m0 := c0 - 22 - 2;
      var n0 := m0 - 22 - 2;
      if px >= c0 { return CloseButton; }
      if px >= m0 { return MaxButton; }
      if px >= n0 { return MinButton; }
      b := NoButton;
    }

    /** The window whose taskbar button is under a point; buttons are numbered by used slots. */
    method TaskbarWinAt(px: int, py: int) returns (r: int)
      requires wins.Length == MAX_WINDOWS
      ensures r >= 0 ==> r < MAX_WINDOWS && wins[r].used && InSlot(px, UsedBefore(wins[..], r))
      ensures r < 0 ==> r == -1 && (gh - 41 <= py < gh - 7 ==>
        forall k :: 0 <= k < MAX_WINDOWS && wins[k].used ==> !InSlot(px, UsedBefore(wins[..], k)))
      ensures Framed() ==> r == TaskbarHit(View(), px, py)
    {
      var sy := gh - TASKBAR_H + (TASKBAR_H - 34) / 2;
      if py < sy || py >= sy + 34 { return -1; }
      var slot := 0;
      for i := 0 to MAX_WINDOWS
        invariant slot == UsedBefore(wins[..], i) && SlotHit(wins[..], px, 0) == SlotHit(wins[..], px, i)
        invariant forall k :: 0 <= k < i && wins[k].used ==> !InSlot(px, UsedBefore(wins[..], k))
      {
        if wins[i].used {
          var bx := 112 + slot * 158;
          if px >= bx && px < bx + 150 { return i; }
          slot := slot + 1;
        }
      }
      r := -1;
    }

    /** Opens one of the six programs at the next of four staggered places; every one fits the screen. */
    method IconOpen(k: nat) returns (r: int)
      requires Valid() && k < 6
      modifies wins, `counter, `opens
      ensures counter == old(counter) || counter == old(Bumped())
      ensures Valid() && (old(Ordered()) && old(counter) < MAX32 ==> Ordered())
      ensures opens == old(opens) + 1
      ensures r < 0 ==> r == -1 && wins[..] == old(wins[..]) && forall i :: 0 <= i < MAX_WINDOWS ==> wins[i].used
      ensures r >= 0 ==>
        && r < MAX_WINDOWS && !old(wins[r].used) && Visible(wins[r]) && wins[r].kind == KINDS[k]
        && (wins[r].rect.w, wins[r].rect.h) == SIZES[k]
        && (forall i :: 0 <= i < MAX_WINDOWS && i != r ==> wins[i] == old(wins[i]))
      ensures View() == IconOpened(old(View()), k)
    {
      var (w, h) := SIZES[k];
      var x, y := 300 + opens % 4 * 36, 90 + opens % 4 * 28;
      opens := opens + 1;
      r := Open(x, y, w, h, KINDS[k]);
    }

    /** A press in the taskbar strip, away from the Start button: shows the button's window above all others. */
    method TaskbarPress(px: int, py: int) returns (wi: int)
      requires Valid()
      modifies wins, `counter
      ensures counter == old(counter) || counter == old(Bumped())
      ensures Valid() && (old(Ordered()) && old(counter) < MAX32 ==> Ordered())
      ensures wi < 0 ==> wi == -1 && wins[..] == old(wins[..])
      ensures wi >= 0 ==>
        && wi < MAX_WINDOWS && old(wins[wi].used) && InSlot(px, UsedBefore(old(wins[..]), wi))
        && wins[..] == old(wins[..])[wi := old(wins[wi]).(minimized := false, order := wins[wi].order)]
        && (old(Ordered()) && old(counter) < MAX32 ==> IsTop(wi))
      ensures View() == TaskbarPressed(old(View()), px, py)
    {
      wi := TaskbarWinAt(px, py);
      if wi >= 0 {
        if wins[wi].minimized { RestoreFromTaskbar(wi); } else { Raise(wi); }
      }
    }

    /** A press on a window: a button, the resize grip, the title bar, or the body. */
    method WindowPress(wi: nat, px: int, py: int)
      requires Valid() && wi < MAX_WINDOWS && Visible(wins[wi]) && Has(wins[wi].rect, px, py)
      modifies wins, `counter, `drag, `resize, `offX, `offY, `resX, `resY, `resW, `resH
      ensures counter == old(counter) || counter == old(Bumped())
      ensures Valid() && (old(Ordered()) && old(counter) < MAX32 ==> Ordered())
      ensures var z, w := ZoneOf(old(wins[wi]), px, py), old(wins[wi]);
        && wins[..] == old(wins[..])[wi := match z
            case CloseZone => w.(used := false)
            case MaxZone => Toggled(w, gw, WorkH())
            case MinZone => w.(minimized := true)
            case _ => w.(order := wins[wi].order)]
        && drag == (if z == TitleZone then wi else if (z == CloseZone || z == MinZone) && old(drag) == wi then -1 else old(drag))
        && resize == (if z == GripZone then wi else if (z == CloseZone || z == MinZone) && old(resize) == wi then -1 else old(resize))
      ensures var z := ZoneOf(old(wins[wi]), px, py);
        && (z == TitleZone && old(Ordered()) && old(counter) < MAX32 ==> IsTop(wi))
        && (z == TitleZone || z == GripZone ==> px - offX == wins[wi].rect.x && py - offY == wins[wi].rect.y)
        && (z == GripZone ==> resX == px && resY == py && resW == wins[wi].rect.w && resH == wins[wi].rect.h)
      ensures View() == Pressed(old(View()), wi, px, py)
    {
      var w := wins[wi];
      var b := ButtonAt(w, px, py);
      match b {
        case CloseButton => Close(wi);
        case MaxButton => ToggleMax(wi);
        case MinButton => Minimize(wi);
        case NoButton => Grab(wi, px, py);
      }
    }

    /** Raises the window and starts a resize at its grip or a drag at its title. */
    method Grab(wi: nat, px: int, py: int)
      requires Valid() && wi < MAX_WINDOWS && Visible(wins[wi]) && Has(wins[wi].rect, px, py)
      requires ZoneOf(wins[wi], px, py) in {GripZone, TitleZone, BodyZone}
      modifies wins, `counter, `drag, `resize, `offX, `offY, `resX, `resY, `resW, `resH
      ensures counter == old(counter) || counter == old(Bumped())
      ensures Valid() && (old(Ordered()) && old(counter) < MAX32 ==> Ordered() && IsTop(wi))
      ensures var z := ZoneOf(old(wins[wi]), px, py);
        && wins[..] == old(wins[..])[wi := old(wins[wi]).(order := wins[wi].order)]
        && drag == (if z == TitleZone then wi else old(drag))
        && resize == (if z == GripZone then wi else old(resize))
        && (z == TitleZone || z == GripZone ==> px - offX == wins[wi].rect.x && py - offY == wins[wi].rect.y)
        && (z == GripZone ==> resX == px && resY == py && resW == wins[wi].rect.w && resH == wins[wi].rect.h)
      ensures View() == Grabbed(old(View()), wi, px, py)
    {
      Raise(wi);
      Hold(wi, px, py);
    }

    /** What a press at the grip or the title takes hold of. */
    method Hold(wi: nat, px: int, py: int)
      requires Framed() && wi < MAX_WINDOWS && Has(wins[wi].rect, px, py)
      requires ZoneOf(wins[wi], px, py) in {GripZone, TitleZone, BodyZone}
      modifies `drag, `resize, `offX, `offY, `resX, `resY, `resW, `resH
      ensures Framed() && View() == Held(old(View()), wi, px, py)
    {
      hide ZoneOf;
      ZoneIs(wins[wi], px, py);
      var w := wins[wi];
      if !w.maximized && px >= w.rect.x + w.rect.w - GUTTER && px < w.rect.x + w.rect.w &&
         py >= w.rect.y + w.rect.h - GUTTER && py < w.rect.y + w.rect.h {
        resize := wi;
        offX, offY := px - w.rect.x, py - w.rect.y;
        resX, resY, resW, resH := px, py, w.rect.w, w.rect.h;
      } else if py < w.rect.y + TITLE_H {
        drag := wi;
        offX, offY := px - w.rect.x, py - w.rect.y;
      }
    }

    // ---- the Start button, the Start menu and the icons ----

    /** The desktop icon whose tile or label is under a point. */
    method IconAt(px: int, py: int) returns (r: int)
      ensures r >= 0 ==> r < 6 && OnIcon(r, px, py)
      ensures r < 0 ==> r == -1 && forall i :: 0 <= i < 6 ==> !OnIcon(i, px, py)
      ensures r == IconHit(px, py, 0)
    {
      for i := 0 to 6
        invariant forall k :: 0 <= k < i ==> !OnIcon(k, px, py)
      {
        var iy := 24 + i * 98;
        if px >= 24 && px < 24 + 72 && py >= iy && py < iy + 72 + 16 { return i; }
      }
      r := -1;
    }

    /** A press in the taskbar strip. */
    method StripPress(px: int, py: int)
      requires Valid() && py >= WorkH()
      modifies wins, `counter, `startMenu
      ensures counter == old(counter) || counter == old(Bumped())
      ensures Valid() && (old(Ordered()) && old(counter) < MAX32 ==> Ordered())
      ensures startMenu == MenuAfter(gh, px, py, old(startMenu)) && (OnStart(gh, px, py) ==> wins[..] == old(wins[..]))
      ensures View() == LeftPressed(old(View()), px, py, Passed)
    {
      if px >= 8 && px < 8 + 96 && py >= gh - 41 && py < gh - 41 + 34 {
        startMenu := !startMenu;
        return;
      }
      startMenu := false;
      var pressed := TaskbarPress(px, py);
    }

    /** A press in the open Start menu. */
    method MenuPress(px: int, py: int)
      requires Valid() && py < WorkH() && startMenu && OnMenu(gh, px, py)
      modifies wins, `counter, `opens, `startMenu
      ensures counter == old(counter) || counter == old(Bumped())
      ensures Valid() && (old(Ordered()) && old(counter) < MAX32 ==> Ordered())
      ensures startMenu == MenuAfter(gh, px, py, old(startMenu)) && (startMenu ==> wins[..] == old(wins[..]))
      ensures View() == LeftPressed(old(View()), px, py, Passed)
    {
      var row := MenuRow(gh, py);
      if row < 6 {
        startMenu := false;
        var slot := IconOpen(row);
      }
    }

    /** A left press: taskbar, then the open Start menu, then the topmost window under the pointer, then an icon. */
    method LeftPress(px: int, py: int, inner: Inner)
      requires Valid()
      modifies this, wins
      ensures counter == old(counter) || counter == old(Bumped())
      ensures Valid() && (old(Ordered()) && old(counter) < MAX32 ==> Ordered())
      ensures cursorX == old(cursorX) && cursorY == old(cursorY) && startMenu == MenuAfter(gh, px, py, old(startMenu))
      ensures (py >= WorkH() && OnStart(gh, px, py)) || startMenu ==> wins[..] == old(wins[..])
      ensures var r := old(SeenAt(wins[..], PaintOrder(wins[..], MAX_WINDOWS), px, py));
        py < WorkH() && !(old(startMenu) && OnMenu(gh, px, py)) && old(Distinct(wins[..])) && r >= 0 ==>
        && (forall k :: 0 <= k < MAX_WINDOWS && k != r ==> wins[k] == old(wins[k]))
        && (inner == Taken ==> wins[..] == old(wins[..]))
        && (inner == Closes ==> !wins[r].used)
        && (inner == Passed && ZoneOf(old(wins[r]), px, py) == TitleZone ==> drag == r && (old(Ordered()) && old(counter) < MAX32 ==> IsTop(r)))
      ensures View() == LeftPressed(old(View()), px, py, inner)
    {
      hide SeenAt, PaintOrder, ZoneOf, IsTop, WinOk, Distinct, Raised, TaskbarPressed, IconOpened, PressedAt;
      if py >= WorkH() {
        StripPress(px, py);
        return;
      }
      if startMenu && OnMenu(gh, px, py) {
        MenuPress(px, py);
        return;
      }
      startMenu := false;
      WindowOrIcon(px, py, inner);
    }

    method WindowOrIcon(px: int, py: int, inner: Inner)
      requires Valid()
      modifies wins, `counter, `drag, `resize, `offX, `offY, `resX, `resY, `resW, `resH, `opens
      ensures counter == old(counter) || counter == old(Bumped())
      ensures Valid() && (old(Ordered()) && old(counter) < MAX32 ==> Ordered())
      ensures var r := old(SeenAt(wins[..], PaintOrder(wins[..], MAX_WINDOWS), px, py));
        old(Distinct(wins[..])) && r >= 0 ==>
        && (forall k :: 0 <= k < MAX_WINDOWS && k != r ==> wins[k] == old(wins[k]))
        && (inner == Taken ==> wins[..] == old(wins[..]))
        && (inner == Closes ==> !wins[r].used)
        && (inner == Passed && ZoneOf(old(wins[r]), px, py) == TitleZone ==> drag == r && (old(Ordered()) && old(counter) < MAX32 ==> IsTop(r)))
      ensures View() == PressedAt(old(View()), px, py, inner)
    {
      hide SeenAt, PaintOrder, ZoneOf, WinOk;
      var wi := TopmostAt(px, py);
      if wi < 0 {
        var icon := IconAt(px, py);
        if icon >= 0 { var r := IconOpen(icon); }
        return;
      }
      assert wins[..][wi] == wins[wi];
      if inner == Taken { return; }
      if inner == Closes { Close(wi); return; }
      WindowPress(wi, px, py);
    }

    method RightPress(px: int, py: int)
      requires Valid()
      modifies wins, `counter
      ensures counter == old(counter) || counter == old(Bumped())
      ensures Valid() && (old(Ordered()) && old(counter) < MAX32 ==> Ordered())
      ensures var r := old(SeenAt(wins[..], PaintOrder(wins[..], MAX_WINDOWS), px, py));
        old(Ordered()) && old(counter) < MAX32 ==>
        if r < 0 then wins[..] == old(wins[..])
        else IsTop(r) && wins[..] == old(wins[..])[r := old(wins[r]).(order := wins[r].order)]
      ensures View() == RightPressed(old(View()), px, py)
    {
      var wi := TopmostAt(px, py);
      if wi >= 0 {
        assert wins[..][wi] == wins[wi];
        Raise(wi);
      }
    }

    /** The file manager opens a file in a notepad window beside its own and raises it. The raise finds
        it on top already, except when opening it wrapped the counter. */
    method OpenFile(idx: nat) returns (r: int)
      requires Valid() && idx < MAX_WINDOWS && wins[idx].used
      modifies wins, `counter
      ensures Valid() && (old(Ordered()) && old(counter) < MAX32 ==> Ordered())
      ensures r < 0 ==> r == -1 && counter == old(counter) && wins[..] == old(wins[..]) && forall i :: 0 <= i < MAX_WINDOWS ==> wins[i].used
      ensures r >= 0 ==> r < MAX_WINDOWS && !old(wins[r].used) && wins[..] == old(wins[..])[r :=
        Win(true, Placed(Bounds(old(wins[idx]).rect.x + 40, old(wins[idx]).rect.y + 40, 500, 320), gw, WorkH()), counter, false, false, old(wins[r].rest), 3)]
      ensures r >= 0 ==> counter == old(Bumped()) || counter == Next(old(Bumped()))
      ensures r >= 0 && old(Ordered()) && old(counter) < MAX32 ==> counter == old(counter) + 1 && IsTop(r)
      ensures View() == FileOpened(old(View()), idx)
    {
      r := Open(wins[idx].rect.x + 40, wins[idx].rect.y + 40, 500, 320, 3);
      if r >= 0 {
        ghost var ws := wins[..];
        NewOnTop(r, old(wins[..]), old(counter));
        Raise(r);
        assert wins[..] == ws[r := ws[r].(order := wins[r].order)];
        assert ws[r].order == old(Bumped());
      }
    }

    /** The window just opened is on top as long as the counter did not wrap. */
    lemma NewOnTop(r: nat, was: seq<Win>, c: u32)
      requires wins.Length == MAX_WINDOWS == |was| && r < MAX_WINDOWS && wins[..] == was[r := wins[r]] && wins[r].order == counter
      ensures (forall i :: 0 <= i < MAX_WINDOWS && was[i].used ==> was[i].order <= c) && counter == c + 1 ==> IsTop(r)
    {
      assert forall i :: 0 <= i < MAX_WINDOWS ==> wins[i] == wins[..][i];
    }

    /** One key for the topmost window; only Enter in a file manager changes the window table. */
    method KeyPress(k: Key)
      requires Valid()
      modifies wins, `counter
      ensures Valid() && (old(Ordered()) && (!k.Enter? || old(counter) < MAX32) ==> Ordered())
      ensures !k.Enter? ==> counter == old(counter) && wins[..] == old(wins[..])
      ensures old(counter) + 2 <= MAX32 ==> counter <= old(counter) + 2
      ensures View() == KeyPressed(old(View()), k)
    {
      var top := TopmostIndex();
      if top >= 0 && wins[top].used && wins[top].kind == 4 && k.Enter? && k.selected {
        var r := OpenFile(top);
      }
    }

    /** The keys of one round. */
    method TypeKeys(keys: seq<Key>)
      requires Valid()
      modifies wins, `counter
      ensures Valid()
      ensures old(counter) + 2 * Enters(keys) <= MAX32 ==>
        counter <= old(counter) + 2 * Enters(keys) && (old(Ordered()) ==> Ordered())
      ensures View() == Typed(old(View()), keys)
    {
      hide Ordered, WinOk;
      for n := 0 to |keys|
        invariant Valid() && View() == Typed(old(View()), keys[..n])
        invariant old(counter) + 2 * Enters(keys) <= MAX32 ==>
          counter <= old(counter) + 2 * Enters(keys[..n]) && (old(Ordered()) ==> Ordered())
      {
        EntersGrow(keys, n);
        assert keys[..n + 1][..n] == keys[..n];
        KeyPress(keys[n]);
      }
      assert keys[..|keys|] == keys;
    }

    method MoveCursor(dx: int, dy: int)
      requires Valid()
      modifies `cursorX, `cursorY
      ensures Valid() && 0 <= cursorX <= gw - CURSOR_W && 0 <= cursorY <= gh - CURSOR_H
      ensures View() == Moved(old(View()), dx, dy)
    {
      cursorX := cursorX + dx;
      cursorY := cursorY + dy;
      if cursorX < 0 { cursorX := 0; }
      if cursorY < 0 { cursorY := 0; }
      if cursorX > gw - CURSOR_W { cursorX := gw - CURSOR_W; }
      if cursorY > gh - CURSOR_H { cursorY := gh - CURSOR_H; }
    }

    /** The pointer moves, and takes a dragged or resized window along. */
    method Follow(i: Input)
      requires Valid()
      modifies wins, `cursorX, `cursorY, `resize
      ensures Valid() && (old(Ordered()) ==> Ordered())
      ensures View() == Followed(old(View()), i)
    {
      hide Ordered, Dragged, Resized, WinOk;
      MoveCursor(i.dx, i.dy);
      if drag >= 0 && wins[drag].used && (i.dx != 0 || i.dy != 0) { DragTo(); }
      if resize >= 0 && wins[resize].used { ResizeTo(); }
    }

    /** What the buttons do: a press of either acts where the pointer is, letting go of the left one ends drag and resize. */
    method Buttons(i: Input)
      requires Valid()
      modifies this, wins
      ensures Valid()
      ensures old(counter) + 2 <= MAX32 ==> counter <= old(counter) + 2 && (old(Ordered()) ==> Ordered())
      ensures i.wasLeft && !i.left ==> drag == -1 && resize == -1
      ensures View() == Buttoned(old(View()), i)
    {
      hide SeenAt, PaintOrder, ZoneOf, IsTop, Ordered, WinOk;
      if i.left && !i.wasLeft { LeftPress(cursorX, cursorY, i.inner); }
      if i.right && !i.wasRight { RightPress(cursorX, cursorY); }
      if i.wasLeft && !i.left {
        drag := -1;
        resize := -1;
      }
    }

    /** One round of input. Every round keeps the invariant and moves the counter by at most two, and
        two more for each file the keys open; letting go of the left button ends drag and resize. */
    method Poll(i: Input)
      requires Valid()
      modifies this, wins
      ensures Valid()
      ensures old(counter) + 2 + 2 * Enters(i.keys) <= MAX32 ==>
        counter <= old(counter) + 2 + 2 * Enters(i.keys) && (old(Ordered()) ==> Ordered())
      ensures i.wasLeft && !i.left ==> drag == -1 && resize == -1
      ensures View() == Round(old(View()), i)
    {
      hide Ordered, WinOk, Enters;
      Follow(i);
      Buttons(i);
      TypeKeys(i.keys);
    }

    /** Any run of rounds keeps every window in the work area, and stacking numbers distinct as long as
        the counter cannot have reached its end: after two steps a round and two for each file opened. */
    method Run(inputs: seq<Input>)
      requires Valid()
      modifies this, wins
      ensures Valid()
      ensures old(counter) + 2 * |inputs| + 2 * AllEnters(inputs) <= MAX32 ==>
        counter <= old(counter) + 2 * |inputs| + 2 * AllEnters(inputs) && (old(Ordered()) ==> Ordered())
      ensures View() == Rounds(old(View()), inputs)
    {
      hide Ordered, WinOk;
      for k := 0 to |inputs|
        invariant Valid() && View() == Rounds(old(View()), inputs[..k])
        invariant old(counter) + 2 * |inputs| + 2 * AllEnters(inputs) <= MAX32 ==>
          counter <= old(counter) + 2 * k + 2 * AllEnters(inputs[..k]) && (old(Ordered()) ==> Ordered())
      {
        AllEntersGrow(inputs, k);
        assert inputs[..k + 1][..k] == inputs[..k];
        Poll(inputs[k]);
      }
      assert inputs[..|inputs|] == inputs;
    }
  }

  lemma {:induction false} EntersGrow(keys: seq<Key>, n: nat)
    requires n < |keys|
    ensures Enters(keys[..n + 1]) == Enters(keys[..n]) + (if keys[n].Enter? then 1 else 0) <= Enters(keys)
    decreases |keys|
  {
    assert keys[..n + 1][..n] == keys[..n];
    if n + 1 < |keys| {
      var init := keys[..|keys| - 1];
      EntersGrow(init, n);
      assert init[..n + 1] == keys[..n + 1] && init[..n] == keys[..n];
    } else {
      assert keys[..n + 1] == keys;
    }
  }

  lemma {:induction false} AllEntersGrow(inputs: seq<Input>, n: nat)
    requires n < |inputs|
    ensures AllEnters(inputs[..n + 1]) == AllEnters(inputs[..n]) + Enters(inputs[n].keys) <= AllEnters(inputs)
    decreases |inputs|
  {
    assert inputs[..n + 1][..n] == inputs[..n];
    if n + 1 < |inputs| {
      var init := inputs[..|inputs| - 1];
      AllEntersGrow(init, n);
      assert init[..n + 1] == inputs[..n + 1] && init[..n] == inputs[..n];
    } else {
      assert inputs[..n + 1] == inputs;
    }
  }
}
