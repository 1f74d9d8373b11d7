/** Rounds of input on the desktop: what a drag, a resize, a click, and a key come to. */
module DeskRuns {
  import opened Common
  import opened Windows
  import opened DeskState

  /** The left button stays down, nothing else is pressed and no key typed. */
  predicate Holding(i: Input) {
    i.left && i.wasLeft && (i.right ==> i.wasRight) && i.keys == []
  }

  ghost predicate AllHolding(inputs: seq<Input>) {
    forall k :: 0 <= k < |inputs| ==> Holding(inputs[k])
  }

  ghost predicate Moves(inputs: seq<Input>) {
    exists k :: 0 <= k < |inputs| && (inputs[k].dx != 0 || inputs[k].dy != 0)
  }

  /** Where the pointer is after a round: it moves with the mouse and stops at the edges of the screen, 12 and
      20 pixels before the far ones. */
  lemma PointerMoves(d: Sane, i: Input)
    requires d.gw >= 12 && d.gh >= 20
    ensures var e := Followed(d, i);
      && e.cursorX == (if d.cursorX + i.dx < 0 then 0 else if d.cursorX + i.dx > d.gw - 12 then d.gw - 12 else d.cursorX + i.dx)
      && e.cursorY == (if d.cursorY + i.dy < 0 then 0 else if d.cursorY + i.dy > d.gh - 20 then d.gh - 20 else d.cursorY + i.dy)
  {}

  /** A round with the button held only follows the pointer. */
  lemma HeldRound(d: Sane, i: Input)
    requires Holding(i)
    ensures Round(d, i) == Followed(d, i)
  {}

  lemma MovesLast(inputs: seq<Input>)
    requires inputs != []
    ensures var n := |inputs| - 1;
      Moves(inputs) <==> Moves(inputs[..n]) || inputs[n].dx != 0 || inputs[n].dy != 0
  {
    var n := |inputs| - 1;
    if Moves(inputs) && inputs[n].dx == inputs[n].dy == 0 {
      var k :| 0 <= k < |inputs| && (inputs[k].dx != 0 || inputs[k].dy != 0);
      assert inputs[..n][k] == inputs[k];
    }
    if Moves(inputs[..n]) {
      var k :| 0 <= k < n && (inputs[..n][k].dx != 0 || inputs[..n][k].dy != 0);
      assert inputs[k] == inputs[..n][k];
    }
  }

  // ---- dragging ----

  /** Only window `wi` can have changed since `d`, and the pointer. */
  ghost predicate OnlyWindow(d: Sane, e: Sane, wi: nat) {
    wi < MAX_WINDOWS && e == d.(cursorX := e.cursorX, cursorY := e.cursorY, wins := d.wins[wi := e.wins[wi]])
  }

  /** The window lies where the pointer is, less the offset at which it was taken, or at the edge of the work
      area that is in the way, with the size it has when it is not maximized. */
  ghost predicate AtPointer(d: Sane, e: Sane, wi: nat)
    requires wi < MAX_WINDOWS
  {
    var was := if d.wins[wi].maximized then d.wins[wi].rest else d.wins[wi].rect;
    e.wins[wi] == d.wins[wi].(maximized := false, rect := Bounds(
      Max(Min(e.cursorX - d.offX, d.gw - was.w), 0), Max(Min(e.cursorY - d.offY, d.gh - 48 - was.h), 0), was.w, was.h))
  }

  /** The state of a drag: the window has followed the pointer if that has moved. */
  ghost predicate Dragging(d: Sane, e: Sane, wi: nat, moved: bool) {
    && OnlyWindow(d, e, wi) && 0 <= e.cursorX <= d.gw - 12 && 0 <= e.cursorY <= d.gh - 20
    && if moved then AtPointer(d, e, wi) else e.wins[wi] == d.wins[wi]
  }

  lemma DragStep(d: Sane, e: Sane, wi: nat, moved: bool, i: Input)
    requires Dragging(d, e, wi, moved) && d.drag == wi && d.resize == -1 && d.wins[wi].used
    ensures Dragging(d, Followed(e, i), wi, moved || i.dx != 0 || i.dy != 0)
  {
    var m := Moved(e, i.dx, i.dy);
    if i.dx != 0 || i.dy != 0 {
      assert Followed(e, i) == DragMoved(m);
    } else {
      assert Followed(e, i) == m;
    }
  }

  /** However the pointer moves while the button is held, the window goes along. */
  lemma {:induction false} DragRun(d: Sane, wi: nat, inputs: seq<Input>)
    requires wi < MAX_WINDOWS && d.drag == wi && d.resize == -1 && d.wins[wi].used && AllHolding(inputs)
    requires 0 <= d.cursorX <= d.gw - 12 && 0 <= d.cursorY <= d.gh - 20
    ensures Dragging(d, Rounds(d, inputs), wi, Moves(inputs))
  {
    hide Followed, AtPointer, Round;
    if inputs != [] {
      var n := |inputs| - 1;
      DragRun(d, wi, inputs[..n]);
      HeldRound(Rounds(d, inputs[..n]), inputs[n]);
      DragStep(d, Rounds(d, inputs[..n]), wi, Moves(inputs[..n]), inputs[n]);
      MovesLast(inputs);
    }
  }

  // ---- resizing ----

  /** The state of a resize: the window's corner stays, and its size has grown as the pointer has moved since it
      was taken, but not below 200 by 120 nor past the work area. */
  ghost predicate Resizing(d: Sane, e: Sane, wi: nat) {
    && OnlyWindow(d, e, wi) && 0 <= e.cursorX <= d.gw - 12 && 0 <= e.cursorY <= d.gh - 20
    && e.wins[wi] == d.wins[wi].(rect := e.wins[wi].rect)
    && var r := d.wins[wi].rect;
       e.wins[wi].rect == Bounds(r.x, r.y, Min(Max(d.resW + (e.cursorX - d.resX), 200), d.gw - r.x),
                                 Min(Max(d.resH + (e.cursorY - d.resY), 120), d.gh - 48 - r.y))
  }

  lemma ResizeStep(d: Sane, e: Sane, wi: nat, i: Input)
    requires OnlyWindow(d, e, wi) && d.resize == wi && d.drag == -1 && d.wins[wi].used && !d.wins[wi].maximized
    requires e.wins[wi] == d.wins[wi].(rect := d.wins[wi].rect.(w := e.wins[wi].rect.w, h := e.wins[wi].rect.h))
    requires d.gw >= 12 && d.gh >= 20
    ensures Resizing(d, Followed(e, i), wi)
  {
    var m := Moved(e, i.dx, i.dy);
    assert Followed(e, i) == ResizeMoved(m);
  }

  lemma {:induction false} ResizeRun(d: Sane, wi: nat, inputs: seq<Input>)
    requires wi < MAX_WINDOWS && d.resize == wi && d.drag == -1 && d.wins[wi].used && !d.wins[wi].maximized && AllHolding(inputs)
    requires d.gw >= 12 && d.gh >= 20 && inputs != []
    ensures Resizing(d, Rounds(d, inputs), wi)
  {
    hide Followed, Round, Resized;
    var n := |inputs| - 1;
    var e := Rounds(d, inputs[..n]);
    if n > 0 {
      ResizeRun(d, wi, inputs[..n]);
    }
    HeldRound(e, inputs[n]);
    ResizeStep(d, e, wi, inputs[n]);
  }

  // ---- a press on a window ----

  /** A round in which the left button goes down at `(px, py)`, over window `wi` and above the taskbar, with
      nothing dragged or resized, no menu open, and nothing in the window that takes the press. */
  ghost predicate PressOn(d: Sane, i: Input, wi: nat, px: int, py: int) {
    && i.left && !i.wasLeft && (i.right ==> i.wasRight) && i.inner == Passed && i.keys == []
    && d.drag == d.resize == -1 && !d.startMenu && py < d.gh - 48
    && px == Moved(d, i.dx, i.dy).cursorX && py == Moved(d, i.dx, i.dy).cursorY
    && wi < MAX_WINDOWS && TopAt(d.wins, MAX_WINDOWS, px, py) == wi
  }

  lemma PressRound(d: Sane, i: Input, wi: nat, px: int, py: int)
    requires PressOn(d, i, wi, px, py)
    ensures Round(d, i) == Pressed(Moved(d, i.dx, i.dy), wi, px, py)
  {
    hide Pressed, TopAt;
    var m := Moved(d, i.dx, i.dy);
    assert Followed(d, i) == m;
    assert MenuAfter(m.gh, px, py, m.startMenu) == m.startMenu;
    assert LeftPressed(m, px, py, i.inner) == PressedAt(m, px, py, i.inner);
  }

  /** The three buttons at the right end of the title bar: close, maximize or restore, minimize. */
  lemma ButtonClick(d: Sane, i: Input, wi: nat, px: int, py: int)
    requires PressOn(d, i, wi, px, py)
    requires var r := d.wins[wi].rect; 3 <= py - r.y < 23 && px >= r.x + r.w - 74
    ensures var w, e := d.wins[wi], Round(d, i);
      e.drag == e.resize == -1 && e.counter == d.counter && e.wins == d.wins[wi :=
        if px >= w.rect.x + w.rect.w - 26 then w.(used := false)
        else if px < w.rect.x + w.rect.w - 50 then w.(minimized := true)
        else if w.maximized then w.(rect := w.rest, maximized := false)
        else w.(rest := w.rect, rect := Bounds(0, 0, d.gw, d.gh - 48), maximized := true)]
  {
    PressRound(d, i, wi, px, py);
    assert Over(d.wins[wi], px, py);
  }

  /** A press on the title bar, left of its buttons, raises the window and takes it there. */
  lemma TitleTaken(d: Sane, i: Input, wi: nat, px: int, py: int)
    requires PressOn(d, i, wi, px, py) && ZoneOf(d.wins[wi], px, py) == TitleZone
    ensures var w, e := d.wins[wi], Round(d, i);
      && e.drag == wi && e.resize == -1 && e.offX == px - w.rect.x && e.offY == py - w.rect.y
      && e.cursorX == px && e.cursorY == py && e.gw == d.gw && e.gh == d.gh
      && e.wins == d.wins[wi := w.(order := e.wins[wi].order)]
      && forall k :: 0 <= k < MAX_WINDOWS && Visible(d.wins[k]) && d.counter < MAX32 && d.wins[k].order <= d.counter ==> d.wins[k].order <= e.wins[wi].order
  {
    PressRound(d, i, wi, px, py);
    var m := Moved(d, i.dx, i.dy);
    assert Over(d.wins[wi], px, py);
    assert ZoneOf(Raised(m, wi).wins[wi], px, py) == TitleZone;
  }

  lemma {:induction false} RoundsFrom(d: Sane, i: Input, inputs: seq<Input>)
    ensures Rounds(d, [i] + inputs) == Rounds(Round(d, i), inputs)
  {
    hide Round;
    if inputs == [] {
      assert [i] + inputs == [i] && [i][..0] == [];
    } else {
      var n := |inputs| - 1;
      RoundsFrom(d, i, inputs[..n]);
      assert ([i] + inputs)[..n + 1] == [i] + inputs[..n];
    }
  }

  /** Press, move, and the window has moved as far as the pointer, up to the edges of the work area. */
  lemma TitleDrag(d: Sane, i: Input, wi: nat, px: int, py: int, inputs: seq<Input>)
    requires PressOn(d, i, wi, px, py) && ZoneOf(d.wins[wi], px, py) == TitleZone && !d.wins[wi].maximized
    requires AllHolding(inputs) && Moves(inputs) && d.gw >= 12 && d.gh >= 20
    ensures var e, r := Rounds(d, [i] + inputs), d.wins[wi].rect;
      && e.wins == d.wins[wi := e.wins[wi]]
      && e.wins[wi].rect == Bounds(Max(Min(r.x + (e.cursorX - px), d.gw - r.w), 0), Max(Min(r.y + (e.cursorY - py), d.gh - 48 - r.h), 0), r.w, r.h)
  {
    hide Round, Rounds, ZoneOf, Moves, AllHolding, TopAt;
    PointerStays(d, i);
    TitleTaken(d, i, wi, px, py);
    assert d.wins[wi].used by { TopIsUsed(d.wins, px, py, wi); }
    var e := Round(d, i);
    DragRun(e, wi, inputs);
    RoundsFrom(d, i, inputs);
  }

  lemma TopIsUsed(wins: seq<Win>, px: int, py: int, wi: nat)
    requires |wins| == MAX_WINDOWS && TopAt(wins, MAX_WINDOWS, px, py) == wi
    ensures wins[wi].used
  {}

  lemma PointerStays(d: Sane, i: Input)
    requires d.gw >= 12 && d.gh >= 20
    ensures var m := Moved(d, i.dx, i.dy); 0 <= m.cursorX <= d.gw - 12 && 0 <= m.cursorY <= d.gh - 20
  {}

  // ---- programs and files ----

  /** The six programs, what they are and how big: terminal, files, settings, about, browser, notepad. They
      open at four places in turn, moved to fit. */
  lemma ProgramOpens(d: Sane, k: nat)
    requires k < 6 && d.gw >= 720 && d.gh >= 508 && FreeSlot(d.wins, 0) < MAX_WINDOWS
    ensures var e, slot := IconOpened(d, k), FreeSlot(d.wins, 0);
      var (w, h) := if k < 4 then (460, 220) else if k == 4 then (720, 460) else (500, 320);
      && e.counter == Next(d.counter) && e.opens == d.opens + 1
      && e.wins == d.wins[slot := Win(true,
           Bounds(Min(300 + d.opens % 4 * 36, d.gw - w), Min(90 + d.opens % 4 * 28, d.gh - 48 - h), w, h), e.counter, false, false, d.wins[slot].rest,
           if k == 0 then 1 else if k == 1 then 4 else if k < 4 then 0 else if k == 4 then 2 else 3)]
  {
    assert FreeSlot(d.(opens := d.opens + 1).wins, 0) == FreeSlot(d.wins, 0);
  }

  /** A press in row `k` of the open Start menu closes it and opens a program. */
  lemma MenuOpens(d: Sane, px: int, py: int, inner: Inner, k: nat)
    requires d.startMenu && k < 6 && 8 <= px < 208 && d.gh - 298 + 40 * k <= py < d.gh - 258 + 40 * k
    ensures LeftPressed(d, px, py, inner) == IconOpened(d.(startMenu := false), k)
  {
    hide IconOpened;
    assert MenuRow(d.gh, py) == k;
  }

  /** A press on icon `k`, with no window there, opens a program too. */
  lemma IconOpens(d: Sane, px: int, py: int, inner: Inner, k: nat)
    requires !d.startMenu && k < 6 && 24 <= px < 96 && 24 + k * 98 <= py < 112 + k * 98 && py < d.gh - 48
    requires TopAt(d.wins, MAX_WINDOWS, px, py) < 0
    ensures LeftPressed(d, px, py, inner) == IconOpened(d, k)
  {
    hide IconOpened, TopAt;
    assert d.(startMenu := false) == d;
    assert IconHit(px, py, 0) == k;
  }

  /** Enter with a file selected in the file manager on top opens it in a notepad 40 pixels to the right and
      below, moved to fit, on top of everything. */
  lemma EnterOpens(d: Sane, top: nat)
    requires top < MAX_WINDOWS && TopIndex(d.wins, MAX_WINDOWS) == top && d.wins[top].kind == 4 && FreeSlot(d.wins, 0) < MAX_WINDOWS
    requires d.counter < MAX32 && forall n :: 0 <= n < MAX_WINDOWS && d.wins[n].used ==> d.wins[n].order <= d.counter
    requires 0 <= d.wins[top].rect.x && 0 <= d.wins[top].rect.y
    ensures var slot, r := FreeSlot(d.wins, 0), d.wins[top].rect;
      KeyPressed(d, Enter(true)) == d.(counter := d.counter + 1, wins := d.wins[slot := Win(true,
        Bounds(Min(r.x + 40, d.gw - 500), Min(r.y + 40, d.gh - 48 - 320), 500, 320), d.counter + 1, false, false, d.wins[slot].rest, 3)])
  {
    var slot, r := FreeSlot(d.wins, 0), d.wins[top].rect;
    var (e, k) := Opened(d, r.x + 40, r.y + 40, 500, 320, 3);
    assert k == slot && Visible(e.wins[slot]) && e.wins[slot].order == d.counter + 1;
    NewIsTop(e.wins, slot);
  }

  lemma NewIsTop(wins: seq<Win>, slot: nat)
    requires |wins| == MAX_WINDOWS && slot < MAX_WINDOWS && Visible(wins[slot])
    requires forall n :: 0 <= n < MAX_WINDOWS && n != slot && wins[n].used ==> wins[n].order < wins[slot].order
    ensures TopIndex(wins, MAX_WINDOWS) == slot
  {}

  /** No other key changes anything, nor does Enter elsewhere. */
  lemma OtherKeys(d: Sane, k: Key)
    requires var top := TopIndex(d.wins, MAX_WINDOWS); !(k.Enter? && k.selected && top >= 0 && d.wins[top].kind == 4)
    ensures KeyPressed(d, k) == d
  {}
}
