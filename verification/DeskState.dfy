/** The desktop as a value, and what each input makes of it. */
module DeskState {
  import opened Common
  import opened Windows

  /** What the program inside a window does with a press: nothing, something of its own, or it closes the window. */
  datatype Inner = Passed | Taken | Closes

  /** A key: Enter, with whether a file manager on top has a file selected and no question open, or another one. */
  datatype Key = Enter(selected: bool) | Other

  /** What the mouse reports in one round, with the buttons of the round before. */
  datatype Input = Input(dx: int, dy: int, left: bool, right: bool, wasLeft: bool, wasRight: bool, inner: Inner, keys: seq<Key>)

  datatype Zone = CloseZone | MaxZone | MinZone | GripZone | TitleZone | BodyZone

  datatype Desk = Desk(gw: int, gh: int, wins: seq<Win>, counter: u32, drag: int, resize: int, offX: int, offY: int,
                       resX: int, resY: int, resW: int, resH: int, cursorX: int, cursorY: int, opens: nat, startMenu: bool)
  {
    function WorkH(): int {
      gh - TASKBAR_H
    }

    predicate Sized() {
      |wins| == MAX_WINDOWS && -1 <= drag < MAX_WINDOWS && -1 <= resize < MAX_WINDOWS
    }
  }

  type Sane = d: Desk | d.Sized()
    witness Desk(0, 0, seq(MAX_WINDOWS, _ => UNUSED), 0, -1, -1, 0, 0, 0, 0, 0, 0, 0, 0, 0, false)

  const UNUSED: Win := Win(false, Bounds(0, 0, 0, 0), 0, false, false, Bounds(0, 0, 0, 0), 0)

  function Next(c: u32): u32 {
    if c == MAX32 then 0 else c + 1
  }

  // ---- which window ----

  /** The first visible window of the highest number. */
  function TopIndex(wins: seq<Win>, k: nat): (r: int)
    requires k <= |wins|
    ensures if r < 0 then r == -1 && forall n :: 0 <= n < k ==> !Visible(wins[n])
      else r < k && Visible(wins[r]) && forall n :: 0 <= n < k && Visible(wins[n]) ==> wins[n].order <= wins[r].order
  {
    if k == 0 then -1 else
    var r := TopIndex(wins, k - 1);
    if Visible(wins[k - 1]) && (r < 0 || wins[k - 1].order > wins[r].order) then k - 1 else r
  }

  /** The same among those over a point. */
  function TopAt(wins: seq<Win>, k: nat, px: int, py: int): (r: int)
    requires k <= |wins|
    ensures IsTopAt(wins, k, px, py, r)
  {
    if k == 0 then -1 else
    var r := TopAt(wins, k - 1, px, py);
    if Over(wins[k - 1], px, py) && (r < 0 || wins[k - 1].order > wins[r].order) then k - 1 else r
  }

  function FreeSlot(wins: seq<Win>, k: nat): (r: nat)
    requires k <= |wins|
    ensures k <= r <= |wins| && (r < |wins| ==> !wins[r].used) && forall n :: k <= n < r ==> wins[n].used
    decreases |wins| - k
  {
    if k == |wins| || !wins[k].used then k else FreeSlot(wins, k + 1)
  }

  function UsedBefore(ws: seq<Win>, k: nat): nat
    requires k <= |ws|
  {
    if k == 0 then 0 else UsedBefore(ws, k - 1) + if ws[k - 1].used then 1 else 0
  }

  predicate InSlot(px: int, slot: nat) {
    112 + slot * 158 <= px < 112 + slot * 158 + 150
  }

  /** The first window from `k` on whose taskbar button is at that place of the strip. */
  function SlotHit(wins: seq<Win>, px: int, k: nat): (r: int)
    requires k <= |wins|
    ensures r >= 0 ==> k <= r < |wins| && wins[r].used && InSlot(px, UsedBefore(wins, r))
    ensures r < 0 ==> r == -1 && forall n :: k <= n < |wins| && wins[n].used ==> !InSlot(px, UsedBefore(wins, n))
    decreases |wins| - k
  {
    if k == |wins| then -1
    else if wins[k].used && InSlot(px, UsedBefore(wins, k)) then k
    else SlotHit(wins, px, k + 1)
  }

  function TaskbarHit(d: Sane, px: int, py: int): (r: int)
    ensures -1 <= r < MAX_WINDOWS && (r >= 0 ==> d.wins[r].used)
  {
    if d.gh - 41 <= py < d.gh - 7 then SlotHit(d.wins, px, 0) else -1
  }

  predicate OnIcon(i: int, px: int, py: int) {
    24 <= px < 96 && 24 + i * 98 <= py < 112 + i * 98
  }

  function IconHit(px: int, py: int, i: nat): (r: int)
    requires i <= 6
    ensures r >= 0 ==> i <= r < 6 && OnIcon(r, px, py)
    ensures r < 0 ==> r == -1 && forall k :: i <= k < 6 ==> !OnIcon(k, px, py)
    decreases 6 - i
  {
    if i == 6 then -1 else if OnIcon(i, px, py) then i else IconHit(px, py, i + 1)
  }

  // ---- window operations ----

  /** The window in the lowest free slot, on top of the others, or -1 when there is none. */
  function Opened(d: Sane, x: int, y: int, w: int, h: int, kind: nat): (res: (Sane, int))
    ensures -1 <= res.1 < MAX_WINDOWS && (res.1 >= 0 ==> Visible(res.0.wins[res.1]))
  {
    var k := FreeSlot(d.wins, 0);
    if k == MAX_WINDOWS then (d, -1) else
    var c := Next(d.counter);
    (d.(counter := c, wins := d.wins[k := Win(true, Placed(Bounds(x, y, w, h), d.gw, d.WorkH()), c, false, false, d.wins[k].rest, kind)]), k)
  }

  function Raised(d: Sane, idx: nat): Sane
    requires idx < MAX_WINDOWS
  {
    if TopIndex(d.wins, MAX_WINDOWS) == idx then d else
    var c := Next(d.counter);
    d.(counter := c, wins := d.wins[idx := d.wins[idx].(order := c)])
  }

  function Forgotten(d: Sane, idx: nat): Sane {
    d.(drag := if d.drag == idx then -1 else d.drag, resize := if d.resize == idx then -1 else d.resize)
  }

  function Closed(d: Sane, idx: nat): Sane
    requires idx < MAX_WINDOWS
  {
    Forgotten(d.(wins := d.wins[idx := d.wins[idx].(used := false)]), idx)
  }

  function Minimized(d: Sane, idx: nat): Sane
    requires idx < MAX_WINDOWS
  {
    if d.wins[idx].minimized then d else Forgotten(d.(wins := d.wins[idx := d.wins[idx].(minimized := true)]), idx)
  }

  function Restored(d: Sane, idx: nat): Sane
    requires idx < MAX_WINDOWS
  {
    var c := Next(d.counter);
    d.(counter := c, wins := d.wins[idx := d.wins[idx].(minimized := false, order := c)])
  }

  function MaxToggled(d: Sane, idx: nat): Sane
    requires idx < MAX_WINDOWS
  {
    d.(wins := d.wins[idx := Toggled(d.wins[idx], d.gw, d.WorkH())])
  }

  // ---- presses ----

  /** The part of a window a point lies in. */
  function ZoneOf(w: Win, px: int, py: int): Zone {
    var right, down := w.rect.x + w.rect.w - px, py - w.rect.y;
    if 3 <= down < 23 && right <= 26 then CloseZone
    else if 3 <= down < 23 && right <= 50 then MaxZone
    else if 3 <= down < 23 && right <= 74 then MinZone
    else if !w.maximized && right <= GUTTER && w.rect.h - down <= GUTTER then GripZone
    else if down < TITLE_H then TitleZone
    else BodyZone
  }

  /** Past the buttons, the grip is the corner of 18 pixels of a window that is not maximized, and the title
      the upper 26. */
  lemma ZoneIs(w: Win, px: int, py: int)
    requires Has(w.rect, px, py) && ZoneOf(w, px, py) in {GripZone, TitleZone, BodyZone}
    ensures var grip := !w.maximized && px >= w.rect.x + w.rect.w - 18 && py >= w.rect.y + w.rect.h - 18;
      ZoneOf(w, px, py) == if grip then GripZone else if py < w.rect.y + 26 then TitleZone else BodyZone
  {}

  /** A window taken at its grip or its title. */
  function Held(d: Sane, wi: nat, px: int, py: int): Sane
    requires wi < MAX_WINDOWS
  {
    var w := d.wins[wi];
    match ZoneOf(w, px, py)
    case GripZone => d.(resize := wi, offX := px - w.rect.x, offY := py - w.rect.y, resX := px, resY := py, resW := w.rect.w, resH := w.rect.h)
    case TitleZone => d.(drag := wi, offX := px - w.rect.x, offY := py - w.rect.y)
    case _ => d
  }

  function Grabbed(d: Sane, wi: nat, px: int, py: int): Sane
    requires wi < MAX_WINDOWS
  {
    Held(Raised(d, wi), wi, px, py)
  }

  function Pressed(d: Sane, wi: nat, px: int, py: int): Sane
    requires wi < MAX_WINDOWS
  {
    match ZoneOf(d.wins[wi], px, py)
    case CloseZone => Closed(d, wi)
    case MaxZone => MaxToggled(d, wi)
    case MinZone => Minimized(d, wi)
    case _ => Grabbed(d, wi, px, py)
  }

  function TaskbarPressed(d: Sane, px: int, py: int): Sane {
    var wi := TaskbarHit(d, px, py);
    if wi < 0 then d else if d.wins[wi].minimized then Restored(d, wi) else Raised(d, wi)
  }

  /** What the six desktop icons open: terminal, files, settings, about, browser, notepad. */
  const KINDS: seq<nat> := [1, 4, 0, 0, 2, 3]
  const SIZES: seq<(int, int)> := [(460, 220), (460, 220), (460, 220), (460, 220), (720, 460), (500, 320)]

  /** One of the six programs at the next of four staggered places. */
  function IconOpened(d: Sane, k: nat): Sane
    requires k < 6
  {
    Opened(d.(opens := d.opens + 1), 300 + d.opens % 4 * 36, 90 + d.opens % 4 * 28, SIZES[k].0, SIZES[k].1, KINDS[k]).0
  }

  /** The Start menu: padding of 6 above and below six rows of 40. */
  const MENU_H: int := 252

  predicate OnStart(gh: int, px: int, py: int) {
    8 <= px < 104 && gh - 41 <= py < gh - 7
  }

  predicate OnMenu(gh: int, px: int, py: int) {
    8 <= px < 208 && gh - TASKBAR_H - MENU_H - 4 <= py < gh - TASKBAR_H - 4
  }

  /** The menu row of a height inside the menu; the division truncates, so the upper padding is row 0. */
  function MenuRow(gh: int, py: int): int {
    var down := py - (gh - TASKBAR_H - MENU_H - 4) - 6;
    if down < 0 then 0 else down / 40
  }

  /** What a press does to the Start menu: the button toggles it, its lower padding leaves it, anything else closes it. */
  function MenuAfter(gh: int, px: int, py: int, open: bool): bool {
    if py >= gh - TASKBAR_H && OnStart(gh, px, py) then !open
    else py < gh - TASKBAR_H && open && OnMenu(gh, px, py) && MenuRow(gh, py) >= 6
  }

  /** A press on the topmost window over the point, or on the icon there. */
  function PressedAt(d: Sane, px: int, py: int, inner: Inner): Sane {
    var wi := TopAt(d.wins, MAX_WINDOWS, px, py);
    if wi < 0 then
      var icon := IconHit(px, py, 0);
      if icon < 0 then d else IconOpened(d, icon)
    else match inner
      case Taken => d
      case Closes => Closed(d, wi)
      case Passed => Pressed(d, wi, px, py)
  }

  /** A left press: taskbar, then the open Start menu, then windows and icons. */
  function LeftPressed(d: Sane, px: int, py: int, inner: Inner): Sane {
    var m := d.(startMenu := MenuAfter(d.gh, px, py, d.startMenu));
    if py >= d.WorkH() then
      if OnStart(d.gh, px, py) then m else TaskbarPressed(m, px, py)
    else if d.startMenu && OnMenu(d.gh, px, py) then
      if MenuRow(d.gh, py) < 6 then IconOpened(m, MenuRow(d.gh, py)) else m
    else PressedAt(m, px, py, inner)
  }

  function RightPressed(d: Sane, px: int, py: int): Sane {
    var wi := TopAt(d.wins, MAX_WINDOWS, px, py);
    if wi < 0 then d else Raised(d, wi)
  }

  // ---- keys ----

  /** A file opened in a notepad window beside the window of its file manager. */
  function FileOpened(d: Sane, idx: nat): Sane
    requires idx < MAX_WINDOWS
  {
    var r := d.wins[idx].rect;
    var (e, k) := Opened(d, r.x + 40, r.y + 40, 500, 320, 3);
    if k < 0 then e else Raised(e, k)
  }

  function KeyPressed(d: Sane, k: Key): Sane {
    var top := TopIndex(d.wins, MAX_WINDOWS);
    if top >= 0 && d.wins[top].kind == 4 && k.Enter? && k.selected then FileOpened(d, top) else d
  }

  function Typed(d: Sane, keys: seq<Key>): Sane {
    if keys == [] then d else KeyPressed(Typed(d, keys[..|keys| - 1]), keys[|keys| - 1])
  }

  // ---- rounds ----

  function Moved(d: Sane, dx: int, dy: int): Sane {
    d.(cursorX := Min(Max(d.cursorX + dx, 0), d.gw - CURSOR_W), cursorY := Min(Max(d.cursorY + dy, 0), d.gh - CURSOR_H))
  }

  function DragMoved(d: Sane): Sane
    requires d.drag >= 0
  {
    d.(wins := d.wins[d.drag := Dragged(d.wins[d.drag], d.cursorX - d.offX, d.cursorY - d.offY, d.gw, d.WorkH())])
  }

  function ResizeMoved(d: Sane): Sane
    requires d.resize >= 0
  {
    var w := d.wins[d.resize];
    if w.maximized then d.(resize := -1)
    else d.(wins := d.wins[d.resize := Resized(w, d.resW + (d.cursorX - d.resX), d.resH + (d.cursorY - d.resY), d.gw, d.WorkH())])
  }

  /** The pointer moves, and takes a dragged or resized window along. */
  function Followed(d: Sane, i: Input): Sane {
    var m := Moved(d, i.dx, i.dy);
    var e := if m.drag >= 0 && m.wins[m.drag].used && (i.dx != 0 || i.dy != 0) then DragMoved(m) else m;
    if e.resize >= 0 && e.wins[e.resize].used then ResizeMoved(e) else e
  }

  function Buttoned(d: Sane, i: Input): Sane {
    var l := if i.left && !i.wasLeft then LeftPressed(d, d.cursorX, d.cursorY, i.inner) else d;
    var r := if i.right && !i.wasRight then RightPressed(l, l.cursorX, l.cursorY) else l;
    if i.wasLeft && !i.left then r.(drag := -1, resize := -1) else r
  }

  function Round(d: Sane, i: Input): Sane {
    Typed(Buttoned(Followed(d, i), i), i.keys)
  }

  function Rounds(d: Sane, inputs: seq<Input>): Sane {
    if inputs == [] then d else Round(Rounds(d, inputs[..|inputs| - 1]), inputs[|inputs| - 1])
  }
}
