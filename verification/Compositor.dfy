/** The damage-tracked compositor: a backbuffer, one or two scanout pages, a clip rectangle, and
    the damage rectangles of this frame and the last. */
module Compositor {
  import opened Common

  type Color = x: int | 0 <= x < 0x1_0000_0000
  type i64 = x: int | -0x8000_0000_0000_0000 <= x < 0x8000_0000_0000_0000
  type u16 = x: int | 0 <= x < 0x1_0000
  type coord = x: int | -0x4000_0000 <= x < 0x4000_0000

  /** Whether a coordinate fits the 64-bit type. */
  predicate InWord(v: int) {
    -0x8000_0000_0000_0000 <= v < 0x8000_0000_0000_0000
  }

  const CURSOR_W: nat := 12
  const CURSOR_H: nat := 20
  const FONT: nat := 8
  const TASKBAR_H: nat := 48
  const CLOCK_MARGIN: nat := 16
  const MAX_SIDE: int := 0x10_0000

  // ---- rectangles ----

  datatype Rect = Rect(x0: int, y0: int, x1: int, y1: int)

  const NOWHERE: Rect := Rect(0, 0, 0, 0)

  predicate In(r: Rect, x: int, y: int) {
    r.x0 <= x < r.x1 && r.y0 <= y < r.y1
  }

  predicate Empty(r: Rect) {
    r.x1 <= r.x0 || r.y1 <= r.y0
  }

  function Box(x: int, y: int, w: int, h: int): Rect {
    Rect(x, y, x + w, y + h)
  }

  function Meet(a: Rect, b: Rect): Rect {
    Rect(Max(a.x0, b.x0), Max(a.y0, b.y0), Min(a.x1, b.x1), Min(a.y1, b.y1))
  }

  function Join(a: Rect, b: Rect): Rect {
    Rect(Min(a.x0, b.x0), Min(a.y0, b.y0), Max(a.x1, b.x1), Max(a.y1, b.y1))
  }

  predicate Within(a: Rect, b: Rect) {
    b.x0 <= a.x0 && a.x1 <= b.x1 && b.y0 <= a.y0 && a.y1 <= b.y1
  }

  /** The bounding box covers both rectangles and lies inside every rectangle that does. */
  lemma JoinLeast(a: Rect, b: Rect, c: Rect)
    ensures Within(a, Join(a, b)) && Within(b, Join(a, b))
    ensures Within(a, c) && Within(b, c) ==> Within(Join(a, b), c)
  {}

  // ---- what a list of drawing primitives paints ----

  datatype Prim = Fill(x: i64, y: i64, w: i64, h: i64, c: Color) | Dot(x: i64, y: i64, c: Color)

  predicate Covers(p: Prim, x: int, y: int) {
    match p
    case Fill(px, py, w, h, _) => In(Box(px, py, w, h), x, y)
    case Dot(px, py, _) => x == px && y == py
  }

  /** The colour a pixel has after the primitives: the last one that covers it, or what was there. */
  function Painted(prims: seq<Prim>, x: int, y: int, base: Color): Color {
    if prims == [] then base
    else
      var p := prims[|prims| - 1];
      if Covers(p, x, y) then p.c else Painted(prims[..|prims| - 1], x, y, base)
  }

  /** A pixel's colour is the colour of a covering primitive no later one covers, or the base if none covers it. */
  lemma {:induction false} PaintedIsLast(prims: seq<Prim>, x: int, y: int, base: Color)
    ensures (exists i :: 0 <= i < |prims| && Covers(prims[i], x, y) && Painted(prims, x, y, base) == prims[i].c
              && forall j :: i < j < |prims| ==> !Covers(prims[j], x, y))
         || (Painted(prims, x, y, base) == base && forall j :: 0 <= j < |prims| ==> !Covers(prims[j], x, y))
  {
    if prims != [] && !Covers(prims[|prims| - 1], x, y) {
      PaintedIsLast(prims[..|prims| - 1], x, y, base);
    }
  }

  /** A primitive covers the pixel, or what was there stays. */
  predicate CoveredBy(prims: seq<Prim>, x: int, y: int) {
    exists k :: 0 <= k < |prims| && Covers(prims[k], x, y)
  }

  lemma PaintedOver(prims: seq<Prim>, x: int, y: int, a: Color, b: Color)
    ensures if CoveredBy(prims, x, y) then Painted(prims, x, y, a) == Painted(prims, x, y, b) else Painted(prims, x, y, a) == a
  {
    if prims != [] {
      var n := |prims| - 1;
      PaintedOver(prims[..n], x, y, a, b);
      if !Covers(prims[n], x, y) && CoveredBy(prims, x, y) {
        var k :| 0 <= k < |prims| && Covers(prims[k], x, y);
        assert Covers(prims[..n][k], x, y);
      }
    }
  }

  // ---- the background ----

  /** Behind everything: a gradient over the whole screen, or a wallpaper, drawn only as far as it
      reaches; past its edges the gradient is not drawn either. */
  datatype Background = Gradient(rows: int -> Color) | Wallpaper(width: nat, height: nat, pixels: (int, int) -> Color)
  {
    predicate Paints(x: int, y: int) {
      Wallpaper? ==> 0 <= x < width && 0 <= y < height
    }

    /** The colour of a pixel after the background is drawn over colour `was`. */
    function At(x: int, y: int, was: Color): Color {
      if Gradient? then rows(y) else if Paints(x, y) then pixels(x, y) else was
    }
  }

  function Composed(back: Background, prims: seq<Prim>, x: int, y: int, was: Color): Color {
    Painted(prims, x, y, back.At(x, y, was))
  }

  /** Composing a pixel again forgets what was there exactly when the background reaches it or a
      primitive covers it. Elsewhere what was there stays. */
  lemma ForgetsIff(back: Background, prims: seq<Prim>, x: int, y: int)
    ensures (forall a: Color, b: Color :: Composed(back, prims, x, y, a) == Composed(back, prims, x, y, b)) <==>
      back.Paints(x, y) || CoveredBy(prims, x, y)
    ensures !back.Paints(x, y) && !CoveredBy(prims, x, y) ==> forall a: Color :: Composed(back, prims, x, y, a) == a
  {
    forall a: Color, b: Color | back.Paints(x, y) || CoveredBy(prims, x, y)
      ensures Composed(back, prims, x, y, a) == Composed(back, prims, x, y, b)
    {
      PaintedOver(prims, x, y, back.At(x, y, a), back.At(x, y, b));
    }
    if !back.Paints(x, y) && !CoveredBy(prims, x, y) {
      forall a: Color ensures Composed(back, prims, x, y, a) == a {
        PaintedOver(prims, x, y, a, a);
      }
      assert Composed(back, prims, x, y, 0) == 0 && Composed(back, prims, x, y, 1) == 1;
    }
  }

  /** The background reaches every pixel of a region, or primitives paint those it does not reach. */
  ghost predicate Repaints(back: Background, prims: seq<Prim>, r: Rect) {
    forall x, y :: In(r, x, y) ==> back.Paints(x, y) || CoveredBy(prims, x, y)
  }

  /** Composing a region does not depend on what was in the backbuffer exactly when it is repainted;
      without a wallpaper it always is. */
  lemma RegionForgetsIff(back: Background, prims: seq<Prim>, r: Rect)
    ensures Repaints(back, prims, r) <==>
      forall x, y, a: Color, b: Color :: In(r, x, y) ==> Composed(back, prims, x, y, a) == Composed(back, prims, x, y, b)
    ensures back.Gradient? ==> Repaints(back, prims, r)
  {
    hide Composed, CoveredBy, In;
    forall x, y ensures back.Paints(x, y) || CoveredBy(prims, x, y) <==>
      forall a: Color, b: Color :: Composed(back, prims, x, y, a) == Composed(back, prims, x, y, b)
    {
      ForgetsIff(back, prims, x, y);
    }
  }

  /** The whole rule for a pixel of the scene: the last primitive over it, else the background as far as it
      reaches, else what was there. A fill is over the pixels from its corner up to its size. */
  lemma SceneIs(back: Background, prims: seq<Prim>, x: int, y: int, was: Color)
    ensures forall p :: p in prims ==> (Covers(p, x, y) <==>
      if p.Fill? then p.x <= x < p.x + p.w && p.y <= y < p.y + p.h else p.x == x && p.y == y)
    ensures CoveredBy(prims, x, y) ==>
      exists i :: 0 <= i < |prims| && Covers(prims[i], x, y) && Composed(back, prims, x, y, was) == prims[i].c
                  && forall j :: i < j < |prims| ==> !Covers(prims[j], x, y)
    ensures !CoveredBy(prims, x, y) && back.Gradient? ==> Composed(back, prims, x, y, was) == back.rows(y)
    ensures !CoveredBy(prims, x, y) && back.Wallpaper? ==>
      Composed(back, prims, x, y, was) == if 0 <= x < back.width && 0 <= y < back.height then back.pixels(x, y) else was
  {
    PaintedIsLast(prims, x, y, back.At(x, y, was));
  }

  // ---- text ----

  /** A glyph's row of bits moved down by `col` places. */
  function Shifted(bits: nat, col: nat): nat {
    if col == 0 then bits else Shifted(bits, col - 1) / 2
  }

  /** The dot in column `col` of a glyph row is its bit of that weight. */
  predicate Dot8(bits: nat, col: nat) {
    Shifted(bits, col) % 2 == 1
  }

  lemma DotIs(bits: nat, col: nat)
    requires col < 8
    ensures Dot8(bits, col) <==>
      bits / (if col == 0 then 1 else if col == 1 then 2 else if col == 2 then 4 else if col == 3 then 8
              else if col == 4 then 16 else if col == 5 then 32 else if col == 6 then 64 else 128) % 2 == 1
  {
    assert Shifted(bits, 1) == bits / 2 && Shifted(bits, 2) == bits / 4 && Shifted(bits, 3) == bits / 8;
    assert Shifted(bits, 4) == bits / 16 && Shifted(bits, 5) == bits / 32 && Shifted(bits, 6) == bits / 64;
    assert Shifted(bits, 7) == bits / 128;
  }

  /** A line of 8 by 8 glyphs, each a list of rows. */
  type Text = t: seq<seq<nat>> | forall k :: 0 <= k < |t| ==> |t[k]| == FONT witness []

  /** Whether a line of text at `(x, y)` has a dot at a pixel. */
  predicate Dotted(text: Text, x: int, y: int, i: int, j: int) {
    In(Box(x, y, |text| * FONT, FONT), i, j) && Dot8(text[(i - x) / FONT][j - y], (i - x) % FONT)
  }

  /** A pixel after the clock is drawn: white dots on a box 40 high, 24 from the right and 4 from the bottom of
      the screen, 8 wider than the text at either end. */
  function ClockShows(text: Text, w: int, h: int, i: int, j: int, was: Color): Color {
    var tw := 8 * |text|;
    if Dotted(text, w - 16 - tw, h - 28, i, j) then 0xFF_FFFF
    else if In(Box(w - 24 - tw, h - 44, tw + 16, 40), i, j) then 0x1F_2A3C else was
  }

  // ---- when two pages are used ----

  /** What the display adapter reports: its mode, its memory in units of 64 KiB, and the two probes of
      the second page, by the offset register and through the new mapping. */
  datatype Vbe = Vbe(xres: u16, yres: u16, bpp: u16, enabled: bool, lfb: bool, mem64: u16, offsetKept: bool, readsBack: bool)

  /** When fb_enable_double_buffer arms flipping, for a framebuffer of that size and pitch. */
  predicate Arms(width: nat, height: nat, pitch: nat, vbe: Option<Vbe>) {
    vbe.Some? && var v := vbe.value;
    && v.bpp == 32 && v.enabled && v.lfb && width == v.xres && height == v.yres && pitch == v.xres * 4
    && 0 < pitch * height <= v.mem64 * 0x1_0000 / 2 && v.offsetKept && pitch * height % 4096 == 0 && v.readsBack
  }

  /** The second page then starts at a line the 16-bit offset register can hold. */
  lemma ArmedFits(width: nat, height: nat, pitch: nat, vbe: Option<Vbe>)
    ensures Arms(width, height, pitch, vbe) ==> height <= 0xFFFF && 2 * (pitch * height) <= vbe.value.mem64 * 0x1_0000
  {}

  /** The cursor's bitmap: 0 leaves the scene visible, 1 is outline, anything else fill. */
  type Bitmap = s: seq<seq<nat>> | |s| == CURSOR_H && forall i :: 0 <= i < CURSOR_H ==> |s[i]| == CURSOR_W
    witness seq(CURSOR_H, i => seq(CURSOR_W, j => 0))

  function CursorBox(cx: int, cy: int): Rect {
    Box(cx, cy, CURSOR_W, CURSOR_H)
  }

  function CursorPixel(bmp: Bitmap, cx: int, cy: int, x: int, y: int, base: Color): Color {
    if !In(CursorBox(cx, cy), x, y) || bmp[y - cy][x - cx] == 0 then base
    else if bmp[y - cy][x - cx] == 1 then 0 else 0xFF_FFFF
  }

  /** The bitmap's pixels at the pointer: clear ones show what is below, ones are black, all others white. */
  lemma CursorShows(bmp: Bitmap, cx: int, cy: int, row: nat, col: nat, base: Color)
    requires row < 20 && col < 12
    ensures CursorPixel(bmp, cx, cy, cx + col, cy + row, base) ==
      if bmp[row][col] == 0 then base else if bmp[row][col] == 1 then 0x00_0000 else 0xFF_FFFF
    ensures forall x, y :: !(cx <= x < cx + 12 && cy <= y < cy + 20) ==> CursorPixel(bmp, cx, cy, x, y, base) == base
  {}

  predicate Opaque(bmp: Bitmap, cx: int, cy: int, x: int, y: int) {
    In(CursorBox(cx, cy), x, y) && bmp[y - cy][x - cx] != 0
  }

  /** What can happen between two presents. */
  datatype Op =
    | Redraw(x: i64, y: i64, w: i64, h: i64, back: Background, prims: seq<Prim>)
    | Clock(text: Text)
    | Mouse(dx: int, dy: int)
  {
    predicate Ok() {
      Clock? ==> |text| <= 40
    }
  }

  /** A pixel of the backbuffer after a list of operations. */
  function PixelAfter(ops: seq<Op>, w: nat, h: nat, i: int, j: int, was: Color): Color {
    if ops == [] then was else
    var p := PixelAfter(ops[..|ops| - 1], w, h, i, j, was);
    match ops[|ops| - 1]
    case Redraw(x, y, rw, rh, back, prims) => if In(Box(x, y, rw, rh), i, j) then Composed(back, prims, i, j, p) else p
    case Clock(text) => ClockShows(text, w, h, i, j, p)
    case Mouse(_, _) => p
  }

  /** The pointer after a list of operations: every move stops at the edges of the screen. */
  function PointerAfter(ops: seq<Op>, w: nat, h: nat, cx: int, cy: int): (int, int) {
    if ops == [] then (cx, cy) else
    var (x, y) := PointerAfter(ops[..|ops| - 1], w, h, cx, cy);
    match ops[|ops| - 1]
    case Mouse(dx, dy) => (Min(Max(x + dx, 0), w as int - 12), Min(Max(y + dy, 0), h as int - 20))
    case _ => (x, y)
  }

  /** Two images agree outside two rectangles. */
  ghost predicate SameOutside(a: array2<Color>, b: array2<Color>, r: Rect, s: Rect)
    requires a.Length0 == b.Length0 && a.Length1 == b.Length1
    reads a, b
  {
    forall y, x :: 0 <= y < a.Length0 && 0 <= x < a.Length1 && !In(r, x, y) && !In(s, x, y) ==> a[y, x] == b[y, x]
  }

  class Screen {
    const w: nat
    const h: nat
    const flip: bool
    const bb: array2<Color>
    const page0: array2<Color>
    const page1: array2<Color>
    const bmp: Bitmap

    var clipActive: bool
    var clipX0: int
    var clipY0: int
    var clipX1: int
    var clipY1: int

    var damaged: bool
    var damageX: int
    var damageY: int
    var damageW: int
    var damageH: int
    var prevDamaged: bool
    var prevX: int
    var prevY: int
    var prevW: int
    var prevH: int

    var activePage: nat
    var front: nat
    var shown: nat

    var cursorX: int
    var cursorY: int
    var stampX: int
    var stampY: int

    // ---- what the fields mean ----

    ghost predicate Shaped()
    {
      && 0 < w <= MAX_SIDE && 0 < h <= MAX_SIDE
      && bb.Length0 == page0.Length0 == page1.Length0 == h
      && bb.Length1 == page0.Length1 == page1.Length1 == w
      && bb != page0 && bb != page1 && page0 != page1
      && (flip ==> h <= 0xFFFF)
    }

    ghost function All(): Rect {
      Rect(0, 0, w, h)
    }

    ghost function Damage(): Rect
      reads `damaged, `damageX, `damageY, `damageW, `damageH
    {
      if damaged then Box(damageX, damageY, damageW, damageH) else NOWHERE
    }

    ghost function Prev(): Rect
      reads `prevDamaged, `prevX, `prevY, `prevW, `prevH
    {
      if prevDamaged then Box(prevX, prevY, prevW, prevH) else NOWHERE
    }

    ghost function Page(n: int): array2<Color> {
      if n == 0 then page0 else page1
    }

    /** The part of a rectangle that drawing may touch now. */
    ghost function Visible(r: Rect): Rect
      reads `clipActive, `clipX0, `clipY0, `clipX1, `clipY1
    {
      var s := Meet(r, All());
      if clipActive then Meet(s, Rect(clipX0, clipY0, clipX1, clipY1)) else s
    }

    /** A pixel may be touched exactly when it is in the rectangle, on the screen and in the clip, if there is one. */
    lemma VisibleIs(x: int, y: int, rw: int, rh: int, i: int, j: int)
      ensures In(Visible(Box(x, y, rw, rh)), i, j) <==>
        && x <= i < x + rw && y <= j < y + rh && 0 <= i < w && 0 <= j < h
        && (clipActive ==> clipX0 <= i < clipX1 && clipY0 <= j < clipY1)
    {}

    /** The cursor's pixels are in the backbuffer wherever nothing was redrawn since. */
    ghost predicate Stamped()
      requires Shaped()
      reads `stampX, `stampY, `damaged, `damageX, `damageY, `damageW, `damageH, bb
    {
      forall y, x :: 0 <= y < h && 0 <= x < w && Opaque(bmp, stampX, stampY, x, y) && !In(Damage(), x, y) ==>
        bb[y, x] == CursorPixel(bmp, stampX, stampY, x, y, 0)
    }

    /** The page shown last agrees with the backbuffer but for this frame's damage; the other one
        but for this frame's and the last frame's. */
    ghost predicate Agrees()
      requires Shaped()
      reads `front, `damaged, `damageX, `damageY, `damageW, `damageH, `prevDamaged, `prevX, `prevY, `prevW, `prevH, bb, page0, page1
    {
      if flip then SameOutside(Page(front), bb, Damage(), NOWHERE) && SameOutside(Page(1 - front), bb, Damage(), Prev())
      else SameOutside(page0, bb, Damage(), NOWHERE)
    }

    ghost predicate Frames()
      reads `clipActive, `front, `shown, `activePage, `damaged, `damageX, `damageY, `damageW, `damageH, `prevDamaged, `prevX, `prevY, `prevW, `prevH
    {
      && !clipActive && front <= 1
      && (damaged ==> !Empty(Damage()) && Within(Damage(), All()))
      && (prevDamaged ==> !Empty(Prev()) && Within(Prev(), All()))
      && shown == front && (!flip ==> front == activePage == 0)
    }

    ghost predicate CursorNear()
      reads `cursorX, `cursorY, `stampX, `stampY
    {
      && -MAX_SIDE <= cursorX <= MAX_SIDE && -MAX_SIDE <= cursorY <= MAX_SIDE
      && -MAX_SIDE <= stampX <= MAX_SIDE && -MAX_SIDE <= stampY <= MAX_SIDE
    }

    ghost predicate Rects()
      reads this
    {
      Frames() && CursorNear()
    }

    ghost predicate Valid()
      reads this, bb, page0, page1
    {
      Shaped() && Rects() && Agrees() && Stamped()
    }

    constructor (width: nat, height: nat, pitch: nat, vbe: Option<Vbe>, cursor: Bitmap)
      requires 0 < width <= MAX_SIDE && 0 < height <= MAX_SIDE
      ensures Shaped() && Frames() && !damaged && !prevDamaged && activePage == front == 0
      ensures fresh(bb) && fresh(page0) && fresh(page1)
      ensures w == width && h == height && flip == Arms(width, height, pitch, vbe) && bmp == cursor
    {
      ArmedFits(width, height, pitch, vbe);
      w, h, flip, bmp := width, height, Arms(width, height, pitch, vbe), cursor;
      bb, page0, page1 := new Color[height, width], new Color[height, width], new Color[height, width];
      clipActive, clipX0, clipY0, clipX1, clipY1 := false, 0, 0, 0, 0;
      damaged, damageX, damageY, damageW, damageH := false, 0, 0, 0, 0;
      prevDamaged, prevX, prevY, prevW, prevH := false, 0, 0, 0, 0;
      activePage, front, shown := 0, 0, 0;
      cursorX, cursorY, stampX, stampY := 0, 0, 0, 0;
    }

    /** The desktop as it starts: the whole scene composed, the cursor in the middle, every page a copy. */
    method Open(back: Background, prims: seq<Prim>)
      requires Shaped() && Frames() && !damaged && !prevDamaged && activePage == front == 0
      modifies `cursorX, `cursorY, `stampX, `stampY, `clipActive, `clipX0, `clipY0, `clipX1, `clipY1, `activePage, bb, page0, page1
      ensures Valid() && CursorWhole() && SameOutside(Page(front), bb, NOWHERE, NOWHERE)
      ensures cursorX == w / 2 - 6 && cursorY == h / 2 - 10
      ensures forall j, i :: 0 <= j < h && 0 <= i < w ==>
        bb[j, i] == CursorPixel(bmp, cursorX, cursorY, i, j, Composed(back, prims, i, j, old(bb[j, i])))
    {
      hide Painted, Inked, SameOutside, Visible, CursorPixel, Opaque, In, Agrees, Stamped, Rects, Frames, Composed;
      assert !clipActive by { ClipOff(); }
      cursorX := w / 2 - CURSOR_W / 2;
      cursorY := h / 2 - CURSOR_H / 2;
      stampX := cursorX;
      stampY := cursorY;
      SceneRegion(0, 0, w, h, back, prims);
      WholeIsVisible();
      CursorDraw();
      BlitAll();
      WholeIsStamped();
      CopiesAgree();
      FramesStill();
      InPlace();
    }

    lemma WholeIsVisible()
      requires !clipActive
      ensures forall j, i :: 0 <= j < h && 0 <= i < w ==> In(Visible(Box(0, 0, w, h)), i, j)
    {}

    lemma InPlace()
      requires Frames() && CursorNear()
      ensures Rects()
    {}

    lemma CopiesAgree()
      requires Shaped() && !damaged && !prevDamaged && front == 0
      requires SameOutside(page0, bb, NOWHERE, NOWHERE) && (flip ==> SameOutside(page1, bb, NOWHERE, NOWHERE))
      ensures Agrees()
    {}

    /** Makes every page in use a copy of the backbuffer. */
    method BlitAll()
      requires Shaped() && !clipActive && activePage == 0
      modifies `activePage, page0, page1
      ensures activePage == 0 && SameOutside(page0, bb, NOWHERE, NOWHERE) && (flip ==> SameOutside(page1, bb, NOWHERE, NOWHERE))
    {
      BlitRect(0, 0, w, h);
      if flip {
        activePage := 1;
        BlitRect(0, 0, w, h);
        activePage := 0;
      }
    }

    // ---- clipped drawing ----

    /** Clips a rectangle to the screen and the active clip; no step leaves the 64-bit range. */
    method BbClip(x: i64, y: i64, rw: i64, rh: i64) returns (ok: bool, r: Rect)
      requires Shaped()
      ensures ok <==> !Empty(Visible(Box(x, y, rw, rh)))
      ensures ok ==> r == Visible(Box(x, y, rw, rh))
    {
      r := NOWHERE;
      if rw <= 0 || rh <= 0 { return false, r; }
      var left: i64 := if x < 0 then 0 else x;
      if left >= w { return false, r; }
      var right := Far(x, rw, w);
      if right <= left { return false, r; }
      var top: i64 := if y < 0 then 0 else y;
      if top >= h { return false, r; }
      var bottom := Far(y, rh, h);
      if bottom <= top { return false, r; }
      r := Rect(left, top, right, bottom);
      if clipActive {
        if r.x0 < clipX0 { r := r.(x0 := clipX0); }
        if r.y0 < clipY0 { r := r.(y0 := clipY0); }
        if r.x1 > clipX1 { r := r.(x1 := clipX1); }
        if r.y1 > clipY1 { r := r.(y1 := clipY1); }
        if r.x1 <= r.x0 || r.y1 <= r.y0 { return false, r; }
      }
      ok := true;
    }

    /** The far edge of an extent, saturated to the screen instead of summed. */
    method Far(x: i64, n: i64, limit: nat) returns (far: i64)
      requires n > 0 && limit <= MAX_SIDE
      ensures far == Min(x + n, limit)
    {
      if x >= 0 {
        if n >= limit as int - x { far := limit; } else { far := x + n; }
      } else {
        far := x + n;
        if far > limit { far := limit; }
      }
    }

    method PutPixel(x: i64, y: i64, c: Color)
      requires Shaped()
      modifies bb
      ensures forall j, i :: 0 <= j < h && 0 <= i < w ==>
        bb[j, i] == if i == x && j == y && In(Visible(All()), i, j) then c else old(bb[j, i])
    {
      if x < 0 || y < 0 || x >= w || y >= h { return; }
      if clipActive && (x < clipX0 || x >= clipX1 || y < clipY0 || y >= clipY1) { return; }
      bb[y, x] := c;
    }

    method FillRect(x: i64, y: i64, rw: i64, rh: i64, c: Color)
      requires Shaped()
      modifies bb
      ensures forall j, i :: 0 <= j < h && 0 <= i < w ==>
        bb[j, i] == if In(Visible(Box(x, y, rw, rh)), i, j) then c else old(bb[j, i])
    {
      var ok, r := BbClip(x, y, rw, rh);
      if !ok { return; }
      FillIn(r, c);
    }

    method FillIn(r: Rect, c: Color)
      requires Shaped() && Within(r, All()) && !Empty(r)
      modifies bb
      ensures forall j, i :: 0 <= j < h && 0 <= i < w ==> bb[j, i] == if In(r, i, j) then c else old(bb[j, i])
    {
      var yy := r.y0;
      while yy < r.y1
        invariant r.y0 <= yy <= r.y1
        invariant forall j, i :: 0 <= j < h && 0 <= i < w ==> bb[j, i] == if In(r, i, j) && j < yy then c else old(bb[j, i])
      {
        var xx := r.x0;
        while xx < r.x1
          invariant r.x0 <= xx <= r.x1
          invariant forall j, i :: 0 <= j < h && 0 <= i < w ==>
            bb[j, i] == if In(r, i, j) && (j < yy || (j == yy && i < xx)) then c else old(bb[j, i])
        {
          bb[yy, xx] := c;
          xx := xx + 1;
        }
        yy := yy + 1;
      }
    }

    /** Draws a list of primitives in order. */
    method Draw(prims: seq<Prim>)
      requires Shaped()
      modifies bb
      ensures forall j, i :: 0 <= j < h && 0 <= i < w ==>
        bb[j, i] == if In(Visible(All()), i, j) then Painted(prims, i, j, old(bb[j, i])) else old(bb[j, i])
    {
      var n := 0;
      while n < |prims|
        invariant 0 <= n <= |prims|
        invariant forall j, i :: 0 <= j < h && 0 <= i < w ==>
          bb[j, i] == if In(Visible(All()), i, j) then Painted(prims[..n], i, j, old(bb[j, i])) else old(bb[j, i])
      {
        assert prims[..n + 1][..n] == prims[..n];
        match prims[n] {
          case Fill(x, y, rw, rh, c) => FillRect(x, y, rw, rh, c);
          case Dot(x, y, c) => PutPixel(x, y, c);
        }
        n := n + 1;
      }
      assert prims[..n] == prims;
    }

    /** Composes the scene inside a rectangle: a background, then primitives, all clipped to it. */
    method SceneRegion(x: i64, y: i64, rw: i64, rh: i64, back: Background, prims: seq<Prim>)
      requires Shaped()
      modifies `clipActive, `clipX0, `clipY0, `clipX1, `clipY1, bb
      ensures clipActive == old(clipActive) && clipX0 == old(clipX0) && clipY0 == old(clipY0) && clipX1 == old(clipX1) && clipY1 == old(clipY1)
      ensures forall j, i :: 0 <= j < h && 0 <= i < w ==>
        bb[j, i] == if In(Visible(Box(x, y, rw, rh)), i, j) then Composed(back, prims, i, j, old(bb[j, i])) else old(bb[j, i])
    {
      hide Painted;
      var ok, r := BbClip(x, y, rw, rh);
      if !ok { return; }
      var was, sx0, sy0, sx1, sy1 := clipActive, clipX0, clipY0, clipX1, clipY1;
      clipActive := true;
      clipX0, clipY0, clipX1, clipY1 := r.x0, r.y0, r.x1, r.y1;
      Backdrop(r, back);
      Draw(prims);
      clipActive, clipX0, clipY0, clipX1, clipY1 := was, sx0, sy0, sx1, sy1;
    }

    /** The background inside a rectangle: a colour for each line, or the wallpaper as far as it reaches. */
    method Backdrop(r: Rect, back: Background)
      requires Shaped() && Within(r, All()) && !Empty(r)
      modifies bb
      ensures forall j, i :: 0 <= j < h && 0 <= i < w ==> bb[j, i] == if In(r, i, j) then back.At(i, j, old(bb[j, i])) else old(bb[j, i])
    {
      match back {
        case Gradient(rows) => PaintIn(r, (x, y) => rows(y));
        case Wallpaper(width, height, pixels) =>
          var s := r;
          if s.x1 > width { s := s.(x1 := width); }
          if s.y1 > height { s := s.(y1 := height); }
          if s.x1 <= s.x0 || s.y1 <= s.y0 { return; }
          PaintIn(s, pixels);
      }
    }

    method PaintIn(r: Rect, pixels: (int, int) -> Color)
      requires Shaped() && Within(r, All()) && !Empty(r)
      modifies bb
      ensures forall j, i :: 0 <= j < h && 0 <= i < w ==> bb[j, i] == if In(r, i, j) then pixels(i, j) else old(bb[j, i])
    {
      var yy := r.y0;
      while yy < r.y1
        invariant r.y0 <= yy <= r.y1
        invariant forall j, i :: 0 <= j < h && 0 <= i < w ==> bb[j, i] == if In(r, i, j) && j < yy then pixels(i, j) else old(bb[j, i])
      {
        var xx := r.x0;
        while xx < r.x1
          invariant r.x0 <= xx <= r.x1
          invariant forall j, i :: 0 <= j < h && 0 <= i < w ==>
            bb[j, i] == if In(r, i, j) && (j < yy || (j == yy && i < xx)) then pixels(i, j) else old(bb[j, i])
        {
          bb[yy, xx] := pixels(xx, yy);
          xx := xx + 1;
        }
        yy := yy + 1;
      }
    }

    // ---- damage ----

    method DamageAdd(x: i64, y: i64, rw: i64, rh: i64)
      requires Shaped() && Frames()
      modifies `damaged, `damageX, `damageY, `damageW, `damageH
      ensures Frames()
      ensures var r := Visible(Box(x, y, rw, rh));
        if Empty(r) then damaged == old(damaged) && Damage() == old(Damage())
        else damaged && Damage() == if old(damaged) then Join(old(Damage()), r) else r
    {
      hide Frames, Join, Within;
      var ok, r := BbClip(x, y, rw, rh);
      if !ok { return; }
      VisibleOnScreen(Box(x, y, rw, rh));
      Grow(r);
    }

    lemma VisibleOnScreen(r: Rect)
      ensures Within(Visible(r), All())
    {}

    method Grow(r: Rect)
      requires Shaped() && Frames() && !Empty(r) && Within(r, All())
      modifies `damaged, `damageX, `damageY, `damageW, `damageH
      ensures Frames() && damaged && Damage() == if old(damaged) then Join(old(Damage()), r) else r
    {
      if !damaged {
        SetDamage(r);
      } else {
        var nx0 := if damageX < r.x0 then damageX else r.x0;
        var ny0 := if damageY < r.y0 then damageY else r.y0;
        var nx1 := if damageX + damageW > r.x1 then damageX + damageW else r.x1;
        var ny1 := if damageY + damageH > r.y1 then damageY + damageH else r.y1;
        SetDamage(Rect(nx0, ny0, nx1, ny1));
      }
    }

    method SetDamage(r: Rect)
      requires Frames() && !Empty(r) && Within(r, All())
      modifies `damaged, `damageX, `damageY, `damageW, `damageH
      ensures Frames() && damaged && Damage() == r
    {
      damageX, damageY, damageW, damageH := r.x0, r.y0, r.x1 - r.x0, r.y1 - r.y0;
      damaged := true;
    }

    /** Whether a rectangle meets the damage: exactly when some pixel lies in both. */
    method DamageTouches(x: int, y: int, rw: nat, rh: nat) returns (t: bool)
      requires Shaped() && rw > 0 && rh > 0 && (damaged ==> !Empty(Damage()))
      ensures t <==> exists i, j :: In(Damage(), i, j) && In(Box(x, y, rw, rh), i, j)
    {
      if !damaged { return false; }
      t := x < damageX + damageW && x + rw > damageX && y < damageY + damageH && y + rh > damageY;
      if t {
        var i, j := Max(x, damageX), Max(y, damageY);
        assert In(Damage(), i, j) && In(Box(x, y, rw, rh), i, j);
      }
    }

    /** Drawing that the damage has grown to cover keeps the pages in step. */
    twostate lemma AgreesStill(r: Rect)
      requires Shaped() && old(Agrees()) && front == old(front) && Prev() == old(Prev()) && unchanged(page0) && unchanged(page1)
      requires forall j, i :: 0 <= j < h && 0 <= i < w && !In(r, i, j) ==> bb[j, i] == old(bb[j, i])
      requires Empty(r) || Within(r, Damage())
      requires old(damaged) ==> damaged && Within(old(Damage()), Damage())
      ensures Agrees()
    {}

    twostate lemma AgreesAround(b: Rect)
      requires Shaped() && old(Agrees()) && front == old(front) && Prev() == old(Prev()) && unchanged(page0) && unchanged(page1)
      requires forall j, i :: 0 <= j < h && 0 <= i < w && !In(b, i, j) ==> bb[j, i] == old(bb[j, i])
      requires !clipActive && (Empty(Visible(b)) || Within(Visible(b), Damage()))
      requires old(damaged) ==> damaged && Within(old(Damage()), Damage())
      ensures Agrees()
    {
      AgreesStill(Visible(b));
    }

    twostate lemma StampedStill(r: Rect)
      requires Shaped() && old(Stamped()) && stampX == old(stampX) && stampY == old(stampY)
      requires forall j, i :: 0 <= j < h && 0 <= i < w && !In(r, i, j) ==> bb[j, i] == old(bb[j, i])
      requires Empty(r) || Within(r, Damage())
      requires old(damaged) ==> damaged && Within(old(Damage()), Damage())
      ensures Stamped()
    {
      hide CursorPixel, Opaque;
    }

    twostate lemma StampedAround(b: Rect)
      requires Shaped() && old(Stamped()) && stampX == old(stampX) && stampY == old(stampY)
      requires forall j, i :: 0 <= j < h && 0 <= i < w && !In(b, i, j) ==> bb[j, i] == old(bb[j, i])
      requires !clipActive && (Empty(Visible(b)) || Within(Visible(b), Damage()))
      requires old(damaged) ==> damaged && Within(old(Damage()), Damage())
      ensures Stamped()
    {
      hide CursorPixel, Opaque;
      StampedStill(Visible(b));
    }

    /** Composes a rectangle and records it: the backbuffer changes only inside the damage. */
    method RedrawRect(x: i64, y: i64, rw: i64, rh: i64, back: Background, prims: seq<Prim>)
      requires Valid()
      modifies `clipActive, `clipX0, `clipY0, `clipX1, `clipY1, `damaged, `damageX, `damageY, `damageW, `damageH, bb
      ensures Valid()
      ensures forall j, i :: 0 <= j < h && 0 <= i < w ==>
        bb[j, i] == if In(Box(x, y, rw, rh), i, j) then Composed(back, prims, i, j, old(bb[j, i])) else old(bb[j, i])
      ensures old(damaged) ==> damaged && Within(old(Damage()), Damage())
    {
      hide Painted, Composed, Stamped, Agrees;
      ghost var r := Visible(Box(x, y, rw, rh));
      SceneRegion(x, y, rw, rh, back, prims);
      DamageAdd(x, y, rw, rh);
      AgreesStill(r);
      StampedStill(r);
    }

    /** The smallest rectangle around two others, or nothing when it is empty. */
    method RedrawUnion(xa: coord, ya: coord, wa: coord, ha: coord, xb: coord, yb: coord, wb: coord, hb: coord,
                       back: Background, prims: seq<Prim>)
      requires Valid()
      modifies `clipActive, `clipX0, `clipY0, `clipX1, `clipY1, `damaged, `damageX, `damageY, `damageW, `damageH, bb
      ensures Valid()
      ensures forall j, i :: 0 <= j < h && 0 <= i < w ==>
        bb[j, i] == if In(Join(Box(xa, ya, wa, ha), Box(xb, yb, wb, hb)), i, j) then Composed(back, prims, i, j, old(bb[j, i])) else old(bb[j, i])
    {
      hide Painted, Valid;
      var ux, uy := Min(xa, xb), Min(ya, yb);
      var ux1, uy1 := Max(xa + wa, xb + wb), Max(ya + ha, yb + hb);
      if ux1 <= ux || uy1 <= uy { return; }
      RedrawRect(ux, uy, ux1 - ux, uy1 - uy, back, prims);
    }

    /** One row of a glyph, a white dot for each set bit. */
    method DrawRow(x: i64, y: i64, bits: nat)
      requires Shaped() && InWord(x + FONT)
      modifies bb
      ensures forall j, i :: 0 <= j < h && 0 <= i < w ==>
        bb[j, i] == if j == y && x <= i < x + FONT && Dot8(bits, i - x) && In(Visible(All()), i, j) then 0xFF_FFFF else old(bb[j, i])
    {
      var b := bits;
      for col := 0 to FONT
        invariant b == Shifted(bits, col)
        invariant forall j, i :: 0 <= j < h && 0 <= i < w ==>
          bb[j, i] == if j == y && x <= i < x + col && Dot8(bits, i - x) && In(Visible(All()), i, j) then 0xFF_FFFF else old(bb[j, i])
      {
        if b % 2 == 1 { PutPixel(x + col, y, 0xFF_FFFF); }
        b := b / 2;
      }
    }

    method DrawGlyph(x: i64, y: i64, glyph: seq<nat>)
      requires Shaped() && InWord(x + FONT) && InWord(y + FONT) && |glyph| == FONT
      modifies bb
      ensures forall j, i :: 0 <= j < h && 0 <= i < w ==>
        bb[j, i] == if In(Box(x, y, FONT, FONT), i, j) && Dot8(glyph[j - y], i - x) && In(Visible(All()), i, j) then 0xFF_FFFF else old(bb[j, i])
    {
      hide Dot8, Visible;
      for row := 0 to FONT
        invariant forall j, i :: 0 <= j < h && 0 <= i < w ==>
          bb[j, i] == if In(Box(x, y, FONT, row), i, j) && Dot8(glyph[j - y], i - x) && In(Visible(All()), i, j) then 0xFF_FFFF else old(bb[j, i])
      {
        DrawRow(x, y + row, glyph[row]);
      }
    }

    /** A line of text: exactly its dots become white. */
    method DrawString(x: i64, y: i64, text: Text)
      requires Shaped() && InWord(x + |text| * FONT) && InWord(y + FONT)
      modifies bb
      ensures forall j, i :: 0 <= j < h && 0 <= i < w ==>
        bb[j, i] == if Dotted(text, x, y, i, j) && In(Visible(All()), i, j) then 0xFF_FFFF else old(bb[j, i])
    {
      hide Dot8, Visible;
      for k := 0 to |text|
        invariant forall j, i :: 0 <= j < h && 0 <= i < w ==>
          bb[j, i] == if Dotted(text[..k], x, y, i, j) && In(Visible(All()), i, j) then 0xFF_FFFF else old(bb[j, i])
      {
        DrawGlyph(x + k * FONT, y, text[k]);
      }
      assert text[..|text|] == text;
    }

    /** Repaints the clock without going through the scene: cleared box, text inside it, box recorded. */
    method RenderClock(text: Text)
      requires Valid() && |text| <= 40
      modifies `damaged, `damageX, `damageY, `damageW, `damageH, bb
      ensures Valid()
      ensures forall j, i :: 0 <= j < h && 0 <= i < w ==> bb[j, i] == ClockShows(text, w, h, i, j, old(bb[j, i]))
      ensures old(damaged) ==> damaged && Within(old(Damage()), Damage())
    {
      hide Stamped, Agrees, In, Visible, Meet;
      var tw := |text| * FONT;
      var x: int := w as int - CLOCK_MARGIN - tw;
      var y: int := h as int - TASKBAR_H + (TASKBAR_H - FONT) / 2;
      ClockBox(x, y, tw, text);
      DamageAdd(x - 8, h as int - TASKBAR_H + 4, tw + 16, TASKBAR_H - 8);
      AgreesAround(Box(x - 8, h as int - TASKBAR_H + 4, tw + 16, TASKBAR_H - 8));
      StampedAround(Box(x - 8, h as int - TASKBAR_H + 4, tw + 16, TASKBAR_H - 8));
    }

    method ClockBox(x: i64, y: i64, tw: nat, text: Text)
      requires Shaped() && !clipActive && |text| <= 40 && tw == |text| * FONT
      requires x == w as int - CLOCK_MARGIN - tw && y == h as int - TASKBAR_H + (TASKBAR_H - FONT) / 2
      modifies bb
      ensures forall j, i :: 0 <= j < h && 0 <= i < w ==> bb[j, i] == ClockShows(text, w, h, i, j, old(bb[j, i]))
      ensures forall j, i :: 0 <= j < h && 0 <= i < w && !In(Box(x - 8, h as int - TASKBAR_H + 4, tw + 16, TASKBAR_H - 8), i, j) ==>
        bb[j, i] == old(bb[j, i])
    {
      hide Dot8;
      FillRect(x - 8, h as int - TASKBAR_H + 4, tw + 16, TASKBAR_H - 8, 0x1F_2A3C);
      DrawString(x, y, text);
    }

    // ---- presenting ----

    /** Copies a rectangle of the backbuffer to the active page. */
    method BlitRect(x: i64, y: i64, rw: i64, rh: i64)
      requires Shaped() && activePage <= 1
      modifies Page(activePage)
      ensures forall j, i :: 0 <= j < h && 0 <= i < w ==>
        Page(activePage)[j, i] == if In(Visible(Box(x, y, rw, rh)), i, j) then bb[j, i] else old(Page(activePage)[j, i])
    {
      var ok, r := BbClip(x, y, rw, rh);
      if !ok { return; }
      var page := if activePage == 0 then page0 else page1;
      CopyIn(page, r);
    }

    method CopyIn(page: array2<Color>, r: Rect)
      requires Shaped() && Within(r, All()) && !Empty(r) && (page == page0 || page == page1)
      modifies page
      ensures forall j, i :: 0 <= j < h && 0 <= i < w ==> page[j, i] == if In(r, i, j) then bb[j, i] else old(page[j, i])
    {
      var yy := r.y0;
      while yy < r.y1
        invariant r.y0 <= yy <= r.y1
        invariant forall j, i :: 0 <= j < h && 0 <= i < w ==> page[j, i] == if In(r, i, j) && j < yy then bb[j, i] else old(page[j, i])
      {
        var xx := r.x0;
        while xx < r.x1
          invariant r.x0 <= xx <= r.x1
          invariant forall j, i :: 0 <= j < h && 0 <= i < w ==>
            page[j, i] == if In(r, i, j) && (j < yy || (j == yy && i < xx)) then bb[j, i] else old(page[j, i])
        {
          page[yy, xx] := bb[yy, xx];
          xx := xx + 1;
        }
        yy := yy + 1;
      }
    }

    /** Every opaque pixel of the cursor, where it is now, is in the backbuffer. */
    ghost predicate Inked()
      requires Shaped()
      reads `cursorX, `cursorY, bb
    {
      forall j, i :: 0 <= j < h && 0 <= i < w && Opaque(bmp, cursorX, cursorY, i, j) ==> bb[j, i] == CursorPixel(bmp, cursorX, cursorY, i, j, 0)
    }

    /** Stamps the cursor over the scene, whatever clip is set. */
    method CursorDraw()
      requires Shaped() && -MAX_SIDE <= cursorX <= MAX_SIDE && -MAX_SIDE <= cursorY <= MAX_SIDE
      modifies `clipActive, bb
      ensures clipActive == old(clipActive)
      ensures forall j, i :: 0 <= j < h && 0 <= i < w ==>
        bb[j, i] == CursorPixel(bmp, cursorX, cursorY, i, j, old(bb[j, i]))
      ensures Inked()
      ensures forall j, i :: 0 <= j < h && 0 <= i < w && !In(CursorBox(cursorX, cursorY), i, j) ==> bb[j, i] == old(bb[j, i])
    {
      var was := clipActive;
      clipActive := false;
      var row := 0;
      while row < CURSOR_H
        invariant 0 <= row <= CURSOR_H && !clipActive
        invariant forall j, i :: 0 <= j < h && 0 <= i < w ==>
          bb[j, i] == if j < cursorY + row then CursorPixel(bmp, cursorX, cursorY, i, j, old(bb[j, i])) else old(bb[j, i])
      {
        var col := 0;
        while col < CURSOR_W
          invariant 0 <= col <= CURSOR_W && !clipActive
          invariant forall j, i :: 0 <= j < h && 0 <= i < w ==>
            bb[j, i] == if j < cursorY + row || (j == cursorY + row && i < cursorX + col)
              then CursorPixel(bmp, cursorX, cursorY, i, j, old(bb[j, i])) else old(bb[j, i])
        {
          var v := bmp[row][col];
          if v != 0 {
            PutPixel(cursorX + col, cursorY + row, if v == 1 then 0 else 0xFF_FFFF);
          }
          col := col + 1;
        }
        row := row + 1;
      }
      clipActive := was;
    }

    /** The whole cursor is in the backbuffer, and it is the current one. */
    ghost predicate CursorWhole()
      requires Shaped()
      reads `stampX, `stampY, `cursorX, `cursorY, bb
    {
      stampX == cursorX && stampY == cursorY && Inked()
    }

    ghost predicate Untouched()
      reads `cursorX, `cursorY, `damaged, `damageX, `damageY, `damageW, `damageH
    {
      forall j, i :: In(Damage(), i, j) ==> !In(CursorBox(cursorX, cursorY), i, j)
    }

    lemma ClipOff()
      requires Frames()
      ensures !clipActive
    {}

    twostate lemma FramesStill()
      requires old(Frames()) && clipActive == old(clipActive) && front == old(front) && shown == old(shown) && activePage == old(activePage)
      requires damaged == old(damaged) && Damage() == old(Damage()) && prevDamaged == old(prevDamaged) && Prev() == old(Prev())
      ensures Frames()
    {}

    /** The cursor drawn and recorded as damage. */
    method StampCursor()
      requires Shaped() && Rects() && Agrees()
      modifies `clipActive, `damaged, `damageX, `damageY, `damageW, `damageH, `stampX, `stampY, bb
      ensures Shaped() && Rects() && Agrees() && CursorWhole()
      ensures forall j, i :: 0 <= j < h && 0 <= i < w ==> bb[j, i] == CursorPixel(bmp, cursorX, cursorY, i, j, old(bb[j, i]))
    {
      hide Agrees, CursorPixel, Opaque, Inked, In, Visible, Meet, Frames;
      assert !clipActive by { ClipOff(); }
      CursorDraw();
      FramesStill();
      DamageAdd(cursorX, cursorY, CURSOR_W, CURSOR_H);
      AgreesAround(CursorBox(cursorX, cursorY));
      stampX, stampY := cursorX, cursorY;
    }

    lemma WholeIsStamped()
      requires Shaped() && CursorWhole()
      ensures Stamped()
    {
      hide CursorPixel, Opaque;
    }

    lemma UntouchedIsWhole()
      requires Shaped() && Stamped() && stampX == cursorX && stampY == cursorY && Untouched()
      ensures CursorWhole()
    {
      hide CursorPixel;
    }

    /** A whole cursor is not changed by stamping it once more. */
    lemma StampAgain()
      requires Shaped() && CursorWhole()
      ensures forall j, i :: 0 <= j < h && 0 <= i < w ==> bb[j, i] == CursorPixel(bmp, cursorX, cursorY, i, j, bb[j, i])
    {}

    /** The first half of a present: a cursor that moved is erased by composing the scene there, the new
        one stamped, both recorded as damage. */
    method MoveCursor(back: Background, prims: seq<Prim>)
      requires Valid()
      modifies `clipActive, `clipX0, `clipY0, `clipX1, `clipY1, `damaged, `damageX, `damageY, `damageW, `damageH, `stampX, `stampY, bb
      ensures Valid() && CursorWhole()
      ensures forall j, i :: 0 <= j < h && 0 <= i < w ==> bb[j, i] == CursorPixel(bmp, cursorX, cursorY, i, j,
        if (old(stampX) != cursorX || old(stampY) != cursorY) && In(CursorBox(old(stampX), old(stampY)), i, j)
        then Composed(back, prims, i, j, old(bb[j, i])) else old(bb[j, i]))
    {
      hide Painted, Stamped, Agrees, CursorWhole, CursorPixel, Composed;
      var moved := stampX != cursorX || stampY != cursorY;
      if moved {
        RedrawRect(stampX, stampY, CURSOR_W, CURSOR_H, back, prims);
        StampCursor();
      } else {
        var touched := DamageTouches(cursorX, cursorY, CURSOR_W, CURSOR_H);
        if touched {
          StampCursor();
        } else {
          UntouchedIsWhole();
          StampAgain();
        }
      }
      WholeIsStamped();
    }

    method PresentSingle()
      requires Shaped() && Rects() && Agrees() && !flip
      modifies `damaged, page0
      ensures Shaped() && Rects() && !damaged && SameOutside(page0, bb, NOWHERE, NOWHERE)
    {
      if !damaged { return; }
      BlitRect(damageX, damageY, damageW, damageH);
      damaged := false;
    }

    method FlipPages()
      requires Shaped() && activePage <= 1
      modifies `shown
      ensures shown == if flip then activePage else old(shown)
    {
      if !flip { return; }
      var off := activePage * h;
      // The guard for an offset past the 16-bit register never fires.
      if off > 0xFFFF { assert false; }
      shown := activePage;
    }

    /** Brings the back page up to date with two frames of damage. */
    method CatchUp()
      requires Shaped() && Rects() && Agrees() && flip && activePage == 1 - front
      modifies Page(1 - front)
      ensures SameOutside(Page(1 - front), bb, NOWHERE, NOWHERE)
    {
      if prevDamaged { BlitRect(prevX, prevY, prevW, prevH); }
      if damaged { BlitRect(damageX, damageY, damageW, damageH); }
    }

    /** Updates the back page, remembers this frame's damage for the next, and flips. */
    method PresentFlip()
      requires Shaped() && Rects() && Agrees() && flip
      modifies `damaged, `prevDamaged, `prevX, `prevY, `prevW, `prevH, `activePage, `front, `shown, Page(1 - front)
      ensures Shaped() && Rects() && !damaged && front == 1 - old(front)
      ensures SameOutside(Page(front), bb, NOWHERE, NOWHERE)
      ensures SameOutside(Page(1 - front), bb, NOWHERE, Prev()) && Prev() == old(Damage())
    {
      hide SameOutside;
      activePage := 1 - front;
      CatchUp();
      FrontStill();
      Turn();
    }

    /** Remembers this frame's damage for the next frame and makes the back page the front one. */
    method Turn()
      requires Shaped() && Rects() && flip && activePage == 1 - front
      modifies `damaged, `prevDamaged, `prevX, `prevY, `prevW, `prevH, `front, `shown
      ensures Rects() && !damaged && front == 1 - old(front) && Prev() == old(Damage())
    {
      prevDamaged, prevX, prevY, prevW, prevH := damaged, damageX, damageY, damageW, damageH;
      damaged := false;
      FlipPages();
      front := activePage;
    }

    lemma FrontStill()
      requires Shaped() && SameOutside(Page(front), bb, Damage(), NOWHERE)
      ensures SameOutside(Page(front), bb, NOWHERE, Damage())
    {}

    /** After every present the front page is the backbuffer pixel for pixel, cursor included, and it is
        the page on screen. */
    method Present(back: Background, prims: seq<Prim>)
      requires Valid()
      modifies this, bb, page0, page1
      ensures Valid() && !damaged && CursorWhole() && cursorX == old(cursorX) && cursorY == old(cursorY)
      ensures SameOutside(Page(front), bb, NOWHERE, NOWHERE)
      ensures flip ==> front == 1 - old(front) && SameOutside(Page(1 - front), bb, NOWHERE, Prev())
      ensures shown == front
      ensures forall j, i :: 0 <= j < h && 0 <= i < w ==> bb[j, i] == CursorPixel(bmp, cursorX, cursorY, i, j,
        if (old(stampX) != cursorX || old(stampY) != cursorY) && In(CursorBox(old(stampX), old(stampY)), i, j)
        then Composed(back, prims, i, j, old(bb[j, i])) else old(bb[j, i]))
    {
      hide CursorPixel, Composed, SameOutside, In;
      MoveCursor(back, prims);
      if flip { PresentFlip(); } else { PresentSingle(); }
    }

    method Kept(v: int, limit: int) returns (r: int)
      ensures r == Min(Max(v, 0), limit)
    {
      r := v;
      if r < 0 { r := 0; }
      if r > limit { r := limit; }
    }

    /** The pointer moves and is kept on the screen. */
    method MoveMouse(dx: int, dy: int)
      requires Valid()
      modifies `cursorX, `cursorY
      ensures Valid()
      ensures cursorX == Min(Max(old(cursorX) + dx, 0), w as int - CURSOR_W)
      ensures cursorY == Min(Max(old(cursorY) + dy, 0), h as int - CURSOR_H)
    {
      hide Agrees, Stamped, Frames;
      cursorX := Kept(cursorX + dx, w as int - CURSOR_W);
      cursorY := Kept(cursorY + dy, h as int - CURSOR_H);
    }

    /** One frame of any run: whatever was redrawn since the last one, presenting shows all of it. */
    method Frame(ops: seq<Op>, back: Background, prims: seq<Prim>)
      requires Valid() && forall k :: 0 <= k < |ops| ==> ops[k].Ok()
      modifies this, bb, page0, page1
      ensures Valid() && !damaged && CursorWhole()
      ensures SameOutside(Page(shown), bb, NOWHERE, NOWHERE)
      ensures (cursorX, cursorY) == PointerAfter(ops, w, h, old(cursorX), old(cursorY))
      ensures forall j, i :: 0 <= j < h && 0 <= i < w ==> bb[j, i] == CursorPixel(bmp, cursorX, cursorY, i, j,
        var p := PixelAfter(ops, w, h, i, j, old(bb[j, i]));
        if (old(stampX) != cursorX || old(stampY) != cursorY) && In(CursorBox(old(stampX), old(stampY)), i, j)
        then Composed(back, prims, i, j, p) else p)
    {
      hide Valid, SameOutside, CursorWhole, Composed, ClockShows, In, CursorPixel;
      ValidShape();
      for k := 0 to |ops|
        invariant Shaped() && Valid() && stampX == old(stampX) && stampY == old(stampY)
        invariant (cursorX, cursorY) == PointerAfter(ops[..k], w, h, old(cursorX), old(cursorY))
        invariant forall j, i :: 0 <= j < h && 0 <= i < w ==> bb[j, i] == PixelAfter(ops[..k], w, h, i, j, old(bb[j, i]))
      {
        assert ops[..k + 1][..k] == ops[..k];
        match ops[k] {
          case Redraw(x, y, rw, rh, b, ps) => RedrawRect(x, y, rw, rh, b, ps);
          case Clock(text) => RenderClock(text);
          case Mouse(dx, dy) => MoveMouse(dx, dy);
        }
      }
      assert ops[..|ops|] == ops;
      Present(back, prims);
      SingleFront();
    }

    lemma ValidShape()
      requires Valid()
      ensures Shaped()
    {}

    lemma SingleFront()
      requires Valid()
      ensures !flip ==> front == 0
    {}
  }

  /** A wallpaper smaller than the screen, and nothing drawn at one place beyond it: the cursor goes there
      and comes back, and its mark stays on the screen, since composing the place again paints nothing. */
  method Trail(cursor: Bitmap, wall: (int, int) -> Color, prims: seq<Prim>) returns (s: Screen)
    requires cursor[4][1] == 2 && !CoveredBy(prims, 2175, 1114)
    ensures s.Valid() && s.w == 2560 && s.h == 1440 && s.CursorWhole() && !In(CursorBox(s.cursorX, s.cursorY), 2175, 1114)
    ensures s.Page(s.shown)[1114, 2175] == 0xFF_FFFF
  {
    hide Screen.Valid, Screen.CursorWhole, Composed, SameOutside;
    var back := Wallpaper(1920, 1080, wall);
    ForgetsIff(back, prims, 2175, 1114);
    s := new Screen(2560, 1440, 2560 * 4, None, cursor);
    s.Open(back, prims);
    s.MoveMouse(900, 400);
    s.Present(back, prims);
    ScreenShaped(s);
    assert s.bb[1114, 2175] == 0xFF_FFFF;
    s.MoveMouse(-900, -400);
    s.Present(back, prims);
    ScreenShaped(s);
    assert s.bb[1114, 2175] == 0xFF_FFFF;
    SameThere(s.Page(s.front), s.bb, 2175, 1114);
  }

  lemma ScreenShaped(s: Screen)
    requires s.Valid()
    ensures s.Shaped()
  {}

  lemma SameThere(a: array2<Color>, b: array2<Color>, x: nat, y: nat)
    requires a.Length0 == b.Length0 && a.Length1 == b.Length1 && SameOutside(a, b, NOWHERE, NOWHERE)
    requires y < a.Length0 && x < a.Length1
    ensures a[y, x] == b[y, x]
  {}
}
