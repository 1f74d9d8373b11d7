/** The PNG decoder: scanline filters (section 9 of the PNG specification, second edition),
    chunk walking, and the whole decoder over the inflater. */
module Png {
  import opened Bits
  import opened Deflate

  // ---- scanline filters ----

  function Apart(x: int, y: int): nat {
    if x > y then x - y else y - x
  }

  /** `r` is the one of `a`, `b` and `c` nearest to `a + b - c`; of two equally near the earlier one. */
  predicate Nearest(r: int, a: int, b: int, c: int) {
    var p := a + b - c;
    && (r == a || r == b || r == c)
    && Apart(p, r) <= Apart(p, a) && Apart(p, r) <= Apart(p, b) && Apart(p, r) <= Apart(p, c)
    && (Apart(p, a) == Apart(p, r) ==> r == a)
    && (Apart(p, b) == Apart(p, r) ==> r == b || r == a)
  }

  function Paeth(a: int, b: int, c: int): (r: int)
    ensures Nearest(r, a, b, c)
  {
    var p := a + b - c;
    var pa, pb, pc := if p > a then p - a else a - p, if p > b then p - b else b - p, if p > c then p - c else c - p;
    if pa <= pb && pa <= pc then a else if pb <= pc then b else c
  }

  /** The prediction of filter `ft` from the left, upper and upper left bytes. */
  function Predict(ft: nat, a: byte, b: byte, c: byte): int {
    if ft == 1 then a
    else if ft == 2 then b
    else if ft == 3 then (a + b as int) / 2
    else if ft == 4 then Paeth(a, b, c)
    else 0
  }

  /** The byte `bpp` before position `i`, or 0 at the start of the row. */
  function Left(row: seq<byte>, i: nat, bpp: nat): byte
    requires i <= |row| && bpp >= 1
  {
    if i >= bpp then row[i - bpp] else 0
  }

  /** What a filter type and the rows so far predict for byte `i` of a row. */
  function Predicted(ft: nat, row: seq<byte>, prev: seq<byte>, i: nat, bpp: nat): int
    requires i <= |row| && i < |prev| && bpp >= 1
  {
    Predict(ft, Left(row, i, bpp), prev[i], Left(prev, i, bpp))
  }

  /** Filtering, as an encoder does it: every byte minus its prediction. */
  function Filtered(ft: nat, row: seq<byte>, prev: seq<byte>, bpp: nat): (f: seq<byte>)
    requires |row| == |prev| && bpp >= 1
    ensures |f| == |row|
  {
    seq(|row|, i requires 0 <= i < |row| => (row[i] - Predicted(ft, row, prev, i, bpp)) % 256)
  }

  /** Unfiltering, left to right: every byte plus the prediction from the bytes already restored. */
  function Restored(ft: nat, f: seq<byte>, prev: seq<byte>, bpp: nat): (row: seq<byte>)
    requires |f| <= |prev| && bpp >= 1
    ensures |row| == |f|
  {
    if f == [] then [] else
    var i := |f| - 1;
    var done := Restored(ft, f[..i], prev, bpp);
    done + [(f[i] + Predicted(ft, done, prev, i, bpp)) % 256]
  }

  lemma {:induction false} RestoredPrefix(ft: nat, row: seq<byte>, prev: seq<byte>, bpp: nat, n: nat)
    requires |row| == |prev| && bpp >= 1 && n <= |row|
    ensures Restored(ft, Filtered(ft, row, prev, bpp)[..n], prev, bpp) == row[..n]
  {
    if n > 0 {
      hide Predict;
      var f, i := Filtered(ft, row, prev, bpp), n - 1;
      RestoredPrefix(ft, row, prev, bpp, i);
      assert f[..n][..i] == f[..i];
      assert Left(row[..i], i, bpp) == Left(row, i, bpp);
      assert row[..n] == row[..i] + [row[i]];
    }
  }

  /** Every filter is undone, whatever the previous row. */
  lemma UnfilterUndoesFilter(ft: nat, row: seq<byte>, prev: seq<byte>, bpp: nat)
    requires |row| == |prev| && bpp >= 1
    ensures Restored(ft, Filtered(ft, row, prev, bpp), prev, bpp) == row
  {
    RestoredPrefix(ft, row, prev, bpp, |row|);
    var f := Filtered(ft, row, prev, bpp);
    assert f[..|row|] == f && row[..|row|] == row;
  }

  // ---- all the rows of an image ----

  datatype Rows = BadFilter | Rows(rows: seq<seq<byte>>)

  /** The row above the first one counts as zeros. */
  function ZeroRow(stride: nat): (r: seq<byte>)
    ensures |r| == stride
  {
    Repeat(0, stride)
  }

  /** The last of the rows already restored. */
  function Above(rows: seq<seq<byte>>, stride: nat): seq<byte> {
    if rows == [] then ZeroRow(stride) else rows[|rows| - 1]
  }

  ghost predicate Uniform(rows: seq<seq<byte>>, stride: nat) {
    forall y :: 0 <= y < |rows| ==> |rows[y]| == stride
  }

  /** Restores the rows of the filtered image `raw` from row |done| on. */
  function RestoreRows(raw: seq<byte>, stride: nat, bpp: nat, done: seq<seq<byte>>): Rows
    requires bpp >= 1 && |Above(done, stride)| == stride
    decreases |raw|
  {
    if |raw| < stride + 1 then Rows(done)
    else if raw[0] > 4 || (raw[0] == 2 && done == []) then BadFilter
    else RestoreRows(raw[stride + 1..], stride, bpp, done + [Restored(raw[0], raw[1..stride + 1], Above(done, stride), bpp)])
  }

  /** The filtered image an encoder makes of `rows`, from row |done| on, with one filter per row. */
  function FilterRows(rows: seq<seq<byte>>, filters: seq<byte>, stride: nat, bpp: nat, done: seq<seq<byte>>): seq<byte>
    requires bpp >= 1 && |filters| == |rows| && |Above(done, stride)| == stride
    requires forall y :: 0 <= y < |rows| ==> |rows[y]| == stride
    decreases |rows|
  {
    if rows == [] then [] else
    [filters[0]] + Filtered(filters[0], rows[0], Above(done, stride), bpp)
      + FilterRows(rows[1..], filters[1..], stride, bpp, done + [rows[0]])
  }

  /** Any filter types will do, except Up on the very first row. */
  ghost predicate ValidFilters(filters: seq<byte>, first: bool) {
    (forall y :: 0 <= y < |filters| ==> filters[y] <= 4) && (first && filters != [] ==> filters[0] != 2)
  }

  lemma {:induction false} RestoreUndoesFilterRows(rows: seq<seq<byte>>, filters: seq<byte>, stride: nat, bpp: nat, done: seq<seq<byte>>)
    requires bpp >= 1 && |filters| == |rows| && |Above(done, stride)| == stride && stride >= 1
    requires Uniform(rows, stride) && ValidFilters(filters, done == [])
    ensures RestoreRows(FilterRows(rows, filters, stride, bpp, done), stride, bpp, done) == Rows(done + rows)
    ensures |FilterRows(rows, filters, stride, bpp, done)| == |rows| * (stride + 1)
    decreases |rows|
  {
    hide Filtered, Restored;
    if rows == [] {
      assert done + rows == done;
    } else {
      var raw := FilterRows(rows, filters, stride, bpp, done);
      var f := Filtered(filters[0], rows[0], Above(done, stride), bpp);
      var tail := FilterRows(rows[1..], filters[1..], stride, bpp, done + [rows[0]]);
      assert raw == [filters[0]] + f + tail;
      assert raw[1..stride + 1] == f && raw[stride + 1..] == tail;
      UnfilterUndoesFilter(filters[0], rows[0], Above(done, stride), bpp);
      RestoreUndoesFilterRows(rows[1..], filters[1..], stride, bpp, done + [rows[0]]);
      assert done + [rows[0]] + rows[1..] == done + rows;
      assert |rows| * (stride + 1) == (|rows| - 1) * (stride + 1) + (stride + 1);
    }
  }

  // ---- pixels ----

  /** 0x00RRGGBB of pixel `x` of a row. */
  function Pixel(row: seq<byte>, x: nat, bpp: nat): nat
    requires (bpp == 3 || bpp == 4) && (x + 1) * bpp <= |row|
  {
    0x10000 * (row[x * bpp] as int) + 0x100 * (row[x * bpp + 1] as int) + row[x * bpp + 2]
  }

  function RowPixels(row: seq<byte>, w: nat, bpp: nat): (s: seq<nat>)
    requires (bpp == 3 || bpp == 4) && |row| == w * bpp
    ensures |s| == w
  {
    seq(w, x requires 0 <= x < w => Pixel(row, x, bpp))
  }

  /** The pixels of all rows, row by row. */
  function Pixels(rows: seq<seq<byte>>, w: nat, bpp: nat): seq<nat>
    requires (bpp == 3 || bpp == 4) && forall y :: 0 <= y < |rows| ==> |rows[y]| == w * bpp
  {
    if rows == [] then [] else Pixels(rows[..|rows| - 1], w, bpp) + RowPixels(rows[|rows| - 1], w, bpp)
  }

  lemma {:induction false} PixelsAt(rows: seq<seq<byte>>, w: nat, bpp: nat, x: nat, y: nat)
    requires bpp == 3 || bpp == 4
    requires Uniform(rows, w * bpp) && x < w && y < |rows|
    ensures |Pixels(rows, w, bpp)| == |rows| * w
    ensures y * w + x < |rows| * w && Pixels(rows, w, bpp)[y * w + x] == Pixel(rows[y], x, bpp)
  {
    var n := |rows| - 1;
    hide Pixel;
    PixelsLength(rows, w, bpp);
    PixelsLength(rows[..n], w, bpp);
    if y < n {
      PixelsAt(rows[..n], w, bpp, x, y);
    }
  }

  lemma {:induction false} PixelsLength(rows: seq<seq<byte>>, w: nat, bpp: nat)
    requires (bpp == 3 || bpp == 4) && Uniform(rows, w * bpp)
    ensures |Pixels(rows, w, bpp)| == |rows| * w
  {
    if rows != [] {
      PixelsLength(rows[..|rows| - 1], w, bpp);
    }
  }

  // ---- chunks ----

  const SIGNATURE: seq<byte> := [0x89, 0x50, 0x4E, 0x47, 0x0D, 0x0A, 0x1A, 0x0A]
  const IHDR: seq<byte> := [0x49, 0x48, 0x44, 0x52]
  const IDAT: seq<byte> := [0x49, 0x44, 0x41, 0x54]
  const IEND: seq<byte> := [0x49, 0x45, 0x4E, 0x44]

  /** What the chunk walk has found; an `idatLen` of 0 means no image data yet. It may also find the
      same chunk again and again. */
  datatype Found = Malformed | Endless | Found(width: nat, height: nat, colorType: nat, idatPos: nat, idatLen: nat)

  function Be32(p: seq<byte>, i: nat): nat
    requires i + 4 <= |p|
  {
    0x100_0000 * (p[i] as int) + 0x1_0000 * (p[i + 1] as int) + 0x100 * (p[i + 2] as int) + p[i + 3]
  }

  ghost predicate Within(st: Found, p: seq<byte>) {
    st.Found? ==>
      && st.idatPos + st.idatLen <= |p|
      && (st.width > 0 ==> st.width <= 16384 && 1 <= st.height <= 16384 && (st.colorType == 2 || st.colorType == 6))
  }

  /** The effect of one chunk with its `len` data bytes at `at`. */
  function TakeChunk(p: seq<byte>, tag: seq<byte>, at: nat, len: nat, st: Found): (r: Found)
    requires st.Found? && at + len <= |p| && Within(st, p)
    ensures Within(r, p) && !r.Endless?
  {
    if tag == IHDR then
      if len < 13 then Malformed else
      var (w, h) := (Be32(p, at), Be32(p, at + 4));
      if p[at + 10] != 0 || p[at + 11] != 0 || p[at + 12] != 0 then Malformed
      else if w == 0 || h == 0 || w > 16384 || h > 16384 then Malformed
      else if p[at + 8] != 8 || (p[at + 9] != 2 && p[at + 9] != 6) then Malformed
      else st.(width := w, height := h, colorType := p[at + 9])
    else if tag == IDAT && len > 0 then
      if st.idatLen == 0 then st.(idatPos := at, idatLen := len)
      else if st.idatPos + st.idatLen == at then st.(idatLen := st.idatLen + len)
      else Malformed
    else st
  }

  const WRAP32: nat := 0x1_0000_0000

  /** How far the walk moves past a chunk: the sum is one of 32 bits. */
  function Advance(len: nat): nat {
    (12 + len) % WRAP32
  }

  /** A second look at a chunk either is rejected, as for image data, or finds what the first one found. */
  lemma SecondLook(p: seq<byte>, tag: seq<byte>, at: nat, len: nat, st: Found)
    requires st.Found? && at + len <= |p| && Within(st, p)
    ensures var st' := TakeChunk(p, tag, at, len, st);
      st'.Found? ==> TakeChunk(p, tag, at, len, st') == if tag == IDAT && len > 0 then Malformed else st'
  {}

  function Walk(p: seq<byte>, pos: nat, st: Found): (r: Found)
    requires st.Found? && Within(st, p)
    ensures Within(r, p)
    decreases |p| - pos
  {
    if pos + 8 > |p| then st else
    var len := Be32(p, pos);
    if pos + 8 + len > |p| then Malformed else
    var tag := p[pos + 4..pos + 8];
    var st' := TakeChunk(p, tag, pos + 8, len, st);
    if st'.Malformed? || tag == IEND then st'
    else if Advance(len) > 0 then Walk(p, pos + Advance(len), st')
    else if tag == IDAT then Malformed
    else Endless
  }

  // ---- the walk, turn by turn ----

  datatype Turned = Stop(st: Found) | Go(pos: nat, st: Found)

  /** One turn of the loop. */
  function Turn(p: seq<byte>, pos: nat, st: Found): (t: Turned)
    requires st.Found? && Within(st, p)
    ensures t.Go? ==> t.st.Found? && Within(t.st, p)
  {
    if pos + 8 > |p| then Stop(st) else
    var len := Be32(p, pos);
    if pos + 8 + len > |p| then Stop(Malformed) else
    var tag := p[pos + 4..pos + 8];
    var st' := TakeChunk(p, tag, pos + 8, len, st);
    if st'.Malformed? || tag == IEND then Stop(st') else Go(pos + Advance(len), st')
  }

  /** At most `n` turns. */
  function Turns(p: seq<byte>, pos: nat, st: Found, n: nat): Turned
    requires st.Found? && Within(st, p)
    decreases n
  {
    if n == 0 then Go(pos, st) else
    match Turn(p, pos, st)
    case Stop(r) => Stop(r)
    case Go(pos', st') => Turns(p, pos', st', n - 1)
  }

  /** The loop as written: it stops with what `Walk` says, within as many turns as the file has bytes
      and one more, or `Walk` says `Endless` and it never stops. */
  lemma {:induction false} WalkIsTurns(p: seq<byte>, pos: nat, st: Found, n: nat)
    requires st.Found? && Within(st, p)
    ensures Walk(p, pos, st).Endless? ==> Turns(p, pos, st, n).Go?
    ensures Turns(p, pos, st, n).Stop? ==> Turns(p, pos, st, n).st == Walk(p, pos, st)
    ensures !Walk(p, pos, st).Endless? && n > 0 && n + pos > |p| ==> Turns(p, pos, st, n).Stop?
    decreases n
  {
    hide TakeChunk, Be32, Advance, Turn;
    if n > 0 {
      TurnCases(p, pos, st);
      var t := Turn(p, pos, st);
      if t.Go? {
        if t.pos > pos {
          WalkIsTurns(p, t.pos, t.st, n - 1);
        } else if Walk(p, pos, st).Endless? {
          StuckStays(p, pos, st, n);
        } else if n > 1 {
          assert Turns(p, pos, t.st, n - 1) == Stop(Malformed);
        }
      }
    }
  }

  /** What one turn means for the walk. */
  lemma TurnCases(p: seq<byte>, pos: nat, st: Found)
    requires st.Found? && Within(st, p)
    ensures var t := Turn(p, pos, st);
      && (t.Stop? ==> !t.st.Endless? && Walk(p, pos, st) == t.st)
      && (t.Go? ==> pos + 8 <= |p| && t.pos >= pos)
      && (t.Go? && t.pos > pos ==> Walk(p, pos, st) == Walk(p, t.pos, t.st))
      && (t.Go? && t.pos == pos ==> Walk(p, pos, st) == if p[pos + 4..pos + 8] == IDAT then Malformed else Endless)
      && (t.Go? && t.pos == pos ==> Turn(p, pos, t.st) == if p[pos + 4..pos + 8] == IDAT then Stop(Malformed) else t)
  {
    if pos + 8 <= |p| && pos + 8 + Be32(p, pos) <= |p| {
      SecondLook(p, p[pos + 4..pos + 8], pos + 8, Be32(p, pos), st);
    }
    hide TakeChunk, Be32;
  }

  /** The loop is at a chunk it comes back to unchanged. */
  ghost predicate Stuck(p: seq<byte>, pos: nat, st: Found)
    requires st.Found? && Within(st, p)
  {
    && pos + 8 <= |p| && p[pos + 4..pos + 8] != IDAT
    && Turn(p, pos, st).Go? && Turn(p, pos, st).pos == pos
  }

  lemma {:induction false} StuckStays(p: seq<byte>, pos: nat, st: Found, n: nat)
    requires st.Found? && Within(st, p) && Stuck(p, pos, st)
    ensures Turns(p, pos, st, n).Go? && Turns(p, pos, st, n).pos == pos
    decreases n
  {
    hide Turn;
    TurnCases(p, pos, st);
    if n > 0 {
      StuckStays(p, pos, Turn(p, pos, st).st, n - 1);
    }
  }

  /** It never ends exactly when it comes to such a chunk: its length is 2^32 - 12, and it is no image data. */
  lemma StuckIff(p: seq<byte>, pos: nat, st: Found)
    requires st.Found? && Within(st, p)
    ensures Stuck(p, pos, st) <==>
      && pos + 8 <= |p| && Be32(p, pos) == 0xFFFF_FFF4 && pos + 8 + Be32(p, pos) <= |p|
      && var tag := p[pos + 4..pos + 8];
         tag != IDAT && tag != IEND && TakeChunk(p, tag, pos + 8, Be32(p, pos), st).Found?
  {
    if pos + 8 <= |p| { Be32Bound(p, pos); }
    hide TakeChunk, Be32;
  }

  lemma Be32Bound(p: seq<byte>, i: nat)
    requires i + 4 <= |p|
    ensures Be32(p, i) < WRAP32
  {}

  lemma {:induction false} EndlessReaches(p: seq<byte>, pos: nat, st: Found) returns (n: nat)
    requires st.Found? && Within(st, p) && Walk(p, pos, st).Endless?
    ensures var t := Turns(p, pos, st, n); t.Go? && t.st.Found? && Within(t.st, p) && Stuck(p, t.pos, t.st)
    decreases |p| - pos
  {
    hide TakeChunk, Be32, Advance, Turn;
    TurnCases(p, pos, st);
    var t := Turn(p, pos, st);
    if t.pos > pos {
      n := EndlessReaches(p, t.pos, t.st);
      n := n + 1;
    } else {
      n := 0;
    }
  }

  /** A file of less than 4 GiB and four bytes never makes the loop hang. */
  lemma {:induction false} SmallFilesEnd(p: seq<byte>, pos: nat, st: Found)
    requires st.Found? && Within(st, p) && pos >= 8 && |p| < WRAP32 + 4
    ensures !Walk(p, pos, st).Endless?
    decreases |p| - pos
  {
    hide TakeChunk, Be32;
    if pos + 8 <= |p| && pos + 8 + Be32(p, pos) <= |p| {
      var tag, len := p[pos + 4..pos + 8], Be32(p, pos);
      var st' := TakeChunk(p, tag, pos + 8, len, st);
      if !st'.Malformed? && tag != IEND {
        SmallFilesEnd(p, pos + Advance(len), st');
      }
    }
  }

  // ---- the decoder ----

  /** A decoder that never returns has no picture either. */
  datatype Picture = Rejected | Hangs | Picture(w: nat, h: nat, pixels: seq<nat>)

  function Channels(colorType: nat): (n: nat)
    ensures n == 3 || n == 4
  {
    if colorType == 6 then 4 else 3
  }

  /** The inflated size: each row is a filter byte and the samples. */
  function RawSize(w: nat, h: nat, bpp: nat): nat {
    (w * bpp + 1) * h
  }

  function FromRaw(raw: seq<byte>, w: nat, h: nat, bpp: nat): (r: Picture)
    requires bpp == 3 || bpp == 4
    ensures !r.Hangs?
  {
    match RestoreRows(raw, w * bpp, bpp, [])
    case BadFilter => Rejected
    case Rows(rows) =>
      RowsAreUniform(raw, w * bpp, bpp, []);
      Picture(w, h, Pixels(rows, w, bpp))
  }

  lemma {:induction false} RowsAreUniform(raw: seq<byte>, stride: nat, bpp: nat, done: seq<seq<byte>>)
    requires bpp >= 1 && Uniform(done, stride)
    ensures |Above(done, stride)| == stride
    ensures var r := RestoreRows(raw, stride, bpp, done); r.Rows? ==> Uniform(r.rows, stride)
    decreases |raw|
  {
    if |raw| >= stride + 1 && raw[0] <= 4 && !(raw[0] == 2 && done == []) {
      hide Restored;
      RowsAreUniform(raw[stride + 1..], stride, bpp, done + [Restored(raw[0], raw[1..stride + 1], Above(done, stride), bpp)]);
    }
  }

  /** What the header and image data found make of the file. */
  function FromChunks(p: seq<byte>, st: Found): Picture
    requires Within(st, p)
  {
    match st
    case Malformed => Rejected
    case Endless => Hangs
    case Found(w, h, ct, at, len) =>
      if w == 0 || h == 0 || len == 0 then Rejected else
      var bpp := Channels(ct);
      var rawSize := RawSize(w, h, bpp);
      if rawSize > MAX_OUTPUT then Rejected else
      match Inflated(p[at..at + len], rawSize)
      case Bad => Rejected
      case Ok(out, _) => if |out| != rawSize then Rejected else FromRaw(out, w, h, bpp)
  }

  /** What png_decode computes when its two allocations succeed. */
  function Decoded(p: seq<byte>): Picture {
    if |p| < 8 || p[..8] != SIGNATURE then Rejected else FromChunks(p, Walk(p, 8, Found(0, 0, 0, 0, 0)))
  }

  /** A file that makes it hang: the signature, then a chunk of 2^32 - 12 bytes of no known type. */
  lemma LongChunkHangs(data: seq<byte>)
    requires |data| == 0xFFFF_FFF4
    ensures Decoded(SIGNATURE + [0xFF, 0xFF, 0xFF, 0xF4, 0, 0, 0, 0] + data).Hangs?
  {
    var p := SIGNATURE + [0xFF, 0xFF, 0xFF, 0xF4, 0, 0, 0, 0] + data;
    assert p[..8] == SIGNATURE && p[12..16] == [0, 0, 0, 0];
    assert Be32(p, 8) == 0xFFFF_FFF4;
  }
}
