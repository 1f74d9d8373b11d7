/** What a decoded picture is made of, byte by byte: the predictions of the five filters (section 9 of the
    PNG specification, second edition), the rows above and the packed samples. */
module PngMeaning {
  import opened Bits
  import opened Deflate
  import opened Png

  // ---- one byte ----

  /** `x` is what filter `ft` predicts from the bytes to the left, above, and above left: nothing, the left
      one, the upper one, their mean rounded down, or the one of the three nearest to `a + b - c`. */
  predicate Foretold(ft: nat, a: int, b: int, c: int, x: int) {
    match ft
    case 1 => x == a
    case 2 => x == b
    case 3 => 2 * x <= a + b < 2 * x + 2
    case 4 => Nearest(x, a, b, c)
    case _ => x == 0
  }

  /** No two bytes can be foretold by one filter from the same neighbours. */
  lemma ForetoldUnique(ft: nat, a: int, b: int, c: int, x: int, y: int)
    requires Foretold(ft, a, b, c, x) && Foretold(ft, a, b, c, y)
    ensures x == y
  {}

  /** Byte `i` of a row is byte `i` of its filtered form plus what is foretold from its neighbours, modulo 256.
      Bytes before the start of a row count as 0. */
  ghost predicate ByteRestored(ft: nat, f: seq<byte>, row: seq<byte>, prev: seq<byte>, bpp: nat, i: nat)
    requires i < |row| && i < |prev| && i < |f| && bpp >= 1
  {
    var a, c := if i >= bpp then row[i - bpp] else 0, if i >= bpp then prev[i - bpp] else 0;
    Foretold(ft, a, prev[i], c, (row[i] - f[i] as int) % 256)
  }

  lemma {:induction false} RestoredBytes(ft: nat, f: seq<byte>, prev: seq<byte>, bpp: nat, i: nat)
    requires |f| <= |prev| && bpp >= 1 && i < |f|
    ensures ByteRestored(ft, f, Restored(ft, f, prev, bpp), prev, bpp, i)
  {
    var n, row := |f| - 1, Restored(ft, f, prev, bpp);
    var done := Restored(ft, f[..n], prev, bpp);
    if i < n {
      RestoredBytes(ft, f[..n], prev, bpp, i);
      assert row[i] == done[i] && (i >= bpp ==> row[i - bpp] == done[i - bpp]);
    } else {
      var a, c := Left(done, n, bpp), Left(prev, n, bpp);
      PredictionForetold(ft, a, prev[n], c);
      PredictionBack(f[n], Predict(ft, a, prev[n], c), row[n]);
    }
  }

  lemma PredictionForetold(ft: nat, a: byte, b: byte, c: byte)
    ensures var x := Predict(ft, a, b, c); 0 <= x < 256 && Foretold(ft, a, b, c, x)
  {}

  lemma PredictionBack(f: byte, x: byte, v: byte)
    requires v == (f + x as int) % 256
    ensures (v - f) % 256 == x
  {}

  // ---- all rows ----

  /** Row `y` of the filtered image: `stride` bytes behind a filter byte, as in every row before it. */
  function FilterAt(raw: seq<byte>, y: nat, stride: nat): byte
    requires y * (stride + 1) < |raw|
  {
    raw[y * (stride + 1)]
  }

  function LineAt(raw: seq<byte>, y: nat, stride: nat): (f: seq<byte>)
    requires y * (stride + 1) + 1 + stride <= |raw|
    ensures |f| == stride
  {
    raw[y * (stride + 1) + 1..][..stride]
  }

  /** Row `y` is restored from row `y` of the filtered image and the row above it. */
  ghost predicate RowRestored(raw: seq<byte>, y: nat, row: seq<byte>, prev: seq<byte>, stride: nat, bpp: nat) {
    && bpp >= 1 && |row| == |prev| == stride && y * (stride + 1) + 1 + stride <= |raw|
    && forall i :: 0 <= i < stride ==> ByteRestored(FilterAt(raw, y, stride), LineAt(raw, y, stride), row, prev, bpp, i)
  }

  /** The filter of row `y` is one the decoder knows; `first` rows come before it. */
  predicate Takes(raw: seq<byte>, y: nat, stride: nat, first: nat) {
    y * (stride + 1) < |raw| && FilterAt(raw, y, stride) <= 4 && !(FilterAt(raw, y, stride) == 2 && first + y == 0)
  }

  predicate TakesAll(raw: seq<byte>, n: nat, stride: nat, first: nat) {
    forall y :: 0 <= y < n ==> Takes(raw, y, stride, first)
  }

  lemma FirstRow(raw: seq<byte>, stride: nat, bpp: nat, prev: seq<byte>)
    requires bpp >= 1 && |raw| >= stride + 1 && |prev| == stride
    ensures RowRestored(raw, 0, Restored(raw[0], raw[1..stride + 1], prev, bpp), prev, stride, bpp)
  {
    hide ByteRestored, Restored;
    var f := raw[1..stride + 1];
    assert f == LineAt(raw, 0, stride) && raw[0] == FilterAt(raw, 0, stride);
    forall i | 0 <= i < stride ensures ByteRestored(raw[0], f, Restored(raw[0], f, prev, bpp), prev, bpp, i) {
      RestoredBytes(raw[0], f, prev, bpp, i);
    }
  }

  /** What follows the first row of `raw` are the later rows. */
  lemma LaterRow(raw: seq<byte>, y: nat, row: seq<byte>, prev: seq<byte>, stride: nat, bpp: nat, first: nat)
    requires |raw| >= stride + 1 && y >= 1
    ensures RowRestored(raw[stride + 1..], y - 1, row, prev, stride, bpp) <==> RowRestored(raw, y, row, prev, stride, bpp)
    ensures Takes(raw[stride + 1..], y - 1, stride, first + 1) <==> Takes(raw, y, stride, first)
  {
    hide ByteRestored;
    var tail, at := raw[stride + 1..], (y - 1) * (stride + 1);
    assert y * (stride + 1) == at + stride + 1;
    if at < |tail| {
      assert FilterAt(tail, y - 1, stride) == FilterAt(raw, y, stride);
    }
    if at + 1 + stride <= |tail| {
      assert LineAt(tail, y - 1, stride) == LineAt(raw, y, stride);
    }
  }

  /** The rows after the first `first` are those of `raw`, each restored over the one before it. */
  ghost predicate RowsRestored(raw: seq<byte>, rows: seq<seq<byte>>, first: nat, stride: nat, bpp: nat) {
    forall y :: first <= y < |rows| ==> RowRestored(raw, y - first, rows[y], Above(rows[..y], stride), stride, bpp)
  }

  lemma RowsTurn(raw: seq<byte>, stride: nat, bpp: nat, done: seq<seq<byte>>)
    requires bpp >= 1 && |Above(done, stride)| == stride && |raw| >= stride + 1
    ensures RestoreRows(raw, stride, bpp, done) ==
      if Takes(raw, 0, stride, |done|)
      then RestoreRows(raw[stride + 1..], stride, bpp, done + [Restored(raw[0], raw[1..stride + 1], Above(done, stride), bpp)])
      else BadFilter
  {
    hide Restored;
  }

  lemma TakesLater(raw: seq<byte>, stride: nat, first: nat, n: nat)
    requires |raw| >= stride + 1 && n >= 1 && Takes(raw, 0, stride, first)
    ensures TakesAll(raw, n, stride, first) <==> TakesAll(raw[stride + 1..], n - 1, stride, first + 1)
  {
    hide Takes;
    var tail, next := raw[stride + 1..], first + 1;
    forall y | 1 <= y < n ensures Takes(tail, y - 1, stride, next) <==> Takes(raw, y, stride, first) {
      LaterRow(raw, y, [], [], stride, 1, first);
    }
    if TakesAll(raw, n, stride, first) {
      forall y | 0 <= y < n - 1 ensures Takes(tail, y, stride, next) {
        assert Takes(raw, y + 1, stride, first);
      }
    } else {
      var y :| 0 <= y < n && !Takes(raw, y, stride, first);
      assert !Takes(tail, y - 1, stride, next);
    }
  }

  lemma MoreRows(raw: seq<byte>, rows: seq<seq<byte>>, first: nat, stride: nat, bpp: nat)
    requires |raw| >= stride + 1 && first < |rows|
    requires RowRestored(raw, 0, rows[first], Above(rows[..first], stride), stride, bpp)
    requires RowsRestored(raw[stride + 1..], rows, first + 1, stride, bpp)
    ensures RowsRestored(raw, rows, first, stride, bpp)
  {
    hide RowRestored, Above;
    forall y | first <= y < |rows| ensures RowRestored(raw, y - first, rows[y], Above(rows[..y], stride), stride, bpp) {
      if y > first {
        LaterRow(raw, y - first, rows[y], Above(rows[..y], stride), stride, bpp, first);
      }
    }
  }

  /** The row loop accepts exactly the images whose filters it knows, and then restores every row. */
  lemma {:induction false} RestoredRows(raw: seq<byte>, stride: nat, bpp: nat, done: seq<seq<byte>>, n: nat)
    requires bpp >= 1 && |Above(done, stride)| == stride && |raw| == n * (stride + 1)
    ensures var r := RestoreRows(raw, stride, bpp, done);
      && (r.Rows? <==> TakesAll(raw, n, stride, |done|))
      && (r.Rows? ==> |r.rows| == |done| + n && r.rows[..|done|] == done && RowsRestored(raw, r.rows, |done|, stride, bpp))
    decreases n
  {
    hide RowRestored, Takes, Restored;
    if n > 0 {
      hide RestoreRows, RowsRestored;
      MulMono(stride + 1, 1, n);
      assert |raw| - (stride + 1) == (n - 1) * (stride + 1);
      RowsTurn(raw, stride, bpp, done);
      if Takes(raw, 0, stride, |done|) {
        var above := Above(done, stride);
        var row := Restored(raw[0], raw[1..stride + 1], above, bpp);
        RestoredRows(raw[stride + 1..], stride, bpp, done + [row], n - 1);
        TakesLater(raw, stride, |done|, n);
        var r := RestoreRows(raw, stride, bpp, done);
        if r.Rows? {
          FirstRow(raw, stride, bpp, above);
          assert r.rows[|done|] == (done + [row])[|done|] && r.rows[..|done|] == (done + [row])[..|done|] == done;
          MoreRows(raw, r.rows, |done|, stride, bpp);
        }
      }
    } else {
      assert done[..|done|] == done;
    }
  }

  // ---- the picture ----

  /** The three samples a pixel is made of can be read off its number. */
  lemma PixelParts(row: seq<byte>, x: nat, bpp: nat)
    requires (bpp == 3 || bpp == 4) && (x + 1) * bpp <= |row|
    ensures var p := Pixel(row, x, bpp);
      p / 0x1_0000 == row[x * bpp] && p / 0x100 % 0x100 == row[x * bpp + 1] && p % 0x100 == row[x * bpp + 2]
  {
    var p := Pixel(row, x, bpp);
    assert p / 0x100 == 0x100 * (row[x * bpp] as int) + row[x * bpp + 1];
  }

  /** Row `y` of `rows`, with a row of zeros before the first. */
  function RowBefore(rows: seq<seq<byte>>, y: nat, stride: nat): seq<byte>
    requires y <= |rows|
  {
    if y == 0 then seq(stride, _ => 0) else rows[y - 1]
  }

  /** `px` is the picture of `h` rows of `w` pixels that the filtered image `raw` stands for, with `bpp` bytes
      to a pixel and the restored bytes in `rows`. */
  ghost predicate Shows(px: seq<nat>, rows: seq<seq<byte>>, raw: seq<byte>, w: nat, h: nat, bpp: nat) {
    && (bpp == 3 || bpp == 4) && |rows| == h && Uniform(rows, w * bpp)
    && (forall y :: 0 <= y < h ==> RowRestored(raw, y, rows[y], RowBefore(rows, y, w * bpp), w * bpp, bpp))
    && |px| == h * w
    && forall x, y :: 0 <= x < w && 0 <= y < h ==> PixelShown(px, rows[y], w, bpp, x, y)
  }

  /** Red, green and blue of the pixel in column `x` of row `y`. */
  ghost predicate PixelShown(px: seq<nat>, row: seq<byte>, w: nat, bpp: nat, x: nat, y: nat) {
    && y * w + x < |px| && x * bpp + 2 < |row|
    && var p := px[y * w + x];
       p / 0x1_0000 == row[x * bpp] && p / 0x100 % 0x100 == row[x * bpp + 1] && p % 0x100 == row[x * bpp + 2]
  }

  lemma PixelIsShown(rows: seq<seq<byte>>, w: nat, bpp: nat, x: nat, y: nat)
    requires (bpp == 3 || bpp == 4) && Uniform(rows, w * bpp) && x < w && y < |rows|
    ensures |Pixels(rows, w, bpp)| == |rows| * w && PixelShown(Pixels(rows, w, bpp), rows[y], w, bpp, x, y)
  {
    hide Pixel, Pixels;
    PixelsAt(rows, w, bpp, x, y);
    MulMono(bpp, x + 1, w);
    assert bpp * (x + 1) == (x + 1) * bpp == x * bpp + bpp;
    PixelParts(rows[y], x, bpp);
  }

  lemma AboveIsBefore(rows: seq<seq<byte>>, y: nat, stride: nat)
    requires y <= |rows|
    ensures Above(rows[..y], stride) == RowBefore(rows, y, stride)
  {}

  /** A filtered image becomes a picture exactly when every row has a filter the decoder knows; the picture
      then shows the rows restored one over the other. */
  lemma RawShown(raw: seq<byte>, w: nat, h: nat, bpp: nat) returns (rows: seq<seq<byte>>)
    requires (bpp == 3 || bpp == 4) && w >= 1 && |raw| == h * (w * bpp + 1)
    ensures FromRaw(raw, w, h, bpp).Picture? <==> TakesAll(raw, h, w * bpp, 0)
    ensures var r := FromRaw(raw, w, h, bpp);
      r.Picture? ==> r.w == w && r.h == h && Shows(r.pixels, rows, raw, w, h, bpp)
  {
    hide RestoreRows, RowRestored, PixelShown, Pixels, TakesAll, Above, RowBefore;
    NothingAbove(w * bpp);
    var r := RestoreRows(raw, w * bpp, bpp, []);
    RestoredRows(raw, w * bpp, bpp, [], h);
    rows := [];
    if r.Rows? {
      rows := r.rows;
      RowsAreUniform(raw, w * bpp, bpp, []);
      PixelsLength(rows, w, bpp);
      forall x, y | 0 <= x < w && 0 <= y < h ensures PixelShown(Pixels(rows, w, bpp), rows[y], w, bpp, x, y) {
        PixelIsShown(rows, w, bpp, x, y);
      }
      forall y | 0 <= y < h ensures RowRestored(raw, y, rows[y], RowBefore(rows, y, w * bpp), w * bpp, bpp) {
        AboveIsBefore(rows, y, w * bpp);
        assert y - 0 == y;
      }
    }
  }

  lemma NothingAbove(stride: nat)
    ensures |Above([], stride)| == stride
  {}

  // ---- the file ----

  /** The number four bytes make, the most significant one first. */
  function Number(a: nat, b: nat, c: nat, d: nat): nat {
    ((a * 256 + b) * 256 + c) * 256 + d
  }

  /** One of the supported kinds of image: 1 to 16384 pixels each way, 8 bits a sample, colour type 2 or 6 and
      no other method. */
  predicate Supported(p: seq<byte>, at: nat, w: nat, h: nat)
    requires at + 13 <= |p|
  {
    && w == Number(p[at], p[at + 1], p[at + 2], p[at + 3]) && 1 <= w <= 16384
    && h == Number(p[at + 4], p[at + 5], p[at + 6], p[at + 7]) && 1 <= h <= 16384
    && p[at + 8] == 8 && (p[at + 9] == 2 || p[at + 9] == 6) && p[at + 10] == p[at + 11] == p[at + 12] == 0
  }

  /** A header chunk is taken exactly when it is long enough and supported. */
  lemma HeaderTaken(p: seq<byte>, at: nat, len: nat, st: Found, w: nat, h: nat)
    requires st.Found? && at + len <= |p| && Within(st, p)
    ensures var r := TakeChunk(p, [0x49, 0x48, 0x44, 0x52], at, len, st);
      (r.Found? && r.width == w && r.height == h) <==> (len >= 13 && Supported(p, at, w, h))
    ensures len >= 13 && Supported(p, at, w, h) ==>
      TakeChunk(p, [0x49, 0x48, 0x44, 0x52], at, len, st) == st.(width := w, height := h, colorType := p[at + 9])
  {
    if len >= 13 {
      Be32Number(p, at);
      Be32Number(p, at + 4);
    }
    hide Be32, Number;
  }

  lemma Be32Number(p: seq<byte>, i: nat)
    requires i + 4 <= |p|
    ensures Be32(p, i) == Number(p[i], p[i + 1], p[i + 2], p[i + 3])
  {}

  /** Image data is taken when it is the first, or starts where the data so far ends; an empty chunk, and
      any chunk of another type, changes nothing. */
  lemma OthersTaken(p: seq<byte>, tag: seq<byte>, at: nat, len: nat, st: Found)
    requires st.Found? && at + len <= |p| && Within(st, p)
    requires tag != [0x49, 0x48, 0x44, 0x52]
    ensures TakeChunk(p, tag, at, len, st) ==
      if tag != [0x49, 0x44, 0x41, 0x54] || len == 0 then st
      else if st.idatLen == 0 then st.(idatPos := at, idatLen := len)
      else if st.idatPos + st.idatLen == at then st.(idatLen := st.idatLen + len)
      else Malformed
  {}

  /** What the image data that the chunk walk has found inflates to, in a buffer of the image's size. */
  function Contents(p: seq<byte>, st: Found): Progress
    requires st.Found? && Within(st, p)
  {
    Inflated(p[st.idatPos..st.idatPos + st.idatLen], st.height * (st.width * (if st.colorType == 6 then 4 else 3) + 1))
  }

  /** A header and image data were found, and the data inflates to exactly the image's size, at most 256 MiB,
      with a filter the decoder knows in every row. */
  ghost predicate HasPicture(p: seq<byte>, st: Found)
    requires Within(st, p)
  {
    st.Found? && st.width > 0 && st.idatLen > 0
    && var stride := st.width * if st.colorType == 6 then 4 else 3;
       var size, c := st.height * (stride + 1), Contents(p, st);
       size <= 0x1000_0000 && c.Ok? && |c.out| == size && TakesAll(c.out, st.height, stride, 0)
  }

  /** The picture has the size in the header and shows the inflated data. */
  ghost predicate PictureIs(pic: Picture, p: seq<byte>, st: Found, rows: seq<seq<byte>>)
    requires Within(st, p)
  {
    && st.Found? && pic.Picture? && pic.w == st.width && pic.h == st.height && Contents(p, st).Ok?
    && Shows(pic.pixels, rows, Contents(p, st).out, st.width, st.height, if st.colorType == 6 then 4 else 3)
  }

  lemma FoundShown(p: seq<byte>, st: Found) returns (rows: seq<seq<byte>>)
    requires Within(st, p)
    ensures FromChunks(p, st).Picture? <==> HasPicture(p, st)
    ensures FromChunks(p, st).Picture? ==> PictureIs(FromChunks(p, st), p, st, rows)
  {
    hide Inflated, FromRaw, TakesAll, Shows;
    rows := [];
    if st.Found? && st.width > 0 && st.idatLen > 0 {
      var bpp := if st.colorType == 6 then 4 else 3;
      assert RawSize(st.width, st.height, bpp) == st.height * (st.width * bpp + 1);
      hide RawSize;
      var c := Contents(p, st);
      if c.Ok? && |c.out| == st.height * (st.width * bpp + 1) {
        rows := RawShown(c.out, st.width, st.height, bpp);
      }
    }
  }

  /** The decoder returns a picture exactly for a file with the signature and all that, and then the picture
      shows what the file contains. */
  lemma PictureShown(p: seq<byte>) returns (rows: seq<seq<byte>>)
    ensures var st := Walk(p, 8, Found(0, 0, 0, 0, 0));
      && (Decoded(p).Picture? <==>
          |p| >= 8 && p[..8] == [0x89, 0x50, 0x4E, 0x47, 0x0D, 0x0A, 0x1A, 0x0A] && HasPicture(p, st))
      && (Decoded(p).Picture? ==> PictureIs(Decoded(p), p, st, rows))
  {
    hide Walk, FromChunks, HasPicture, PictureIs;
    rows := FoundShown(p, Walk(p, 8, Found(0, 0, 0, 0, 0)));
  }
}
