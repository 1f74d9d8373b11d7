/** The imperative PNG decoder, proved to compute Png.Decoded. */
module PngDecoder {
  import opened Bits
  import opened Deflate
  import opened Png
  import Inflater

  /** The first `i` bytes of the row at `cur` are restored and nothing else has changed. */
  ghost predicate Partway(raw: array<byte>, was: seq<byte>, cur: nat, stride: nat, ft: nat, prev: seq<byte>, bpp: nat, i: nat)
    reads raw
  {
    && |was| == raw.Length && cur + stride <= raw.Length && i <= stride == |prev| && bpp >= 1
    && raw[..cur] == was[..cur]
    && raw[cur..cur + i] == Restored(ft, was[cur..cur + i], prev, bpp)
    && raw[cur + i..] == was[cur + i..]
  }

  /** How the row above is found in memory. */
  ghost predicate PrevAt(was: seq<byte>, cur: nat, stride: nat, prev: seq<byte>, first: bool) {
    |prev| == stride && cur <= |was| &&
    if first then prev == ZeroRow(stride) else cur >= stride + 1 && was[cur - stride - 1..cur - 1] == prev
  }

  method RestoreByte(raw: array<byte>, ghost was: seq<byte>, cur: nat, ghost stride: nat, ghost ft: nat, ghost prev: seq<byte>, ghost bpp: nat, i: nat, predicted: int)
    requires Partway(raw, was, cur, stride, ft, prev, bpp, i) && i < stride
    requires predicted == Predicted(ft, raw[cur..cur + i], prev, i, bpp)
    modifies raw
    ensures Partway(raw, was, cur, stride, ft, prev, bpp, i + 1)
  {
    hide Predicted, Predict;
    ghost var done, f := raw[cur..cur + i], was[cur..cur + i + 1];
    assert raw[cur + i] == was[cur + i] by {
      assert raw[cur + i..][0] == was[cur + i..][0];
    }
    assert f[..i] == was[cur..cur + i];
    ghost var before := raw[..];
    raw[cur + i] := (raw[cur + i] + predicted) % 256;
    assert raw[cur..cur + i + 1] == done + [raw[cur + i]];
    assert raw[..cur] == before[..cur] && raw[cur + i + 1..] == before[cur + i + 1..];
    assert before[cur + i..][1..] == before[cur + i + 1..] && was[cur + i..][1..] == was[cur + i + 1..];
  }

  lemma {:induction false} SubHead(f: seq<byte>, prev: seq<byte>, bpp: nat)
    requires |f| <= |prev| && |f| <= bpp && bpp >= 1
    ensures Restored(1, f, prev, bpp) == f
  {
    if f != [] {
      SubHead(f[..|f| - 1], prev, bpp);
    }
  }

  /** The bytes of the row above, as seen while the row at `cur` is being restored. */
  lemma AboveInPlace(raw: array<byte>, was: seq<byte>, cur: nat, stride: nat, ft: nat, prev: seq<byte>, bpp: nat, i: nat)
    requires Partway(raw, was, cur, stride, ft, prev, bpp, i) && PrevAt(was, cur, stride, prev, false)
    ensures forall j :: 0 <= j < stride ==> raw[cur - stride - 1 + j] == prev[j]
  {
    forall j | 0 <= j < stride ensures raw[cur - stride - 1 + j] == prev[j] {
      assert raw[..cur][cur - stride - 1 + j] == was[..cur][cur - stride - 1 + j];
      assert was[cur - stride - 1..cur - 1][j] == was[cur - stride - 1 + j];
    }
  }

  method UnfilterSub(raw: array<byte>, cur: nat, stride: nat, ghost prev: seq<byte>, bpp: nat)
    requires Partway(raw, raw[..], cur, stride, 1, prev, bpp, 0) && bpp <= stride
    modifies raw
    ensures Partway(raw, old(raw[..]), cur, stride, 1, prev, bpp, stride)
  {
    ghost var was := raw[..];
    SubHead(was[cur..cur + bpp], prev, bpp);
    hide Restored;
    for i := bpp to stride
      invariant Partway(raw, was, cur, stride, 1, prev, bpp, i)
    {
      RestoreByte(raw, was, cur, stride, 1, prev, bpp, i, raw[cur + i - bpp]);
    }
  }

  method UnfilterUp(raw: array<byte>, cur: nat, stride: nat, ghost prev: seq<byte>, ghost bpp: nat)
    requires Partway(raw, raw[..], cur, stride, 2, prev, bpp, 0) && PrevAt(raw[..], cur, stride, prev, false)
    modifies raw
    ensures Partway(raw, old(raw[..]), cur, stride, 2, prev, bpp, stride)
  {
    ghost var was := raw[..];
    hide Restored;
    for i := 0 to stride
      invariant Partway(raw, was, cur, stride, 2, prev, bpp, i)
    {
      AboveInPlace(raw, was, cur, stride, 2, prev, bpp, i);
      RestoreByte(raw, was, cur, stride, 2, prev, bpp, i, raw[cur - stride - 1 + i]);
    }
  }

  method UnfilterAverage(raw: array<byte>, cur: nat, stride: nat, ghost prev: seq<byte>, bpp: nat, first: bool)
    requires Partway(raw, raw[..], cur, stride, 3, prev, bpp, 0) && PrevAt(raw[..], cur, stride, prev, first)
    modifies raw
    ensures Partway(raw, old(raw[..]), cur, stride, 3, prev, bpp, stride)
  {
    ghost var was := raw[..];
    hide Restored, Predicted, Partway, PrevAt;
    for i := 0 to stride
      invariant Partway(raw, was, cur, stride, 3, prev, bpp, i)
    {
      AverageHere(raw, was, cur, stride, prev, bpp, i, first);
      var a := if i >= bpp then raw[cur + i - bpp] else 0;
      var b := if first then 0 else raw[cur - stride - 1 + i];
      RestoreByte(raw, was, cur, stride, 3, prev, bpp, i, (a + b as int) / 2);
    }
  }

  lemma AverageHere(raw: array<byte>, was: seq<byte>, cur: nat, stride: nat, prev: seq<byte>, bpp: nat, i: nat, first: bool)
    requires Partway(raw, was, cur, stride, 3, prev, bpp, i) && PrevAt(was, cur, stride, prev, first) && i < stride
    ensures cur + stride <= raw.Length && bpp >= 1 && |prev| == stride && (!first ==> cur >= stride + 1)
    ensures Predicted(3, raw[cur..cur + i], prev, i, bpp) ==
      ((if i >= bpp then raw[cur + i - bpp] else 0) + (if first then 0 else raw[cur - stride - 1 + i]) as int) / 2
  {
    hide Restored, Paeth;
    if !first {
      AboveInPlace(raw, was, cur, stride, 3, prev, bpp, i);
    }
  }

  method UnfilterPaeth(raw: array<byte>, cur: nat, stride: nat, ghost prev: seq<byte>, bpp: nat, first: bool)
    requires Partway(raw, raw[..], cur, stride, 4, prev, bpp, 0) && PrevAt(raw[..], cur, stride, prev, first)
    modifies raw
    ensures Partway(raw, old(raw[..]), cur, stride, 4, prev, bpp, stride)
  {
    ghost var was := raw[..];
    hide Restored, Paeth, Predicted, Partway, PrevAt;
    for i := 0 to stride
      invariant Partway(raw, was, cur, stride, 4, prev, bpp, i)
    {
      PaethHere(raw, was, cur, stride, prev, bpp, i, first);
      var a := if i >= bpp then raw[cur + i - bpp] else 0;
      var b := if first then 0 else raw[cur - stride - 1 + i];
      var c := if i >= bpp && !first then raw[cur - stride - 1 + i - bpp] else 0;
      RestoreByte(raw, was, cur, stride, 4, prev, bpp, i, Paeth(a, b, c));
    }
  }

  /** The three neighbours the loop reads are the ones the filter is defined on. */
  lemma PaethHere(raw: array<byte>, was: seq<byte>, cur: nat, stride: nat, prev: seq<byte>, bpp: nat, i: nat, first: bool)
    requires Partway(raw, was, cur, stride, 4, prev, bpp, i) && PrevAt(was, cur, stride, prev, first) && i < stride
    ensures cur + stride <= raw.Length && bpp >= 1 && |prev| == stride && (!first ==> cur >= stride + 1)
    ensures Predicted(4, raw[cur..cur + i], prev, i, bpp) ==
      Paeth(if i >= bpp then raw[cur + i - bpp] else 0, if first then 0 else raw[cur - stride - 1 + i],
            if i >= bpp && !first then raw[cur - stride - 1 + i - bpp] else 0)
  {
    hide Restored, Paeth;
    if !first {
      AboveInPlace(raw, was, cur, stride, 4, prev, bpp, i);
    }
  }

  /** One row's in-place loop, by filter type. */
  method UnfilterRow(raw: array<byte>, cur: nat, stride: nat, ft: nat, ghost prev: seq<byte>, bpp: nat, first: bool)
    requires Partway(raw, raw[..], cur, stride, ft, prev, bpp, 0) && PrevAt(raw[..], cur, stride, prev, first)
    requires ft <= 4 && !(ft == 2 && first) && bpp <= stride
    modifies raw
    ensures Partway(raw, old(raw[..]), cur, stride, ft, prev, bpp, stride)
  {
    hide Restored;
    if ft == 1 {
      UnfilterSub(raw, cur, stride, prev, bpp);
    } else if ft == 2 {
      UnfilterUp(raw, cur, stride, prev, bpp);
    } else if ft == 3 {
      UnfilterAverage(raw, cur, stride, prev, bpp, first);
    } else if ft == 4 {
      UnfilterPaeth(raw, cur, stride, prev, bpp, first);
    } else {
      PassThrough(raw[cur..cur + stride], prev, bpp);
    }
  }

  lemma {:induction false} PassThrough(f: seq<byte>, prev: seq<byte>, bpp: nat)
    requires |f| <= |prev| && bpp >= 1
    ensures Restored(0, f, prev, bpp) == f
  {
    hide Restored;
    if f == [] {
      RestoredNothing(0, prev, bpp);
    } else {
      PassThrough(f[..|f| - 1], prev, bpp);
      PassOne(f, prev, bpp);
    }
  }

  lemma PassOne(f: seq<byte>, prev: seq<byte>, bpp: nat)
    requires 0 < |f| <= |prev| && bpp >= 1
    ensures var i := |f| - 1; Restored(0, f, prev, bpp) == Restored(0, f[..i], prev, bpp) + [f[i]]
  {
    hide Left;
  }

  /** The pixel loop of one row. */
  method PackRow(raw: array<byte>, cur: nat, ghost row: seq<byte>, w: nat, bpp: nat, img: array<nat>, at: nat)
    requires bpp == 3 || bpp == 4
    requires cur + w * bpp <= raw.Length && at + w <= img.Length && raw[cur..cur + w * bpp] == row
    modifies img
    ensures img[..at + w] == old(img[..at]) + RowPixels(row, w, bpp)
  {
    hide RowPixels, Pixel, Packed;
    PackedNone(row, bpp);
    assert img[at..at] == [];
    for x := 0 to w
      invariant img[..at] == old(img[..at])
      invariant Packed(img[at..at + x], row, x, bpp)
    {
      PixelInPlace(raw, cur, row, w, bpp, x);
      var px := cur + x * bpp;
      img[at + x] := 0x10000 * (raw[px] as int) + 0x100 * (raw[px + 1] as int) + raw[px + 2];
      PackedMore(img[at..at + x], row, x, bpp, img[at + x]);
      assert img[at..at + x + 1] == img[at..at + x] + [img[at + x]];
    }
    PackedAll(img[at..at + w], row, w, bpp);
    assert img[..at + w] == img[..at] + img[at..at + w];
  }

  /** The first `x` pixels of a row. */
  ghost predicate Packed(s: seq<nat>, row: seq<byte>, x: nat, bpp: nat) {
    (bpp == 3 || bpp == 4) && |s| == x && forall k :: 0 <= k < x ==> (k + 1) * bpp <= |row| && s[k] == Pixel(row, k, bpp)
  }

  lemma PackedNone(row: seq<byte>, bpp: nat)
    requires bpp == 3 || bpp == 4
    ensures Packed([], row, 0, bpp)
  {}

  lemma PackedMore(s: seq<nat>, row: seq<byte>, x: nat, bpp: nat, v: nat)
    requires Packed(s, row, x, bpp) && (x + 1) * bpp <= |row| && v == Pixel(row, x, bpp)
    ensures Packed(s + [v], row, x + 1, bpp)
  {
    hide Pixel;
  }

  lemma PackedAll(s: seq<nat>, row: seq<byte>, w: nat, bpp: nat)
    requires Packed(s, row, w, bpp) && |row| == w * bpp
    ensures s == RowPixels(row, w, bpp)
  {
    hide Pixel;
    RowPixelsAre(row, w, bpp, s);
  }

  lemma PixelInPlace(raw: array<byte>, cur: nat, row: seq<byte>, w: nat, bpp: nat, x: nat)
    requires (bpp == 3 || bpp == 4) && x < w && |row| == w * bpp
    requires cur + |row| <= raw.Length && raw[cur..cur + |row|] == row
    ensures (x + 1) * bpp <= |row| && cur + x * bpp + 2 < raw.Length
    ensures Pixel(row, x, bpp) ==
      0x10000 * (raw[cur + x * bpp] as int) + 0x100 * (raw[cur + x * bpp + 1] as int) + raw[cur + x * bpp + 2]
  {
    MulMono(bpp, x + 1, w);
    var k := x * bpp;
    assert raw[cur + k] == row[k] && raw[cur + k + 1] == row[k + 1] && raw[cur + k + 2] == row[k + 2];
  }

  lemma RowPixelsAre(row: seq<byte>, w: nat, bpp: nat, s: seq<nat>)
    requires (bpp == 3 || bpp == 4) && |row| == w * bpp && |s| == w
    requires forall k :: 0 <= k < w ==> (k + 1) * bpp <= |row| && s[k] == Pixel(row, k, bpp)
    ensures s == RowPixels(row, w, bpp)
  {
    hide Pixel;
  }

  /** One turn of the row loop: restores a row in place and appends its pixels. */
  method DecodeRow(raw: array<byte>, base: nat, w: nat, stride: nat, bpp: nat, img: array<nat>, at: nat, ghost rows: seq<seq<byte>>)
    returns (ok: bool, ghost row: seq<byte>)
    requires (bpp == 3 || bpp == 4) && w >= 1 && stride == w * bpp
    requires base + stride + 1 <= raw.Length && at + w <= img.Length
    requires PrevAt(raw[..], base + 1, stride, Above(rows, stride), rows == [])
    requires base == 0 <==> rows == []
    modifies raw, img
    ensures var was := old(raw[base..]);
            && (ok <==> was[0] <= 4 && !(was[0] == 2 && rows == []))
            && (ok ==> row == Restored(was[0], was[1..stride + 1], Above(rows, stride), bpp))
            && (ok ==> raw[base..] == [was[0]] + row + was[stride + 1..])
    ensures ok ==> img[..at + w] == old(img[..at]) + RowPixels(row, w, bpp)
  {
    hide RowPixels, Restored;
    var ft, cur := raw[base], base + 1;
    assert raw[base..][1..stride + 1] == raw[cur..cur + stride] && raw[base..][stride + 1..] == raw[cur + stride..];
    row := [];
    if ft > 4 || (ft == 2 && base == 0) {
      return false, row;
    }
    RestoredNothing(ft, Above(rows, stride), bpp);
    MulMono(bpp, 1, w);
    assert raw[cur..cur + 0] == [];
    UnfilterRow(raw, cur, stride, ft, Above(rows, stride), bpp, base == 0);
    row := raw[cur..cur + stride];
    RowParts(raw[..], base, stride);
    assert raw[..][base..] == raw[base..] && raw[..][cur..cur + stride] == row && raw[..][cur + stride..] == raw[cur + stride..];
    assert raw[..cur][base] == ft;
    PackRow(raw, cur, row, w, bpp, img, at);
    ok := true;
  }

  lemma RowParts(s: seq<byte>, base: nat, stride: nat)
    requires base + 1 + stride <= |s|
    ensures s[base..] == [s[base]] + s[base + 1..base + 1 + stride] + s[base + 1 + stride..]
  {}

  lemma RestoredNothing(ft: nat, prev: seq<byte>, bpp: nat)
    requires bpp >= 1
    ensures Restored(ft, [], prev, bpp) == []
  {
  }

  /** The same turn, in terms of what is left to restore. */
  method DecodeNextRow(raw: array<byte>, base: nat, w: nat, stride: nat, bpp: nat, img: array<nat>, at: nat, ghost rows: seq<seq<byte>>)
    returns (ok: bool, ghost row: seq<byte>)
    requires (bpp == 3 || bpp == 4) && w >= 1 && stride == w * bpp
    requires base + stride + 1 <= raw.Length && at + w <= img.Length
    requires PrevAt(raw[..], base + 1, stride, Above(rows, stride), rows == [])
    requires base == 0 <==> rows == []
    modifies raw, img
    ensures var before := RestoreRows(old(raw[base..]), stride, bpp, rows);
      if ok then |row| == stride && before == RestoreRows(raw[base + stride + 1..], stride, bpp, rows + [row])
      else before == BadFilter
    ensures ok ==> img[..at + w] == old(img[..at]) + RowPixels(row, w, bpp)
    ensures ok && base + stride + 1 < raw.Length ==> PrevAt(raw[..], base + stride + 2, stride, Above(rows + [row], stride), false)
  {
    hide RowPixels, Restored, RestoreRows;
    ghost var was := raw[base..];
    RestoreTurn(was, stride, bpp, rows);
    ok, row := DecodeRow(raw, base, w, stride, bpp, img, at, rows);
    if ok {
      NextRow(raw, base, was, row, stride, rows);
    }
  }

  /** Where row `y` starts when every row takes `n` places. */
  function RowStart(y: nat, n: nat): nat {
    y * n
  }

  lemma RowOffset(y: nat, h: nat, n: nat)
    requires y < h
    ensures RowStart(y, n) + n == RowStart(y + 1, n) <= RowStart(h, n)
  {
    MulMono(n, y + 1, h);
  }

  /** The row loop. */
  method DecodeRows(raw: array<byte>, w: nat, h: nat, bpp: nat, img: array<nat>) returns (ok: bool)
    requires (bpp == 3 || bpp == 4) && w >= 1
    requires raw.Length == RowStart(h, w * bpp + 1) && img.Length == RowStart(h, w)
    modifies raw, img
    ensures ok <==> FromRaw(old(raw[..]), w, h, bpp).Picture?
    ensures ok ==> FromRaw(old(raw[..]), w, h, bpp) == Picture(w, h, img[..])
  {
    hide RestoreRows, Pixels;
    ghost var rows;
    ok, rows := RowLoop(raw, w, h, w * bpp, bpp, img);
  }

  /** The state of the row loop: `rows` are restored and packed, and what is left to do leads to `goal`. */
  ghost predicate RowState(raw: array<byte>, img: array<nat>, base: nat, at: nat, w: nat, stride: nat, bpp: nat, rows: seq<seq<byte>>, goal: Rows)
    reads raw, img
  {
    && (bpp == 3 || bpp == 4) && w >= 1 && stride == w * bpp
    && base <= raw.Length && at <= img.Length && (base == 0 <==> rows == [])
    && Uniform(rows, stride) && |Above(rows, stride)| == stride
    && (base < raw.Length ==> PrevAt(raw[..], base + 1, stride, Above(rows, stride), rows == []))
    && RestoreRows(raw[base..], stride, bpp, rows) == goal
    && img[..at] == Pixels(rows, w, bpp)
  }

  method RowTurn(raw: array<byte>, base: nat, w: nat, stride: nat, bpp: nat, img: array<nat>, at: nat, ghost rows: seq<seq<byte>>, ghost goal: Rows)
    returns (ok: bool, ghost row: seq<byte>)
    requires RowState(raw, img, base, at, w, stride, bpp, rows, goal)
    requires base + stride + 1 <= raw.Length && at + w <= img.Length
    modifies raw, img
    ensures if ok then RowState(raw, img, base + stride + 1, at + w, w, stride, bpp, rows + [row], goal) else goal == BadFilter
  {
    hide RowPixels, Restored, RestoreRows, Pixels;
    ok, row := DecodeNextRow(raw, base, w, stride, bpp, img, at, rows);
    if ok {
      PixelsNext(rows, row, w, stride, bpp);
    }
  }

  method RowLoop(raw: array<byte>, w: nat, h: nat, stride: nat, bpp: nat, img: array<nat>) returns (ok: bool, ghost rows: seq<seq<byte>>)
    requires (bpp == 3 || bpp == 4) && w >= 1 && stride == w * bpp
    requires raw.Length == RowStart(h, stride + 1) && img.Length == RowStart(h, w)
    modifies raw, img
    ensures Uniform(rows, stride)
    ensures RestoreRows(old(raw[..]), stride, bpp, []) == if ok then Rows(rows) else BadFilter
    ensures ok ==> img[..] == Pixels(rows, w, bpp)
  {
    hide RowState, RowStart;
    rows := [];
    ghost var goal := RestoreRows(raw[..], stride, bpp, []);
    var y, base, at := 0, 0, 0;
    RowBegin(raw, img, w, stride, bpp);
    while y < h
      invariant y <= h && base == RowStart(y, stride + 1) && at == RowStart(y, w)
      invariant RowState(raw, img, base, at, w, stride, bpp, rows, goal)
    {
      RowOffset(y, h, stride + 1);
      RowOffset(y, h, w);
      ghost var row;
      ok, row := RowTurn(raw, base, w, stride, bpp, img, at, rows, goal);
      if !ok {
        return false, [];
      }
      rows := rows + [row];
      y, base, at := y + 1, base + stride + 1, at + w;
    }
    RowFinish(raw, img, w, stride, bpp, rows, goal);
    ok := true;
  }

  lemma RowBegin(raw: array<byte>, img: array<nat>, w: nat, stride: nat, bpp: nat)
    requires (bpp == 3 || bpp == 4) && w >= 1 && stride == w * bpp
    ensures RowStart(0, stride + 1) == RowStart(0, w) == 0
    ensures RowState(raw, img, 0, 0, w, stride, bpp, [], RestoreRows(raw[..], stride, bpp, [])) && Uniform([], stride)
  {
    assert raw[0..] == raw[..] && img[..0] == [];
  }

  lemma RowFinish(raw: array<byte>, img: array<nat>, w: nat, stride: nat, bpp: nat, rows: seq<seq<byte>>, goal: Rows)
    requires RowState(raw, img, raw.Length, img.Length, w, stride, bpp, rows, goal)
    ensures goal == Rows(rows) && img[..] == Pixels(rows, w, bpp) && Uniform(rows, stride)
  {
    RestoreTurn(raw[raw.Length..], stride, bpp, rows);
    assert img[..img.Length] == img[..];
  }

  lemma RestoreTurn(raw: seq<byte>, stride: nat, bpp: nat, rows: seq<seq<byte>>)
    requires bpp >= 1 && |Above(rows, stride)| == stride
    ensures RestoreRows(raw, stride, bpp, rows) ==
      if |raw| < stride + 1 then Rows(rows)
      else if raw[0] > 4 || (raw[0] == 2 && rows == []) then BadFilter
      else RestoreRows(raw[stride + 1..], stride, bpp, rows + [Restored(raw[0], raw[1..stride + 1], Above(rows, stride), bpp)])
  {
  }

  /** After a row is restored in place, it is the row above of the next one. */
  lemma NextRow(raw: array<byte>, base: nat, was: seq<byte>, row: seq<byte>, stride: nat, rows: seq<seq<byte>>)
    requires |row| == stride && base + stride + 1 <= raw.Length && |was| == raw.Length - base
    requires raw[base..] == [was[0]] + row + was[stride + 1..]
    ensures raw[base + stride + 1..] == was[stride + 1..]
    ensures base + stride + 1 < raw.Length ==> PrevAt(raw[..], base + stride + 2, stride, Above(rows + [row], stride), false)
  {
    assert raw[base..][stride + 1..] == raw[base + stride + 1..];
    assert raw[base..][1..stride + 1] == raw[base + 1..base + stride + 1] == row;
  }

  lemma PixelsNext(rows: seq<seq<byte>>, row: seq<byte>, w: nat, stride: nat, bpp: nat)
    requires (bpp == 3 || bpp == 4) && stride == w * bpp && Uniform(rows, stride) && |row| == stride
    ensures Uniform(rows + [row], stride) && |Above(rows + [row], stride)| == stride
    ensures Pixels(rows + [row], w, bpp) == Pixels(rows, w, bpp) + RowPixels(row, w, bpp)
  {
    assert (rows + [row])[..|rows|] == rows;
  }

  /** The chunk-walking loop. A chunk it would come back to for ever ends it here with `Endless`. */
  method WalkChunks(p: seq<byte>) returns (st: Found)
    ensures st == Walk(p, 8, Found(0, 0, 0, 0, 0))
  {
    hide TakeChunk;
    var pos := 8;
    st := Found(0, 0, 0, 0, 0);
    while pos + 8 <= |p|
      invariant st.Found? && Within(st, p)
      invariant Walk(p, pos, st) == Walk(p, 8, Found(0, 0, 0, 0, 0))
      decreases |p| - pos
    {
      var len := Be32(p, pos);
      if pos + 8 + len > |p| {
        return Malformed;
      }
      var tag := p[pos + 4..pos + 8];
      st := TakeChunk(p, tag, pos + 8, len, st);
      if st.Malformed? || tag == IEND {
        return;
      }
      var step := (12 + len) % WRAP32;
      if step == 0 {
        return if tag == IDAT then Malformed else Endless;
      }
      pos := pos + step;
    }
  }

  /** png_decode. The two allocations are the heap's business and may fail; `hangs` says that the chunk
      loop never ends. */
  method PngDecode(p: seq<byte>, rawAllocated: bool, imgAllocated: bool)
    returns (ok: bool, hangs: bool, img: array<nat>, w: nat, h: nat)
    ensures hangs <==> Decoded(p).Hangs?
    ensures ok <==> rawAllocated && imgAllocated && Decoded(p).Picture?
    ensures ok ==> Decoded(p) == Picture(w, h, img[..])
  {
    hide Walk, Inflated, FromRaw;
    ok, hangs, img, w, h := false, false, new nat[0], 0, 0;
    if |p| < 8 || p[..8] != SIGNATURE {
      return;
    }
    var st := WalkChunks(p);
    hangs := st.Endless?;
    if !st.Found? || st.width == 0 || st.height == 0 || st.idatLen == 0 {
      return;
    }
    var bpp := Channels(st.colorType);
    var rawSize := RawSize(st.width, st.height, bpp);
    if rawSize > MAX_OUTPUT || !rawAllocated {
      return;
    }
    var raw := new byte[rawSize];
    var got, n := Inflater.Inflate(p[st.idatPos..st.idatPos + st.idatLen], raw);
    if !got || n != rawSize || !imgAllocated {
      return;
    }
    assert raw[..n] == raw[..];
    w, h := st.width, st.height;
    img := new nat[h * w];
    ok := DecodeRows(raw, w, h, bpp, img);
  }
}
