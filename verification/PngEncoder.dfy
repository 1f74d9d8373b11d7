/** A reference PNG encoder with a single IDAT chunk, and the proof that decoding undoes it. */
module PngEncoder {
  import opened Bits
  import opened Deflate
  import opened Encoder
  import opened Png

  datatype Chunk = Chunk(tag: seq<byte>, data: seq<byte>, crc: seq<byte>)

  /** Chunk lengths up to 2^32 - 13, past which the decoder's 32-bit sum wraps; the PNG limit is 2^31 - 1. */
  const MAX_LENGTH: nat := 0xFFFF_FFF3

  predicate ValidChunk(c: Chunk) {
    |c.tag| == |c.crc| == 4 && |c.data| <= MAX_LENGTH
  }

  /** A chunk the decoder passes over. */
  predicate Ancillary(c: Chunk) {
    ValidChunk(c) && c.tag != IHDR && c.tag != IDAT && c.tag != IEND
  }

  type Skipped = c: Chunk | Ancillary(c) witness Chunk([0, 0, 0, 0], [], [0, 0, 0, 0])

  function Be32Bytes(v: nat): (s: seq<byte>)
    requires v < 0x1_0000_0000
    ensures |s| == 4 && Be32(s, 0) == v
  {
    [v / 0x100_0000, v / 0x1_0000 % 0x100, v / 0x100 % 0x100, v % 0x100]
  }

  function ChunkBytes(c: Chunk): (s: seq<byte>)
    requires |c.data| < 0x1_0000_0000
  {
    Be32Bytes(|c.data|) + c.tag + c.data + c.crc
  }

  function ChunksBytes(cs: seq<Skipped>): seq<byte>
  {
    if cs == [] then [] else ChunkBytes(cs[0]) + ChunksBytes(cs[1..])
  }

  lemma Be32At(p: seq<byte>, pos: nat, i: nat)
    requires pos + i + 4 <= |p|
    ensures Be32(p, pos + i) == Be32(p[pos..], i)
  {
  }

  /** Where the fields of a chunk at `pos` are, and the walk over it. */
  lemma WalkChunk(p: seq<byte>, pos: nat, c: Chunk, rest: seq<byte>, st: Found)
    requires ValidChunk(c) && st.Found? && Within(st, p) && pos <= |p|
    requires p[pos..] == ChunkBytes(c) + rest
    ensures var at, next := pos + 8, pos + |ChunkBytes(c)|;
      && at + |c.data| + 4 == next <= |p| && p[next..] == rest && p[at..at + |c.data|] == c.data
      && var st' := TakeChunk(p, c.tag, at, |c.data|, st);
         Walk(p, pos, st) == if st'.Malformed? || c.tag == IEND then st' else Walk(p, next, st')
  {
    hide TakeChunk, Walk, ChunkBytes, Be32Bytes, Be32;
    ChunkAt(p, pos, c, rest);
    WalkUnfolds(p, pos, st, |c.data|, c.tag);
  }

  lemma ChunkAt(p: seq<byte>, pos: nat, c: Chunk, rest: seq<byte>)
    requires ValidChunk(c) && pos <= |p| && p[pos..] == ChunkBytes(c) + rest
    ensures var at, next := pos + 8, pos + |ChunkBytes(c)|;
      && at + |c.data| + 4 == next <= |p| && p[next..] == rest && p[at..at + |c.data|] == c.data
      && Be32(p, pos) == |c.data| && p[pos + 4..pos + 8] == c.tag
  {
    var q, len := p[pos..], Be32Bytes(|c.data|);
    Be32At(p, pos, 0);
    assert q == len + c.tag + c.data + c.crc + rest;
    assert Be32(q, 0) == Be32(len, 0);
    hide Be32Bytes, Be32;
    assert q[4..8] == c.tag && q[8..8 + |c.data|] == c.data && q[12 + |c.data|..] == rest;
    assert p[pos + 4..pos + 8] == q[4..8] && p[pos + 8..pos + 8 + |c.data|] == q[8..8 + |c.data|];
  }

  lemma WalkUnfolds(p: seq<byte>, pos: nat, st: Found, len: nat, tag: seq<byte>)
    requires st.Found? && Within(st, p) && pos + 8 + len <= |p| && Be32(p, pos) == len <= MAX_LENGTH && tag == p[pos + 4..pos + 8]
    ensures var st' := TakeChunk(p, tag, pos + 8, len, st);
      Walk(p, pos, st) == if st'.Malformed? || tag == IEND then st' else Walk(p, pos + 12 + len, st')
  {
    hide TakeChunk, Be32;
  }

  lemma TakeSkipped(p: seq<byte>, c: Skipped, at: nat, st: Found)
    requires st.Found? && Within(st, p) && at + |c.data| <= |p|
    ensures TakeChunk(p, c.tag, at, |c.data|, st) == st && c.tag != IEND
  {
  }

  lemma {:induction false} WalkSkips(p: seq<byte>, pos: nat, cs: seq<Skipped>, rest: seq<byte>, st: Found)
    requires st.Found? && Within(st, p) && pos <= |p|
    requires p[pos..] == ChunksBytes(cs) + rest
    ensures var next := pos + |ChunksBytes(cs)|; next <= |p| && p[next..] == rest && Walk(p, pos, st) == Walk(p, next, st)
    decreases |cs|
  {
    hide Walk, TakeChunk, ChunkBytes, Be32;
    if cs != [] {
      var c, tail := cs[0], ChunksBytes(cs[1..]);
      assert ChunksBytes(cs) + rest == ChunkBytes(c) + (tail + rest);
      WalkChunk(p, pos, c, tail + rest, st);
      TakeSkipped(p, c, pos + 8, st);
      WalkSkips(p, pos + |ChunkBytes(c)|, cs[1..], rest, st);
    } else {
      assert p[pos..] == rest;
    }
  }

  /** The header chunk is accepted and sets the image's dimensions. */
  lemma TakeHeader(p: seq<byte>, at: nat, w: nat, h: nat, ct: byte)
    requires 1 <= w <= 16384 && 1 <= h <= 16384 && (ct == 2 || ct == 6)
    requires at + 13 <= |p| && p[at..at + 13] == Be32Bytes(w) + Be32Bytes(h) + [8, ct, 0, 0, 0]
    ensures Within(Found(0, 0, 0, 0, 0), p)
    ensures TakeChunk(p, IHDR, at, 13, Found(0, 0, 0, 0, 0)) == Found(w, h, ct, 0, 0)
  {
    var a, b, d := Be32Bytes(w), Be32Bytes(h), p[at..at + 13];
    assert d[..4] == a && d[4..8] == b;
    assert forall k :: 0 <= k < 13 ==> d[k] == p[at + k];
    assert Be32(p, at) == Be32(a, 0) by {
      assert p[at] == a[0] && p[at + 1] == a[1] && p[at + 2] == a[2] && p[at + 3] == a[3];
    }
    assert Be32(p, at + 4) == Be32(b, 0) by {
      assert p[at + 4] == b[0] && p[at + 5] == b[1] && p[at + 6] == b[2] && p[at + 7] == b[3];
    }
    hide Be32, Be32Bytes;
    assert p[at + 8] == d[8] && p[at + 9] == d[9] && p[at + 10] == d[10] && p[at + 11] == d[11] && p[at + 12] == d[12];
  }

  /** The image data chunk becomes the image data. */
  lemma TakeData(p: seq<byte>, at: nat, len: nat, st: Found)
    requires st.Found? && st.idatLen == 0 && at + len <= |p| && len > 0 && Within(st, p)
    ensures TakeChunk(p, IDAT, at, len, st) == st.(idatPos := at, idatLen := len)
  {
  }

  lemma TakeEnd(p: seq<byte>, at: nat, st: Found)
    requires st.Found? && at <= |p| && Within(st, p)
    ensures TakeChunk(p, IEND, at, 0, st) == st
  {
  }

  /** A one-IDAT file with its header fields, its image data, and everything the decoder ignores. */
  datatype File = File(w: nat, h: nat, alpha: bool, data: seq<byte>, before: seq<Skipped>, after: seq<Skipped>,
                       crcs: seq<seq<byte>>, junk: seq<byte>)
  {
    predicate Valid() {
      && 1 <= w <= 16384 && 1 <= h <= 16384 && 1 <= |data| <= MAX_LENGTH
      && |crcs| == 3 && |crcs[0]| == |crcs[1]| == |crcs[2]| == 4
    }

    function ColorType(): byte {
      if alpha then 6 else 2
    }

    function Bpp(): (n: nat)
      ensures n == 3 || n == 4
    {
      if alpha then 4 else 3
    }

    function Header(): Chunk
      requires Valid()
    {
      Chunk(IHDR, Be32Bytes(w) + Be32Bytes(h) + [8, ColorType(), 0, 0, 0], crcs[0])
    }

    function Bytes(): seq<byte>
      requires Valid()
    {
      SIGNATURE + (ChunkBytes(Header()) + (ChunksBytes(before) + (ChunkBytes(Chunk(IDAT, data, crcs[1]))
        + (ChunksBytes(after) + (ChunkBytes(Chunk(IEND, [], crcs[2])) + junk)))))
    }
  }

  /** The walk over a whole file finds the dimensions and exactly the image data. */
  lemma WalkFile(f: File)
    requires f.Valid()
    ensures var p, st := f.Bytes(), Walk(f.Bytes(), 8, Found(0, 0, 0, 0, 0));
      && |p| >= 8 && p[..8] == SIGNATURE
      && st.Found? && st.width == f.w && st.height == f.h && st.colorType == f.ColorType()
      && st.idatLen == |f.data| && p[st.idatPos..st.idatPos + st.idatLen] == f.data
  {
    hide Walk, TakeChunk, ChunkBytes, ChunksBytes, Be32, Be32Bytes;
    var p, hdr, data, end := f.Bytes(), f.Header(), Chunk(IDAT, f.data, f.crcs[1]), Chunk(IEND, [], f.crcs[2]);
    var r4 := ChunkBytes(end) + f.junk;
    var r3 := ChunksBytes(f.after) + r4;
    var r2 := ChunkBytes(data) + r3;
    var r1 := ChunksBytes(f.before) + r2;
    assert p[8..] == ChunkBytes(hdr) + r1;
    WalkChunk(p, 8, hdr, r1, Found(0, 0, 0, 0, 0));
    TakeHeader(p, 16, f.w, f.h, f.ColorType());
    WalkTail(f, p, 8 + |ChunkBytes(hdr)|, Found(f.w, f.h, f.ColorType(), 0, 0));
  }

  /** The walk after the header chunk. */
  lemma WalkTail(f: File, p: seq<byte>, start: nat, st: Found)
    requires f.Valid() && start <= |p| && st.Found? && st.idatLen == 0 && Within(st, p)
    requires p[start..] == ChunksBytes(f.before) + (ChunkBytes(Chunk(IDAT, f.data, f.crcs[1]))
        + (ChunksBytes(f.after) + (ChunkBytes(Chunk(IEND, [], f.crcs[2])) + f.junk)))
    ensures var st' := Walk(p, start, st);
      && st'.Found? && st' == st.(idatPos := st'.idatPos, idatLen := |f.data|)
      && st'.idatPos + |f.data| <= |p| && p[st'.idatPos..st'.idatPos + |f.data|] == f.data
  {
    hide Walk, TakeChunk, ChunkBytes, ChunksBytes;
    var data, end := Chunk(IDAT, f.data, f.crcs[1]), Chunk(IEND, [], f.crcs[2]);
    var r4 := ChunkBytes(end) + f.junk;
    var r3 := ChunksBytes(f.after) + r4;
    WalkSkips(p, start, f.before, ChunkBytes(data) + r3, st);
    var at := start + |ChunksBytes(f.before)|;
    WalkChunk(p, at, data, r3, st);
    TakeData(p, at + 8, |f.data|, st);
    var st2 := st.(idatPos := at + 8, idatLen := |f.data|);
    at := at + |ChunkBytes(data)|;
    WalkSkips(p, at, f.after, r4, st2);
    at := at + |ChunksBytes(f.after)|;
    WalkChunk(p, at, end, f.junk, st2);
    TakeEnd(p, at + 8, st2);
  }

  /** Image data split over two chunks. */
  function SplitBytes(f: File, second: Chunk, tail: seq<byte>): seq<byte>
    requires f.Valid() && ValidChunk(second)
  {
    SIGNATURE + (ChunkBytes(f.Header()) + (ChunksBytes(f.before) + (ChunkBytes(Chunk(IDAT, f.data, f.crcs[1]))
      + (ChunksBytes(f.after) + (ChunkBytes(second) + tail)))))
  }

  /** It is never accepted, even with nothing between the chunks: the test for adjacent chunks compares
      the places of their data, between which lie a checksum, a length and a tag. */
  lemma SplitDataRejected(f: File, second: Chunk, tail: seq<byte>)
    requires f.Valid() && ValidChunk(second) && second.tag == IDAT && second.data != []
    ensures Decoded(SplitBytes(f, second, tail)) == Rejected
  {
    hide Walk, TakeChunk, ChunkBytes, ChunksBytes, Be32, Be32Bytes, Decoded;
    var p, hdr, data := SplitBytes(f, second, tail), f.Header(), Chunk(IDAT, f.data, f.crcs[1]);
    var r4 := ChunkBytes(second) + tail;
    var r3 := ChunksBytes(f.after) + r4;
    var r2 := ChunkBytes(data) + r3;
    var r1 := ChunksBytes(f.before) + r2;
    assert p[8..] == ChunkBytes(hdr) + r1 && p[..8] == SIGNATURE;
    WalkChunk(p, 8, hdr, r1, Found(0, 0, 0, 0, 0));
    TakeHeader(p, 16, f.w, f.h, f.ColorType());
    SplitTail(p, 8 + |ChunkBytes(hdr)|, f.before, data, f.after, second, tail, Found(f.w, f.h, f.ColorType(), 0, 0));
    MalformedRejected(p);
  }

  lemma MalformedRejected(p: seq<byte>)
    requires |p| >= 8 && p[..8] == SIGNATURE && Walk(p, 8, Found(0, 0, 0, 0, 0)).Malformed?
    ensures Decoded(p) == Rejected
  {}

  lemma SplitTail(p: seq<byte>, start: nat, before: seq<Skipped>, data: Chunk, after: seq<Skipped>, second: Chunk, tail: seq<byte>, st: Found)
    requires start <= |p| && st.Found? && st.idatLen == 0 && Within(st, p)
    requires ValidChunk(data) && data.tag == IDAT && data.data != [] && ValidChunk(second) && second.tag == IDAT && second.data != []
    requires p[start..] == ChunksBytes(before) + (ChunkBytes(data) + (ChunksBytes(after) + (ChunkBytes(second) + tail)))
    ensures Walk(p, start, st) == Malformed
  {
    hide Walk, TakeChunk, ChunkBytes, ChunksBytes;
    var r4 := ChunkBytes(second) + tail;
    var r3 := ChunksBytes(after) + r4;
    WalkSkips(p, start, before, ChunkBytes(data) + r3, st);
    var at := start + |ChunksBytes(before)|;
    WalkChunk(p, at, data, r3, st);
    TakeData(p, at + 8, |data.data|, st);
    var st2 := st.(idatPos := at + 8, idatLen := |data.data|);
    at := at + |ChunkBytes(data)|;
    WalkSkips(p, at, after, r4, st2);
    at := at + |ChunksBytes(after)|;
    WalkChunk(p, at, second, tail, st2);
    TakeMore(p, at + 8, |second.data|, st2);
  }

  /** More image data is taken only from the very byte after the data so far. */
  lemma TakeMore(p: seq<byte>, at: nat, len: nat, st: Found)
    requires st.Found? && st.idatLen > 0 && at + len <= |p| && len > 0 && Within(st, p)
    ensures TakeChunk(p, IDAT, at, len, st) == if st.idatPos + st.idatLen == at then st.(idatLen := st.idatLen + len) else Malformed
  {
  }

  lemma PictureFromRaw(p: seq<byte>, st: Found, raw: seq<byte>)
    requires Within(st, p) && st.Found? && st.width > 0 && st.height > 0 && st.idatLen > 0
    requires |raw| == RawSize(st.width, st.height, Channels(st.colorType)) <= MAX_OUTPUT
    requires var r := Inflated(p[st.idatPos..st.idatPos + st.idatLen], |raw|); r.Ok? && r.out == raw
    ensures FromChunks(p, st) == FromRaw(raw, st.width, st.height, Channels(st.colorType))
  {
    hide Inflated, FromRaw, Channels, RawSize;
  }

  lemma FromFilteredRaw(rows: seq<seq<byte>>, filters: seq<byte>, w: nat, h: nat, bpp: nat)
    requires (bpp == 3 || bpp == 4) && w >= 1
    requires |rows| == |filters| == h && Uniform(rows, w * bpp) && ValidFilters(filters, true)
    ensures var raw := FilterRows(rows, filters, w * bpp, bpp, []);
      |raw| == RawSize(w, h, bpp) && FromRaw(raw, w, h, bpp) == Picture(w, h, Pixels(rows, w, bpp))
  {
    hide FilterRows, Pixels, RestoreRows;
    RestoreUndoesFilterRows(rows, filters, w * bpp, bpp, []);
    assert [] + rows == rows;
  }

  /** Decoding a one-IDAT file, whatever filters, DEFLATE blocks, code tables, ancillary chunks,
      checksums and trailing bytes it was written with, gives back exactly the image's pixels. */
  lemma DecodeUndoesEncode(f: File, rows: seq<seq<byte>>, filters: seq<byte>, zlib: seq<byte>, blocks: seq<Encoder.Block>, trailer: seq<byte>)
    requires f.Valid() && RawSize(f.w, f.h, f.Bpp()) <= MAX_OUTPUT
    requires |rows| == |filters| == f.h && Uniform(rows, f.w * f.Bpp()) && ValidFilters(filters, true)
    requires |zlib| == 2 && ZlibHeader(zlib) && blocks != [] && ValidBlocks(blocks, [])
    requires ExpandBlocks(blocks, []) == FilterRows(rows, filters, f.w * f.Bpp(), f.Bpp(), [])
    requires f.data == zlib + Compressed(blocks) + trailer
    ensures Decoded(f.Bytes()) == Picture(f.w, f.h, Pixels(rows, f.w, f.Bpp()))
  {
    hide ValidBlocks, ExpandBlocks, Compressed, ZlibHeader, FilterRows, Walk, Inflated, Pixels, FromRaw, File.Bytes, FromChunks, Uniform, ValidFilters, RawSize;
    WalkFile(f);
    FromFilteredRaw(rows, filters, f.w, f.h, f.Bpp());
    var raw := ExpandBlocks(blocks, []);
    InflateUndoesCompress(zlib, blocks, trailer, |raw|);
    PictureFromRaw(f.Bytes(), Walk(f.Bytes(), 8, Found(0, 0, 0, 0, 0)), raw);
  }
}
