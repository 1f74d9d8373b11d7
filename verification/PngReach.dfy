/** Every picture of the supported kind has a file that decodes to it. */
module PngReach {
  import opened Bits
  import opened Deflate
  import opened Encoder
  import opened EncoderReach
  import opened Png
  import opened PngEncoder

  const ZLIB: seq<byte> := [0x78, 0x01]

  /** The filtered image. */
  ghost function RawOf(rows: seq<seq<byte>>, filters: seq<byte>, w: nat, bpp: nat): seq<byte>
    requires |rows| == |filters| && w >= 1 && bpp >= 1 && Uniform(rows, w * bpp)
  {
    FilterRows(rows, filters, w * bpp, bpp, [])
  }

  /** A file with stored image data, no ancillary chunks and zero checksums. */
  ghost function PlainFile(rows: seq<seq<byte>>, filters: seq<byte>, w: nat, alpha: bool): File
    requires |rows| == |filters| && w >= 1 && Uniform(rows, w * if alpha then 4 else 3)
  {
    var bpp := if alpha then 4 else 3;
    var raw := RawOf(rows, filters, w, bpp);
    StoredBlocksExpand(raw, []);
    var zero := [0, 0, 0, 0];
    File(w, |rows|, alpha, ZLIB + Compressed(StoredBlocks(raw)), [], [], [zero, zero, zero], [])
  }

  lemma EveryPictureHasAFile(rows: seq<seq<byte>>, filters: seq<byte>, w: nat, alpha: bool)
    requires 1 <= w <= 16384 && 1 <= |rows| == |filters| <= 16384
    requires Uniform(rows, w * if alpha then 4 else 3) && ValidFilters(filters, true)
    requires RawSize(w, |rows|, if alpha then 4 else 3) <= MAX_OUTPUT
    ensures var f := PlainFile(rows, filters, w, alpha);
      f.Valid() && Decoded(f.Bytes()) == Picture(w, |rows|, Pixels(rows, w, if alpha then 4 else 3))
  {
    hide Uniform, ValidFilters, FilterRows, Pixels, Decoded, Compressed, StoredBlocks, ValidBlocks, ExpandBlocks, File.Bytes, RawSize, FromRaw;
    var bpp := if alpha then 4 else 3;
    FromFilteredRaw(rows, filters, w, |rows|, bpp);
    var raw := RawOf(rows, filters, w, bpp);
    StoredBlocksExpand(raw, []);
    assert [] + raw == raw;
    CompressedSize(raw);
    var f := PlainFile(rows, filters, w, alpha);
    assert ZLIB + Compressed(StoredBlocks(raw)) + [] == f.data;
    DecodeUndoesEncode(f, rows, filters, ZLIB, StoredBlocks(raw), []);
  }
}
