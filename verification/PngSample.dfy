/** A whole file, byte by byte, and its picture. */
module PngSample {
  import opened Bits
  import opened Deflate
  import opened Png
  import opened PngEncoder
  import FixedCode

  /** One pixel by two, three bytes to a pixel: a row without a filter, and one with the Paeth filter, in one
      stored block. The checksums, which the decoder skips, are zero. */
  const HEADER_CHUNK: seq<byte> :=
    [0, 0, 0, 13, 0x49, 0x48, 0x44, 0x52, 0, 0, 0, 1, 0, 0, 0, 2, 8, 2, 0, 0, 0, 0, 0, 0, 0]
  const ROWS: seq<byte> := [0, 10, 20, 30, 4, 5, 5, 5]
  const DATA: seq<byte> := [0x78, 0x01, 0x01, 8, 0, 247, 255] + ROWS
  const DATA_CHUNK: seq<byte> := [0, 0, 0, 15, 0x49, 0x44, 0x41, 0x54] + DATA + [0, 0, 0, 0]
  const END_CHUNK: seq<byte> := [0, 0, 0, 0, 0x49, 0x45, 0x4E, 0x44, 0, 0, 0, 0]
  const FILE: seq<byte> := [0x89, 0x50, 0x4E, 0x47, 0x0D, 0x0A, 0x1A, 0x0A] + HEADER_CHUNK + DATA_CHUNK + END_CHUNK

  function Sample(): File {
    File(1, 2, false, DATA, [], [], [ZERO, ZERO, ZERO], [])
  }

  const ZERO: seq<byte> := [0, 0, 0, 0]

  lemma Lengths()
    ensures Be32Bytes(0) == [0, 0, 0, 0] && Be32Bytes(1) == [0, 0, 0, 1] && Be32Bytes(2) == [0, 0, 0, 2]
    ensures Be32Bytes(13) == [0, 0, 0, 13] && Be32Bytes(15) == [0, 0, 0, 15]
  {}

  lemma HeaderBytes()
    ensures Sample().Valid() && ChunkBytes(Sample().Header()) == HEADER_CHUNK
  {
    Lengths();
    hide Be32Bytes;
    assert |Sample().Header().data| == 13;
  }

  lemma DataBytes()
    ensures ChunkBytes(Chunk(IDAT, DATA, ZERO)) == DATA_CHUNK
  {
    Lengths();
    hide Be32Bytes;
    assert |DATA| == 15;
  }

  lemma EndBytes()
    ensures ChunkBytes(Chunk(IEND, [], ZERO)) == END_CHUNK
  {
    Lengths();
    hide Be32Bytes;
  }

  lemma SampleBytes()
    ensures Sample().Valid() && Sample().Bytes() == FILE
  {
    hide ChunkBytes, File.Header;
    HeaderBytes();
    DataBytes();
    EndBytes();
    Assembled(FILE[..8], HEADER_CHUNK, DATA_CHUNK, END_CHUNK);
  }

  lemma Assembled(s: seq<byte>, a: seq<byte>, b: seq<byte>, c: seq<byte>)
    ensures s + (a + ([] + (b + ([] + (c + []))))) == s + a + b + c
  {}

  const FIRST: seq<byte> := [10, 20, 30]
  const SECOND: seq<byte> := [15, 25, 35]

  lemma SampleRows()
    ensures FilterRows([FIRST, SECOND], [0, 4], 3, 3, []) == ROWS
  {
    hide Filtered;
    FirstRow();
    SecondRow();
    NoRows();
    var both: seq<byte>, last: seq<byte> := [0, 4], [4];
    assert [FIRST, SECOND][1..] == [SECOND] && [SECOND][1..] == [] && both[1..] == last && last[1..] == [];
    assert [] + [FIRST] == [FIRST];
    assert FilterRows([SECOND], [4], 3, 3, [FIRST]) == [4] + [5, 5, 5] + [];
  }

  lemma NoRows()
    ensures Above([], 3) == ZeroRow(3) && |Above([FIRST], 3)| == 3
    ensures FilterRows([], [], 3, 3, [FIRST] + [SECOND]) == []
  {}

  lemma SamplePixels()
    ensures Uniform([FIRST, SECOND], 3) && Pixels([FIRST, SECOND], 1, 3) == [0x0A141E, 0x0F1923]
  {
    hide Pixel;
    FirstPixel();
    assert [FIRST, SECOND][..1] == [FIRST] && [FIRST][..0] == [];
    assert RowPixels(FIRST, 1, 3) == [0x0A141E] && RowPixels(SECOND, 1, 3) == [0x0F1923];
    assert Pixels([FIRST], 1, 3) == [0x0A141E];
  }

  lemma FirstPixel()
    ensures Pixel(FIRST, 0, 3) == 0x0A141E && Pixel(SECOND, 0, 3) == 0x0F1923
  {}

  lemma RestoredRows()
    ensures FromRaw(ROWS, 1, 2, 3) == Picture(1, 2, [0x0A141E, 0x0F1923])
  {
    hide FilterRows, Pixels, FromRaw;
    SampleRows();
    SamplePixels();
    FromFilteredRaw([FIRST, SECOND], [0, 4], 1, 2, 3);
  }

  lemma FirstRow()
    ensures Filtered(0, FIRST, ZeroRow(3), 3) == FIRST
  {
    hide Paeth;
  }

  lemma SecondRow()
    ensures Filtered(4, SECOND, FIRST, 3) == [5, 5, 5]
  {
  }

  /** The second row is 15, 25, 35: to each byte the one above is nearest. */
  lemma SampleDecodes()
    ensures Decoded(FILE) == Picture(1, 2, [0x0A141E, 0x0F1923])
  {
    hide Walk, Inflated, FromRaw, File.Bytes;
    SampleBytes();
    WalkFile(Sample());
    FixedCode.StoredFile(ROWS, [], 8);
    assert DATA == [0x78, 0x01] + (FixedCode.StoredHead(8) + ROWS + []);
    RestoredRows();
    PictureFromRaw(FILE, Walk(FILE, 8, Found(0, 0, 0, 0, 0)), ROWS);
  }
}
