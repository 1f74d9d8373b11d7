/** The fixed code and the length, distance and code-length alphabets in the numbers of sections 3.2.5 to
    3.2.7 of RFC 1951, and the streams written with those numbers. */
module FixedCode {
  import opened Bits
  import opened BitReading
  import opened Huffman
  import opened Deflate
  import opened Encoder

  // ---- lengths and distances ----

  /** The smallest length of a length code: one length a code up to 10, then four codes to each number of
      extra bits, and one more code for 258. */
  function LengthStart(code: nat): nat
    requires code < 29
  {
    if code < 8 then 3 + code else if code < 28 then 3 + (4 + code % 4) * Pow2(code / 4 - 1) else 258
  }

  function LengthWidth(code: nat): nat
    requires code < 29
  {
    if code < 8 || code == 28 then 0 else code / 4 - 1
  }

  /** The smallest distance of a distance code: four codes of one distance, then two to each number of extra bits. */
  function DistanceStart(code: nat): nat
    requires code < 30
  {
    if code < 4 then 1 + code else 1 + (2 + code % 2) * Pow2(code / 2 - 1)
  }

  function DistanceWidth(code: nat): nat
    requires code < 30
  {
    if code < 4 then 0 else code / 2 - 1
  }

  lemma Powers()
    ensures Pow2(0) == 1 && Pow2(1) == 2 && Pow2(2) == 4 && Pow2(3) == 8 && Pow2(4) == 16 && Pow2(5) == 32
    ensures Pow2(6) == 64 && Pow2(7) == 128 && Pow2(8) == 256 && Pow2(9) == 512 && Pow2(10) == 1024
    ensures Pow2(11) == 2048 && Pow2(12) == 4096 && Pow2(13) == 8192
  {}

  lemma LengthNumbers(code: nat)
    requires code < 29
    ensures LenBase(code) == LengthStart(code) && LenExtra(code) == LengthWidth(code)
  {
    Powers();
    hide Pow2;
  }

  lemma DistanceNumbers(code: nat)
    requires code < 30
    ensures DistBase(code) == DistanceStart(code) && DistExtra(code) == DistanceWidth(code)
  {
    hide DistBase, DistanceStart;
    DistanceStarts(code);
  }

  lemma DistanceStarts(code: nat)
    requires code < 30
    ensures DistBase(code) == DistanceStart(code)
  {
    Powers();
    hide Pow2;
  }

  /** The lengths of the codes follow on from each other, from 3 to 258, which has a code of its own as well. */
  lemma LengthsCovered(code: nat)
    requires code < 29
    ensures LenBase(0) == 3 && LenBase(28) == 258 && LenExtra(28) == 0
    ensures code < 28 ==> LenBase(code) + Pow2(LenExtra(code)) == if code < 27 then LenBase(code + 1) else 259
  {
    hide LenBase, LenExtra, Pow2;
    Powers();
    LengthNumbers(0); LengthNumbers(28); LengthNumbers(code);
    if code < 27 {
      LengthNumbers(code + 1);
      if code >= 8 { NextPower(code / 4 - 1, code % 4, 4); }
    }
  }

  /** One step of `base` steps of the size of a power, and the next power after the last. */
  lemma NextPower(e: nat, m: nat, base: nat)
    requires m < base
    ensures (base + m) * Pow2(e) + Pow2(e) == (base + m + 1) * Pow2(e)
    ensures Pow2(e + 1) == 2 * Pow2(e) && (base + base) * Pow2(e) == base * Pow2(e + 1)
  {}

  /** The distances of the codes follow on from each other, from 1 to 32768. */
  lemma DistancesCovered(code: nat)
    requires code < 30
    ensures DistBase(0) == 1
    ensures DistBase(code) + Pow2(DistExtra(code)) == if code < 29 then DistBase(code + 1) else 32769
  {
    hide DistBase, DistExtra, Pow2;
    Powers();
    DistanceNumbers(0); DistanceNumbers(code);
    if code < 29 {
      DistanceNumbers(code + 1);
      if code >= 4 { NextPower(code / 2 - 1, code % 2, 2); }
    }
  }

  lemma {:induction false} DistancesAscend(code: nat, other: nat)
    requires code < other < 30
    ensures DistBase(code) + Pow2(DistExtra(code)) <= DistBase(other)
  {
    hide DistBase, DistExtra;
    DistancesCovered(other - 1);
    if code < other - 1 {
      DistancesAscend(code, other - 1);
    }
  }

  /** The distance code is the one whose range holds the distance. */
  lemma DistanceCodeIs(d: nat, code: nat)
    requires code < 30 && DistanceStart(code) <= d < DistanceStart(code) + Pow2(DistanceWidth(code))
    ensures 1 <= d <= 32768 && DistanceCode(d) == code
  {
    hide DistBase, DistExtra, DistanceStart, DistanceWidth, DistanceCode;
    DistanceNumbers(code);
    DistancesCovered(code);
    if code > 0 { DistancesAscend(0, code); }
    if code < 29 { DistancesAscend(code, 29); DistancesCovered(29); }
    var other := DistanceCode(d);
    if other < code { DistancesAscend(other, code); }
    if code < other { DistancesAscend(code, other); }
  }

  /** The order in which the lengths of the code-length code come: the repeat symbols, then 0, then 8 and
      from there alternately down and up. */
  lemma RankNumbers(k: nat)
    requires k < 19
    ensures ClcOrder(if k >= 16 then k - 16 else if k == 0 then 3 else if k >= 8 then 2 * k - 12 else 19 - 2 * k) == k
  {}

  // ---- the fixed code ----

  lemma FixedCounts(s: nat, l: nat)
    requires s < 288
    ensures |FIXED_LIT| == 288
    ensures Count(FIXED_LIT[..s], l) ==
      if l == 8 then (if s < 144 then s else if s < 280 then 144 else s - 136)
      else if l == 9 then (if s < 144 then 0 else if s < 256 then s - 144 else 112)
      else if l == 7 then (if s < 256 then 0 else if s < 280 then s - 256 else 24)
      else 0
  {
    hide Count;
    var a, b, c := Repeat<nat>(8, 144), Repeat<nat>(9, 112), Repeat<nat>(7, 24);
    if s < 144 {
      assert FIXED_LIT[..s] == Repeat<nat>(8, s);
      CountRepeat(8, s, l);
    } else if s < 256 {
      assert FIXED_LIT[..s] == a + Repeat<nat>(9, s - 144);
      CountRepeat(8, 144, l); CountRepeat(9, s - 144, l);
      CountConcat(a, Repeat<nat>(9, s - 144), l);
    } else if s < 280 {
      assert FIXED_LIT[..s] == a + b + Repeat<nat>(7, s - 256);
      CountRepeat(8, 144, l); CountRepeat(9, 112, l); CountRepeat(7, s - 256, l);
      CountConcat(a, b, l);
      CountConcat(a + b, Repeat<nat>(7, s - 256), l);
    } else {
      assert FIXED_LIT[..s] == a + b + c + Repeat<nat>(8, s - 280);
      CountRepeat(8, 144, l); CountRepeat(9, 112, l); CountRepeat(7, 24, l); CountRepeat(8, s - 280, l);
      CountConcat(a, b, l);
      CountConcat(a + b, c, l);
      CountConcat(a + b + c, Repeat<nat>(8, s - 280), l);
    }
  }

  lemma {:induction false} FixedFirstCodes(l: nat)
    requires l <= 9
    ensures FirstCode(FIXED_LIT, l) == if l == 9 then 0x190 else if l == 8 then 0x30 else 0
    ensures l <= 5 ==> FirstCode(FIXED_DIST, l) == 0
  {
    hide Count, Repeat;
    if l > 1 {
      CountFixed(l - 1);
      FixedFirstCodes(l - 1);
    }
  }

  /** The bits of a literal or length symbol of the fixed code. */
  function SymbolBits(s: nat): seq<bool>
    requires s < 288
  {
    if s < 144 then MsbBits(0x30 + s, 8)
    else if s < 256 then MsbBits(0x190 + s - 144, 9)
    else if s < 280 then MsbBits(s - 256, 7)
    else MsbBits(0xC0 + s - 280, 8)
  }

  lemma FixedLitCode(s: nat)
    requires s < 288
    ensures |FIXED_LIT| == 288 && CodeBits(FIXED_LIT, s) == SymbolBits(s)
  {
    FixedCounts(s, if s < 144 then 8 else if s < 256 then 9 else if s < 280 then 7 else 8);
    FixedFirstCodes(7);
    FixedFirstCodes(8);
    FixedFirstCodes(9);
    FixedLengths(s);
    hide Repeat, Count, FirstCode, MsbBits;
  }

  lemma FixedLengths(s: nat)
    requires s < 288
    ensures |FIXED_LIT| == 288 && FIXED_LIT[s] == if s < 144 then 8 else if s < 256 then 9 else if s < 280 then 7 else 8
  {}

  lemma FixedDistCode(s: nat)
    requires s < 32
    ensures |FIXED_DIST| == 32 && CodeBits(FIXED_DIST, s) == MsbBits(s, 5)
  {
    hide Count, FirstCode, MsbBits;
    assert FIXED_DIST[s] == 5 && FIXED_DIST[..s] == Repeat<nat>(5, s);
    CountRepeat(5, s, 5);
    FixedFirstCodes(5);
  }

  // ---- the order of the bits ----

  lemma HalfThenPower(v: nat, e: nat)
    ensures v / 2 / Pow2(e) == v / Pow2(e + 1)
  {
    var d := Pow2(e);
    var q, r := v / 2 / d, v / 2 % d;
    assert v == 2 * (d * q + r) + v % 2 == Pow2(e + 1) * q + (2 * r + v % 2);
    DivModUnique(v, Pow2(e + 1), q, 2 * r + v % 2);
  }

  lemma FieldHead(v: nat, n: nat)
    requires n > 0
    ensures LsbBits(v, n) == [v % 2 == 1] + LsbBits(v / 2, n - 1)
  {}

  /** A field of `n` bits starts with its least significant bit. */
  lemma {:induction false} FieldBit(v: nat, n: nat, j: nat)
    requires j < n
    ensures LsbBits(v, n)[j] <==> v / Pow2(j) % 2 == 1
  {
    assert Pow2(0) == 1;
    hide Pow2, LsbBits;
    FieldHead(v, n);
    if j > 0 {
      FieldBit(v / 2, n - 1, j - 1);
      HalfThenPower(v, j - 1);
    }
  }

  /** A Huffman code of `n` bits ends with it. */
  lemma {:induction false} CodeBit(v: nat, n: nat, j: nat)
    requires j < n
    ensures MsbBits(v, n)[n - 1 - j] <==> v / Pow2(j) % 2 == 1
  {
    if j > 0 {
      hide Pow2;
      CodeBit(v / 2, n - 1, j - 1);
      HalfThenPower(v, j - 1);
    } else {
      assert Pow2(0) == 1;
      hide Pow2;
    }
  }

  /** Bytes come in order, each from its least significant bit on. */
  lemma {:induction false} ByteBit(s: seq<byte>, i: nat, j: nat)
    requires i < |s| && j < 8
    ensures BitsOf(s)[8 * i + j] <==> s[i] / Pow2(j) % 2 == 1
  {
    hide LsbBits, Pow2;
    if i == 0 {
      FieldBit(s[0], 8, j);
    } else {
      ByteBit(s[1..], i - 1, j);
    }
  }

  // ---- a fixed block ----

  /** A literal, or a length code, its extra bits, a distance code and its extra bits. */
  function FixedTokenBits(t: Token): seq<bool>
    requires t.BackRef? ==> Expresses(t.code, t.len) && 1 <= t.dist <= 32768
  {
    match t
    case Literal(b) => SymbolBits(b)
    case BackRef(len, d, code) =>
      LengthNumbers(code);
      var dcode := DistanceCode(d);
      DistanceNumbers(dcode);
      SymbolBits(257 + code) + (LsbBits(len - LengthStart(code), LengthWidth(code))
      + (MsbBits(dcode, 5) + LsbBits(d - DistanceStart(dcode), DistanceWidth(dcode))))
  }

  ghost function FixedTokensBits(ts: seq<Token>, out: seq<byte>): seq<bool>
    requires ValidTokens(ts, out)
    decreases |ts|
  {
    if ts == [] then [] else FixedTokenBits(ts[0]) + FixedTokensBits(ts[1..], ExpandToken(ts[0], out))
  }

  lemma FixedTokenInNumbers(t: Token)
    requires t.BackRef? ==> Expresses(t.code, t.len) && 1 <= t.dist <= 32768
    ensures CodedToken(FIXED_LIT, FIXED_DIST, t) && TokenBits(FIXED_LIT, FIXED_DIST, t) == FixedTokenBits(t)
  {
    hide CodeBits, SymbolBits, LsbBits, MsbBits, LenBase, LenExtra, DistBase, DistExtra, Pow2, LengthStart, LengthWidth,
      DistanceStart, DistanceWidth, DistanceCode, Coded, Repeat;
    FixedCodesAll();
    match t {
      case Literal(b) => FixedLitCode(b);
      case BackRef(len, d, code) =>
        LengthNumbers(code);
        DistanceNumbers(DistanceCode(d));
        FixedLitCode(257 + code);
        FixedDistCode(DistanceCode(d));
    }
  }

  lemma {:induction false} FixedTokensInNumbers(ts: seq<Token>, out: seq<byte>)
    requires ValidTokens(ts, out)
    ensures CodedTokens(FIXED_LIT, FIXED_DIST, ts, out)
    ensures TokensBits(FIXED_LIT, FIXED_DIST, ts, out) == FixedTokensBits(ts, out) + Repeat(false, 7)
    decreases |ts|
  {
    hide CodeBits, SymbolBits, MsbBits, TokenBits, FixedTokenBits, ExpandToken, Repeat, CodedToken, Coded;
    FixedCodesTokens(ts, out);
    if ts == [] {
      FixedLitCode(256);
      EndOfBlock();
    } else {
      FixedTokenInNumbers(ts[0]);
      FixedTokensInNumbers(ts[1..], ExpandToken(ts[0], out));
    }
  }

  lemma EndOfBlock()
    ensures SymbolBits(256) == Repeat(false, 7)
  {}

  /** The same for a whole block, wherever it stands in a stream. */
  lemma FixedBlockInNumbers(ts: seq<Token>, pos: nat, out: seq<byte>)
    requires ValidTokens(ts, out)
    ensures BlockBits(Fixed(ts), pos, out) == FixedTokensBits(ts, out) + Repeat(false, 7)
  {
    hide TokensBits, FixedTokensBits, Repeat;
    FixedTokensInNumbers(ts, out);
  }

  /** A file of one fixed block written with those numbers, behind a zlib header or on its own, inflates to
      what its tokens stand for. */
  lemma FixedFile(src: seq<byte>, ts: seq<Token>, rest: seq<bool>, cap: nat)
    requires ValidTokens(ts, [])
    requires BitsOf(src) == [true, true, false] + (FixedTokensBits(ts, []) + (Repeat(false, 7) + rest))
    ensures var e := Expand(ts, []);
      Inflated([0x78, 0x9C] + src, cap) == Inflated(src, cap) == if |e| <= cap then Ok(e, rest) else Bad
  {
    hide FixedTokensBits, Expand, ValidTokens, TokensBits, Blocks, BitsOf, Repeat, BlockBits;
    FixedBlockInNumbers(ts, 3, []);
    FixedHead(src);
    assert ([0x78, 0x9C] + src)[2..] == src;
    var body, bs := BlockBits(Fixed(ts), 3, []), [Fixed(ts)];
    assert bs[1..] == [];
    assert StreamBits(bs, 0, []) == [true] + (LsbBits(1, 2) + (body + []));
    OneField();
    assert BitsOf(src) == StreamBits(bs, 0, []) + rest;
    assert |BitsOf(src)| == 8 * |src|;
    StreamBack(bs, 0, rest, [], cap);
  }

  lemma OneField()
    ensures LsbBits(1, 2) == [true, false]
  {}

  /** What starts with the bit of a last block has no zlib header. */
  lemma FixedHead(src: seq<byte>)
    requires |BitsOf(src)| > 0 && BitsOf(src)[0]
    ensures !ZlibHeader(src)
  {
    ByteBit(src, 0, 0);
  }

  /** The three bytes of the letter a. */
  lemma OneLetter(cap: nat)
    requires cap >= 1
    ensures Inflated([0x78, 0x9C, 0x4B, 0x04, 0x00], cap) == Inflated([0x4B, 0x04, 0x00], cap) == Ok([0x61], Repeat(false, 6))
  {
    hide Blocks, StreamBits;
    var ts := [Literal(0x61)];
    OneLetterBits();
    assert ts[1..] == [] && Expand(ts, []) == [0x61];
    assert FixedTokensBits(ts, []) == SymbolBits(0x61) + [];
    assert [0x78, 0x9C] + [0x4B, 0x04, 0x00] == [0x78, 0x9C, 0x4B, 0x04, 0x00];
    FixedFile([0x4B, 0x04, 0x00], ts, Repeat(false, 6), cap);
  }

  const ONE_LETTER: seq<bool> :=
    [true, true, false, true, false, false, true, false, false, false, true, false, false, false, false, false,
     false, false, false, false, false, false, false, false]

  lemma OneLetterBits()
    ensures BitsOf([0x4B, 0x04, 0x00]) == [true, true, false] + ((SymbolBits(0x61) + []) + (Repeat(false, 7) + Repeat(false, 6)))
  {
    hide LsbBits, SymbolBits, Repeat, BitsOf;
    OneLetterBlock();
    ByteBits(0x4B);
    ByteBits(0x04);
    ByteBits(0x00);
    BitsOfThree(0x4B, 0x04, 0x00);
    assert BitsOf([0x4B, 0x04, 0x00]) == ONE_LETTER;
  }

  lemma OneLetterBlock()
    ensures [true, true, false] + ((SymbolBits(0x61) + []) + (Repeat(false, 7) + Repeat(false, 6))) == ONE_LETTER
  {
    hide MsbBits, Repeat;
    CodeByte(0x91);
  }

  lemma ByteBits(v: byte)
    ensures LsbBits(v, 8) ==
      [v % 2 == 1, v / 2 % 2 == 1, v / 4 % 2 == 1, v / 8 % 2 == 1, v / 16 % 2 == 1, v / 32 % 2 == 1, v / 64 % 2 == 1, v / 128 % 2 == 1]
  {
    Powers();
    hide LsbBits, Pow2;
    FieldBit(v, 8, 0); FieldBit(v, 8, 1); FieldBit(v, 8, 2); FieldBit(v, 8, 3);
    FieldBit(v, 8, 4); FieldBit(v, 8, 5); FieldBit(v, 8, 6); FieldBit(v, 8, 7);
  }

  lemma CodeByte(v: byte)
    ensures MsbBits(v, 8) ==
      [v / 128 % 2 == 1, v / 64 % 2 == 1, v / 32 % 2 == 1, v / 16 % 2 == 1, v / 8 % 2 == 1, v / 4 % 2 == 1, v / 2 % 2 == 1, v % 2 == 1]
  {
    Powers();
    hide MsbBits, Pow2;
    CodeBit(v, 8, 0); CodeBit(v, 8, 1); CodeBit(v, 8, 2); CodeBit(v, 8, 3);
    CodeBit(v, 8, 4); CodeBit(v, 8, 5); CodeBit(v, 8, 6); CodeBit(v, 8, 7);
  }

  lemma BitsOfThree(a: byte, b: byte, c: byte)
    ensures BitsOf([a, b, c]) == LsbBits(a, 8) + (LsbBits(b, 8) + LsbBits(c, 8))
  {
    hide LsbBits;
    BitsOfConcat([a], [b, c]);
    BitsOfConcat([b], [c]);
    assert [a] + [b, c] == [a, b, c] && [b] + [c] == [b, c];
    BitsOfOne(a); BitsOfOne(b); BitsOfOne(c);
  }

  lemma BitsOfOne(a: byte)
    ensures BitsOf([a]) == LsbBits(a, 8)
  {
    hide LsbBits;
    assert [a][1..] == [];
  }

  // ---- a stored block ----

  const NO_BITS: seq<bool> := [false, false, false, false, false, false, false]

  lemma Word(n: nat)
    requires n <= 0xFFFF
    ensures LsbBits(n, 16) == LsbBits(n % 256, 8) + LsbBits(n / 256, 8)
  {
    Powers();
    hide Pow2, LsbBits;
    LsbBitsJoin(n, n % 256, 8, n / 256, 8);
  }

  /** The first five bytes of a last block of `n` stored bytes. */
  function StoredHead(n: nat): seq<byte>
    requires n <= 0xFFFF
  {
    [0x01, n % 256, n / 256, 255 - n % 256, 255 - n / 256]
  }

  lemma StoredHeadBits(n: nat)
    requires n <= 0xFFFF
    ensures BitsOf(StoredHead(n)) == [true] + NO_BITS + (LsbBits(n, 16) + LsbBits(0xFFFF - n, 16))
  {
    hide LsbBits, BitsOf;
    Word(n);
    assert (0xFFFF - n) % 256 == 255 - n % 256 && (0xFFFF - n) / 256 == 255 - n / 256;
    Word(0xFFFF - n);
    ByteBits(1);
    BitsOfThree(1, n % 256, n / 256);
    BitsOfConcat([1, n % 256, n / 256], [255 - n % 256, 255 - n / 256]);
    BitsOfConcat([255 - n % 256], [255 - n / 256]);
    BitsOfOne(255 - n % 256);
    BitsOfOne(255 - n / 256);
    assert StoredHead(n) == [1, n % 256, n / 256] + ([255 - n % 256] + [255 - n / 256]);
    assert [255 - n % 256] + [255 - n / 256] == [255 - n % 256, 255 - n / 256];
  }

  /** A file of one stored block, behind a zlib header or on its own, inflates to its data. */
  lemma StoredFile(data: seq<byte>, trailer: seq<byte>, cap: nat)
    requires |data| <= 0xFFFF
    ensures var src := StoredHead(|data|) + data + trailer;
      Inflated([0x78, 0x01] + src, cap) == Inflated(src, cap) == if |data| <= cap then Ok(data, BitsOf(trailer)) else Bad
  {
    hide Blocks, BitsOf, LsbBits, StreamBits;
    var n, src := |data|, StoredHead(|data|) + data + trailer;
    assert ([0x78, 0x01] + src)[2..] == src;
    var bs := [Verbatim(data, NO_BITS)];
    assert bs[1..] == [];
    assert ExpandBlocks(bs, []) == [] + data == data;
    StoredHeadBits(n);
    BitsOfConcat(StoredHead(n) + data, trailer);
    BitsOfConcat(StoredHead(n), data);
    StoredStream(data);
    assert BitsOf(src) == StreamBits(bs, 0, []) + BitsOf(trailer);
    assert |BitsOf(src)| == 8 * |src|;
    StreamBack(bs, 0, BitsOf(trailer), [], cap);
  }

  lemma StoredStream(data: seq<byte>)
    requires |data| <= 0xFFFF
    ensures ValidBlocks([Verbatim(data, NO_BITS)], [])
    ensures var n := |data|;
      StreamBits([Verbatim(data, NO_BITS)], 0, []) == [true] + NO_BITS + (LsbBits(n, 16) + LsbBits(0xFFFF - n, 16)) + BitsOf(data)
  {
    hide LsbBits, BitsOf, BlockBits, ValidBlock, ExpandBlock, PadLength, StreamBits, ValidBlocks;
    NoField();
    StoredBlockBits(data);
    var b, n := Verbatim(data, NO_BITS), |data|;
    OneBlock(b);
    HeadAndPad(LsbBits(0, 2), BlockBits(b, 3, []), LsbBits(n, 16) + LsbBits(0xFFFF - n, 16), BitsOf(data));
  }

  lemma OneBlock(b: Block)
    requires ValidBlock(b, [])
    ensures ValidBlocks([b], []) && StreamBits([b], 0, []) == [true] + (LsbBits(Kind(b), 2) + (BlockBits(b, 3, []) + []))
  {
    hide LsbBits, BlockBits, ValidBlock, ExpandBlock;
    assert [b][1..] == [];
  }

  lemma HeadAndPad(field: seq<bool>, body: seq<bool>, a: seq<bool>, b: seq<bool>)
    requires field == [false, false] && body == NO_BITS[..5] + a + b
    ensures [true] + (field + (body + [])) == [true] + NO_BITS + a + b
  {
    assert NO_BITS == field + NO_BITS[..5];
  }

  lemma StoredBlockBits(data: seq<byte>)
    requires |data| <= 0xFFFF
    ensures var b, n := Verbatim(data, NO_BITS), |data|;
      ValidBlock(b, []) && BlockBits(b, 3, []) == NO_BITS[..5] + (LsbBits(n, 16) + LsbBits(0xFFFF - n, 16)) + BitsOf(data)
  {
    hide LsbBits, BitsOf, PadLength, ValidHeader, ValidTokens, CodedTokens, TokensBits, HeaderBits;
    PadOfFive(NO_BITS[..PadLength(3)], LsbBits(|data|, 16), LsbBits(0xFFFF - |data|, 16), BitsOf(data));
    FiveBits();
  }

  lemma FiveBits()
    ensures PadLength(3) == 5
  {}

  lemma PadOfFive(p: seq<bool>, a: seq<bool>, b: seq<bool>, c: seq<bool>)
    ensures p + (a + (b + c)) == p + (a + b) + c
  {}

  lemma NoField()
    ensures LsbBits(0, 2) == [false, false]
  {}

  // ---- the zlib header ----

  lemma MethodBits(c: byte)
    ensures c % 16 == 8 && c / 16 <= 7 <==> c % 2 == 0 && c / 2 % 2 == 0 && c / 4 % 2 == 0 && c / 8 % 2 == 1 && c / 128 % 2 == 0
  {
    var low := c % 2 + 2 * (c / 2 % 2) + 4 * (c / 4 % 2) + 8 * (c / 8 % 2);
    assert c == low + 16 * (c / 16) by {
      assert c == c % 2 + 2 * (c / 2);
      assert c / 2 == c / 2 % 2 + 2 * (c / 4);
      assert c / 4 == c / 4 % 2 + 2 * (c / 8);
      assert c / 8 == c / 8 % 2 + 2 * (c / 16);
    }
    DivModUnique(c, 16, c / 16, low);
  }

  /** Two bytes make a zlib header when their bits say method 8, a window of at most 2^15 bytes and no preset
      dictionary, and the number they make is a multiple of 31 (section 2.2 of RFC 1950). */
  lemma ZlibBits(src: seq<byte>)
    requires |src| >= 2
    ensures ZlibHeader(src) <==>
      && !BitsOf(src)[0] && !BitsOf(src)[1] && !BitsOf(src)[2] && BitsOf(src)[3] && !BitsOf(src)[7] && !BitsOf(src)[13]
      && (256 * (src[0] as int) + src[1]) % 31 == 0
  {
    Powers();
    hide BitsOf, Pow2;
    MethodBits(src[0]);
    ByteBit(src, 0, 0); ByteBit(src, 0, 1); ByteBit(src, 0, 2); ByteBit(src, 0, 3); ByteBit(src, 0, 7); ByteBit(src, 1, 5);
  }
}
