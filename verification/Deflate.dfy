/** The DEFLATE inflater (RFC 1951) with its optional zlib wrapper (RFC 1950): what it computes
    as functions on the string of unread bits. */
module Deflate {
  import opened Bits
  import opened BitReading
  import opened Huffman

  const LEN_BASE: seq<nat> :=
    [3, 4, 5, 6, 7, 8, 9, 10, 11, 13, 15, 17, 19, 23, 27, 31, 35, 43, 51, 59, 67, 83, 99, 115, 131, 163, 195, 227, 258]
  const LEN_EXTRA: seq<nat> :=
    [0, 0, 0, 0, 0, 0, 0, 0, 1, 1, 1, 1, 2, 2, 2, 2, 3, 3, 3, 3, 4, 4, 4, 4, 5, 5, 5, 5, 0]
  const DIST_BASE: seq<nat> :=
    [1, 2, 3, 4, 5, 7, 9, 13, 17, 25, 33, 49, 65, 97, 129, 193, 257, 385, 513, 769, 1025, 1537, 2049, 3073, 4097,
     6145, 8193, 12289, 16385, 24577]
  const DIST_EXTRA: seq<nat> :=
    [0, 0, 0, 0, 1, 1, 2, 2, 3, 3, 4, 4, 5, 5, 6, 6, 7, 7, 8, 8, 9, 9, 10, 10, 11, 11, 12, 12, 13, 13]

  function LenBase(li: nat): (b: nat)
    requires li < 29
    ensures b >= 3
  {
    LEN_BASE[li]
  }

  function LenExtra(li: nat): (n: nat)
    requires li < 29
    ensures n <= 5
  {
    LEN_EXTRA[li]
  }

  function DistBase(di: nat): (b: nat)
    requires di < 30
    ensures b >= 1
  {
    DIST_BASE[di]
  }

  function DistExtra(di: nat): (n: nat)
    requires di < 30
    ensures n <= 13
  {
    DIST_EXTRA[di]
  }

  const CLC_ORDER: seq<nat> :=
    [16, 17, 18, 0, 8, 7, 9, 6, 10, 5, 11, 4, 12, 3, 13, 2, 14, 1, 15]

  function ClcOrder(i: nat): (k: nat)
    requires i < 19
    ensures k < 19
  {
    CLC_ORDER[i]
  }

  /** The only caller caps its output at this many bytes. */
  const MAX_OUTPUT: nat := 0x1000_0000

  /** Decoding failed, or it has produced `out` and left `rest` unread. */
  datatype Progress = Bad | Ok(out: seq<byte>, rest: seq<bool>)

  datatype Tables = NoTables | Tables(lit: seq<nat>, dist: seq<nat>, rest: seq<bool>)

  datatype Lengths = NoLengths | Lengths(lens: seq<nat>, rest: seq<bool>)

  function Repeat<T>(x: T, n: nat): (s: seq<T>)
    ensures |s| == n && forall i :: 0 <= i < n ==> s[i] == x
  {
    if n == 0 then [] else Repeat(x, n - 1) + [x]
  }

  // ---- the functions ----

  /** An LZ77 copy of `len` bytes from `dist` back; it may read bytes it has just produced. */
  function Copy(out: seq<byte>, len: nat, dist: nat): (r: seq<byte>)
    requires 1 <= dist <= |out|
    ensures |r| == |out| + len && r[..|out|] == out
  {
    if len == 0 then out else Copy(out, len - 1, dist) + [Copy(out, len - 1, dist)[|out| + len - 1 - dist]]
  }

  /** Literals and matches until the end-of-block symbol. */
  function Codes(lit: seq<nat>, dist: seq<nat>, r: seq<bool>, out: seq<byte>, cap: nat): (p: Progress)
    ensures p.Ok? ==> |p.rest| <= |r|
    decreases |r|
  {
    var (sym, r1) := Decode(TableOf(lit), r);
    DecodeProgress(lit, r);
    if sym < 0 then Bad
    else if sym < 256 then
      if |out| >= cap then Bad else Codes(lit, dist, r1, out + [sym], cap)
    else if sym == 256 then Ok(out, r1)
    else if sym <= 285 then
      match Match(dist, sym - 257, r1, out, cap)
      case Bad => Bad
      case Ok(out', r2) => Codes(lit, dist, r2, out', cap)
    else Bad
  }

  /** The rest of a match after its length symbol. */
  function Match(dist: seq<nat>, li: nat, r: seq<bool>, out: seq<byte>, cap: nat): (p: Progress)
    requires li < 29
    ensures p.Ok? ==> |p.rest| <= |r|
  {
    var (le, r1) := ReadBits(r, LenExtra(li));
    var len := LenBase(li) + le;
    var (dsym, r2) := Decode(TableOf(dist), r1);
    DecodeProgress(dist, r1);
    if dsym < 0 || dsym > 29 then Bad else
    var (de, r3) := ReadBits(r2, DistExtra(dsym));
    var d := DistBase(dsym) + de;
    if d > |out| || |out| + len > cap then Bad else Ok(Copy(out, len, d), r3)
  }

  /** A count field: a base plus an `n`-bit number. Past the end of input the number reads as -1. */
  function CountField(r: seq<bool>, n: nat, base: nat): (res: (nat, seq<bool>))
    requires base >= 1
    ensures |res.1| <= |r|
    ensures res.0 >= base - 1
  {
    var (v, rest) := ReadBits(r, n);
    (base + AsInt(v), rest)
  }

  /** One repeat code of the code-length alphabet. */
  function RepeatLength(lens: seq<nat>, x: nat, rep: nat, total: nat, r: seq<bool>): Lengths {
    if |lens| + rep > total then NoLengths else Lengths(lens + Repeat(x, rep), r)
  }

  /** What a symbol of the code-length alphabet stands for. */
  function LengthsFor(sym: nat, r: seq<bool>, lens: seq<nat>, total: nat): (res: Lengths)
    requires |lens| < total
    ensures res.Lengths? ==> |lens| < |res.lens| <= total && |res.rest| <= |r|
  {
    if sym > 18 then NoLengths
    else if sym < 16 then Lengths(lens + [sym], r)
    else if sym == 16 then
      if lens == [] then NoLengths else
      var (rep, rest) := CountField(r, 2, 3);
      RepeatLength(lens, lens[|lens| - 1], rep, total, rest)
    else if sym == 17 then
      var (rep, rest) := CountField(r, 3, 3);
      RepeatLength(lens, 0, rep, total, rest)
    else
      var (rep, rest) := CountField(r, 7, 11);
      RepeatLength(lens, 0, rep, total, rest)
  }

  function NextLengths(clc: seq<nat>, r: seq<bool>, lens: seq<nat>, total: nat): (res: Lengths)
    requires |lens| < total
    ensures res.Lengths? ==> |lens| < |res.lens| <= total && |res.rest| <= |r|
  {
    var (sym, rest) := Decode(TableOf(clc), r);
    DecodeProgress(clc, r);
    if sym < 0 then NoLengths else LengthsFor(sym, rest, lens, total)
  }

  function CodeLengths(clc: seq<nat>, r: seq<bool>, lens: seq<nat>, total: nat): (res: Lengths)
    ensures res.Lengths? ==> |lens| <= |res.lens| && |res.rest| <= |r|
    ensures res.Lengths? && |lens| <= total ==> |res.lens| == total
    decreases total - |lens|
  {
    if |lens| >= total then Lengths(lens, r) else
    match NextLengths(clc, r, lens, total)
    case NoLengths => NoLengths
    case Lengths(lens', r') => CodeLengths(clc, r', lens', total)
  }

  /** The lengths of the code-length code, in their transmission order. */
  function CodeLengthCode(r: seq<bool>, i: nat, hclen: nat, lens: seq<nat>): (res: (seq<nat>, seq<bool>))
    requires |lens| == 19 && hclen <= 19
    ensures |res.0| == 19 && |res.1| <= |r|
    decreases hclen - i
  {
    if i >= hclen then (lens, r) else
    var (v, r1) := ReadBits(r, 3);
    CodeLengthCode(r1, i + 1, hclen, lens[ClcOrder(i) := v % 256])
  }

  /** The code-length code, and the code lengths of both alphabets coded with it. */
  function TransmittedLengths(r: seq<bool>, hclen: nat, total: nat): (res: Lengths)
    requires hclen <= 19
    ensures res.Lengths? ==> |res.lens| == total && |res.rest| <= |r|
  {
    var (clc, r') := CodeLengthCode(r, 0, hclen, Repeat(0, 19));
    if Buildable(clc) then CodeLengths(clc, r', [], total) else NoLengths
  }

  /** The header of a dynamic block. */
  function DynamicTables(r: seq<bool>): (t: Tables)
    ensures t.Tables? ==> |t.rest| <= |r| && Buildable(t.lit) && Buildable(t.dist)
  {
    var (hlit, r1) := CountField(r, 5, 257);
    var (hdist, r2) := CountField(r1, 5, 1);
    var (hclen, r3) := CountField(r2, 4, 4);
    if hlit > 288 || hdist > 32 || hclen > 19 then NoTables else
    match TransmittedLengths(r3, hclen, hlit + hdist)
    case NoLengths => NoTables
    case Lengths(lens, r5) =>
      if Buildable(lens[..hlit]) && Buildable(lens[hlit..]) then Tables(lens[..hlit], lens[hlit..], r5) else NoTables
  }

  /** A stored block: byte-aligned LEN and its complement, then LEN bytes. */
  function Stored(r: seq<bool>, out: seq<byte>, cap: nat): (p: Progress)
    ensures p.Ok? ==> |p.rest| <= |r|
  {
    var a := ByteAligned(r);
    if |a| < 32 then Bad else
    var len := Lsb(a[..16]);
    if 0xFFFF - len != Lsb(a[16..32]) || |a| < 32 + 8 * len || |out| + len > cap then Bad
    else Ok(out + BytesOf(a[32..32 + 8 * len]), a[32 + 8 * len..])
  }

  const FIXED_LIT: seq<nat> := Repeat(8, 144) + Repeat(9, 112) + Repeat(7, 24) + Repeat(8, 8)
  const FIXED_DIST: seq<nat> := Repeat(5, 32)

  function Block(kind: int, r: seq<bool>, out: seq<byte>, cap: nat): (p: Progress)
    ensures p.Ok? ==> |p.rest| <= |r|
  {
    if kind == 3 then Bad
    else if kind == 0 then Stored(r, out, cap)
    else if kind == 1 then Codes(FIXED_LIT, FIXED_DIST, r, out, cap)
    else
      match DynamicTables(r)
      case NoTables => Bad
      case Tables(lit, dist, r') => Codes(lit, dist, r', out, cap)
  }

  function Blocks(r: seq<bool>, out: seq<byte>, cap: nat): Progress
    decreases |r|
  {
    var (last, r1) := ReadBits(r, 1);
    var (kind, r2) := ReadBits(r1, 2);
    match Block(AsInt(kind), r2, out, cap)
    case Bad => Bad
    case Ok(out', r3) => if last != 0 then Ok(out', r3) else Blocks(r3, out', cap)
  }

  predicate ZlibHeader(src: seq<byte>) {
    |src| >= 2 && src[0] % 16 == 8 && src[0] / 16 <= 7 && (src[1] / 32) % 2 == 0 && (256 * (src[0] as int) + src[1]) % 31 == 0
  }

  function Payload(src: seq<byte>): seq<byte> {
    if ZlibHeader(src) then src[2..] else src
  }

  /** What inflate computes. */
  function Inflated(src: seq<byte>, cap: nat): Progress {
    Blocks(BitsOf(Payload(src)), [], cap)
  }

  // ---- the fixed code ----

  lemma {:induction false} CountConcat(s: seq<nat>, t: seq<nat>, l: nat)
    ensures Count(s + t, l) == Count(s, l) + Count(t, l)
  {
    if t == [] {
      assert s + t == s;
    } else {
      CountConcat(s, t[..|t| - 1], l);
      assert (s + t)[..|s + t| - 1] == s + t[..|t| - 1];
    }
  }

  lemma {:induction false} CountRepeat(x: nat, n: nat, l: nat)
    ensures Count(Repeat(x, n), l) == if x == l then n else 0
  {
    if n > 0 {
      CountRepeat(x, n - 1, l);
      assert Repeat(x, n)[..n - 1] == Repeat(x, n - 1);
    }
  }

  lemma CountFixed(l: nat)
    ensures Count(FIXED_LIT, l) == if l == 7 then 24 else if l == 8 then 152 else if l == 9 then 112 else 0
    ensures Count(FIXED_DIST, l) == if l == 5 then 32 else 0
  {
    var a, b, c, d := Repeat(8, 144), Repeat(9, 112), Repeat(7, 24), Repeat(8, 8);
    CountRepeat(8, 144, l); CountRepeat(9, 112, l); CountRepeat(7, 24, l); CountRepeat(8, 8, l); CountRepeat(5, 32, l);
    CountConcat(a, b, l);
    CountConcat(a + b, c, l);
    CountConcat(a + b + c, d, l);
  }

  lemma {:induction false} KraftSumFixed(upTo: nat)
    requires upTo <= MAX_BITS
    ensures KraftSum(FIXED_LIT, upTo) ==
      if upTo < 7 then 0 else if upTo < 8 then 24 * 256 else if upTo < 9 then 24 * 256 + 152 * 128 else Pow2(15)
    ensures KraftSum(FIXED_DIST, upTo) == if upTo < 5 then 0 else Pow2(15)
  {
    hide Count, Repeat, Pow2;
    PowersFixed();
    if upTo > 0 {
      CountFixed(upTo);
      KraftSumFixed(upTo - 1);
    }
  }

  lemma PowersFixed()
    ensures Pow2(6) == 64 && Pow2(7) == 128 && Pow2(8) == 256 && Pow2(10) == 1024 && Pow2(15) == 32768
  {
  }

  /** The fixed codes use up their code space exactly. */
  lemma KraftFixed()
    ensures Kraft(FIXED_LIT) && Kraft(FIXED_DIST)
  {
    KraftSumFixed(MAX_BITS);
  }
}
