/** Reading past the end of the input. The reader then returns an error value that the inflater does
    not test; the lemmas say where that still leads to a failure and the one place where it does not:
    the repeat counts of a dynamic header. */
module Truncation {
  import opened Bits
  import opened BitReading
  import opened Huffman
  import opened Deflate
  import opened Encoder

  // ---- the condition: a repeat count read past the end ----

  /** The extra bits of a repeat code are not all there. */
  predicate RunShort(sym: nat, r: seq<bool>) {
    (sym == 16 && |r| < 2) || (sym == 17 && |r| < 3) || (sym == 18 && |r| < 7)
  }

  predicate LengthsShort(clc: seq<nat>, r: seq<bool>, lens: seq<nat>, total: nat)
    decreases total - |lens|
  {
    if |lens| >= total then false else
    var (sym, rest) := Decode(TableOf(clc), r);
    || (sym >= 0 && RunShort(sym, rest))
    || match NextLengths(clc, r, lens, total)
       case NoLengths => false
       case Lengths(lens', r') => LengthsShort(clc, r', lens', total)
  }

  predicate TablesShort(r: seq<bool>) {
    var (hlit, r1) := CountField(r, 5, 257);
    var (hdist, r2) := CountField(r1, 5, 1);
    var (hclen, r3) := CountField(r2, 4, 4);
    hclen <= 19 &&
    var (clc, r4) := CodeLengthCode(r3, 0, hclen, Repeat(0, 19));
    LengthsShort(clc, r4, [], hlit + hdist)
  }

  predicate BlockShort(kind: int, r: seq<bool>) {
    kind != 0 && kind != 1 && kind != 3 && TablesShort(r)
  }

  /** Some dynamic header on the way takes a repeat whose count lies past the end. */
  predicate StreamShort(r: seq<bool>, out: seq<byte>, cap: nat)
    decreases |r|
  {
    var (last, r1) := ReadBits(r, 1);
    var (kind, r2) := ReadBits(r1, 2);
    || BlockShort(AsInt(kind), r2)
    || match Deflate.Block(AsInt(kind), r2, out, cap)
       case Bad => false
       case Ok(out', r3) => last == 0 && StreamShort(r3, out', cap)
  }

  // ---- reads inside the input do not depend on what follows it ----

  lemma ReadMore(r: seq<bool>, n: nat, x: seq<bool>)
    requires |r| >= n
    ensures var (v, rest) := ReadBits(r, n); ReadBits(r + x, n) == (v, rest + x)
  {
    assert (r + x)[..n] == r[..n] && (r + x)[n..] == r[n..] + x;
  }

  lemma DecodeMore(lens: seq<nat>, r: seq<bool>, x: seq<bool>)
    requires Decode(TableOf(lens), r).0 >= 0
    ensures var (s, rest) := Decode(TableOf(lens), r); Decode(TableOf(lens), r + x) == (s, rest + x)
  {
    hide CodeBits, Coded, Decode, TableOf, Code, Pow2, MsbBits;
    var (s, rest) := Decode(TableOf(lens), r);
    DecodeProgress(lens, r);
    DecodeInvertsCode(lens, s, r, rest);
    assert r + x == CodeBits(lens, s) + (rest + x);
    DecodeInvertsCode(lens, s, r + x, rest + x);
  }

  lemma CountMore(r: seq<bool>, n: nat, base: nat, x: seq<bool>)
    requires base >= 1 && |r| >= n
    ensures var (v, rest) := CountField(r, n, base); CountField(r + x, n, base) == (v, rest + x)
  {
    ReadMore(r, n, x);
    hide ReadBits;
  }

  // ---- symbols and matches ----

  /** A match whose extra bits run past the end is far longer, or reaches far further back, than any
      output the cap allows. */
  lemma MatchMore(dist: seq<nat>, li: nat, r: seq<bool>, out: seq<byte>, cap: nat, x: seq<bool>)
    requires li < 29 && cap <= MAX_OUTPUT && Match(dist, li, r, out, cap).Ok?
    ensures var p := Match(dist, li, r, out, cap); Match(dist, li, r + x, out, cap) == Ok(p.out, p.rest + x)
  {
    hide Decode, TableOf, Copy, LenBase, LenExtra, DistBase, DistExtra, Lsb;
    var (le, r1) := ReadBits(r, LenExtra(li));
    ReadMore(r, LenExtra(li), x);
    var (dsym, r2) := Decode(TableOf(dist), r1);
    DecodeMore(dist, r1, x);
    ReadMore(r2, DistExtra(dsym), x);
  }

  lemma {:induction false} CodesMore(lit: seq<nat>, dist: seq<nat>, r: seq<bool>, out: seq<byte>, cap: nat, x: seq<bool>)
    requires cap <= MAX_OUTPUT && Codes(lit, dist, r, out, cap).Ok?
    ensures var p := Codes(lit, dist, r, out, cap); Codes(lit, dist, r + x, out, cap) == Ok(p.out, p.rest + x)
    decreases |r|
  {
    hide Decode, TableOf, Match;
    var (sym, r1) := Decode(TableOf(lit), r);
    DecodeProgress(lit, r);
    DecodeMore(lit, r, x);
    if sym < 256 {
      CodesMore(lit, dist, r1, out + [sym], cap, x);
    } else if sym > 256 {
      var p := Match(dist, sym - 257, r1, out, cap);
      MatchMore(dist, sym - 257, r1, out, cap, x);
      CodesMore(lit, dist, p.rest, p.out, cap, x);
    }
  }

  // ---- headers ----

  /** A repeat whose count is all there is read alike; a short one eats into what follows. */
  lemma LengthsForMore(sym: nat, r: seq<bool>, lens: seq<nat>, total: nat, x: seq<bool>)
    requires |lens| < total && |x| >= 8
    ensures var res, res' := LengthsFor(sym, r, lens, total), LengthsFor(sym, r + x, lens, total);
      && (res.Lengths? && !RunShort(sym, r) ==> res' == Lengths(res.lens, res.rest + x))
      && (res'.Lengths? && RunShort(sym, r) ==> |res'.rest| < |x|)
  {
    hide Repeat, Lsb;
    var w := if sym == 16 then 2 else if sym == 17 then 3 else 7;
    if |r| >= w {
      ReadMore(r, w, x);
    }
  }

  lemma NextLengthsMore(clc: seq<nat>, r: seq<bool>, lens: seq<nat>, total: nat, x: seq<bool>)
    requires |lens| < total && |x| >= 8
    ensures var (sym, rest) := Decode(TableOf(clc), r);
      var res, res' := NextLengths(clc, r, lens, total), NextLengths(clc, r + x, lens, total);
      && (res.Lengths? ==> sym >= 0)
      && (res.Lengths? && !RunShort(sym, rest) ==> res' == Lengths(res.lens, res.rest + x))
      && (sym >= 0 && res'.Lengths? && RunShort(sym, rest) ==> |res'.rest| < |x|)
  {
    hide Decode, TableOf, LengthsFor, RunShort;
    var (sym, rest) := Decode(TableOf(clc), r);
    if sym >= 0 {
      DecodeMore(clc, r, x);
      LengthsForMore(sym, rest, lens, total, x);
    }
  }

  lemma {:induction false} CodeLengthsMore(clc: seq<nat>, r: seq<bool>, lens: seq<nat>, total: nat, x: seq<bool>)
    requires |x| >= 8
    ensures var res, res' := CodeLengths(clc, r, lens, total), CodeLengths(clc, r + x, lens, total);
      && (res.Lengths? && !LengthsShort(clc, r, lens, total) ==> res' == Lengths(res.lens, res.rest + x))
      && (res'.Lengths? && LengthsShort(clc, r, lens, total) ==> |res'.rest| < |x|)
    decreases total - |lens|
  {
    hide Decode, TableOf, NextLengths, RunShort;
    if |lens| < total {
      NextLengthsMore(clc, r, lens, total, x);
      var (sym, rest) := Decode(TableOf(clc), r);
      var res, res' := NextLengths(clc, r, lens, total), NextLengths(clc, r + x, lens, total);
      assert CodeLengths(clc, r + x, lens, total) == if res'.Lengths? then CodeLengths(clc, res'.rest, res'.lens, total) else NoLengths;
      if res.Lengths? && !RunShort(sym, rest) {
        CodeLengthsMore(clc, res.rest, res.lens, total, x);
      }
    }
  }

  /** What the reading loop has stored it does not store again. */
  lemma {:induction false} ClcKeeps(r: seq<bool>, i: nat, hclen: nat, lens: seq<nat>, k: nat)
    requires |lens| == 19 && hclen <= 19 && k < 19 && ClcRank(k) < i
    ensures CodeLengthCode(r, i, hclen, lens).0[k] == lens[k]
    decreases hclen - i
  {
    hide ClcOrder, ClcRank, ReadBits;
    if i < hclen {
      RankOfOrder(i);
      var (v, r1) := ReadBits(r, 3);
      ClcKeeps(r1, i + 1, hclen, lens[ClcOrder(i) := v % 256], k);
    }
  }

  /** A code-length code read past the end holds a length of 255, which huff_build refuses. */
  lemma {:induction false} ClcFull(r: seq<bool>, i: nat, hclen: nat, lens: seq<nat>)
    requires |lens| == 19 && i <= hclen <= 19 && Buildable(CodeLengthCode(r, i, hclen, lens).0)
    ensures |r| >= 3 * (hclen - i)
    decreases hclen - i
  {
    hide ClcOrder, ClcRank, Buildable, Lsb;
    if i < hclen {
      RankOfOrder(i);
      var (v, r1) := ReadBits(r, 3);
      var lens' := lens[ClcOrder(i) := v % 256];
      ClcKeeps(r1, i + 1, hclen, lens', ClcOrder(i));
      BuildableMax(CodeLengthCode(r1, i + 1, hclen, lens').0, ClcOrder(i));
      ClcFull(r1, i + 1, hclen, lens');
    }
  }

  lemma BuildableMax(lens: seq<nat>, k: nat)
    requires Buildable(lens) && k < |lens|
    ensures lens[k] <= MAX_BITS
  {}

  lemma {:induction false} ClcMore(r: seq<bool>, i: nat, hclen: nat, lens: seq<nat>, x: seq<bool>)
    requires |lens| == 19 && i <= hclen <= 19 && |r| >= 3 * (hclen - i)
    ensures var (clc, rest) := CodeLengthCode(r, i, hclen, lens); CodeLengthCode(r + x, i, hclen, lens) == (clc, rest + x)
    decreases hclen - i
  {
    hide ClcOrder, Lsb;
    if i < hclen {
      ReadMore(r, 3, x);
      var (v, r1) := ReadBits(r, 3);
      ClcMore(r1, i + 1, hclen, lens[ClcOrder(i) := v % 256], x);
    }
  }

  /** The rest of a header: its code-length code is all there, and its lengths are as above. */
  lemma TransmittedMore(r: seq<bool>, hclen: nat, total: nat, x: seq<bool>)
    requires |x| >= 8 && hclen <= 19 && TransmittedLengths(r, hclen, total).Lengths?
    ensures |r| >= 3 * hclen
    ensures var res, res' := TransmittedLengths(r, hclen, total), TransmittedLengths(r + x, hclen, total);
      var (clc, r4) := CodeLengthCode(r, 0, hclen, Repeat(0, 19));
      && (!LengthsShort(clc, r4, [], total) ==> res' == Lengths(res.lens, res.rest + x))
      && (res'.Lengths? && LengthsShort(clc, r4, [], total) ==> |res'.rest| < |x|)
  {
    hide CodeLengthCode, CodeLengths, LengthsShort, Buildable, Repeat;
    var (clc, r4) := CodeLengthCode(r, 0, hclen, Repeat(0, 19));
    ClcFull(r, 0, hclen, Repeat(0, 19));
    ClcMore(r, 0, hclen, Repeat(0, 19), x);
    CodeLengthsMore(clc, r4, [], total, x);
  }

  lemma TablesMore(r: seq<bool>, x: seq<bool>)
    requires |x| >= 8 && DynamicTables(r).Tables?
    ensures var t, t' := DynamicTables(r), DynamicTables(r + x);
      && (!TablesShort(r) ==> t' == Tables(t.lit, t.dist, t.rest + x))
      && (t'.Tables? && TablesShort(r) ==> |t'.rest| < |x|)
    ensures |r| >= 9
  {
    hide TransmittedLengths, CountField, LengthsShort, CodeLengthCode, Buildable, Repeat;
    var (hlit, r1) := CountField(r, 5, 257);
    var (hdist, r2) := CountField(r1, 5, 1);
    var (hclen, r3) := CountField(r2, 4, 4);
    TransmittedMore(r3, hclen, hlit + hdist, x);
    CountMore(r, 5, 257, x);
    CountMore(r1, 5, 1, x);
    CountMore(r2, 4, 4, x);
  }

  // ---- blocks and streams ----

  lemma StoredMore(r: seq<bool>, out: seq<byte>, cap: nat, x: seq<bool>)
    requires |x| % 8 == 0 && Stored(r, out, cap).Ok?
    ensures var p := Stored(r, out, cap); Stored(r + x, out, cap) == Ok(p.out, p.rest + x)
  {
    hide Lsb, BytesOf, ByteAligned;
    var a := ByteAligned(r);
    AlignedMore(r, x);
    FieldsMore(a, 8 * Lsb(a[..16]), x);
  }

  lemma AlignedMore(r: seq<bool>, x: seq<bool>)
    requires |x| % 8 == 0
    ensures ByteAligned(r + x) == ByteAligned(r) + x
  {}

  lemma FieldsMore(a: seq<bool>, n: nat, x: seq<bool>)
    requires |a| >= 32 + n
    ensures (a + x)[..16] == a[..16] && (a + x)[16..32] == a[16..32] && (a + x)[32..32 + n] == a[32..32 + n]
    ensures (a + x)[32 + n..] == a[32 + n..] + x
  {}

  lemma BlockMore(kind: int, r: seq<bool>, out: seq<byte>, cap: nat, x: seq<bool>)
    requires |x| >= 8 && |x| % 8 == 0 && cap <= MAX_OUTPUT && Deflate.Block(kind, r, out, cap).Ok?
    ensures var p, p' := Deflate.Block(kind, r, out, cap), Deflate.Block(kind, r + x, out, cap);
      && (!BlockShort(kind, r) ==> p' == Ok(p.out, p.rest + x))
      && (p'.Ok? && BlockShort(kind, r) ==> |p'.rest| < |x|)
    ensures kind < 0 ==> |r| >= 9
  {
    hide Stored, Codes, DynamicTables, TablesShort;
    if kind == 0 {
      StoredMore(r, out, cap, x);
    } else if kind == 1 {
      CodesMore(FIXED_LIT, FIXED_DIST, r, out, cap, x);
    } else {
      TablesMore(r, x);
      var t := DynamicTables(r);
      CodesMore(t.lit, t.dist, t.rest, out, cap, x);
    }
  }

  lemma {:induction false} BlocksShrink(r: seq<bool>, out: seq<byte>, cap: nat)
    requires Blocks(r, out, cap).Ok?
    ensures |Blocks(r, out, cap).rest| <= |r|
    decreases |r|
  {
    hide Deflate.Block;
    var (last, r1) := ReadBits(r, 1);
    var (kind, r2) := ReadBits(r1, 2);
    var p := Deflate.Block(AsInt(kind), r2, out, cap);
    if last == 0 {
      BlocksShrink(p.rest, p.out, cap);
    }
  }

  /** An accepted stream inflates to the same output, leaving what follows unread, whatever follows
      it, exactly when no repeat count was read past its end. So acceptance means that every read
      was inside the input, but for that case. */
  lemma {:induction false} BlocksMore(r: seq<bool>, out: seq<byte>, cap: nat, x: seq<bool>)
    requires |x| >= 8 && |x| % 8 == 0 && cap <= MAX_OUTPUT && Blocks(r, out, cap).Ok?
    ensures var p := Blocks(r, out, cap); Blocks(r + x, out, cap) == Ok(p.out, p.rest + x) <==> !StreamShort(r, out, cap)
    decreases |r|
  {
    hide Deflate.Block, BlockShort, Lsb;
    var (last, r1) := ReadBits(r, 1);
    var (kind, r2) := ReadBits(r1, 2);
    BlockMore(AsInt(kind), r2, out, cap, x);
    ReadMore(r, 1, x);
    ReadMore(r1, 2, x);
    var p, p' := Deflate.Block(AsInt(kind), r2, out, cap), Deflate.Block(AsInt(kind), r2 + x, out, cap);
    if BlockShort(AsInt(kind), r2) {
      if p'.Ok? && last == 0 && Blocks(p'.rest, p'.out, cap).Ok? {
        BlocksShrink(p'.rest, p'.out, cap);
      }
    } else if last == 0 {
      BlocksMore(p.rest, p.out, cap, x);
    }
  }

  /** A block that decodes has at least seven bits. */
  lemma BlockTakes(kind: int, r: seq<bool>, out: seq<byte>, cap: nat)
    requires Deflate.Block(kind, r, out, cap).Ok?
    ensures |r| >= 7
  {
    hide Stored, Codes, DynamicTables;
    if kind == 0 {
      StoredTakes(r, out, cap);
    } else if kind == 1 {
      FixedTakes(r, out, cap);
    } else {
      TablesMore(r, Repeat(false, 8));
    }
  }

  lemma StoredTakes(r: seq<bool>, out: seq<byte>, cap: nat)
    requires Stored(r, out, cap).Ok?
    ensures |r| >= 32
  {
    hide Lsb, BytesOf;
  }

  lemma FixedTakes(r: seq<bool>, out: seq<byte>, cap: nat)
    requires Codes(FIXED_LIT, FIXED_DIST, r, out, cap).Ok?
    ensures |r| >= 7
  {
    hide Decode, TableOf, Match, Coded, Code;
    var (sym, rest) := Decode(TableOf(FIXED_LIT), r);
    DecodeProgress(FIXED_LIT, r);
    DecodeInvertsCode(FIXED_LIT, sym, r, rest);
    assert FIXED_LIT[sym] >= 7;
  }

  lemma StreamTakes(r: seq<bool>, out: seq<byte>, cap: nat)
    requires Blocks(r, out, cap).Ok?
    ensures |r| >= 10
  {
    hide Deflate.Block, Lsb;
    var (last, r1) := ReadBits(r, 1);
    var (kind, r2) := ReadBits(r1, 2);
    BlockTakes(AsInt(kind), r2, out, cap);
  }

  /** The same for inflate's input and any bytes after it. */
  lemma AcceptedReads(src: seq<byte>, y: seq<byte>, cap: nat)
    requires cap <= MAX_OUTPUT && y != [] && Inflated(src, cap).Ok?
    ensures var p := Inflated(src, cap);
      Inflated(src + y, cap) == Ok(p.out, p.rest + BitsOf(y)) <==> !StreamShort(BitsOf(Payload(src)), [], cap)
  {
    hide BitsOf, Blocks, StreamShort, ZlibHeader;
    var s := Payload(src);
    StreamTakes(BitsOf(s), [], cap);
    SamePayload(src, y);
    BitsOfConcat(s, y);
    BlocksMore(BitsOf(s), [], cap, BitsOf(y));
  }

  lemma SamePayload(src: seq<byte>, y: seq<byte>)
    requires |Payload(src)| >= 2
    ensures Payload(src + y) == Payload(src) + y
  {}

  // ---- a truncated stream that is accepted ----

  const CUT_CLC: seq<nat> := Repeat(0, 2) + [1] + Repeat(0, 15) + [1]
  const CUT_LIT: seq<nat> := Repeat(0, 256) + [2]
  const CUT_DIST: seq<nat> := Repeat(0, 10)

  /** The start of one dynamic block: lengths 2 and 18 have a one-bit code each, 257 of the 267 lengths
      of its header follow, then the code of one more run. */
  function CutHead(q: seq<bool>): seq<bool> {
    [true] + (LsbBits(2, 2) + CutBody(q))
  }

  function CutBody(q: seq<bool>): seq<bool> {
    LsbBits(0, 5) + (LsbBits(9, 5) + (LsbBits(12, 4) + CutTransmitted(q)))
  }

  function CutTransmitted(q: seq<bool>): seq<bool> {
    CodeLengthCodeBits(CUT_CLC, 0, 16) + CutLengths([true] + q)
  }

  function CutLengths(q: seq<bool>): seq<bool> {
    OpBits(CUT_CLC, ManyZeros(138)) + (OpBits(CUT_CLC, ManyZeros(118)) + (OpBits(CUT_CLC, One(2)) + q))
  }

  /** It breaks off in the count of that run. */
  function Cut(): seq<bool> {
    CutHead(Repeat(false, 5))
  }

  lemma {:induction false} ClcBitsSize(clc: seq<nat>, i: nat, hclen: nat)
    requires |clc| == 19 && i <= hclen <= 19
    ensures |CodeLengthCodeBits(clc, i, hclen)| == 3 * (hclen - i)
    decreases hclen - i
  {
    hide LsbBits, ClcOrder;
    if i < hclen {
      ClcBitsSize(clc, i + 1, hclen);
    }
  }

  lemma CutSize()
    ensures |Cut()| == 88
  {
    hide CodeLengthCodeBits, LsbBits, Repeat, OpBits;
    ClcBitsSize(CUT_CLC, 0, 16);
    OpSizes();
  }

  lemma OpSizes()
    ensures |OpBits(CUT_CLC, ManyZeros(138))| == |OpBits(CUT_CLC, ManyZeros(118))| == 8 && |OpBits(CUT_CLC, One(2))| == 1
  {}

  lemma CutCounts(l: nat)
    ensures Count(CUT_CLC[..2], l) == (if l == 0 then 2 else 0) && Count(CUT_CLC[..18], l) == (if l == 0 then 17 else if l == 1 then 1 else 0)
    ensures Count(CUT_CLC, l) == if l == 0 then 17 else if l == 1 then 2 else 0
    ensures Count(CUT_LIT[..256], l) == (if l == 0 then 256 else 0) && Count(CUT_LIT, l) == if l == 0 then 256 else if l == 2 then 1 else 0
    ensures Count(CUT_DIST, l) == if l == 0 then 10 else 0
  {
    var a, b := Repeat(0, 2), Repeat(0, 15);
    assert CUT_CLC[..2] == a && CUT_CLC[..18] == a + [1] + b && CUT_LIT[..256] == Repeat(0, 256);
    hide Count, Repeat;
    CountRepeat(0, 2, l);
    CountRepeat(0, 15, l);
    CountRepeat(0, 256, l);
    CountRepeat(0, 10, l);
    CountLast(a, 1, l);
    CountConcat(a + [1], b, l);
    CountLast(a + [1] + b, 1, l);
    CountLast(Repeat(0, 256), 2, l);
  }

  lemma CutBuildable()
    ensures Buildable(CUT_CLC) && Buildable(CUT_LIT) && Buildable(CUT_DIST)
  {
    hide Count, Pow2;
    forall l | 1 <= l <= MAX_BITS
      ensures Count(CUT_CLC, l) <= Pow2(l) && Count(CUT_LIT, l) <= Pow2(l) && Count(CUT_DIST, l) <= Pow2(l)
    {
      CutCounts(l);
      Pow2Mono(1, l);
      assert Pow2(1) == 2 by { TwoIsPow2(); }
    }
  }

  lemma TwoIsPow2()
    ensures Pow2(1) == 2 && Pow2(2) == 4
  {}

  /** The codes the stream uses. */
  lemma CutCodes()
    ensures Coded(CUT_CLC, 2) && Coded(CUT_CLC, 18) && CodeBits(CUT_CLC, 18) == [true]
    ensures Coded(CUT_LIT, 256) && CodeBits(CUT_LIT, 256) == [false, false]
  {
    hide Count, Repeat, Pow2;
    TwoIsPow2();
    CutCounts(1);
    CutCounts(2);
    assert CUT_CLC[2] == 1 && CUT_CLC[18] == 1 && CUT_LIT[256] == 2;
    assert FirstCode(CUT_LIT, 2) == 0;
    assert MsbBits(1, 1) == [true] && MsbBits(0, 2) == [false, false];
  }

  lemma CutClc()
    ensures ValidCodeLengthCode(CUT_CLC, 16) && ReadSoFar(CUT_CLC, 0, Repeat(0, 19))
  {}

  /** The first three codes of the lengths, read back. */
  lemma CutOps(q: seq<bool>)
    ensures CodeLengths(CUT_CLC, CutLengths(q), [], 267) == CodeLengths(CUT_CLC, q, CUT_LIT, 267)
    ensures LengthsShort(CUT_CLC, q, CUT_LIT, 267) ==> LengthsShort(CUT_CLC, CutLengths(q), [], 267)
  {
    CutCodes();
    hide OpBits, NextLengths, Decode, TableOf, Repeat, Coded, CodeBits;
    var z1, z2 := Repeat(0, 138), Repeat(0, 138) + Repeat(0, 118);
    var q2 := OpBits(CUT_CLC, One(2)) + q;
    var q1 := OpBits(CUT_CLC, ManyZeros(118)) + q2;
    assert [] + z1 == z1 && z2 + [2] == CUT_LIT by { CutZeros(); }
    OpBack(CUT_CLC, ManyZeros(138), q1, [], 267);
    OpBack(CUT_CLC, ManyZeros(118), q2, z1, 267);
    OpBack(CUT_CLC, One(2), q, z2, 267);
  }

  lemma CutZeros()
    ensures Repeat<nat>(0, 138) + Repeat(0, 118) == Repeat(0, 256)
  {}

  /** The last run: a count that is not there reads as -1, so 10 zeros; any count that is there is too large. */
  lemma CutRun(q: seq<bool>)
    requires |q| == 5 || |q| >= 7
    ensures NextLengths(CUT_CLC, [true] + q, CUT_LIT, 267) == if |q| == 5 then Lengths(CUT_LIT + CUT_DIST, q) else NoLengths
    ensures |q| == 5 ==> LengthsShort(CUT_CLC, [true] + q, CUT_LIT, 267)
  {
    CutCodes();
    CutCount(q);
    hide Decode, TableOf, Repeat, Coded, CodeBits, CountField;
    DecodeBack(CUT_CLC, 18, q);
  }

  lemma CutCount(q: seq<bool>)
    ensures |q| < 7 ==> CountField(q, 7, 11) == (10, q)
    ensures |q| >= 7 ==> CountField(q, 7, 11).0 >= 11
  {
    if |q| >= 7 {
      LsbBound(q[..7]);
      assert Pow2(7) == 128;
    }
  }

  lemma CutHeader(q: seq<bool>)
    requires |q| == 5 || |q| >= 7
    ensures TransmittedLengths(CutTransmitted(q), 16, 267) == if |q| == 5 then Lengths(CUT_LIT + CUT_DIST, q) else NoLengths
    ensures CodeLengthCode(CutTransmitted(q), 0, 16, Repeat(0, 19)) == (CUT_CLC, CutLengths([true] + q))
    ensures |q| == 5 ==> LengthsShort(CUT_CLC, CutLengths([true] + q), [], 267)
  {
    CutClc();
    CutBuildable();
    CutOps([true] + q);
    CutRun(q);
    hide CutLengths, NextLengths, Repeat, Buildable, ReadSoFar, CodeLengthCode, CodeLengthCodeBits, ValidCodeLengthCode;
    CodeLengthCodeBack(CUT_CLC, 0, 16, Repeat(0, 19), CutLengths([true] + q));
  }

  lemma CutTables(q: seq<bool>)
    requires |q| == 5
    ensures DynamicTables(CutBody(q)) == Tables(CUT_LIT, CUT_DIST, q)
  {
    hide CutTransmitted, CutLengths, Repeat, Buildable, LsbBits, TransmittedLengths, DynamicTables;
    CutHeader(q);
    CutBuildable();
    TablesBack(CUT_LIT, CUT_DIST, 16, CutTransmitted(q), q);
  }

  lemma CutCounted(q: seq<bool>)
    requires |q| == 5 || |q| >= 7
    ensures |q| == 5 ==> TablesShort(CutBody(q))
    ensures |q| >= 7 ==> DynamicTables(CutBody(q)) == NoTables
  {
    hide CutTransmitted, CutLengths, Repeat, Buildable, CodeLengthCode, LsbBits, TransmittedLengths, CountField, LengthsShort;
    CutHeader(q);
    CountsBack(257, 10, 16, CutTransmitted(q));
  }

  /** The stream that breaks off inflates to nothing at all; every stream that starts with it and
      goes on is refused. */
  lemma CutIsAccepted(q: seq<bool>, cap: nat)
    requires |q| >= 7
    ensures Blocks(Cut(), [], cap) == Ok([], [false, false, false]) && StreamShort(Cut(), [], cap)
    ensures Blocks(CutHead(q), [], cap) == Bad
  {
    hide CutBody, Repeat, LsbBits, DynamicTables, TablesShort, Codes, ReadBits;
    var z := Repeat(false, 5);
    CutTables(z);
    CutCounted(z);
    CutCounted(q);
    CutEnds(z, cap);
    HeadBack(true, 2, CutBody(z));
    HeadBack(true, 2, CutBody(q));
  }

  lemma CutEnds(z: seq<bool>, cap: nat)
    requires z == Repeat(false, 5)
    ensures Codes(CUT_LIT, CUT_DIST, z, [], cap) == Ok([], [false, false, false])
  {
    assert z == [false, false] + [false, false, false];
    CutCodes();
    hide Repeat, Decode, TableOf, Coded, CodeBits;
    DecodeBack(CUT_LIT, 256, [false, false, false]);
  }

  lemma CutAppend(z: seq<bool>, x: seq<bool>)
    ensures CutHead(z) + x == CutHead(z + x)
  {
    hide OpBits, LsbBits, CodeLengthCodeBits, CutLengths;
    CutLengthsAppend([true] + z, x);
    Assoc([true], z, x);
    Assoc(CodeLengthCodeBits(CUT_CLC, 0, 16), CutLengths([true] + z), x);
    var c2 := LsbBits(12, 4) + CutTransmitted(z);
    Assoc(LsbBits(12, 4), CutTransmitted(z), x);
    Assoc(LsbBits(9, 5), c2, x);
    Assoc(LsbBits(0, 5), LsbBits(9, 5) + c2, x);
    Assoc(LsbBits(2, 2), CutBody(z), x);
    Assoc([true], LsbBits(2, 2) + CutBody(z), x);
  }

  lemma CutLengthsAppend(q: seq<bool>, x: seq<bool>)
    ensures CutLengths(q) + x == CutLengths(q + x)
  {
    hide OpBits;
    var c := OpBits(CUT_CLC, One(2)) + q;
    Assoc(OpBits(CUT_CLC, One(2)), q, x);
    Assoc(OpBits(CUT_CLC, ManyZeros(118)), c, x);
    Assoc(OpBits(CUT_CLC, ManyZeros(138)), OpBits(CUT_CLC, ManyZeros(118)) + c, x);
  }

  lemma Assoc(a: seq<bool>, b: seq<bool>, c: seq<bool>)
    ensures (a + b) + c == a + (b + c)
  {}

  /** The same in bytes: thirteen of them, accepted; with any byte after them, refused. */
  lemma CutFile(y: seq<byte>, cap: nat)
    requires y != []
    ensures |Cut()| % 8 == 0
    ensures var src := [0x78, 0x01] + BytesOf(Cut());
      |src| == 13 && Inflated(src, cap) == Ok([], [false, false, false]) && Inflated(src + y, cap) == Bad
  {
    CutSize();
    hide *;
    var s, z := BytesOf(Cut()), Repeat(false, 5);
    BehindHeader(s, y, cap);
    BitsOfBytes(Cut());
    CutIs();
    CutAppend(z, BitsOf(y));
    CutIsAccepted(z + BitsOf(y), cap);
  }

  lemma BehindHeader(s: seq<byte>, y: seq<byte>, cap: nat)
    ensures Inflated([0x78, 0x01] + s, cap) == Blocks(BitsOf(s), [], cap)
    ensures Inflated([0x78, 0x01] + s + y, cap) == Blocks(BitsOf(s) + BitsOf(y), [], cap)
  {
    hide Blocks, BitsOf;
    var src: seq<byte> := [0x78, 0x01] + s;
    assert src[2..] == s && (src + y)[2..] == s + y;
    BitsOfConcat(s, y);
  }

  lemma CutIs()
    ensures Cut() == CutHead(Repeat(false, 5))
  {}
}
