/** The inflater accepts nothing but DEFLATE streams: what it reads is the encoding of some list of blocks,
    and what it writes is their expansion. */
module InflaterSound {
  import opened Bits
  import opened BitReading
  import opened Huffman
  import opened Deflate
  import opened Encoder
  import opened Truncation
  import FixedCode

  /** What is read is what was written. */
  lemma ReadSplits(r: seq<bool>, n: nat)
    requires |r| >= n
    ensures var (v, rest) := ReadBits(r, n); v < Pow2(n) && r == LsbBits(v, n) + rest
  {
    LsbBound(r[..n]);
    BitsOfLsb(r[..n]);
    assert r == r[..n] + r[n..];
  }

  lemma DecodeSplits(lens: seq<nat>, r: seq<bool>)
    requires Decode(TableOf(lens), r).0 >= 0
    ensures var (s, rest) := Decode(TableOf(lens), r); Coded(lens, s) && r == CodeBits(lens, s) + rest
  {
    hide CodeBits, Coded, Decode, TableOf;
    var (s, rest) := Decode(TableOf(lens), r);
    DecodeInvertsCode(lens, s, r, rest);
  }

  // ---- symbols ----

  lemma DistanceCodeOf(code: nat, extra: nat)
    requires code < 30 && extra < Pow2(DistExtra(code))
    ensures var d := DistBase(code) + extra; 1 <= d <= 32768 && DistanceCode(d) == code
  {
    hide DistBase, DistExtra, DistanceCode, Pow2;
    FixedCode.DistanceNumbers(code);
    FixedCode.DistanceCodeIs(DistBase(code) + extra, code);
  }

  /** The extra bits of an accepted match are all there, as neither a length nor a distance of 2^32 fits. */
  lemma MatchReads(dist: seq<nat>, li: nat, r: seq<bool>, out: seq<byte>, cap: nat)
    returns (le: nat, dsym: nat, de: nat, r1: seq<bool>, r2: seq<bool>, r3: seq<bool>)
    requires li < 29 && cap <= MAX_OUTPUT && Match(dist, li, r, out, cap).Ok?
    ensures |r| >= LenExtra(li) && ReadBits(r, LenExtra(li)) == (le, r1)
    ensures dsym < 30 && Decode(TableOf(dist), r1) == (dsym, r2)
    ensures |r2| >= DistExtra(dsym) && ReadBits(r2, DistExtra(dsym)) == (de, r3)
    ensures var len, d := LenBase(li) + le, DistBase(dsym) + de;
      d <= |out| && |out| + len <= cap && Match(dist, li, r, out, cap) == Ok(Copy(out, len, d), r3)
  {
    hide Decode, TableOf, Copy, LenBase, LenExtra, DistBase, DistExtra, Lsb;
    var first := ReadBits(r, LenExtra(li));
    le, r1 := first.0, first.1;
    var second := Decode(TableOf(dist), r1);
    dsym, r2 := second.0, second.1;
    var third := ReadBits(r2, DistExtra(dsym));
    de, r3 := third.0, third.1;
  }

  lemma ThreeParts(r: seq<bool>, a: seq<bool>, r1: seq<bool>, b: seq<bool>, r2: seq<bool>, c: seq<bool>, rest: seq<bool>)
    requires r == a + r1 && r1 == b + r2 && r2 == c + rest
    ensures r == a + (b + c) + rest
  {}

  lemma BackRefParts(dist: seq<nat>, li: nat, le: nat, dsym: nat, de: nat)
    requires li < 29 && le < Pow2(LenExtra(li)) && dsym < 30 && de < Pow2(DistExtra(dsym)) && Coded(dist, dsym)
    ensures var len, d := LenBase(li) + le, DistBase(dsym) + de;
      && Expresses(li, len) && 1 <= d <= 32768 && DistanceCode(d) == dsym
      && BackRefBits(dist, li, len, d) == LsbBits(le, LenExtra(li)) + (CodeBits(dist, dsym) + LsbBits(de, DistExtra(dsym)))
  {
    hide LenBase, LenExtra, DistBase, DistExtra, CodeBits, LsbBits, Pow2, DistanceCode, Code;
    DistanceCodeOf(dsym, de);
  }

  /** `r` is the rest of the back reference `(len, d)` and then the unread bits of `p`, whose output has the copy. */
  ghost predicate Matched(dist: seq<nat>, li: nat, r: seq<bool>, out: seq<byte>, cap: nat, len: nat, d: nat, p: Progress) {
    && Expresses(li, len) && 1 <= d <= 32768 && d <= |out| && Coded(dist, DistanceCode(d)) && |out| + len <= cap
    && p.Ok? && p.out == Copy(out, len, d) && r == BackRefBits(dist, li, len, d) + p.rest
  }

  lemma MatchParts(dist: seq<nat>, li: nat, le: nat, dsym: nat, de: nat, r: seq<bool>, r1: seq<bool>, r2: seq<bool>, r3: seq<bool>)
    requires li < 29 && |r| >= LenExtra(li) && ReadBits(r, LenExtra(li)) == (le, r1)
    requires Decode(TableOf(dist), r1) == (dsym, r2)
    requires dsym < 30 && |r2| >= DistExtra(dsym) && ReadBits(r2, DistExtra(dsym)) == (de, r3)
    ensures le < Pow2(LenExtra(li)) && Coded(dist, dsym) && de < Pow2(DistExtra(dsym))
    ensures r == LsbBits(le, LenExtra(li)) + (CodeBits(dist, dsym) + LsbBits(de, DistExtra(dsym))) + r3
  {
    hide Decode, TableOf, LenExtra, DistExtra, ReadBits, CodeBits, LsbBits, Pow2, Code;
    ReadSplits(r, LenExtra(li));
    DecodeSplits(dist, r1);
    ReadSplits(r2, DistExtra(dsym));
    ThreeParts(r, LsbBits(le, LenExtra(li)), r1, CodeBits(dist, dsym), r2, LsbBits(de, DistExtra(dsym)), r3);
  }

  lemma MatchSound(dist: seq<nat>, li: nat, r: seq<bool>, out: seq<byte>, cap: nat) returns (len: nat, d: nat)
    requires li < 29 && cap <= MAX_OUTPUT && Match(dist, li, r, out, cap).Ok?
    ensures Matched(dist, li, r, out, cap, len, d, Match(dist, li, r, out, cap))
  {
    hide Match, Decode, TableOf, Copy, LenBase, LenExtra, DistBase, DistExtra, ReadBits, CodeBits, LsbBits, Pow2, DistanceCode, BackRefBits, Expresses, Code;
    var le, dsym, de, r1, r2, r3 := MatchReads(dist, li, r, out, cap);
    MatchParts(dist, li, le, dsym, de, r, r1, r2, r3);
    BackRefParts(dist, li, le, dsym, de);
    len, d := LenBase(li) + le, DistBase(dsym) + de;
  }

  /** An accepted run of symbols is the encoding of some tokens and the end of the block. */
  lemma {:induction false} CodesSound(lit: seq<nat>, dist: seq<nat>, r: seq<bool>, out: seq<byte>, cap: nat) returns (ts: seq<Token>)
    requires cap <= MAX_OUTPUT && |out| <= cap && Codes(lit, dist, r, out, cap).Ok?
    ensures ValidTokens(ts, out) && CodedTokens(lit, dist, ts, out)
    ensures var p := Codes(lit, dist, r, out, cap);
      p.out == Expand(ts, out) && |p.out| <= cap && r == TokensBits(lit, dist, ts, out) + p.rest
    decreases |r|
  {
    hide Decode, TableOf, Match, CodeBits, Coded, Copy, BackRefBits, DistanceCode, Pow2, LenBase, LenExtra;
    var (sym, r1) := Decode(TableOf(lit), r);
    DecodeProgress(lit, r);
    DecodeSplits(lit, r);
    if sym == 256 {
      ts := [];
    } else {
      var t: Token, p;
      if sym < 256 {
        t, p := Literal(sym), Ok(out + [sym], r1);
        ts := CodesSound(lit, dist, r1, out + [sym], cap);
      } else {
        var len, d := MatchSound(dist, sym - 257, r1, out, cap);
        t, p := BackRef(len, d, sym - 257), Match(dist, sym - 257, r1, out, cap);
        ts := CodesSound(lit, dist, p.rest, p.out, cap);
      }
      Prepend(lit, dist, t, ts, out, r, p.rest, Codes(lit, dist, r, out, cap).rest);
      ts := [t] + ts;
    }
  }

  lemma Prepend(lit: seq<nat>, dist: seq<nat>, t: Token, ts: seq<Token>, out: seq<byte>, r: seq<bool>, mid: seq<bool>, rest: seq<bool>)
    requires ValidToken(t, out) && CodedToken(lit, dist, t) && r == TokenBits(lit, dist, t) + mid
    requires var out' := ExpandToken(t, out);
      ValidTokens(ts, out') && CodedTokens(lit, dist, ts, out') && mid == TokensBits(lit, dist, ts, out') + rest
    ensures ValidTokens([t] + ts, out) && CodedTokens(lit, dist, [t] + ts, out)
    ensures Expand([t] + ts, out) == Expand(ts, ExpandToken(t, out))
    ensures r == TokensBits(lit, dist, [t] + ts, out) + rest
  {
    hide TokenBits, ValidToken, CodedToken, ExpandToken;
    assert ([t] + ts)[1..] == ts && ([t] + ts)[0] == t;
  }

  // ---- headers ----

  /** A run of the code-length alphabet whose count is all there. */
  lemma RunSound(sym: nat, r: seq<bool>, lens: seq<nat>, total: nat) returns (op: LengthOp)
    requires |lens| < total && LengthsFor(sym, r, lens, total).Lengths? && !RunShort(sym, r) && sym <= 18
    ensures OpSymbol(op) == sym && (!op.One? ==> op.n >= if op.ManyZeros? then 11 else 3)
    ensures forall clc :: Coded(clc, sym) ==> ValidOp(clc, op, lens)
    ensures var res := LengthsFor(sym, r, lens, total); res.lens == ApplyOp(op, lens) && r == OpExtra(op) + res.rest
  {
    hide ReadBits, Pow2, LsbBits, Repeat, Coded;
    RunPowers();
    if sym < 16 {
      op := One(sym);
    } else {
      var w, base := if sym == 16 then 2 else if sym == 17 then 3 else 7, if sym == 18 then 11 else 3;
      ReadSplits(r, w);
      var n := base + ReadBits(r, w).0;
      op := if sym == 16 then Again(n) else if sym == 17 then Zeros(n) else ManyZeros(n);
    }
  }

  lemma RunPowers()
    ensures Pow2(2) == 4 && Pow2(3) == 8 && Pow2(7) == 128
  {}

  lemma OpSound(clc: seq<nat>, r: seq<bool>, lens: seq<nat>, total: nat) returns (op: LengthOp)
    requires |lens| < total && NextLengths(clc, r, lens, total).Lengths?
    requires var (sym, rest) := Decode(TableOf(clc), r); sym >= 0 ==> !RunShort(sym, rest)
    ensures ValidOp(clc, op, lens)
    ensures var res := NextLengths(clc, r, lens, total); res.lens == ApplyOp(op, lens) && r == OpBits(clc, op) + res.rest
  {
    hide Decode, TableOf, LengthsFor, ApplyOp, CodeBits, OpExtra, RunShort, ValidOp, Code, Pow2;
    var (sym, rest) := Decode(TableOf(clc), r);
    DecodeSplits(clc, r);
    LengthSymbols(sym, rest, lens, total);
    op := RunSound(sym, rest, lens, total);
    ConcatRuns(CodeBits(clc, sym), OpExtra(op), NextLengths(clc, r, lens, total).rest);
  }

  lemma LengthSymbols(sym: nat, r: seq<bool>, lens: seq<nat>, total: nat)
    requires |lens| < total && LengthsFor(sym, r, lens, total).Lengths?
    ensures sym <= 18
  {}

  lemma ConcatRuns(a: seq<bool>, b: seq<bool>, c: seq<bool>)
    ensures a + (b + c) == a + b + c
  {}

  lemma OpWritable(clc: seq<nat>, op: LengthOp, lens: seq<nat>)
    requires ValidOp(clc, op, lens)
    ensures OpSymbol(op) < |clc| && (!op.One? ==> op.n >= if op.ManyZeros? then 11 else 3)
  {}

  lemma {:induction false} OpsSound(clc: seq<nat>, r: seq<bool>, lens: seq<nat>, total: nat) returns (ops: seq<LengthOp>)
    requires |lens| <= total && CodeLengths(clc, r, lens, total).Lengths? && !LengthsShort(clc, r, lens, total)
    ensures ValidOps(clc, ops, lens)
    ensures var res := CodeLengths(clc, r, lens, total); res.lens == ApplyOps(clc, ops, lens) && r == OpsBits(clc, ops, lens) + res.rest
    decreases total - |lens|
  {
    hide NextLengths, Decode, TableOf, RunShort, ApplyOp, OpBits, ValidOp;
    if |lens| == total {
      ops := [];
      assert r == [] + r;
    } else {
      var op := OpSound(clc, r, lens, total);
      OpWritable(clc, op, lens);
      var res := NextLengths(clc, r, lens, total);
      ops := OpsSound(clc, res.rest, res.lens, total);
      ConcatRuns(OpBits(clc, op), OpsBits(clc, ops, res.lens), CodeLengths(clc, r, lens, total).rest);
      assert ([op] + ops)[1..] == ops;
      ops := [op] + ops;
    }
  }

  /** The lengths of the code-length code, from place `i` on. */
  lemma {:induction false} ClcSound(r: seq<bool>, i: nat, hclen: nat, lens: seq<nat>)
    requires |lens| == 19 && i <= hclen <= 19 && |r| >= 3 * (hclen - i)
    ensures var (clc, rest) := CodeLengthCode(r, i, hclen, lens);
      && r == CodeLengthCodeBits(clc, i, hclen) + rest
      && forall k :: 0 <= k < 19 ==> if i <= ClcRank(k) < hclen then clc[k] <= 7 else clc[k] == lens[k]
    decreases hclen - i
  {
    hide ClcOrder, ClcRank, ReadBits, LsbBits, Pow2;
    if i == hclen {
      assert r == [] + r;
    } else {
      RankOfOrder(i);
      ReadSplits(r, 3);
      RunPowers();
      RestAfter(r, 3);
      var (v, r1) := ReadBits(r, 3);
      var lens' := lens[ClcOrder(i) := v % 256];
      ClcSound(r1, i + 1, hclen, lens');
      var clc, rest := CodeLengthCode(r, i, hclen, lens).0, CodeLengthCode(r, i, hclen, lens).1;
      assert clc[ClcOrder(i)] == v;
      ConcatRuns(LsbBits(v, 3), CodeLengthCodeBits(clc, i + 1, hclen), rest);
      forall k | 0 <= k < 19 ensures if i <= ClcRank(k) < hclen then clc[k] <= 7 else clc[k] == lens[k] {
        OrderOfRank(k);
      }
    }
  }

  lemma RestAfter(r: seq<bool>, n: nat)
    requires |r| >= n
    ensures |ReadBits(r, n).1| == |r| - n
  {}

  lemma OrderOfRank(k: nat)
    requires k < 19
    ensures ClcOrder(ClcRank(k)) == k
  {}

  /** The three counts of an accepted header are all there: the code-length code after them has to be. */
  lemma CountsSound(r: seq<bool>) returns (hlit: nat, hdist: nat, hclen: nat, r3: seq<bool>)
    requires DynamicTables(r).Tables?
    ensures 257 <= hlit <= 288 && 1 <= hdist <= 32 && 4 <= hclen <= 19
    ensures r == LsbBits(hlit - 257, 5) + (LsbBits(hdist - 1, 5) + (LsbBits(hclen - 4, 4) + r3))
    ensures var t, res := DynamicTables(r), TransmittedLengths(r3, hclen, hlit + hdist);
      res == Lengths(t.lit + t.dist, t.rest) && |t.lit| == hlit && Buildable(t.lit) && Buildable(t.dist)
    ensures TablesShort(r) <==> var (clc, r4) := CodeLengthCode(r3, 0, hclen, Repeat(0, 19)); LengthsShort(clc, r4, [], hlit + hdist)
    ensures |r3| >= 3 * hclen
  {
    hide TransmittedLengths, LengthsShort, CodeLengthCode, Buildable, Repeat, LsbBits, Lsb, Pow2;
    var f1 := CountField(r, 5, 257);
    var f2 := CountField(f1.1, 5, 1);
    var f3 := CountField(f2.1, 4, 4);
    hlit, hdist, hclen, r3 := f1.0, f2.0, f3.0, f3.1;
    TransmittedNeeds(r3, hclen, hlit + hdist);
    CountPowers();
    ReadSplits(r, 5);
    ReadSplits(f1.1, 5);
    ReadSplits(f2.1, 4);
    HalvesJoin(TransmittedLengths(r3, hclen, hlit + hdist).lens, hlit);
  }

  lemma CountPowers()
    ensures Pow2(5) == 32 && Pow2(4) == 16
  {}

  lemma HalvesJoin(s: seq<nat>, n: nat)
    requires n <= |s|
    ensures s[..n] + s[n..] == s
  {}

  lemma TransmittedNeeds(r: seq<bool>, hclen: nat, total: nat)
    requires hclen <= 19 && TransmittedLengths(r, hclen, total).Lengths?
    ensures |r| >= 3 * hclen
  {
    hide CodeLengthCode, CodeLengths, Buildable, Repeat;
    ClcFull(r, 0, hclen, Repeat(0, 19));
  }

  /** The lengths an accepted header transmits are encoded in it. */
  lemma TransmittedSound(r: seq<bool>, hclen: nat, total: nat) returns (clc: seq<nat>, ops: seq<LengthOp>)
    requires hclen <= 19 && |r| >= 3 * hclen && TransmittedLengths(r, hclen, total).Lengths?
    requires var (clc, r4) := CodeLengthCode(r, 0, hclen, Repeat(0, 19)); !LengthsShort(clc, r4, [], total)
    ensures ValidCodeLengthCode(clc, hclen) && Buildable(clc) && ValidOps(clc, ops, [])
    ensures var res := TransmittedLengths(r, hclen, total);
      res.lens == ApplyOps(clc, ops, []) && r == CodeLengthCodeBits(clc, 0, hclen) + (OpsBits(clc, ops, []) + res.rest)
  {
    hide CodeLengths, LengthsShort, CodeLengthCode, CodeLengthCodeBits, OpsBits, ApplyOps, ValidOps, Buildable, Repeat, ClcRank;
    var read := CodeLengthCode(r, 0, hclen, Repeat(0, 19));
    clc := read.0;
    ClcSound(r, 0, hclen, Repeat(0, 19));
    ops := OpsSound(clc, read.1, [], total);
  }

  /** An accepted header none of whose repeat counts is short is the encoding of its tables. */
  lemma HeaderSound(r: seq<bool>) returns (h: Header)
    requires DynamicTables(r).Tables? && !TablesShort(r)
    ensures ValidHeader(h)
    ensures var t := DynamicTables(r); h.lit == t.lit && h.dist == t.dist && r == HeaderBits(h) + t.rest
  {
    hide DynamicTables, TablesShort, TransmittedLengths, LengthsShort, CodeLengthCode, CodeLengthCodeBits, OpsBits, ApplyOps, ValidOps,
      ClcRank, Buildable, LsbBits;
    var t := DynamicTables(r);
    var hlit, hdist, hclen, r3 := CountsSound(r);
    var clc, ops := TransmittedSound(r3, hclen, hlit + hdist);
    h := Header(t.lit, t.dist, clc, hclen, ops);
    FiveParts(LsbBits(hlit - 257, 5), LsbBits(hdist - 1, 5), LsbBits(hclen - 4, 4), CodeLengthCodeBits(clc, 0, hclen), OpsBits(clc, ops, []), t.rest);
  }

  lemma FiveParts(a: seq<bool>, b: seq<bool>, c: seq<bool>, d: seq<bool>, e: seq<bool>, r: seq<bool>)
    ensures a + (b + (c + (d + (e + r)))) == a + (b + (c + (d + e))) + r
  {}

  // ---- blocks and streams ----

  lemma StoredReads(r: seq<bool>, out: seq<byte>, cap: nat) returns (a: seq<bool>, n: nat, data: seq<bool>)
    requires Stored(r, out, cap).Ok?
    ensures a == r[|r| % 8..] && |a| >= 32 + 8 * n && n == Lsb(a[..16]) && 0xFFFF - n == Lsb(a[16..32])
    ensures data == a[32..32 + 8 * n] && |data| % 8 == 0 && |BytesOf(data)| == n
    ensures Stored(r, out, cap) == Ok(out + BytesOf(data), a[32 + 8 * n..]) && |out| + n <= cap
  {
    hide Lsb, BytesOf;
    a := ByteAligned(r);
    n := Lsb(a[..16]);
    data := a[32..32 + 8 * n];
  }

  lemma PadOf(r: seq<bool>, pos: nat) returns (pad: seq<bool>)
    requires (pos + |r|) % 8 == 0
    ensures |pad| == 7 && pad[..PadLength(pos)] == r[..|r| % 8]
  {
    pad := r[..|r| % 8] + Repeat(false, 7 - |r| % 8);
    assert PadLength(pos) == |r| % 8;
    assert pad[..|r| % 8] == r[..|r| % 8];
  }

  lemma StoredSound(r: seq<bool>, pos: nat, out: seq<byte>, cap: nat) returns (bytes: seq<byte>, pad: seq<bool>)
    requires (pos + |r|) % 8 == 0 && Stored(r, out, cap).Ok?
    ensures |bytes| <= 0xFFFF && |pad| == 7
    ensures var p := Stored(r, out, cap);
      p.out == out + bytes && |p.out| <= cap && r == VerbatimBits(bytes, pad, pos) + p.rest
  {
    hide Lsb, BytesOf, BitsOf, LsbBits, Stored, PadLength;
    var a, n, data := StoredReads(r, out, cap);
    pad := PadOf(r, pos);
    bytes := BytesOf(data);
    BitsOfBytes(data);
    WordSound(a[..16]);
    WordSound(a[16..32]);
    StoredParts(r, a, n);
  }

  lemma WordSound(b: seq<bool>)
    requires |b| == 16
    ensures Lsb(b) <= 0xFFFF && LsbBits(Lsb(b), 16) == b
  {
    assert Pow2(8) == 256;
    Pow2Add(8, 8);
    LsbBound(b);
    BitsOfLsb(b);
  }

  lemma StoredParts(r: seq<bool>, a: seq<bool>, n: nat)
    requires a == r[|r| % 8..] && |a| >= 32 + 8 * n
    ensures r == r[..|r| % 8] + (a[..16] + (a[16..32] + a[32..32 + 8 * n])) + a[32 + 8 * n..]
  {}

  lemma BlockSound(kind: nat, r: seq<bool>, pos: nat, out: seq<byte>, cap: nat) returns (b: Block)
    requires kind < 4 && cap <= MAX_OUTPUT && |out| <= cap && (pos + |r|) % 8 == 0
    requires Deflate.Block(kind, r, out, cap).Ok? && !BlockShort(kind, r)
    ensures Kind(b) == kind && ValidBlock(b, out)
    ensures var p := Deflate.Block(kind, r, out, cap);
      p.out == ExpandBlock(b, out) && |p.out| <= cap && r == BlockBits(b, pos, out) + p.rest
  {
    hide Stored, Codes, DynamicTables, TablesShort, VerbatimBits, TokensBits, HeaderBits, Expand, ValidTokens, CodedTokens, ValidHeader;
    if kind == 0 {
      var bytes, pad := StoredSound(r, pos, out, cap);
      b := Verbatim(bytes, pad);
    } else if kind == 1 {
      var ts := CodesSound(FIXED_LIT, FIXED_DIST, r, out, cap);
      b := Fixed(ts);
    } else {
      var h := HeaderSound(r);
      var t := DynamicTables(r);
      var ts := CodesSound(t.lit, t.dist, t.rest, out, cap);
      b := Dynamic(h, ts);
      ConcatRuns(HeaderBits(h), TokensBits(h.lit, h.dist, ts, out), Deflate.Block(kind, r, out, cap).rest);
    }
  }

  /** The two fields before a block are there when the block decodes. */
  lemma HeadSound(r: seq<bool>, out: seq<byte>, cap: nat)
    requires cap <= MAX_OUTPUT
    requires var (last, r1) := ReadBits(r, 1); var (kind, r2) := ReadBits(r1, 2); Deflate.Block(AsInt(kind), r2, out, cap).Ok?
    ensures |r| >= 3
    ensures var (last, r1) := ReadBits(r, 1);
      var (kind, r2) := ReadBits(r1, 2);
      kind < 4 && (last == 1 || last == 0) && r == [last == 1] + (LsbBits(kind, 2) + r2)
  {
    hide Deflate.Block, BlockShort, LsbBits, Pow2, Lsb;
    var (last, r1) := ReadBits(r, 1);
    var (kind, r2) := ReadBits(r1, 2);
    BlockTakes(AsInt(kind), r2, out, cap);
    RunPowers();
    ReadSplits(r, 1);
    ReadSplits(r1, 2);
    OneBit(last);
  }

  lemma OneBit(v: nat)
    ensures Pow2(1) == 2
    ensures v < 2 ==> LsbBits(v, 1) == [v == 1]
  {}

  /** An accepted stream none of whose repeat counts is short is the encoding of some blocks. */
  lemma {:induction false} StreamSound(r: seq<bool>, pos: nat, out: seq<byte>, cap: nat) returns (bs: seq<Block>)
    requires cap <= MAX_OUTPUT && |out| <= cap && (pos + |r|) % 8 == 0
    requires Blocks(r, out, cap).Ok? && !StreamShort(r, out, cap)
    ensures bs != [] && ValidBlocks(bs, out)
    ensures var p := Blocks(r, out, cap);
      p.out == ExpandBlocks(bs, out) && |p.out| <= cap && r == StreamBits(bs, pos, out) + p.rest
    decreases |r|
  {
    hide Deflate.Block, BlockShort, Lsb, LsbBits, BlockBits, ExpandBlock, ValidBlock;
    HeadSound(r, out, cap);
    var f1 := ReadBits(r, 1);
    var f2 := ReadBits(f1.1, 2);
    var b := BlockSound(f2.0, f2.1, pos + 3, out, cap);
    var p := Deflate.Block(f2.0, f2.1, out, cap);
    var body := BlockBits(b, pos + 3, out);
    if f1.0 != 0 {
      bs := [b];
      assert bs[1..] == [];
      FourParts(r, [true], LsbBits(f2.0, 2), body, [], p.rest);
    } else {
      var rest := Blocks(r, out, cap).rest;
      bs := StreamSound(p.rest, pos + 3 + |body|, p.out, cap);
      FourParts(r, [false], LsbBits(f2.0, 2), body, StreamBits(bs, pos + 3 + |body|, p.out), rest);
      bs := [b] + bs;
      assert bs[1..] == bs[1..] && bs[0] == b;
    }
  }

  lemma FourParts(r: seq<bool>, a: seq<bool>, b: seq<bool>, c: seq<bool>, d: seq<bool>, rest: seq<bool>)
    requires r == a + (b + (c + (d + rest)))
    ensures r == a + (b + (c + d)) + rest
  {}

  // ---- the inflater accepts exactly the encodings ----

  /** `r` is the encoding of the blocks, which expand to `out`, and then `rest`. */
  ghost predicate Encodes(bs: seq<Block>, r: seq<bool>, out: seq<byte>, rest: seq<bool>) {
    bs != [] && ValidBlocks(bs, []) && ExpandBlocks(bs, []) == out && r == StreamBits(bs, 0, []) + rest
  }

  /** No repeat count of an encoding is short. */
  lemma EncodingReads(bs: seq<Block>, r: seq<bool>, out: seq<byte>, rest: seq<bool>, cap: nat)
    requires Encodes(bs, r, out, rest) && |r| % 8 == 0 && |out| <= cap <= MAX_OUTPUT
    ensures Blocks(r, [], cap) == Ok(out, rest) && !StreamShort(r, [], cap)
  {
    hide ValidBlocks, ExpandBlocks, StreamBits, Blocks, StreamShort;
    var x := Repeat(false, 8);
    StreamBack(bs, 0, rest, [], cap);
    StreamBack(bs, 0, rest + x, [], cap);
    assert r + x == StreamBits(bs, 0, []) + (rest + x);
    BlocksMore(r, [], cap, x);
  }

  /** For every input and every cap the caller may set: the inflater returns `out` and leaves `rest` unread,
      with every repeat count inside the input, exactly when the input is the encoding of some blocks that
      expand to `out`, followed by `rest`, and `out` fits. */
  lemma AcceptsEncodings(src: seq<byte>, cap: nat, out: seq<byte>, rest: seq<bool>)
    requires cap <= MAX_OUTPUT
    ensures var r := BitsOf(Payload(src));
      Inflated(src, cap) == Ok(out, rest) && !StreamShort(r, [], cap) <==> |out| <= cap && exists bs :: Encodes(bs, r, out, rest)
  {
    hide Encodes, Blocks, StreamShort, BitsOf, Payload;
    var r := BitsOf(Payload(src));
    if Inflated(src, cap) == Ok(out, rest) && !StreamShort(r, [], cap) {
      var bs := EncodingOf(r, cap);
      assert Encodes(bs, r, out, rest);
    }
    if |out| <= cap && exists bs :: Encodes(bs, r, out, rest) {
      var bs :| Encodes(bs, r, out, rest);
      EncodingReads(bs, r, out, rest, cap);
    }
  }

  lemma EncodingOf(r: seq<bool>, cap: nat) returns (bs: seq<Block>)
    requires cap <= MAX_OUTPUT && |r| % 8 == 0 && Blocks(r, [], cap).Ok? && !StreamShort(r, [], cap)
    ensures var p := Blocks(r, [], cap); Encodes(bs, r, p.out, p.rest) && |p.out| <= cap
  {
    hide ValidBlocks, ExpandBlocks, StreamBits, Blocks, StreamShort;
    bs := StreamSound(r, 0, [], cap);
  }
}
