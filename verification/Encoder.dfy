/** A reference DEFLATE encoder (section 3.2 of RFC 1951): any list of blocks, each stored, fixed
    or dynamic, over any token lists and any code lengths an encoder may choose; and the proof
    that the inflater turns its output back into the LZ77 expansion of the tokens. */
module Encoder {
  import opened Bits
  import opened BitReading
  import opened Huffman
  import opened Deflate

  /** `code` is the length code chosen for `len`: 258 has two of them. */
  datatype Token = Literal(b: byte) | BackRef(len: nat, dist: nat, code: nat)

  /** The code-length alphabet: one length, 3-6 more of the last one, 3-10 zeros, 11-138 zeros. */
  datatype LengthOp = One(l: nat) | Again(n: nat) | Zeros(n: nat) | ManyZeros(n: nat)

  datatype Header = Header(lit: seq<nat>, dist: seq<nat>, clc: seq<nat>, hclen: nat, ops: seq<LengthOp>)

  /** Whatever bits `pad` begins with come before a stored block, as many as lead to a byte boundary. */
  datatype Block = Verbatim(bytes: seq<byte>, pad: seq<bool>) | Fixed(tokens: seq<Token>) | Dynamic(header: Header, tokens: seq<Token>)

  // ---- LZ77: what the tokens mean ----

  /** A length code and its extra bits can express `len`. */
  predicate Expresses(code: nat, len: nat) {
    code < 29 && LenBase(code) <= len < LenBase(code) + Pow2(LenExtra(code))
  }

  ghost predicate ValidToken(t: Token, out: seq<byte>) {
    t.BackRef? ==> Expresses(t.code, t.len) && 1 <= t.dist <= 32768 && t.dist <= |out|
  }

  function ExpandToken(t: Token, out: seq<byte>): (r: seq<byte>)
    requires t.BackRef? ==> 1 <= t.dist <= |out|
    ensures |r| >= |out|
  {
    match t
    case Literal(b) => out + [b]
    case BackRef(len, dist, _) => Copy(out, len, dist)
  }

  ghost predicate ValidTokens(ts: seq<Token>, out: seq<byte>)
    decreases |ts|
  {
    ts == [] || (ValidToken(ts[0], out) && ValidTokens(ts[1..], ExpandToken(ts[0], out)))
  }

  ghost function Expand(ts: seq<Token>, out: seq<byte>): (r: seq<byte>)
    requires ValidTokens(ts, out)
    ensures |r| >= |out|
    decreases |ts|
  {
    if ts == [] then out else Expand(ts[1..], ExpandToken(ts[0], out))
  }

  /** Copy is the LZ77 copy: the one extension of the output in which every new byte equals
      the byte `dist` before it, also where the copy overlaps its own result. */
  lemma {:induction false} CopyIsPeriodic(out: seq<byte>, len: nat, dist: nat, r: seq<byte>)
    requires 1 <= dist <= |out|
    ensures r == Copy(out, len, dist) <==>
      |r| == |out| + len && r[..|out|] == out && forall i :: |out| <= i < |r| ==> r[i] == r[i - dist]
  {
    if len > 0 {
      var c, n := Copy(out, len - 1, dist), |out| + len - 1;
      if |r| == n + 1 {
        CopyIsPeriodic(out, len - 1, dist, r[..n]);
        assert r[..n][..|out|] == r[..|out|];
        assert r == r[..n] + [r[n]];
        if r == Copy(out, len, dist) {
          assert r[..n] == c;
        }
      }
    } else if |r| == |out| {
      assert r[..|out|] == r;
    }
  }

  // ---- length and distance codes ----

  function LengthCodeBelow(len: nat, i: nat): (li: nat)
    requires i < 28 && 3 <= len < LenBase(i) + Pow2(LenExtra(i))
    ensures li <= i && LenBase(li) <= len < LenBase(li) + Pow2(LenExtra(li))
  {
    assert Pow2(0) == 1 && Pow2(1) == 2 && Pow2(2) == 4 && Pow2(3) == 8 && Pow2(4) == 16 && Pow2(5) == 32;
    if LenBase(i) <= len then i else LengthCodeBelow(len, i - 1)
  }

  /** The length code of a match length; the longest length has a code of its own. */
  function LengthCode(len: nat): (li: nat)
    requires 3 <= len <= 258
    ensures Expresses(li, len)
  {
    assert Pow2(5) == 32 && Pow2(0) == 1;
    if len == 258 then 28 else LengthCodeBelow(len, 27)
  }

  function DistanceCodeBelow(d: nat, i: nat): (di: nat)
    requires i < 30 && 1 <= d < DistBase(i) + Pow2(DistExtra(i))
    ensures di <= i && DistBase(di) <= d < DistBase(di) + Pow2(DistExtra(di))
  {
    assert Pow2(0) == 1 && Pow2(1) == 2 && Pow2(2) == 4 && Pow2(3) == 8 && Pow2(4) == 16 && Pow2(5) == 32 && Pow2(6) == 64
      && Pow2(7) == 128 && Pow2(8) == 256 && Pow2(9) == 512 && Pow2(10) == 1024 && Pow2(11) == 2048 && Pow2(12) == 4096
      && Pow2(13) == 8192;
    if DistBase(i) <= d then i else DistanceCodeBelow(d, i - 1)
  }

  function DistanceCode(d: nat): (di: nat)
    requires 1 <= d <= 32768
    ensures di < 30 && DistBase(di) <= d < DistBase(di) + Pow2(DistExtra(di))
  {
    assert Pow2(13) == 8192;
    DistanceCodeBelow(d, 29)
  }

  // ---- tokens to bits ----

  ghost predicate CodedToken(lit: seq<nat>, dist: seq<nat>, t: Token)
    requires t.BackRef? ==> Expresses(t.code, t.len) && 1 <= t.dist <= 32768
  {
    match t
    case Literal(b) => Coded(lit, b)
    case BackRef(_, d, code) => Coded(lit, 257 + code) && Coded(dist, DistanceCode(d))
  }

  function BackRefBits(dist: seq<nat>, code: nat, len: nat, d: nat): seq<bool>
    requires Expresses(code, len) && 1 <= d <= 32768 && DistanceCode(d) < |dist|
  {
    var di := DistanceCode(d);
    LsbBits(len - LenBase(code), LenExtra(code)) + (CodeBits(dist, di) + LsbBits(d - DistBase(di), DistExtra(di)))
  }

  ghost function TokenBits(lit: seq<nat>, dist: seq<nat>, t: Token): seq<bool>
    requires t.BackRef? ==> Expresses(t.code, t.len) && 1 <= t.dist <= 32768
    requires CodedToken(lit, dist, t)
  {
    match t
    case Literal(b) => CodeBits(lit, b)
    case BackRef(len, d, code) => CodeBits(lit, 257 + code) + BackRefBits(dist, code, len, d)
  }

  ghost predicate CodedTokens(lit: seq<nat>, dist: seq<nat>, ts: seq<Token>, out: seq<byte>)
    requires ValidTokens(ts, out)
    decreases |ts|
  {
    if ts == [] then Coded(lit, 256)
    else CodedToken(lit, dist, ts[0]) && CodedTokens(lit, dist, ts[1..], ExpandToken(ts[0], out))
  }

  /** The tokens of a block, and its end-of-block symbol. */
  ghost function TokensBits(lit: seq<nat>, dist: seq<nat>, ts: seq<Token>, out: seq<byte>): seq<bool>
    requires ValidTokens(ts, out) && CodedTokens(lit, dist, ts, out)
    decreases |ts|
  {
    if ts == [] then CodeBits(lit, 256)
    else TokenBits(lit, dist, ts[0]) + TokensBits(lit, dist, ts[1..], ExpandToken(ts[0], out))
  }

  /** Reading back a number written in `n` bits. */
  lemma ReadBack(v: nat, n: nat, r: seq<bool>)
    requires v < Pow2(n)
    ensures ReadBits(LsbBits(v, n) + r, n) == (v, r)
  {
    LsbOfBits(v, n);
    assert (LsbBits(v, n) + r)[..n] == LsbBits(v, n) && (LsbBits(v, n) + r)[n..] == r;
  }

  lemma DecodeBack(lens: seq<nat>, s: nat, r: seq<bool>)
    requires Coded(lens, s)
    ensures Decode(TableOf(lens), CodeBits(lens, s) + r) == (s, r)
  {
    DecodeInvertsCode(lens, s, CodeBits(lens, s) + r, r);
  }

  lemma MatchBack(dist: seq<nat>, code: nat, len: nat, d: nat, r: seq<bool>, out: seq<byte>, cap: nat)
    requires Expresses(code, len) && 1 <= d <= 32768 && d <= |out| && Coded(dist, DistanceCode(d))
    ensures Match(dist, code, BackRefBits(dist, code, len, d) + r, out, cap) ==
      if |out| + len <= cap then Ok(Copy(out, len, d), r) else Bad
  {
    hide LenBase, LenExtra, DistBase, DistExtra, DistanceCode, Copy, Pow2, CodeBits, Decode, LsbBits, ReadBits, TableOf;
    var di := DistanceCode(d);
    var le, de := len - LenBase(code), d - DistBase(di);
    var a, b, c := LsbBits(le, LenExtra(code)), CodeBits(dist, di), LsbBits(de, DistExtra(di));
    assert BackRefBits(dist, code, len, d) + r == a + (b + (c + r));
    ReadBack(le, LenExtra(code), b + (c + r));
    DecodeBack(dist, di, c + r);
    ReadBack(de, DistExtra(di), r);
  }

  /** The symbol loop turns the bits of one token into the token's effect on the output. */
  lemma TokenBack(lit: seq<nat>, dist: seq<nat>, t: Token, r: seq<bool>, out: seq<byte>, cap: nat)
    requires ValidToken(t, out) && CodedToken(lit, dist, t)
    ensures var out' := ExpandToken(t, out);
      Codes(lit, dist, TokenBits(lit, dist, t) + r, out, cap) == if |out'| <= cap then Codes(lit, dist, r, out', cap) else Bad
  {
    hide Codes, Decode, CodeBits, TableOf, Match, BackRefBits, DistanceCode, Copy, CodedToken, Coded, Pow2, LenBase, LenExtra;
    match t {
      case Literal(b) =>
        LiteralBack(lit, dist, b, r, out, cap);
      case BackRef(len, d, code) =>
        BackRefBack(lit, dist, code, len, d, r, out, cap);
    }
  }

  lemma LiteralBack(lit: seq<nat>, dist: seq<nat>, b: byte, r: seq<bool>, out: seq<byte>, cap: nat)
    requires CodedToken(lit, dist, Literal(b))
    ensures Codes(lit, dist, CodeBits(lit, b) + r, out, cap) == if |out| + 1 <= cap then Codes(lit, dist, r, out + [b], cap) else Bad
  {
    hide Decode, CodeBits, TableOf, Match;
    DecodeBack(lit, b, r);
  }

  lemma BackRefBack(lit: seq<nat>, dist: seq<nat>, code: nat, len: nat, d: nat, r: seq<bool>, out: seq<byte>, cap: nat)
    requires Expresses(code, len) && 1 <= d <= 32768 && d <= |out| && CodedToken(lit, dist, BackRef(len, d, code))
    ensures Codes(lit, dist, CodeBits(lit, 257 + code) + BackRefBits(dist, code, len, d) + r, out, cap) ==
      if |Copy(out, len, d)| <= cap then Codes(lit, dist, r, Copy(out, len, d), cap) else Bad
  {
    hide Decode, CodeBits, TableOf, Match, BackRefBits, DistanceCode, Copy, Code, Pow2;
    var q, head := BackRefBits(dist, code, len, d) + r, CodeBits(lit, 257 + code);
    assert head + BackRefBits(dist, code, len, d) + r == head + q;
    DecodeBack(lit, 257 + code, q);
    MatchBack(dist, code, len, d, r, out, cap);
  }

  /** The symbol loop turns the bits of a token list back into the tokens' expansion. */
  lemma {:induction false} CodesBack(lit: seq<nat>, dist: seq<nat>, ts: seq<Token>, out: seq<byte>, r: seq<bool>, cap: nat)
    requires ValidTokens(ts, out) && CodedTokens(lit, dist, ts, out) && |out| <= cap
    ensures var e := Expand(ts, out);
      Codes(lit, dist, TokensBits(lit, dist, ts, out) + r, out, cap) == if |e| <= cap then Ok(e, r) else Bad
    decreases |ts|
  {
    if ts == [] {
      hide CodeBits, Decode;
      DecodeBack(lit, 256, r);
    } else {
      hide Codes, TokenBits, ExpandToken, CodedToken;
      var out' := ExpandToken(ts[0], out);
      var head, tail := TokenBits(lit, dist, ts[0]), TokensBits(lit, dist, ts[1..], out');
      assert (head + tail) + r == head + (tail + r);
      TokenBack(lit, dist, ts[0], tail + r, out, cap);
      if |out'| <= cap {
        CodesBack(lit, dist, ts[1..], out', r, cap);
      }
    }
  }

  // ---- dynamic block headers ----

  function ApplyOp(op: LengthOp, lens: seq<nat>): (r: seq<nat>)
    requires op.Again? ==> lens != []
    ensures |r| >= |lens|
  {
    match op
    case One(l) => lens + [l]
    case Again(n) => lens + Repeat(lens[|lens| - 1], n)
    case Zeros(n) => lens + Repeat(0, n)
    case ManyZeros(n) => lens + Repeat(0, n)
  }

  function OpSymbol(op: LengthOp): nat {
    match op
    case One(l) => l
    case Again(_) => 16
    case Zeros(_) => 17
    case ManyZeros(_) => 18
  }

  ghost predicate ValidOp(clc: seq<nat>, op: LengthOp, lens: seq<nat>) {
    && Coded(clc, OpSymbol(op))
    && match op
       case One(l) => l <= MAX_BITS
       case Again(n) => lens != [] && 3 <= n <= 6
       case Zeros(n) => 3 <= n <= 10
       case ManyZeros(n) => 11 <= n <= 138
  }

  function OpExtra(op: LengthOp): seq<bool>
    requires !op.One? ==> op.n >= (if op.ManyZeros? then 11 else 3)
  {
    match op
    case One(_) => []
    case Again(n) => LsbBits(n - 3, 2)
    case Zeros(n) => LsbBits(n - 3, 3)
    case ManyZeros(n) => LsbBits(n - 11, 7)
  }

  function OpBits(clc: seq<nat>, op: LengthOp): seq<bool>
    requires OpSymbol(op) < |clc|
    requires !op.One? ==> op.n >= (if op.ManyZeros? then 11 else 3)
  {
    CodeBits(clc, OpSymbol(op)) + OpExtra(op)
  }

  ghost predicate ValidOps(clc: seq<nat>, ops: seq<LengthOp>, lens: seq<nat>)
    decreases |ops|
  {
    ops == [] || (ValidOp(clc, ops[0], lens) && ValidOps(clc, ops[1..], ApplyOp(ops[0], lens)))
  }

  ghost function ApplyOps(clc: seq<nat>, ops: seq<LengthOp>, lens: seq<nat>): (r: seq<nat>)
    requires ValidOps(clc, ops, lens)
    ensures |r| >= |lens|
    decreases |ops|
  {
    if ops == [] then lens else ApplyOps(clc, ops[1..], ApplyOp(ops[0], lens))
  }

  ghost function OpsBits(clc: seq<nat>, ops: seq<LengthOp>, lens: seq<nat>): seq<bool>
    requires ValidOps(clc, ops, lens)
    decreases |ops|
  {
    if ops == [] then [] else OpBits(clc, ops[0]) + OpsBits(clc, ops[1..], ApplyOp(ops[0], lens))
  }

  lemma CountBack(n: nat, w: nat, base: nat, r: seq<bool>)
    requires base >= 1 && w <= 7 && n < Pow2(w)
    ensures CountField(LsbBits(n, w) + r, w, base) == (base + n, r)
  {
    ReadBack(n, w, r);
    Pow2Mono(w, 7);
    assert Pow2(7) == 128;
  }

  lemma ExtraBack(clc: seq<nat>, op: LengthOp, r: seq<bool>, lens: seq<nat>, total: nat)
    requires ValidOp(clc, op, lens) && |ApplyOp(op, lens)| <= total
    ensures |lens| < |ApplyOp(op, lens)|
    ensures LengthsFor(OpSymbol(op), OpExtra(op) + r, lens, total) == Lengths(ApplyOp(op, lens), r)
  {
    hide Repeat, LsbBits, CountField, Pow2, Coded, LengthsFor;
    match op {
      case One(l) =>
        assert OpExtra(op) + r == r;
        OneBack(l, r, lens, total);
      case Again(n) => AgainBack(n, r, lens, total);
      case Zeros(n) => ZerosBack(n, r, lens, total);
      case ManyZeros(n) => ManyBack(n, r, lens, total);
    }
  }

  lemma OneBack(l: nat, r: seq<bool>, lens: seq<nat>, total: nat)
    requires l <= MAX_BITS && |lens| + 1 <= total
    ensures LengthsFor(l, r, lens, total) == Lengths(lens + [l], r)
  {}

  lemma AgainBack(n: nat, r: seq<bool>, lens: seq<nat>, total: nat)
    requires 3 <= n <= 6 && lens != [] && |lens| + n <= total
    ensures LengthsFor(16, LsbBits(n - 3, 2) + r, lens, total) == Lengths(lens + Repeat(lens[|lens| - 1], n), r)
  {
    assert Pow2(2) == 4;
    hide Repeat, LsbBits, CountField, Pow2;
    CountBack(n - 3, 2, 3, r);
  }

  lemma ZerosBack(n: nat, r: seq<bool>, lens: seq<nat>, total: nat)
    requires 3 <= n <= 10 && |lens| + n <= total
    ensures LengthsFor(17, LsbBits(n - 3, 3) + r, lens, total) == Lengths(lens + Repeat(0, n), r)
  {
    assert Pow2(3) == 8;
    hide Repeat, LsbBits, CountField, Pow2;
    CountBack(n - 3, 3, 3, r);
  }

  lemma ManyBack(n: nat, r: seq<bool>, lens: seq<nat>, total: nat)
    requires 11 <= n <= 138 && |lens| + n <= total
    ensures LengthsFor(18, LsbBits(n - 11, 7) + r, lens, total) == Lengths(lens + Repeat(0, n), r)
  {
    assert Pow2(7) == 128;
    hide Repeat, LsbBits, CountField, Pow2;
    CountBack(n - 11, 7, 11, r);
  }

  lemma OpBack(clc: seq<nat>, op: LengthOp, r: seq<bool>, lens: seq<nat>, total: nat)
    requires ValidOp(clc, op, lens) && |ApplyOp(op, lens)| <= total
    ensures |lens| < |ApplyOp(op, lens)|
    ensures NextLengths(clc, OpBits(clc, op) + r, lens, total) == Lengths(ApplyOp(op, lens), r)
  {
    hide Decode, CodeBits, TableOf, ApplyOp, OpExtra, LengthsFor;
    ExtraBack(clc, op, r, lens, total);
    DecodeBack(clc, OpSymbol(op), OpExtra(op) + r);
    assert OpBits(clc, op) + r == CodeBits(clc, OpSymbol(op)) + (OpExtra(op) + r);
  }

  lemma {:induction false} OpsBack(clc: seq<nat>, ops: seq<LengthOp>, r: seq<bool>, lens: seq<nat>)
    requires ValidOps(clc, ops, lens)
    ensures var full := ApplyOps(clc, ops, lens);
      CodeLengths(clc, OpsBits(clc, ops, lens) + r, lens, |full|) == Lengths(full, r)
    decreases |ops|
  {
    hide CodeBits, LsbBits, Repeat, TableOf, Decode;
    if ops == [] {
      assert [] + r == r;
    } else {
      hide NextLengths, OpBits, ValidOp, ApplyOp;
      var lens' := ApplyOp(ops[0], lens);
      var head, tail := OpBits(clc, ops[0]), OpsBits(clc, ops[1..], lens');
      assert (head + tail) + r == head + (tail + r);
      OpBack(clc, ops[0], tail + r, lens, |ApplyOps(clc, ops, lens)|);
      OpsBack(clc, ops[1..], r, lens');
    }
  }

  /** Where each code-length symbol comes in the transmission order. */
  const CLC_RANK: seq<nat> := [3, 17, 15, 13, 11, 9, 7, 5, 4, 6, 8, 10, 12, 14, 16, 18, 0, 1, 2]

  function ClcRank(k: nat): (i: nat)
    requires k < 19
    ensures i < 19 && ClcOrder(i) == k
  {
    CLC_RANK[k]
  }

  lemma RankOfOrder(i: nat)
    requires i < 19
    ensures ClcRank(ClcOrder(i)) == i
  {
  }

  function CodeLengthCodeBits(clc: seq<nat>, i: nat, hclen: nat): seq<bool>
    requires |clc| == 19 && hclen <= 19
    decreases hclen - i
  {
    if i >= hclen then [] else LsbBits(clc[ClcOrder(i)], 3) + CodeLengthCodeBits(clc, i + 1, hclen)
  }

  ghost predicate ValidCodeLengthCode(clc: seq<nat>, hclen: nat) {
    && |clc| == 19 && hclen <= 19
    && (forall k :: 0 <= k < 19 ==> clc[k] <= 7)
    && (forall k :: 0 <= k < 19 && ClcRank(k) >= hclen ==> clc[k] == 0)
  }

  /** The state of the reading loop after `i` turns. */
  ghost predicate ReadSoFar(clc: seq<nat>, i: nat, lens: seq<nat>) {
    |clc| == |lens| == 19 && forall k :: 0 <= k < 19 ==> lens[k] == if ClcRank(k) < i then clc[k] else 0
  }

  lemma ReadOneMore(clc: seq<nat>, i: nat, lens: seq<nat>)
    requires ReadSoFar(clc, i, lens) && i < 19
    ensures var k := ClcOrder(i); ReadSoFar(clc, i + 1, lens[k := clc[k]])
  {
    RankOfOrder(i);
    hide ClcOrder, ClcRank;
  }

  lemma ReadAll(clc: seq<nat>, hclen: nat, lens: seq<nat>)
    requires ValidCodeLengthCode(clc, hclen) && ReadSoFar(clc, hclen, lens)
    ensures lens == clc
  {
    hide ClcOrder, ClcRank;
  }

  lemma {:induction false} CodeLengthCodeBack(clc: seq<nat>, i: nat, hclen: nat, lens: seq<nat>, r: seq<bool>)
    requires ValidCodeLengthCode(clc, hclen) && ReadSoFar(clc, i, lens) && |lens| == 19 && i <= hclen
    ensures CodeLengthCode(CodeLengthCodeBits(clc, i, hclen) + r, i, hclen, lens) == (clc, r)
    decreases hclen - i
  {
    hide LsbBits, ClcOrder, ClcRank, ReadSoFar, CodeLengthCode, ReadBits, Pow2;
    if i == hclen {
      assert [] + r == r;
      ReadAll(clc, hclen, lens);
      ClcEnds(r, i, hclen, lens);
    } else {
      var k := ClcOrder(i);
      var tail := CodeLengthCodeBits(clc, i + 1, hclen);
      ReadBack(clc[k], 3, tail + r) by { assert Pow2(3) == 8 by { Pow2Three(); } }
      assert (LsbBits(clc[k], 3) + tail) + r == LsbBits(clc[k], 3) + (tail + r);
      ClcTurn(LsbBits(clc[k], 3) + (tail + r), i, hclen, lens, clc[k], tail + r);
      ReadOneMore(clc, i, lens);
      CodeLengthCodeBack(clc, i + 1, hclen, lens[k := clc[k]], r);
    }
  }

  lemma Pow2Three()
    ensures Pow2(3) == 8
  {}

  lemma ClcEnds(r: seq<bool>, i: nat, hclen: nat, lens: seq<nat>)
    requires |lens| == 19 && i == hclen <= 19
    ensures CodeLengthCode(r, i, hclen, lens) == (lens, r)
  {}

  lemma ClcTurn(r: seq<bool>, i: nat, hclen: nat, lens: seq<nat>, v: nat, rest: seq<bool>)
    requires |lens| == 19 && i < hclen <= 19 && ReadBits(r, 3) == (v, rest) && v < 256
    ensures CodeLengthCode(r, i, hclen, lens) == CodeLengthCode(rest, i + 1, hclen, lens[ClcOrder(i) := v])
  {
    hide ReadBits, ClcOrder;
  }

  ghost predicate ValidHeader(h: Header) {
    && 257 <= |h.lit| <= 288 && 1 <= |h.dist| <= 32
    && Buildable(h.lit) && Buildable(h.dist) && Buildable(h.clc)
    && ValidCodeLengthCode(h.clc, h.hclen) && h.hclen >= 4
    && ValidOps(h.clc, h.ops, [])
    && ApplyOps(h.clc, h.ops, []) == h.lit + h.dist
  }

  ghost function HeaderBits(h: Header): seq<bool>
    requires ValidHeader(h)
  {
    LsbBits(|h.lit| - 257, 5) + (LsbBits(|h.dist| - 1, 5) + (LsbBits(h.hclen - 4, 4) +
    (CodeLengthCodeBits(h.clc, 0, h.hclen) + OpsBits(h.clc, h.ops, []))))
  }

  lemma TransmittedBack(h: Header, r: seq<bool>)
    requires ValidHeader(h)
    ensures TransmittedLengths(CodeLengthCodeBits(h.clc, 0, h.hclen) + (OpsBits(h.clc, h.ops, []) + r), h.hclen, |h.lit| + |h.dist|)
      == Lengths(h.lit + h.dist, r)
  {
    hide Buildable, OpsBits, CodeLengths, CodeLengthCode, CodeLengthCodeBits, ClcOrder, ClcRank;
    assert ReadSoFar(h.clc, 0, Repeat(0, 19));
    CodeLengthCodeBack(h.clc, 0, h.hclen, Repeat(0, 19), OpsBits(h.clc, h.ops, []) + r);
    OpsBack(h.clc, h.ops, r, []);
  }

  lemma CountsBack(lit: nat, dist: nat, hclen: nat, q: seq<bool>)
    requires 257 <= lit <= 288 && 1 <= dist <= 32 && 4 <= hclen <= 19
    ensures var r2 := LsbBits(hclen - 4, 4) + q;
            var r1 := LsbBits(dist - 1, 5) + r2;
            && CountField(LsbBits(lit - 257, 5) + r1, 5, 257) == (lit, r1)
            && CountField(r1, 5, 1) == (dist, r2)
            && CountField(r2, 4, 4) == (hclen, q)
  {
    assert Pow2(5) == 32 && Pow2(4) == 16;
    hide Pow2, LsbBits, CountField;
    var r2 := LsbBits(hclen - 4, 4) + q;
    var r1 := LsbBits(dist - 1, 5) + r2;
    CountBack(lit - 257, 5, 257, r1);
    CountBack(dist - 1, 5, 1, r2);
    CountBack(hclen - 4, 4, 4, q);
  }

  lemma TablesBack(lit: seq<nat>, dist: seq<nat>, hclen: nat, q: seq<bool>, r: seq<bool>)
    requires 257 <= |lit| <= 288 && 1 <= |dist| <= 32 && 4 <= hclen <= 19
    requires Buildable(lit) && Buildable(dist)
    requires TransmittedLengths(q, hclen, |lit| + |dist|) == Lengths(lit + dist, r)
    ensures DynamicTables(LsbBits(|lit| - 257, 5) + (LsbBits(|dist| - 1, 5) + (LsbBits(hclen - 4, 4) + q))) == Tables(lit, dist, r)
  {
    hide Buildable, LsbBits, TransmittedLengths, CountField;
    CountsBack(|lit|, |dist|, hclen, q);
    assert (lit + dist)[..|lit|] == lit && (lit + dist)[|lit|..] == dist;
  }

  /** The decoder reads the header of a dynamic block back as the two length vectors. */
  lemma HeaderBack(h: Header, r: seq<bool>)
    requires ValidHeader(h)
    ensures DynamicTables(HeaderBits(h) + r) == Tables(h.lit, h.dist, r)
  {
    hide Buildable, LsbBits, OpsBits, TransmittedLengths, CodeLengthCodeBits, DynamicTables;
    var a, b, c := LsbBits(|h.lit| - 257, 5), LsbBits(|h.dist| - 1, 5), LsbBits(h.hclen - 4, 4);
    var d, e := CodeLengthCodeBits(h.clc, 0, h.hclen), OpsBits(h.clc, h.ops, []);
    assert HeaderBits(h) + r == a + (b + (c + (d + (e + r))));
    TransmittedBack(h, r);
    TablesBack(h.lit, h.dist, h.hclen, d + (e + r), r);
  }

  // ---- blocks and streams ----

  ghost predicate ValidBlock(b: Block, out: seq<byte>) {
    match b
    case Verbatim(bytes, pad) => |bytes| <= 0xFFFF && |pad| == 7
    case Fixed(ts) => ValidTokens(ts, out)
    case Dynamic(h, ts) => ValidHeader(h) && ValidTokens(ts, out) && CodedTokens(h.lit, h.dist, ts, out)
  }

  ghost function ExpandBlock(b: Block, out: seq<byte>): (r: seq<byte>)
    requires ValidBlock(b, out)
    ensures |r| >= |out|
  {
    match b
    case Verbatim(bytes, _) => out + bytes
    case Fixed(ts) => Expand(ts, out)
    case Dynamic(_, ts) => Expand(ts, out)
  }

  function Kind(b: Block): nat {
    match b case Verbatim(_, _) => 0 case Fixed(_) => 1 case Dynamic(_, _) => 2
  }

  /** How many bits lead from bit position `pos` to the next byte boundary. */
  function PadLength(pos: nat): (n: nat)
    ensures n < 8 && (pos + n) % 8 == 0
  {
    (8 - pos % 8) % 8
  }

  function VerbatimBits(bytes: seq<byte>, pad: seq<bool>, pos: nat): seq<bool>
    requires |bytes| <= 0xFFFF && |pad| == 7
  {
    pad[..PadLength(pos)] + (LsbBits(|bytes|, 16) + (LsbBits(0xFFFF - |bytes|, 16) + BitsOf(bytes)))
  }

  lemma {:induction false} FixedCodesTokens(ts: seq<Token>, out: seq<byte>)
    requires ValidTokens(ts, out)
    ensures CodedTokens(FIXED_LIT, FIXED_DIST, ts, out)
    decreases |ts|
  {
    FixedCodesAll();
    hide Coded, DistanceCode, Copy, Pow2, LenBase, LenExtra;
    if ts != [] {
      FixedCodesTokens(ts[1..], ExpandToken(ts[0], out));
    }
  }

  lemma FixedCodesAll()
    ensures |FIXED_LIT| == 288 && |FIXED_DIST| == 32
    ensures forall s :: 0 <= s < 288 ==> Coded(FIXED_LIT, s)
    ensures forall s :: 0 <= s < 32 ==> Coded(FIXED_DIST, s)
  {
    KraftFixed();
    KraftBuildable(FIXED_LIT);
    KraftBuildable(FIXED_DIST);
    hide Coded, Kraft;
    forall s | 0 <= s < 288 ensures FIXED_LIT[s] > 0 {
    }
  }

  ghost function BlockBits(b: Block, pos: nat, out: seq<byte>): seq<bool>
    requires ValidBlock(b, out)
  {
    match b
    case Verbatim(bytes, pad) => VerbatimBits(bytes, pad, pos)
    case Fixed(ts) => FixedCodesTokens(ts, out); TokensBits(FIXED_LIT, FIXED_DIST, ts, out)
    case Dynamic(h, ts) => HeaderBits(h) + TokensBits(h.lit, h.dist, ts, out)
  }

  lemma AlignedAfterPad(pad: seq<bool>, pos: nat, x: seq<bool>)
    requires |pad| == 7 && (pos + PadLength(pos) + |x|) % 8 == 0
    ensures ByteAligned(pad[..PadLength(pos)] + x) == x
  {
  }

  /** A stored block whose aligned bits are the four fields. */
  lemma StoredBack(q: seq<bool>, a: seq<bool>, b: seq<bool>, c: seq<bool>, r: seq<bool>, bytes: seq<byte>, out: seq<byte>, cap: nat)
    requires |a| == |b| == 16 && ByteAligned(q) == a + (b + (c + r))
    requires Lsb(a) == |bytes| && Lsb(b) == 0xFFFF - |bytes| && c == BitsOf(bytes)
    ensures Stored(q, out, cap) == if |out| + |bytes| <= cap then Ok(out + bytes, r) else Bad
  {
    BytesOfBits(bytes);
    hide Lsb, BitsOf, BytesOf, ByteAligned;
    FourFields(a, b, c, r);
  }

  lemma FourFields(a: seq<bool>, b: seq<bool>, c: seq<bool>, r: seq<bool>)
    requires |a| == |b| == 16
    ensures var x := a + (b + (c + r));
      x[..16] == a && x[16..32] == b && x[32..32 + |c|] == c && x[32 + |c|..] == r
  {
  }

  lemma WordBack(v: nat)
    requires v <= 0xFFFF
    ensures Lsb(LsbBits(v, 16)) == v
  {
    assert Pow2(8) == 256;
    Pow2Add(8, 8);
    LsbOfBits(v, 16);
  }

  lemma VerbatimBack(bytes: seq<byte>, pad: seq<bool>, pos: nat, r: seq<bool>, out: seq<byte>, cap: nat)
    requires |bytes| <= 0xFFFF && |pad| == 7 && (pos + |VerbatimBits(bytes, pad, pos)| + |r|) % 8 == 0
    ensures Stored(VerbatimBits(bytes, pad, pos) + r, out, cap) ==
      if |out| + |bytes| <= cap then Ok(out + bytes, r) else Bad
  {
    var a, b, c := LsbBits(|bytes|, 16), LsbBits(0xFFFF - |bytes|, 16), BitsOf(bytes);
    WordBack(|bytes|);
    WordBack(0xFFFF - |bytes|);
    hide LsbBits, Lsb, BitsOf, BytesOf, Pow2, ByteAligned, Stored, PadLength;
    var x, q := a + (b + (c + r)), VerbatimBits(bytes, pad, pos) + r;
    assert q == pad[..PadLength(pos)] + x;
    AlignedAfterPad(pad, pos, x);
    StoredBack(q, a, b, c, r, bytes, out, cap);
  }

  lemma BlockBack(b: Block, pos: nat, r: seq<bool>, out: seq<byte>, cap: nat)
    requires ValidBlock(b, out) && |out| <= cap
    requires (pos + |BlockBits(b, pos, out)| + |r|) % 8 == 0
    ensures var e := ExpandBlock(b, out);
      Deflate.Block(Kind(b), BlockBits(b, pos, out) + r, out, cap) == if |e| <= cap then Ok(e, r) else Bad
  {
    hide Stored, Codes, DynamicTables, VerbatimBits, TokensBits, HeaderBits, Expand, ValidHeader, CodedTokens, ValidTokens;
    match b {
      case Verbatim(bytes, pad) => VerbatimBack(bytes, pad, pos, r, out, cap);
      case Fixed(ts) =>
        FixedCodesTokens(ts, out);
        CodesBack(FIXED_LIT, FIXED_DIST, ts, out, r, cap);
      case Dynamic(h, ts) =>
        var t := TokensBits(h.lit, h.dist, ts, out);
        assert (HeaderBits(h) + t) + r == HeaderBits(h) + (t + r);
        HeaderBack(h, t + r);
        CodesBack(h.lit, h.dist, ts, out, r, cap);
    }
  }

  ghost predicate ValidBlocks(bs: seq<Block>, out: seq<byte>)
    decreases |bs|
  {
    bs == [] || (ValidBlock(bs[0], out) && ValidBlocks(bs[1..], ExpandBlock(bs[0], out)))
  }

  ghost function ExpandBlocks(bs: seq<Block>, out: seq<byte>): (r: seq<byte>)
    requires ValidBlocks(bs, out)
    ensures |r| >= |out|
    decreases |bs|
  {
    if bs == [] then out else ExpandBlocks(bs[1..], ExpandBlock(bs[0], out))
  }

  /** The bits of a nonempty list of blocks written from bit position `pos`; the last one is marked. */
  ghost function StreamBits(bs: seq<Block>, pos: nat, out: seq<byte>): seq<bool>
    requires bs != [] && ValidBlocks(bs, out)
    decreases |bs|
  {
    var body := BlockBits(bs[0], pos + 3, out);
    [|bs| == 1] + (LsbBits(Kind(bs[0]), 2) + (body +
    if |bs| == 1 then [] else StreamBits(bs[1..], pos + 3 + |body|, ExpandBlock(bs[0], out))))
  }

  lemma HeadBack(last: bool, kind: nat, r: seq<bool>)
    requires kind < 4
    ensures ReadBits([last] + (LsbBits(kind, 2) + r), 1) == (B2N(last), LsbBits(kind, 2) + r)
    ensures ReadBits(LsbBits(kind, 2) + r, 2) == (kind, r)
  {
    assert Pow2(2) == 4;
    ReadBack(kind, 2, r);
    var q := LsbBits(kind, 2) + r;
    assert ([last] + q)[..1] == [last] && ([last] + q)[1..] == q;
    assert Lsb([last]) == B2N(last) + 2 * Lsb([]);
  }

  lemma BlocksTurn(last: bool, kind: nat, q: seq<bool>, out: seq<byte>, cap: nat)
    requires kind < 4
    ensures Blocks([last] + (LsbBits(kind, 2) + q), out, cap) ==
      match Deflate.Block(kind, q, out, cap)
      case Bad => Bad
      case Ok(out', r) => if last then Ok(out', r) else Blocks(r, out', cap)
  {
    hide ReadBits, Deflate.Block, LsbBits;
    HeadBack(last, kind, q);
  }

  lemma {:induction false} StreamBack(bs: seq<Block>, pos: nat, r: seq<bool>, out: seq<byte>, cap: nat)
    requires bs != [] && ValidBlocks(bs, out) && |out| <= cap
    requires (pos + |StreamBits(bs, pos, out)| + |r|) % 8 == 0
    ensures var e := ExpandBlocks(bs, out);
      Blocks(StreamBits(bs, pos, out) + r, out, cap) == if |e| <= cap then Ok(e, r) else Bad
    decreases |bs|
  {
    hide ReadBits, Deflate.Block, LsbBits, BlockBits, ExpandBlock, ValidBlock, Blocks;
    var body, out' := BlockBits(bs[0], pos + 3, out), ExpandBlock(bs[0], out);
    var tail := if |bs| == 1 then [] else StreamBits(bs[1..], pos + 3 + |body|, out');
    assert StreamBits(bs, pos, out) + r == [|bs| == 1] + (LsbBits(Kind(bs[0]), 2) + (body + (tail + r)));
    BlocksTurn(|bs| == 1, Kind(bs[0]), body + (tail + r), out, cap);
    BlockBack(bs[0], pos + 3, tail + r, out, cap);
    if |bs| == 1 {
      assert bs[1..] == [] && tail + r == r;
    } else if |out'| <= cap {
      StreamBack(bs[1..], pos + 3 + |body|, r, out', cap);
    }
  }

  /** The compressed bytes: the stream, padded with zero bits to a whole byte. */
  ghost function Compressed(bs: seq<Block>): seq<byte>
    requires bs != [] && ValidBlocks(bs, [])
  {
    var s := StreamBits(bs, 0, []);
    BytesOf(s + Repeat(false, PadLength(|s|)))
  }

  /** Inflating undoes compressing, for every list of blocks behind a zlib header and whatever
      follows the stream: the result is exactly the LZ77 expansion, or a failure when the
      expansion does not fit the output buffer. */
  lemma InflateUndoesCompress(header: seq<byte>, bs: seq<Block>, trailer: seq<byte>, cap: nat)
    requires |header| == 2 && ZlibHeader(header) && bs != [] && ValidBlocks(bs, [])
    ensures var e, p := ExpandBlocks(bs, []), Inflated(header + Compressed(bs) + trailer, cap);
      (p.Ok? <==> |e| <= cap) && (p.Ok? ==> p.out == e)
  {
    hide StreamBits, ExpandBlocks, Blocks, BytesOf, BitsOf, ValidBlocks, Repeat;
    var s := StreamBits(bs, 0, []);
    var pad := Repeat(false, PadLength(|s|));
    BitsOfBytes(s + pad);
    BitsOfConcat(Compressed(bs), trailer);
    assert (header + Compressed(bs) + trailer)[2..] == Compressed(bs) + trailer;
    assert (s + pad) + BitsOf(trailer) == s + (pad + BitsOf(trailer));
    StreamBack(bs, 0, pad + BitsOf(trailer), [], cap);
  }
}
