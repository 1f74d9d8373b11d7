/** The imperative inflater, proved to compute Deflate.Inflated. */
module Inflater {
  import opened Bits
  import opened BitReading
  import opened Huffman
  import opened Deflate

  ghost predicate Ready(b: BitReader)
    reads b
  {
    b.Valid() && b.bitcnt < 8
  }

  /** A table built from `lens`, in memory the output buffer does not share. */
  ghost predicate Holds(h: Huff, lens: seq<nat>)
    reads h, h.counts, h.symbols
  {
    h.Valid() && h.View() == TableOf(lens)
  }

  /** How the state of the buffers after a step agrees with the specified progress. */
  ghost predicate Agrees(p: Progress, ok: bool, out: array<byte>, opos: nat, b: BitReader)
    reads out, b
  {
    && b.Valid()
    && opos <= out.Length
    && ok == p.Ok?
    && (ok ==> b.bitcnt < 8 && out[..opos] == p.out && b.Rest() == p.rest)
  }

  /** huff_fixed */
  method FixedTables() returns (lit: Huff, dist: Huff)
    ensures fresh(lit) && fresh(lit.counts) && fresh(lit.symbols)
    ensures fresh(dist) && fresh(dist.counts) && fresh(dist.symbols)
    ensures Holds(lit, FIXED_LIT) && Holds(dist, FIXED_DIST)
  {
    FixedBuildable();
    lit := new Huff();
    dist := new Huff();
    var ok := lit.Build(FIXED_LIT);
    ok := dist.Build(FIXED_DIST);
  }

  lemma FixedBuildable()
    ensures Buildable(FIXED_LIT) && Buildable(FIXED_DIST)
  {
    KraftFixed();
    KraftBuildable(FIXED_LIT);
    KraftBuildable(FIXED_DIST);
  }

  /** The length/distance part of the symbol loop, with its byte-by-byte overlapping copy. */
  method CopyMatch(dist: Huff, ghost dl: seq<nat>, li: nat, b: BitReader, out: array<byte>, start: nat)
    returns (ok: bool, opos: nat)
    requires li < 29 && Ready(b) && start <= out.Length <= MAX_OUTPUT && Holds(dist, dl)
    modifies b, out
    ensures Agrees(Match(dl, li, old(b.Rest()), old(out[..start]), out.Length), ok, out, opos, b)
  {
    hide Decode, TableOf, Pow2, BitsOf, LsbBits, Copy, LenBase, LenExtra, DistBase, DistExtra;
    var le := b.Bits(LenExtra(li));
    var len := LenBase(li) + le;
    var dsym := dist.NextSymbol(b);
    if dsym < 0 || dsym > 29 {
      return false, start;
    }
    var de := b.Bits(DistExtra(dsym));
    var d := DistBase(dsym) + de;
    if d > start || start + len > out.Length {
      return false, start;
    }
    opos := CopyBytes(out, start, len, d);
    ok := true;
  }

  /** The copy loop: byte by byte, so it may read what it has just written. */
  method CopyBytes(out: array<byte>, start: nat, len: nat, d: nat) returns (opos: nat)
    requires 1 <= d <= start && start + len <= out.Length
    modifies out
    ensures opos == start + len && out[..opos] == Copy(old(out[..start]), len, d)
  {
    opos := start;
    for i := 0 to len
      invariant opos == start + i
      invariant out[..opos] == Copy(old(out[..start]), i, d)
    {
      ghost var done := out[..opos];
      out[opos] := out[opos - d];
      assert out[..opos + 1] == done + [done[opos - d]];
      opos := opos + 1;
    }
  }

  /** The symbol loop of a compressed block. */
  method DecodeCodes(lit: Huff, ghost ll: seq<nat>, dist: Huff, ghost dl: seq<nat>, b: BitReader, out: array<byte>, start: nat)
    returns (ok: bool, opos: nat)
    requires Ready(b) && start <= out.Length <= MAX_OUTPUT && Holds(lit, ll) && Holds(dist, dl)
    modifies b, out
    ensures Agrees(Codes(ll, dl, old(b.Rest()), old(out[..start]), out.Length), ok, out, opos, b)
  {
    hide Decode, Match, TableOf, BitsOf, LsbBits;
    opos := start;
    ghost var goal := Codes(ll, dl, b.Rest(), out[..start], out.Length);
    while true
      invariant Ready(b) && opos <= out.Length && Holds(lit, ll) && Holds(dist, dl)
      invariant Codes(ll, dl, b.Rest(), out[..opos], out.Length) == goal
      decreases |b.Rest()|
    {
      DecodeProgress(ll, b.Rest());
      var sym := lit.NextSymbol(b);
      if sym < 0 {
        return false, opos;
      } else if sym < 256 {
        if opos >= out.Length {
          return false, opos;
        }
        ghost var done := out[..opos];
        out[opos] := sym;
        opos := opos + 1;
        assert out[..opos] == done + [sym];
      } else if sym == 256 {
        return true, opos;
      } else if sym <= 285 {
        ok, opos := CopyMatch(dist, dl, sym - 257, b, out, opos);
        if !ok {
          return false, opos;
        }
      } else {
        return false, opos;
      }
    }
  }

  // ---- stored blocks ----

  lemma WordOfBytes(s: seq<byte>)
    requires |s| >= 2
    ensures Lsb(BitsOf(s)[..16]) == s[0] + 256 * (s[1] as int)
    ensures BitsOf(s)[16..] == BitsOf(s[2..])
  {
    hide LsbBits, Lsb, BitsOf;
    var lo, hi := LsbBits(s[0], 8), LsbBits(s[1], 8);
    assert Pow2(8) == 256;
    hide Pow2;
    LsbOfBits(s[0], 8);
    LsbOfBits(s[1], 8);
    LsbConcat(lo, hi);
    BitsOfTwo(s);
    assert BitsOf(s)[..16] == lo + hi;
  }

  lemma BitsOfTwo(s: seq<byte>)
    requires |s| >= 2
    ensures BitsOf(s) == LsbBits(s[0], 8) + (LsbBits(s[1], 8) + BitsOf(s[2..]))
  {
    hide LsbBits;
    assert s[1..][1..] == s[2..] && s[1..][0] == s[1];
  }

  lemma {:induction false} BitsOfDrop(s: seq<byte>, n: nat)
    requires n <= |s|
    ensures BitsOf(s)[8 * n..] == BitsOf(s[n..])
    ensures BytesOf(BitsOf(s)[..8 * n]) == s[..n]
  {
    assert s == s[..n] + s[n..];
    BitsOfConcat(s[..n], s[n..]);
    BytesOfBits(s[..n]);
    hide BitsOf, BytesOf;
    assert BitsOf(s)[..8 * n] == BitsOf(s[..n]);
  }

  lemma StoredHeader(s: seq<byte>)
    requires |s| >= 4
    ensures Lsb(BitsOf(s)[..16]) == s[0] + 256 * (s[1] as int)
    ensures Lsb(BitsOf(s)[16..32]) == s[2] + 256 * (s[3] as int)
    ensures BitsOf(s)[32..] == BitsOf(s[4..])
  {
    hide BitsOf, Lsb;
    WordOfBytes(s);
    WordOfBytes(s[2..]);
    var a := BitsOf(s);
    assert a[16..32] == a[16..][..16] && a[16..][16..] == a[32..];
    assert s[2..][2..] == s[4..] && s[2..][0] == s[2] && s[2..][1] == s[3];
  }

  /** The functions' view of a stored block, in bytes. */
  lemma StoredBytes(r: seq<bool>, s: seq<byte>, out: seq<byte>, cap: nat)
    requires ByteAligned(r) == BitsOf(s)
    ensures Stored(r, out, cap) ==
      if |s| < 4 then Bad else
      var len, nlen := s[0] + 256 * (s[1] as int), s[2] + 256 * (s[3] as int);
      if 0xFFFF - len != nlen || |s| < 4 + len || |out| + len > cap then Bad
      else Ok(out + s[4..][..len], BitsOf(s[4..][len..]))
  {
    hide BitsOf, BytesOf, Lsb, ByteAligned, Stored;
    if |s| < 4 {
      StoredUnfolds(r, BitsOf(s), 0, 0, out, cap);
    } else {
      var len, nlen := s[0] + 256 * (s[1] as int), s[2] + 256 * (s[3] as int);
      assert Lsb(BitsOf(s)[..16]) == len && Lsb(BitsOf(s)[16..32]) == nlen by { StoredHeader(s); }
      StoredUnfolds(r, BitsOf(s), len, nlen, out, cap);
      if |s| >= 4 + len { StoredPayload(s, len); }
    }
  }

  lemma StoredUnfolds(r: seq<bool>, a: seq<bool>, len: nat, nlen: nat, out: seq<byte>, cap: nat)
    requires ByteAligned(r) == a && |a| % 8 == 0 && (|a| >= 32 ==> len == Lsb(a[..16]) && nlen == Lsb(a[16..32]))
    ensures Stored(r, out, cap) == if |a| < 32 || 0xFFFF - len != nlen || |a| < 32 + 8 * len || |out| + len > cap then Bad
      else Ok(out + BytesOf(a[32..32 + 8 * len]), a[32 + 8 * len..])
  {
    hide BytesOf, Lsb, ByteAligned;
  }

  lemma StoredPayload(s: seq<byte>, len: nat)
    requires |s| >= 4 + len
    ensures BytesOf(BitsOf(s)[32..32 + 8 * len]) == s[4..][..len] && BitsOf(s)[32 + 8 * len..] == BitsOf(s[4..][len..])
  {
    hide BitsOf, BytesOf, Lsb;
    var a, t := BitsOf(s), s[4..];
    assert a[32..] == BitsOf(t) by { StoredHeader(s); }
    SliceTwice(a, 8 * len);
    PayloadBytes(t, len);
  }

  lemma PayloadBytes(t: seq<byte>, len: nat)
    requires len <= |t|
    ensures BytesOf(BitsOf(t)[..8 * len]) == t[..len] && BitsOf(t)[8 * len..] == BitsOf(t[len..])
  {
    BitsOfDrop(t, len);
  }

  lemma SliceTwice(a: seq<bool>, n: nat)
    requires 32 + n <= |a|
    ensures a[32..32 + n] == a[32..][..n] && a[32 + n..] == a[32..][n..]
  {}

  method CopyStored(b: BitReader, out: array<byte>, start: nat) returns (ok: bool, opos: nat)
    requires Ready(b) && start <= out.Length
    modifies b, out
    ensures Agrees(Stored(old(b.Rest()), old(out[..start]), out.Length), ok, out, opos, b)
  {
    hide BitsOf, LsbBits, Lsb, Stored, Pow2;
    opos := start;
    b.Align();
    ghost var s := b.p[b.pos..];
    StoredBytes(old(b.Rest()), s, out[..start], out.Length);
    if b.pos + 4 > |b.p| {
      return false, opos;
    }
    var len := b.p[b.pos] + 256 * (b.p[b.pos + 1] as int);
    var nlen := b.p[b.pos + 2] + 256 * (b.p[b.pos + 3] as int);
    b.pos := b.pos + 4;
    if 0xFFFF - len != nlen || b.pos + len > |b.p| || opos + len > out.Length {
      return false, opos;
    }
    assert s[4..] == b.p[b.pos..];
    for i := 0 to len
      invariant opos == start + i && b.pos == old(b.pos) + 4 && b.bitcnt == 0 && b.Valid()
      invariant out[..opos] == old(out[..start]) + s[4..][..i]
    {
      out[opos] := b.p[b.pos + i];
      opos := opos + 1;
      assert out[..opos] == out[..opos - 1] + [s[4..][i]];
    }
    b.pos := b.pos + len;
    assert s[4..][len..] == b.p[b.pos..];
    b.Empty();
    ok := true;
  }

  // ---- dynamic blocks ----

  /** The repeat loops: `rep` more copies of `x`, failing when the lengths are already full. */
  method FillLengths(lens: array<nat>, start: nat, x: nat, rep: nat, total: nat) returns (ok: bool, li: nat)
    requires start < total <= lens.Length
    modifies lens
    ensures ok == (start + rep <= total)
    ensures ok ==> li == start + rep && lens[..li] == old(lens[..start]) + Repeat(x, rep)
  {
    li := start;
    for k := 0 to rep
      invariant li == start + k <= total
      invariant lens[..li] == old(lens[..start]) + Repeat(x, k)
    {
      if li >= total {
        return false, li;
      }
      ghost var done := lens[..li];
      lens[li] := x;
      li := li + 1;
      assert lens[..li] == done + [x];
    }
    ok := true;
  }

  /** One turn of the code-length loop. */
  method ReadNextLengths(clc: Huff, ghost cl: seq<nat>, b: BitReader, lens: array<nat>, start: nat, total: nat)
    returns (ok: bool, li: nat)
    requires Ready(b) && Holds(clc, cl) && start < total <= lens.Length
    requires lens != clc.counts && lens != clc.symbols
    modifies b, lens
    ensures Ready(b)
    ensures var res := NextLengths(cl, old(b.Rest()), old(lens[..start]), total);
            ok == res.Lengths? && (ok ==> start < li <= total && lens[..li] == res.lens && b.Rest() == res.rest)
  {
    hide Decode, TableOf, BitsOf, LsbBits, ReadBits, Repeat;
    li := start;
    ok := true;
    var sym := clc.NextSymbol(b);
    if sym < 0 || sym > 18 {
      ok := false;
    } else if sym < 16 {
      lens[li] := sym;
      li := li + 1;
      assert lens[..li] == old(lens[..start]) + [sym];
    } else if sym == 16 {
      if li == 0 {
        return false, li;
      }
      var v := b.Bits(2);
      ok, li := FillLengths(lens, start, lens[start - 1], 3 + AsInt(v), total);
    } else if sym == 17 {
      var v := b.Bits(3);
      ok, li := FillLengths(lens, start, 0, 3 + AsInt(v), total);
    } else {
      var v := b.Bits(7);
      ok, li := FillLengths(lens, start, 0, 11 + AsInt(v), total);
    }
  }

  method ReadCodeLengths(clc: Huff, ghost cl: seq<nat>, b: BitReader, lens: array<nat>, total: nat) returns (ok: bool)
    requires Ready(b) && Holds(clc, cl) && total <= lens.Length
    requires lens != clc.counts && lens != clc.symbols
    modifies b, lens
    ensures Ready(b)
    ensures var res := CodeLengths(cl, old(b.Rest()), [], total);
            ok == res.Lengths? && (ok ==> lens[..total] == res.lens && b.Rest() == res.rest)
  {
    hide NextLengths, TableOf, BitsOf, LsbBits;
    var li := 0;
    ghost var goal := CodeLengths(cl, b.Rest(), [], total);
    while li < total
      invariant Ready(b) && li <= total && Holds(clc, cl)
      invariant CodeLengths(cl, b.Rest(), lens[..li], total) == goal
    {
      ok, li := ReadNextLengths(clc, cl, b, lens, li, total);
      if !ok {
        return false;
      }
    }
    ok := true;
  }

  method ReadCodeLengthCode(b: BitReader, hclen: nat) returns (lens: seq<nat>)
    requires Ready(b) && hclen <= 19
    modifies b
    ensures Ready(b)
    ensures (lens, b.Rest()) == CodeLengthCode(old(b.Rest()), 0, hclen, Repeat(0, 19))
  {
    hide BitsOf, LsbBits, ReadBits, Repeat;
    lens := Repeat(0, 19);
    for i := 0 to hclen
      invariant Ready(b) && |lens| == 19
      invariant CodeLengthCode(b.Rest(), i, hclen, lens) == CodeLengthCode(old(b.Rest()), 0, hclen, Repeat(0, 19))
    {
      var v := b.Bits(3);
      lens := lens[ClcOrder(i) := v % 256];
    }
  }

  method ReadTransmittedLengths(b: BitReader, hclen: nat, total: nat) returns (ok: bool, lens: array<nat>)
    requires Ready(b) && hclen <= 19 && total <= MAX_SYMBOLS
    modifies b
    ensures Ready(b) && fresh(lens) && lens.Length == MAX_SYMBOLS
    ensures var res := TransmittedLengths(old(b.Rest()), hclen, total);
            ok == res.Lengths? && (ok ==> lens[..total] == res.lens && b.Rest() == res.rest)
  {
    hide TableOf, BitsOf, LsbBits, CodeLengths, CodeLengthCode, Buildable;
    lens := new nat[MAX_SYMBOLS];
    var clcLens := ReadCodeLengthCode(b, hclen);
    var clc := new Huff();
    ok := clc.Build(clcLens);
    if ok {
      ok := ReadCodeLengths(clc, clcLens, b, lens, total);
    }
  }

  /** The header of a dynamic block: both tables, or failure. */
  method ReadTables(b: BitReader) returns (ok: bool, lit: Huff, dist: Huff, ghost t: Tables)
    requires Ready(b)
    modifies b
    ensures Ready(b)
    ensures t == DynamicTables(old(b.Rest())) && ok == t.Tables?
    ensures fresh(lit) && fresh(lit.counts) && fresh(lit.symbols)
    ensures fresh(dist) && fresh(dist.counts) && fresh(dist.symbols)
    ensures ok ==> Holds(lit, t.lit) && Holds(dist, t.dist) && b.Rest() == t.rest
  {
    hide TableOf, BitsOf, LsbBits, ReadBits, TransmittedLengths, Buildable;
    t := DynamicTables(b.Rest());
    lit := new Huff();
    dist := new Huff();
    var v := b.Bits(5);
    var hlit := 257 + AsInt(v);
    v := b.Bits(5);
    var hdist := 1 + AsInt(v);
    v := b.Bits(4);
    var hclen := 4 + AsInt(v);
    if hlit > 288 || hdist > 32 || hclen > 19 {
      return false, lit, dist, t;
    }
    var total := hlit + hdist;
    var lens: array<nat>;
    ok, lens := ReadTransmittedLengths(b, hclen, total);
    if !ok {
      return false, lit, dist, t;
    }
    assert lens[..total][..hlit] == lens[..hlit] && lens[..total][hlit..] == lens[hlit..total];
    ok := lit.Build(lens[..hlit]);
    if ok {
      ok := dist.Build(lens[hlit..total]);
    }
  }

  // ---- the whole stream ----

  method DecodeBlock(kind: int, b: BitReader, out: array<byte>, start: nat) returns (ok: bool, opos: nat)
    requires Ready(b) && start <= out.Length <= MAX_OUTPUT
    modifies b, out
    ensures Agrees(Block(kind, old(b.Rest()), old(out[..start]), out.Length), ok, out, opos, b)
  {
    hide TableOf, BitsOf, LsbBits, Codes, Stored, DynamicTables;
    opos := start;
    if kind == 3 {
      return false, opos;
    }
    if kind == 0 {
      ok, opos := CopyStored(b, out, opos);
      return;
    }
    if kind == 1 {
      var lit, dist := FixedTables();
      ok, opos := DecodeCodes(lit, FIXED_LIT, dist, FIXED_DIST, b, out, opos);
    } else {
      var lit, dist;
      ghost var t;
      ok, lit, dist, t := ReadTables(b);
      if !ok {
        return false, opos;
      }
      ok, opos := DecodeCodes(lit, t.lit, dist, t.dist, b, out, opos);
    }
  }

  /** inflate: on success the first `n` bytes of `out` are what Inflated says. It terminates on
      every input, and stays inside both buffers. */
  method Inflate(src: seq<byte>, out: array<byte>) returns (ok: bool, n: nat)
    requires out.Length <= MAX_OUTPUT
    modifies out
    ensures ok <==> Inflated(src, out.Length).Ok?
    ensures ok ==> n <= out.Length && out[..n] == Inflated(src, out.Length).out
  {
    hide BitsOf, LsbBits, Block;
    var b := new BitReader(Payload(src));
    n := 0;
    var last: int := 0;
    ghost var goal := Blocks(b.Rest(), out[..0], out.Length);
    while last == 0
      invariant Ready(b) && fresh(b) && n <= out.Length
      invariant goal == if last == 0 then Blocks(b.Rest(), out[..n], out.Length) else Ok(out[..n], b.Rest())
      decreases last == 0, |b.Rest()|
    {
      var v := b.Bits(1);
      last := AsInt(v);
      var kind := b.Bits(2);
      ok, n := DecodeBlock(AsInt(kind), b, out, n);
      if !ok {
        return false, n;
      }
    }
    ok := true;
  }
}
