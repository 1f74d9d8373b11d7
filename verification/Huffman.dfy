/** Canonical Huffman codes as DEFLATE uses them (section 3.2.2 of RFC 1951). */
module Huffman {
  import opened Bits
  import opened BitReading

  const MAX_BITS: nat := 15

  /** A decoding table: how many codes have each length, and the symbols by (length, symbol). */
  datatype Table = Table(counts: seq<nat>, symbols: seq<nat>)

  /** How many of the symbols have code length `l`. */
  function Count(lens: seq<nat>, l: nat): nat {
    if lens == [] then 0
    else Count(lens[..|lens| - 1], l) + (if lens[|lens| - 1] == l then 1 else 0)
  }

  /** The symbols of code length `l`, in increasing order. */
  function WithLength(lens: seq<nat>, l: nat): (s: seq<nat>)
    ensures |s| == Count(lens, l)
  {
    if lens == [] then []
    else WithLength(lens[..|lens| - 1], l) + (if lens[|lens| - 1] == l then [|lens| - 1] else [])
  }

  function Ordered(lens: seq<nat>, upTo: nat): seq<nat> {
    if upTo == 0 then [] else Ordered(lens, upTo - 1) + WithLength(lens, upTo)
  }

  function TableOf(lens: seq<nat>): (t: Table)
    ensures |t.counts| == MAX_BITS + 1
  {
    Table(seq(MAX_BITS + 1, l requires 0 <= l => if l == 0 then 0 else Count(lens, l)), Ordered(lens, MAX_BITS))
  }

  /** When huff_build accepts a length vector. */
  predicate Buildable(lens: seq<nat>) {
    && (forall i :: 0 <= i < |lens| ==> lens[i] <= MAX_BITS)
    && (forall l :: 1 <= l <= MAX_BITS ==> Count(lens, l) <= Pow2(l))
  }

  /** The loop of huff_dec from code length `len` on; -1 is its error value. */
  function DecodeFrom(t: Table, r: seq<bool>, len: nat, code: int, first: int, index: int): (int, seq<bool>)
    requires |t.counts| == MAX_BITS + 1
    decreases MAX_BITS + 1 - len
  {
    if len > MAX_BITS then (-1, r) else
    var (v, rest) := ReadBits(r, 1);
    var c := if v == EOF then -1 else code + v;
    var cnt := t.counts[len];
    if c - cnt < first then
      var sym := index + (c - first);
      (if sym < 0 || sym >= |t.symbols| then -1 else t.symbols[sym], rest)
    else
      DecodeFrom(t, rest, len + 1, 2 * c, 2 * (first + cnt), index + cnt)
  }

  function Decode(t: Table, r: seq<bool>): (int, seq<bool>)
    requires |t.counts| == MAX_BITS + 1
  {
    DecodeFrom(t, r, 1, 0, 0, 0)
  }

  /** The first code of length `l`, as section 3.2.2 of RFC 1951 numbers them. */
  function FirstCode(lens: seq<nat>, l: nat): nat {
    if l <= 1 then 0 else 2 * (FirstCode(lens, l - 1) + Count(lens, l - 1))
  }

  /** The code of a symbol: codes of one length are handed out in symbol order. */
  function Code(lens: seq<nat>, s: nat): nat
    requires s < |lens|
  {
    FirstCode(lens, lens[s]) + Count(lens[..s], lens[s])
  }

  ghost predicate Coded(lens: seq<nat>, s: nat) {
    s < |lens| && 1 <= lens[s] <= MAX_BITS && Code(lens, s) < Pow2(lens[s])
  }

  function CodeBits(lens: seq<nat>, s: nat): seq<bool>
    requires s < |lens|
  {
    MsbBits(Code(lens, s), lens[s])
  }

  /** The sum of 2^(MAX_BITS - length) over the codes no longer than `upTo`. */
  function KraftSum(lens: seq<nat>, upTo: nat): nat
    requires upTo <= MAX_BITS
  {
    if upTo == 0 then 0 else KraftSum(lens, upTo - 1) + Count(lens, upTo) * Pow2(MAX_BITS - upTo)
  }

  /** Kraft's inequality: the code lengths are those of some prefix code. */
  ghost predicate Kraft(lens: seq<nat>) {
    && (forall i :: 0 <= i < |lens| ==> lens[i] <= MAX_BITS)
    && KraftSum(lens, MAX_BITS) <= Pow2(MAX_BITS)
  }

  /** The symbols of code length `l`, as a set. */
  ghost function SymbolsOf(lens: seq<nat>, l: nat): set<nat> {
    set s: nat | s < |lens| && lens[s] == l
  }

  lemma {:induction false} CountIs(lens: seq<nat>, l: nat)
    ensures Count(lens, l) == |SymbolsOf(lens, l)|
  {
    if lens == [] {
      assert SymbolsOf(lens, l) == {};
    } else {
      var n := |lens| - 1;
      CountIs(lens[..n], l);
      assert SymbolsOf(lens, l) == SymbolsOf(lens[..n], l) + if lens[n] == l then {n} else {};
    }
  }

  /** huff_build accepts the lengths up to 15 of which no length `l` has more than 2^l symbols. */
  lemma BuildableIs(lens: seq<nat>)
    ensures Buildable(lens) <==>
      && (forall i :: 0 <= i < |lens| ==> lens[i] <= 15)
      && (forall l :: 1 <= l <= 15 ==> |SymbolsOf(lens, l)| <= Pow2(l))
  {
    hide Count, SymbolsOf, Pow2;
    forall l | 1 <= l <= MAX_BITS ensures Count(lens, l) == |SymbolsOf(lens, l)| {
      CountIs(lens, l);
    }
  }

  // ---- the symbol order ----

  lemma {:induction false} CountPrefix(lens: seq<nat>, s: nat, l: nat)
    requires s < |lens|
    ensures Count(lens[..s], l) + (if lens[s] == l then 1 else 0) <= Count(lens, l)
    ensures lens[s] == l ==> WithLength(lens, l)[Count(lens[..s], l)] == s
  {
    var n := |lens| - 1;
    if s == n {
      assert lens[..s] == lens[..n];
    } else {
      CountPrefix(lens[..n], s, l);
      assert lens[..n][..s] == lens[..s];
    }
  }

  /** The j-th symbol of length `l` has that length and exactly j such symbols before it. */
  lemma {:induction false} WithLengthAt(lens: seq<nat>, l: nat, j: nat)
    requires j < Count(lens, l)
    ensures var s := WithLength(lens, l)[j]; s < |lens| && lens[s] == l && Count(lens[..s], l) == j
  {
    var n := |lens| - 1;
    if j < Count(lens[..n], l) {
      WithLengthAt(lens[..n], l, j);
      var s := WithLength(lens, l)[j];
      assert lens[..n][..s] == lens[..s];
    } else {
      assert WithLength(lens, l)[j] == n;
    }
  }

  /** Where the symbols of length `l` sit in the ordered list. */
  lemma {:induction false} OrderedAt(lens: seq<nat>, l: nat, j: nat, upTo: nat)
    requires 1 <= l <= upTo && j < Count(lens, l)
    ensures |Ordered(lens, l - 1)| + j < |Ordered(lens, upTo)|
    ensures Ordered(lens, upTo)[|Ordered(lens, l - 1)| + j] == WithLength(lens, l)[j]
  {
    var shorter, last := Ordered(lens, upTo - 1), WithLength(lens, upTo);
    assert Ordered(lens, upTo) == shorter + last;
    if l < upTo {
      OrderedAt(lens, l, j, upTo - 1);
    } else {
      assert |last| == Count(lens, l);
    }
  }

  lemma {:induction false} OrderedEmpty(upTo: nat)
    ensures Ordered([], upTo) == []
  {
    if upTo > 0 {
      OrderedEmpty(upTo - 1);
    }
  }

  lemma {:induction false} OrderedInit(lens: seq<nat>, upTo: nat)
    requires lens != []
    ensures |Ordered(lens, upTo)| <= |Ordered(lens[..|lens| - 1], upTo)| + (if lens[|lens| - 1] <= upTo then 1 else 0)
  {
    hide WithLength, Count;
    if upTo > 0 {
      OrderedInit(lens, upTo - 1);
      WithLengthInit(lens, upTo);
    }
  }

  lemma WithLengthInit(lens: seq<nat>, l: nat)
    requires lens != []
    ensures |WithLength(lens, l)| == |WithLength(lens[..|lens| - 1], l)| + (if lens[|lens| - 1] == l then 1 else 0)
  {}

  lemma {:induction false} OrderedSize(lens: seq<nat>, upTo: nat)
    ensures |Ordered(lens, upTo)| <= |lens|
  {
    if lens == [] {
      OrderedEmpty(upTo);
    } else {
      OrderedSize(lens[..|lens| - 1], upTo);
      OrderedInit(lens, upTo);
    }
  }

  lemma {:induction false} OrderedMono(lens: seq<nat>, l: nat, upTo: nat)
    requires l <= upTo
    ensures |Ordered(lens, l)| <= |Ordered(lens, upTo)|
  {
    if l < upTo {
      OrderedMono(lens, l, upTo - 1);
    }
  }

  // ---- Kraft's inequality makes every code fit its length ----

  lemma {:induction false} KraftFirst(lens: seq<nat>, l: nat)
    requires 1 <= l <= MAX_BITS
    ensures (FirstCode(lens, l) + Count(lens, l)) * Pow2(MAX_BITS - l) == KraftSum(lens, l)
  {
    if l == 1 {
      assert KraftSum(lens, 0) == 0;
    } else {
      KraftFirst(lens, l - 1);
      Distribute(FirstCode(lens, l - 1) + Count(lens, l - 1), Count(lens, l), Pow2(MAX_BITS - l));
    }
  }

  lemma Distribute(q: nat, c: nat, d: nat)
    ensures (2 * q + c) * d == q * (2 * d) + c * d
  {
  }

  lemma {:induction false} KraftSumMono(lens: seq<nat>, l: nat, upTo: nat)
    requires l <= upTo <= MAX_BITS
    ensures KraftSum(lens, l) <= KraftSum(lens, upTo)
  {
    if l < upTo {
      KraftSumMono(lens, l, upTo - 1);
      assert Count(lens, upTo) * Pow2(MAX_BITS - upTo) >= 0;
    }
  }

  /** Under Kraft's inequality no code overflows its length, and huff_build accepts. */
  lemma {:induction false} KraftFits(lens: seq<nat>, l: nat)
    requires Kraft(lens) && 1 <= l <= MAX_BITS
    ensures FirstCode(lens, l) + Count(lens, l) <= Pow2(l)
  {
    hide Pow2, KraftSum, Count, FirstCode;
    KraftFirst(lens, l);
    KraftSumMono(lens, l, MAX_BITS);
    Pow2Add(l, MAX_BITS - l);
    MulCancel(FirstCode(lens, l) + Count(lens, l), Pow2(l), Pow2(MAX_BITS - l));
  }

  lemma {:induction false} KraftBuildable(lens: seq<nat>)
    requires Kraft(lens)
    ensures Buildable(lens)
    ensures forall s :: 0 <= s < |lens| && lens[s] > 0 ==> Coded(lens, s)
  {
    forall l | 1 <= l <= MAX_BITS ensures Count(lens, l) <= Pow2(l) {
      KraftFits(lens, l);
    }
    forall s | 0 <= s < |lens| && lens[s] > 0 ensures Coded(lens, s) {
      KraftFits(lens, lens[s]);
      CountPrefix(lens, s, lens[s]);
    }
  }

  /** The converse: when every symbol has a code that fits its length, the lengths meet Kraft's
      inequality. So a table huff_build accepts can yield all its symbols exactly under Kraft. */
  lemma {:induction false} AllCodedIffKraft(lens: seq<nat>)
    requires forall i :: 0 <= i < |lens| ==> lens[i] <= MAX_BITS
    ensures (forall s :: 0 <= s < |lens| && lens[s] > 0 ==> Coded(lens, s)) <==> Kraft(lens)
  {
    hide Coded, KraftSum, Pow2;
    if Kraft(lens) {
      KraftBuildable(lens);
    }
    if forall s :: 0 <= s < |lens| && lens[s] > 0 ==> Coded(lens, s) {
      CodedSum(lens, MAX_BITS);
    }
  }

  lemma {:induction false} CodedSum(lens: seq<nat>, upTo: nat)
    requires upTo <= MAX_BITS && forall s :: 0 <= s < |lens| && lens[s] > 0 ==> Coded(lens, s)
    ensures KraftSum(lens, upTo) <= Pow2(MAX_BITS)
  {
    hide Code, FirstCode, Pow2;
    if upTo > 0 {
      if Count(lens, upTo) == 0 {
        CodedSum(lens, upTo - 1);
      } else {
        LastCodeFits(lens, upTo);
        KraftFirst(lens, upTo);
        Pow2Add(upTo, MAX_BITS - upTo);
        MulLe(FirstCode(lens, upTo) + Count(lens, upTo), Pow2(upTo), Pow2(MAX_BITS - upTo));
      }
    }
  }

  lemma MulLe(a: nat, b: nat, d: nat)
    requires a <= b
    ensures a * d <= b * d
  {}

  lemma LastCodeFits(lens: seq<nat>, l: nat)
    requires 1 <= l <= MAX_BITS && Count(lens, l) > 0
    requires forall s :: 0 <= s < |lens| && lens[s] > 0 ==> Coded(lens, s)
    ensures FirstCode(lens, l) + Count(lens, l) <= Pow2(l)
  {
    hide Count, WithLength, Pow2, FirstCode;
    WithLengthAt(lens, l, Count(lens, l) - 1);
    assert Coded(lens, WithLength(lens, l)[Count(lens, l) - 1]);
  }

  lemma CountLast(lens: seq<nat>, x: nat, l: nat)
    ensures Count(lens + [x], l) == Count(lens, l) + (if x == l then 1 else 0)
  {
    assert (lens + [x])[..|lens|] == lens;
  }

  /** An over-subscribed vector that huff_build accepts: its last symbol can never be decoded. */
  lemma OverSubscribed()
    ensures Buildable([1, 1, 2]) && !Kraft([1, 1, 2]) && !Coded([1, 1, 2], 2)
  {
    var s: seq<nat> := [1, 1, 2];
    forall l: nat ensures Count(s, l) == (if l == 1 then 2 else if l == 2 then 1 else 0) && Count(s[..2], l) == if l == 1 then 2 else 0 {
      CountLast([], 1, l);
      CountLast([1], 1, l);
      CountLast([1, 1], 2, l);
      assert s[..2] == [1] + [1] == [1, 1] && s == [1, 1] + [2] && [] + [1] == [1];
    }
    hide Count;
    assert Pow2(1) == 2 && Pow2(2) == 4;
    assert FirstCode(s, 2) == 4;
    AllCodedIffKraft(s);
  }

  // ---- decoding inverts the canonical code ----

  /** Every proper prefix of a code lies past all codes of the prefix's own length. */
  lemma {:induction false} PrefixPastFirst(lens: seq<nat>, b: seq<bool>, k: nat)
    requires Msb(b) >= FirstCode(lens, |b|)
    requires k <= |b|
    ensures Msb(b[..k]) >= FirstCode(lens, k)
    ensures 1 <= k < |b| ==> Msb(b[..k]) >= FirstCode(lens, k) + Count(lens, k)
    decreases |b| - k
  {
    if k < |b| {
      PrefixPastFirst(lens, b, k + 1);
      assert b[..k + 1][..k] == b[..k];
    } else {
      assert b[..k] == b;
    }
  }

  /** One turn of the decoding loop when there is a bit to read. */
  lemma DecodeTurn(t: Table, bit: bool, r: seq<bool>, len: nat, code: nat, first: nat, index: int)
    requires |t.counts| == MAX_BITS + 1 && 1 <= len <= MAX_BITS
    ensures var c := 2 * code + B2N(bit);
            DecodeFrom(t, [bit] + r, len, 2 * code, first, index) ==
            if c < first + t.counts[len]
            then (if 0 <= index + c - first < |t.symbols| then t.symbols[index + c - first] else -1, r)
            else DecodeFrom(t, r, len + 1, 2 * c, 2 * (first + t.counts[len]), index + t.counts[len])
  {
    assert ([bit] + r)[..1] == [bit] && ([bit] + r)[1..] == r;
    assert Lsb([bit]) == B2N(bit) + 2 * Lsb([]);
  }

  lemma MsbExtend(p: seq<bool>, bit: bool)
    ensures Msb(p + [bit]) == 2 * Msb(p) + B2N(bit)
  {
    assert (p + [bit])[..|p|] == p;
  }

  /** The decoder's arguments at the head of turn `k`, after reading the bits `p`. */
  function DecodeAt(lens: seq<nat>, p: seq<bool>, r: seq<bool>): (int, seq<bool>) {
    DecodeFrom(TableOf(lens), r, |p| + 1, 2 * Msb(p), FirstCode(lens, |p| + 1), |Ordered(lens, |p|)|)
  }

  lemma FirstCodeNext(lens: seq<nat>, l: nat)
    requires l >= 1
    ensures FirstCode(lens, l + 1) == 2 * (FirstCode(lens, l) + Count(lens, l))
    ensures |Ordered(lens, l)| == |Ordered(lens, l - 1)| + Count(lens, l)
  {
  }

  lemma DecodeAtTurn(lens: seq<nat>, p: seq<bool>, bit: bool, r: seq<bool>)
    requires |p| < MAX_BITS
    ensures var l, c := |p| + 1, Msb(p + [bit]);
            DecodeAt(lens, p, [bit] + r) ==
            if c < FirstCode(lens, l) + Count(lens, l)
            then (var sym := |Ordered(lens, |p|)| + c - FirstCode(lens, l);
                  if 0 <= sym < |Ordered(lens, MAX_BITS)| then Ordered(lens, MAX_BITS)[sym] else -1, r)
            else DecodeAt(lens, p + [bit], r)
  {
    hide Msb, Ordered, FirstCode, Count, DecodeFrom;
    MsbExtend(p, bit);
    FirstCodeNext(lens, |p| + 1);
    DecodeTurn(TableOf(lens), bit, r, |p| + 1, Msb(p), FirstCode(lens, |p| + 1), |Ordered(lens, |p|)|);
  }

  lemma {:induction false} DecodeStepsOver(lens: seq<nat>, s: nat, p: seq<bool>, b: seq<bool>, r: seq<bool>)
    requires Coded(lens, s) && p + b == CodeBits(lens, s) && b != []
    ensures DecodeAt(lens, p, b + r) == (s, r)
    decreases |b|
  {
    hide Msb, Ordered, FirstCode, Count, WithLength, DecodeAt, MsbBits;
    var l := lens[s];
    var p' := p + [b[0]];
    DecodeAtTurn(lens, p, b[0], b[1..] + r);
    assert b + r == [b[0]] + (b[1..] + r);
    MsbOfBits(Code(lens, s), l);
    if |b| > 1 {
      PrefixPastFirst(lens, p + b, |p'|);
      assert (p + b)[..|p'|] == p' && p' + b[1..] == p + b;
      DecodeStepsOver(lens, s, p', b[1..], r);
    } else {
      assert p' == p + b && b[1..] + r == r;
      CountPrefix(lens, s, l);
      OrderedAt(lens, l, Count(lens[..s], l), MAX_BITS);
    }
  }

  lemma {:induction false} DecodeSoundFrom(lens: seq<nat>, p: seq<bool>, r: seq<bool>)
    requires 2 * Msb(p) >= FirstCode(lens, |p| + 1)
    ensures var (s, rest) := DecodeAt(lens, p, r);
            s >= 0 ==> Coded(lens, s) && p + r == CodeBits(lens, s) + rest
    decreases |r|
  {
    hide Msb, Ordered, FirstCode, Count, DecodeAt, MsbBits;
    var l := |p| + 1;
    if l > MAX_BITS || r == [] {
      DecodeAtEnd(lens, p, r);
    } else {
      FirstCodeNext(lens, l);
      var p' := p + [r[0]];
      MsbExtend(p, r[0]);
      DecodeAtTurn(lens, p, r[0], r[1..]);
      assert r == [r[0]] + r[1..] && p + r == p' + r[1..];
      if Msb(p') < FirstCode(lens, l) + Count(lens, l) {
        CodeOfRank(lens, p');
      } else {
        DecodeSoundFrom(lens, p', r[1..]);
      }
    }
  }

  /** Past the longest length, or past the end of the input, no symbol is ever produced. */
  lemma DecodeAtEnd(lens: seq<nat>, p: seq<bool>, r: seq<bool>)
    requires |p| >= MAX_BITS || r == []
    ensures DecodeAt(lens, p, r) == (-1, r)
  {
    FirstCodeCovers(lens, |p| + 1);
  }

  /** The bits of a number in the code range of their length are the code of the symbol of that rank. */
  lemma CodeOfRank(lens: seq<nat>, p: seq<bool>)
    requires 1 <= |p| <= MAX_BITS
    requires FirstCode(lens, |p|) <= Msb(p) < FirstCode(lens, |p|) + Count(lens, |p|)
    ensures var j := |Ordered(lens, |p| - 1)| + Msb(p) - FirstCode(lens, |p|);
            0 <= j < |Ordered(lens, MAX_BITS)| &&
            var s := Ordered(lens, MAX_BITS)[j];
            Coded(lens, s) && p == CodeBits(lens, s)
  {
    hide Ordered, WithLength, Count, FirstCode, MsbBits, Msb;
    var j := Msb(p) - FirstCode(lens, |p|);
    OrderedAt(lens, |p|, j, MAX_BITS);
    WithLengthAt(lens, |p|, j);
    BitsOfMsb(p);
  }

  /** There are never more codes shorter than `l` than the first code of length `l`. */
  lemma {:induction false} FirstCodeCovers(lens: seq<nat>, l: nat)
    requires l >= 1
    ensures |Ordered(lens, l - 1)| <= FirstCode(lens, l)
  {
    if l > 1 {
      FirstCodeCovers(lens, l - 1);
    }
  }

  lemma DecodeAtStart(lens: seq<nat>, r: seq<bool>)
    ensures DecodeAt(lens, [], r) == Decode(TableOf(lens), r) && Msb([]) == FirstCode(lens, 1) == 0
  {
    hide TableOf, DecodeFrom, Count;
  }

  /** huff_dec yields symbol `s` exactly when the input starts with the canonical code of `s`,
      and then consumes that code and nothing more. Holds for every length vector, even an
      over-subscribed one, for which some codes do not fit their length and are never decoded. */
  lemma {:induction false} DecodeInvertsCode(lens: seq<nat>, s: nat, r: seq<bool>, rest: seq<bool>)
    ensures Decode(TableOf(lens), r) == (s, rest) <==> Coded(lens, s) && r == CodeBits(lens, s) + rest
  {
    hide Msb, Ordered, FirstCode, Count, WithLength, MsbBits, DecodeAt, Decode, TableOf, Code, Pow2;
    DecodeAtStart(lens, r);
    if Coded(lens, s) && r == CodeBits(lens, s) + rest {
      assert [] + CodeBits(lens, s) == CodeBits(lens, s);
      DecodeStepsOver(lens, s, [], CodeBits(lens, s), rest);
    }
    DecodeSoundFrom(lens, [], r);
    assert [] + r == r;
  }

  /** Decoding either fails or consumes at least one bit and at most MAX_BITS of them. */
  lemma {:induction false} DecodeProgress(lens: seq<nat>, r: seq<bool>)
    ensures var (s, rest) := Decode(TableOf(lens), r);
            s >= 0 ==> s < |lens| && |rest| < |r| <= |rest| + MAX_BITS && rest == r[|r| - |rest|..]
  {
    var (s, rest) := Decode(TableOf(lens), r);
    if s >= 0 {
      DecodeInvertsCode(lens, s, r, rest);
    }
  }

  // ---- the decoder ----

  const MAX_SYMBOLS: nat := 320

  class Huff {
    const counts: array<nat>
    const symbols: array<nat>
    var nsym: nat

    ghost predicate Valid()
      reads this
    {
      counts.Length == MAX_BITS + 1 && symbols.Length == MAX_SYMBOLS && counts != symbols && nsym <= MAX_SYMBOLS
    }

    ghost function View(): Table
      reads this, counts, symbols
      requires Valid()
    {
      Table(counts[..], symbols[..nsym])
    }

    constructor ()
      ensures Valid() && fresh(counts) && fresh(symbols)
    {
      counts := new nat[MAX_BITS + 1];
      symbols := new nat[MAX_SYMBOLS];
      nsym := 0;
    }

    /** huff_build: accepts exactly the buildable length vectors, and makes their table. */
    method Build(lens: seq<nat>) returns (ok: bool)
      requires Valid() && |lens| <= MAX_SYMBOLS
      modifies this, counts, symbols
      ensures Valid()
      ensures ok <==> Buildable(lens)
      ensures ok ==> View() == TableOf(lens)
    {
      ok := CountLengths(lens);
      if !ok {
        return false;
      }
      for l := 1 to MAX_BITS + 1
        invariant forall k :: 1 <= k < l ==> Count(lens, k) <= Pow2(k)
      {
        if counts[l] > Pow2(l) {
          assert counts[l] == Count(lens, l);
          return false;
        }
      }
      OrderSymbols(lens);
      assert counts[..] == TableOf(lens).counts;
    }

    method CountLengths(lens: seq<nat>) returns (ok: bool)
      requires Valid()
      modifies this, counts
      ensures Valid()
      ensures ok <==> forall i :: 0 <= i < |lens| ==> lens[i] <= MAX_BITS
      ensures ok ==> counts[0] == 0 && forall l :: 1 <= l <= MAX_BITS ==> counts[l] == Count(lens, l)
    {
      for i := 0 to MAX_BITS + 1
        invariant forall l :: 0 <= l < i ==> counts[l] == 0
      {
        counts[i] := 0;
      }
      nsym := 0;
      for i := 0 to |lens|
        invariant Valid()
        invariant forall j :: 0 <= j < i ==> lens[j] <= MAX_BITS
        invariant counts[0] == 0 && forall l :: 1 <= l <= MAX_BITS ==> counts[l] == Count(lens[..i], l)
      {
        assert lens[..i + 1][..i] == lens[..i];
        if lens[i] > MAX_BITS {
          return false;
        }
        if lens[i] != 0 {
          counts[lens[i]] := counts[lens[i]] + 1;
        }
      }
      assert lens[..|lens|] == lens;
      ok := true;
    }

    method OrderSymbols(lens: seq<nat>)
      requires Valid() && |lens| <= MAX_SYMBOLS
      modifies this, symbols
      ensures Valid() && symbols[..nsym] == Ordered(lens, MAX_BITS)
    {
      var sym := 0;
      for len := 1 to MAX_BITS + 1
        invariant Valid() && 0 <= sym <= MAX_SYMBOLS && symbols[..sym] == Ordered(lens, len - 1)
      {
        sym := AppendLength(lens, len, sym);
      }
      nsym := sym;
    }

    /** The inner loop; its guard against overrunning `symbols` never fires. */
    method AppendLength(lens: seq<nat>, len: nat, start: nat) returns (sym: nat)
      requires Valid() && |lens| <= MAX_SYMBOLS && 1 <= len
      requires start <= MAX_SYMBOLS && symbols[..start] == Ordered(lens, len - 1)
      modifies symbols
      ensures Valid() && sym <= MAX_SYMBOLS && symbols[..sym] == Ordered(lens, len)
    {
      hide Ordered, Count, WithLength;
      NoneYet(lens, len);
      OrderedSize(lens, len);
      FirstCodeNext(lens, len);
      sym := start;
      for i := 0 to |lens|
        invariant sym == start + Count(lens[..i], len) <= MAX_SYMBOLS
        invariant symbols[..sym] == Ordered(lens, len - 1) + WithLength(lens[..i], len)
      {
        assert lens[..i + 1][..i] == lens[..i];
        assert lens[i] == len ==> Count(lens[..i], len) < Count(lens, len) by {
          CountPrefix(lens, i, len);
        }
        CountStep(lens, i, len);
        if lens[i] == len && sym < MAX_SYMBOLS {
          symbols[sym] := i;
          sym := sym + 1;
        }
      }
      assert lens[..|lens|] == lens;
      OrderedStep(lens, len);
    }

    /** huff_dec */
    method NextSymbol(b: BitReader) returns (sym: int)
      requires Valid() && b.Valid() && b.bitcnt < 8
      modifies b
      ensures b.Valid() && b.bitcnt < 8
      ensures (sym, b.Rest()) == Decode(View(), old(b.Rest()))
    {
      hide DecodeFrom, ReadBits;
      var code: int, first: int, index: int := 0, 0, 0;
      ghost var t := View();
      for len := 1 to MAX_BITS + 1
        invariant b.Valid() && b.bitcnt < 8
        invariant DecodeFrom(t, b.Rest(), len, code, first, index) == Decode(t, old(b.Rest()))
      {
        DecodeUnfolds(t, b.Rest(), len, code, first, index);
        var v := b.Bits(1);
        code := if v == EOF then -1 else code + v;
        var cnt := counts[len];
        if code - cnt < first {
          sym := index + (code - first);
          if sym < 0 || sym >= nsym {
            return -1;
          }
          return symbols[sym];
        }
        index := index + cnt;
        first := 2 * (first + cnt);
        code := 2 * code;
      }
      DecodeEnds(t, b.Rest(), code, first, index);
      sym := -1;
    }
  }

  lemma DecodeUnfolds(t: Table, r: seq<bool>, len: nat, code: int, first: int, index: int)
    requires |t.counts| == MAX_BITS + 1 && len <= MAX_BITS
    ensures var (v, rest) := ReadBits(r, 1);
      var c, cnt := if v == EOF then -1 else code + v, t.counts[len];
      DecodeFrom(t, r, len, code, first, index) ==
        if c - cnt >= first then DecodeFrom(t, rest, len + 1, 2 * c, 2 * (first + cnt), index + cnt)
        else (if 0 <= index + (c - first) < |t.symbols| then t.symbols[index + (c - first)] else -1, rest)
  {}

  lemma DecodeEnds(t: Table, r: seq<bool>, code: int, first: int, index: int)
    requires |t.counts| == MAX_BITS + 1
    ensures DecodeFrom(t, r, MAX_BITS + 1, code, first, index) == (-1, r)
  {}

  lemma NoneYet(lens: seq<nat>, l: nat)
    ensures Count(lens[..0], l) == 0 && WithLength(lens[..0], l) == []
  {}

  lemma CountStep(lens: seq<nat>, i: nat, l: nat)
    requires i < |lens|
    ensures Count(lens[..i + 1], l) == Count(lens[..i], l) + (if lens[i] == l then 1 else 0)
    ensures WithLength(lens[..i + 1], l) == WithLength(lens[..i], l) + (if lens[i] == l then [i] else [])
  {
    assert lens[..i + 1][..i] == lens[..i];
  }

  lemma OrderedStep(lens: seq<nat>, l: nat)
    requires l >= 1
    ensures Ordered(lens, l) == Ordered(lens, l - 1) + WithLength(lens, l)
  {
  }
}
