/** The Internet checksum of RFC 1071 as the network stack computes it: a 32-bit running sum of
    big-endian words, folded to 16 bits and complemented. */
module Checksum {
  import opened Bits

  const WRAP32: nat := 0x1_0000_0000
  const ONES: nat := 0xFFFF

  function Word(s: seq<byte>, i: nat): (w: nat)
    requires i + 1 < |s|
    ensures w <= ONES
  {
    256 * s[i] as int + s[i + 1] as int
  }

  function W16(v: nat): (s: seq<byte>)
    requires v <= ONES
    ensures |s| == 2 && Word(s, 0) == v
  {
    [v / 256, v % 256]
  }

  function W32(v: nat): (s: seq<byte>)
    requires v < WRAP32
    ensures |s| == 4 && Word(s, 0) * 0x1_0000 + Word(s, 2) == v
  {
    W16(v / 0x1_0000) + W16(v % 0x1_0000)
  }

  function PutWord(s: seq<byte>, i: nat, v: nat): (t: seq<byte>)
    requires i + 1 < |s| && v <= ONES
    ensures |t| == |s| && Word(t, i) == v
    ensures forall j :: 0 <= j < |s| && j != i && j != i + 1 ==> t[j] == s[j]
  {
    s[i := v / 256][i + 1 := v % 256]
  }

  /** The sum of a byte string's big-endian words; an odd last byte counts as a high byte. */
  function WordSum(s: seq<byte>): nat {
    if s == [] then 0
    else if |s| == 1 then 256 * s[0]
    else Word(s, 0) + WordSum(s[2..])
  }

  function Fold(s: nat): (r: nat)
    ensures r <= ONES
  {
    if s <= ONES then s else Fold(s % 0x1_0000 + s / 0x1_0000)
  }

  /** The checksum field for a byte string, `extra` being the pseudo-header's sum. */
  function Sum(s: seq<byte>, extra: nat): (c: nat)
    ensures c <= ONES
  {
    ONES - Fold((extra + WordSum(s)) % WRAP32)
  }

  // ---- the fold ----

  lemma FoldStep(s: nat)
    ensures (s % 0x1_0000 + s / 0x1_0000) % ONES == s % ONES
  {
    var q, r := s / 0x1_0000, s % 0x1_0000;
    assert s == (q + r) + q * ONES;
    ModPlus(q + r, q);
  }

  lemma ModPlus(a: nat, k: nat)
    ensures (a + k * ONES) % ONES == a % ONES
  {
    DivModUnique(a + k * ONES, ONES, a / ONES + k, a % ONES);
  }

  /** Folding keeps a sum's residue modulo 65535 and gives zero for zero alone, which leaves one value possible. */
  lemma {:induction false} FoldKeeps(s: nat)
    ensures Fold(s) % ONES == s % ONES
    ensures Fold(s) == 0 <==> s == 0
  {
    if s > ONES {
      FoldStep(s);
      FoldKeeps(s % 0x1_0000 + s / 0x1_0000);
    }
  }

  /** A folded sum is all ones exactly when the sum is a positive multiple of 65535. */
  lemma FoldFull(s: nat)
    ensures Fold(s) == ONES <==> s > 0 && s % ONES == 0
  {
    FoldKeeps(s);
    hide Fold;
    if Fold(s) < ONES && s > 0 {
      DivModUnique(Fold(s), ONES, 0, Fold(s));
    }
  }

  /** Addition with end-around carry, the operation RFC 1071 section 1 defines the checksum by. */
  function OnesAdd(a: nat, b: nat): (r: nat)
    requires a <= ONES && b <= ONES
    ensures r <= ONES
  {
    if a + b > ONES then a + b - ONES else a + b
  }

  function OnesSum(s: seq<byte>): (r: nat)
    ensures r <= ONES
  {
    if s == [] then 0
    else if |s| == 1 then 256 * s[0]
    else OnesAdd(Word(s, 0), OnesSum(s[2..]))
  }

  lemma FoldUnique(s: nat, r: nat)
    requires r <= ONES && r % ONES == s % ONES && (r == 0 <==> s == 0)
    ensures Fold(s) == r
  {
    FoldKeeps(s);
    hide Fold;
    SameResidue(Fold(s), r);
  }

  lemma SameResidue(a: nat, b: nat)
    requires a <= ONES && b <= ONES && a % ONES == b % ONES && (a == 0 <==> b == 0)
    ensures a == b
  {
    if a < ONES { DivModUnique(a, ONES, 0, a); }
    if b < ONES { DivModUnique(b, ONES, 0, b); }
  }

  lemma FoldAdds(a: nat, b: nat)
    ensures Fold(a + b) == OnesAdd(Fold(a), Fold(b))
  {
    FoldKeeps(a);
    FoldKeeps(b);
    hide Fold;
    var r := OnesAdd(Fold(a), Fold(b));
    ModSum(Fold(a), Fold(b), a, b);
    if Fold(a) + Fold(b) > ONES { ModPlus(r, 1); }
    FoldUnique(a + b, r);
  }

  lemma ModSum(a: nat, b: nat, c: nat, d: nat)
    requires a % ONES == c % ONES && b % ONES == d % ONES
    ensures (a + b) % ONES == (c + d) % ONES
  {
    var x, y := a % ONES, b % ONES;
    ModPlus(x + y, a / ONES + b / ONES);
    ModPlus(x + y, c / ONES + d / ONES);
    assert a + b == x + y + (a / ONES + b / ONES) * ONES;
    assert c + d == x + y + (c / ONES + d / ONES) * ONES;
  }

  /** The deferred-carry sum the code keeps equals the end-around-carry sum of the standard. */
  lemma {:induction false} FoldIsOnesSum(s: seq<byte>)
    ensures Fold(WordSum(s)) == OnesSum(s)
  {
    if |s| > 1 {
      FoldAdds(Word(s, 0), WordSum(s[2..]));
      FoldIsOnesSum(s[2..]);
    }
  }

  // ---- sums of byte strings ----

  lemma {:induction false} SumBound(s: seq<byte>)
    ensures WordSum(s) <= 0x8000 * (|s| + 1)
  {
    if |s| > 1 { SumBound(s[2..]); }
  }

  lemma {:induction false} SumPut(s: seq<byte>, i: nat, v: nat)
    requires i % 2 == 0 && i + 1 < |s| && v <= ONES
    ensures WordSum(PutWord(s, i, v)) + Word(s, i) == WordSum(s) + v
  {
    var t := PutWord(s, i, v);
    if i == 0 {
      assert t[2..] == s[2..];
    } else {
      assert t[2..] == PutWord(s[2..], i - 2, v);
      SumPut(s[2..], i - 2, v);
      assert Word(t, 0) == Word(s, 0) && Word(s[2..], i - 2) == Word(s, i);
    }
  }

  lemma {:induction false} SumConcat(s: seq<byte>, t: seq<byte>)
    requires |s| % 2 == 0
    ensures WordSum(s + t) == WordSum(s) + WordSum(t)
  {
    if s == [] {
      assert s + t == t;
    } else {
      assert (s + t)[2..] == s[2..] + t;
      SumConcat(s[2..], t);
    }
  }

  /** A byte string passes verification exactly when its sum is a positive multiple of 65535. */
  lemma Verifies(s: seq<byte>, extra: nat)
    requires extra + WordSum(s) < WRAP32
    ensures Sum(s, extra) == 0 <==> extra + WordSum(s) > 0 && (extra + WordSum(s)) % ONES == 0
  {
    FoldFull(extra + WordSum(s));
  }

  lemma SumIs(s: seq<byte>, extra: nat)
    requires extra + WordSum(s) < WRAP32
    ensures Sum(s, extra) == ONES - Fold(extra + WordSum(s))
  {}

  /** Filling a zeroed checksum field at an even offset with the sum makes the whole verify. */
  lemma SumThenVerify(s: seq<byte>, i: nat, extra: nat)
    requires i % 2 == 0 && i + 1 < |s| && Word(s, i) == 0
    requires extra + WordSum(s) + ONES < WRAP32
    ensures Sum(PutWord(s, i, Sum(s, extra)), extra) == 0
  {
    hide Fold, WordSum, Word, PutWord, Sum;
    var total := extra + WordSum(s);
    var c := Sum(s, extra);
    SumPut(s, i, c);
    SumIs(s, extra);
    FoldKeeps(total);
    ModSum(total, c, Fold(total), c);
    assert (total + c) % ONES == 0;
    Verifies(PutWord(s, i, c), extra);
  }

  /** Replacing one word of a verifying string goes unnoticed exactly when old and new words agree modulo 65535. */
  lemma DamageSeen(s: seq<byte>, i: nat, v: nat, extra: nat)
    requires i % 2 == 0 && i + 1 < |s| && v <= ONES && v > 0
    requires extra + WordSum(s) + ONES < WRAP32 && Sum(s, extra) == 0
    ensures Sum(PutWord(s, i, v), extra) == 0 <==> v % ONES == Word(s, i) % ONES
  {
    hide Fold, WordSum, Word, Sum, PutWord;
    var t := PutWord(s, i, v);
    SumPut(s, i, v);
    Verifies(s, extra);
    SumPositive(t, i);
    Verifies(t, extra);
    var a, w := extra + WordSum(s), Word(s, i);
    ModSum(a, v, 0, v);
    CancelResidue(extra + WordSum(t), w, v);
  }

  lemma {:induction false} SumPositive(s: seq<byte>, i: nat)
    requires i % 2 == 0 && i + 1 < |s|
    ensures WordSum(s) >= Word(s, i)
  {
    if i > 0 {
      SumPositive(s[2..], i - 2);
    }
  }

  /** From `b + w` and `v` agreeing: `b` vanishes exactly when `v` and `w` agree. */
  lemma CancelResidue(b: nat, w: nat, v: nat)
    requires (b + w) % ONES == v % ONES
    ensures b % ONES == 0 <==> v % ONES == w % ONES
  {
    if b % ONES == 0 { ModSum(b, w, 0, w); }
    if v % ONES == w % ONES {
      var x: nat := ONES * (w + 1) - w;
      ModSum(b + w, x, w, x);
      ModPlus(b, w + 1);
      ModPlus(0, w + 1);
    }
  }

  // ---- the two routines ----

  /** The running sum of the first `b` bytes, wrapping at 32 bits as the C variable does. */
  predicate Summed(data: seq<byte>, b: nat, extra: nat, sum: nat) {
    b <= |data| && sum < WRAP32 && (sum + WordSum(data[b..])) % WRAP32 == (extra + WordSum(data)) % WRAP32
  }

  lemma SummedMore(data: seq<byte>, b: nat, extra: nat, sum: nat)
    requires Summed(data, b, extra, sum) && b + 1 < |data|
    ensures Summed(data, b + 2, extra, (sum + Word(data, b)) % WRAP32)
  {
    assert WordSum(data[b..]) == Word(data, b) + WordSum(data[b + 2..]) by {
      assert data[b..][2..] == data[b + 2..];
    }
    hide WordSum, Word;
    WrapAdd(sum + Word(data, b), WordSum(data[b + 2..]));
  }

  lemma SummedAll(data: seq<byte>, b: nat, extra: nat, sum: nat)
    requires Summed(data, b, extra, sum) && b + 2 > |data|
    ensures (if b < |data| then (sum + 256 * data[b] as int) % WRAP32 else sum) == (extra + WordSum(data)) % WRAP32
  {}

  method Csum(data: seq<byte>, extra: nat) returns (c: nat)
    requires extra < WRAP32
    ensures c == Sum(data, extra)
  {
    hide WordSum, Fold, Word, Summed;
    var sum: nat, b: nat := extra, 0;
    assert Summed(data, b, extra, sum) by { SummedNone(data, extra); }
    while |data| - b >= 2
      invariant Summed(data, b, extra, sum) && b <= |data|
    {
      SummedMore(data, b, extra, sum);
      sum := (sum + Word(data, b)) % WRAP32;
      b := b + 2;
    }
    SummedAll(data, b, extra, sum);
    if b < |data| {
      sum := (sum + 256 * data[b] as int) % WRAP32;
    }
    sum := FoldDown(sum);
    c := ONES - sum;
  }

  lemma SummedNone(data: seq<byte>, extra: nat)
    requires extra < WRAP32
    ensures Summed(data, 0, extra, extra)
  {
    assert data[0..] == data;
  }

  lemma WrapAdd(a: nat, b: nat)
    ensures (a % WRAP32 + b) % WRAP32 == (a + b) % WRAP32
  {
    var q := a / WRAP32;
    var s := a % WRAP32 + b;
    DivModUnique(a + b, WRAP32, s / WRAP32 + q, s % WRAP32);
  }

  method FoldDown(s: nat) returns (r: nat)
    ensures r == Fold(s)
  {
    r := s;
    while r / 0x1_0000 != 0
      invariant Fold(r) == Fold(s)
      decreases r
    {
      r := r % 0x1_0000 + r / 0x1_0000;
    }
  }

  /** The pseudo-header of a UDP or TCP segment: addresses, protocol, length. */
  function PseudoHeader(src: seq<byte>, dst: seq<byte>, proto: byte, len: nat): (s: seq<byte>)
    requires |src| == |dst| == 4 && len <= ONES
    ensures |s| == 12
  {
    src + dst + [0, proto] + W16(len)
  }

  method Pseudo(src: seq<byte>, dst: seq<byte>, proto: byte, len: nat) returns (p: nat)
    requires |src| == |dst| == 4 && len <= ONES
    ensures p == OnesSum(PseudoHeader(src, dst, proto, len))
  {
    var sum: nat := Word(src, 0) + Word(src, 2) + Word(dst, 0) + Word(dst, 2) + proto + len;
    ghost var h := PseudoHeader(src, dst, proto, len);
    PseudoWords(h);
    FoldIsOnesSum(h);
    p := FoldDown(sum);
  }

  lemma PseudoWords(h: seq<byte>)
    requires |h| == 12
    ensures WordSum(h) == Word(h, 0) + Word(h, 2) + Word(h, 4) + Word(h, 6) + Word(h, 8) + Word(h, 10)
  {
    assert h[2..][2..] == h[4..] && h[4..][2..] == h[6..] && h[6..][2..] == h[8..] && h[8..][2..] == h[10..];
    assert WordSum(h[10..]) == Word(h, 10);
    assert WordSum(h[8..]) == Word(h, 8) + Word(h, 10);
    assert WordSum(h[4..]) == Word(h, 4) + Word(h, 6) + WordSum(h[8..]);
  }

  /** Passing the pseudo-header's folded sum as `extra` gives the checksum of pseudo-header and segment together. */
  lemma PseudoCovered(h: seq<byte>, s: seq<byte>)
    requires |h| == 12 && |s| <= 2000
    ensures Sum(s, OnesSum(h)) == Sum(h + s, 0)
  {
    hide WordSum, OnesSum, OnesAdd, Sum, Fold;
    SumBound(h);
    SumBound(s);
    SumConcat(h, s);
    FoldIsOnesSum(h);
    FoldSmall(OnesSum(h));
    FoldAdds(OnesSum(h), WordSum(s));
    FoldAdds(WordSum(h), WordSum(s));
    SumIs(s, OnesSum(h));
    SumIs(h + s, 0);
  }

  lemma FoldSmall(s: nat)
    requires s <= ONES
    ensures Fold(s) == s
  {
  }
}
