/** Bytes, bit strings and the two bit orders DEFLATE uses: multi-bit fields are packed
    least significant bit first, Huffman codes most significant bit first. */
module Bits {
  type byte = x: int | 0 <= x < 256

  function Pow2(n: nat): (r: nat)
    ensures r >= 1
  {
    if n == 0 then 1 else 2 * Pow2(n - 1)
  }

  function B2N(b: bool): nat {
    if b then 1 else 0
  }

  /** The number a bit string denotes when its first bit is the least significant one. */
  function Lsb(b: seq<bool>): nat {
    if b == [] then 0 else B2N(b[0]) + 2 * Lsb(b[1..])
  }

  /** The number a bit string denotes when its first bit is the most significant one. */
  function Msb(b: seq<bool>): nat {
    if b == [] then 0 else 2 * Msb(b[..|b| - 1]) + B2N(b[|b| - 1])
  }

  function LsbBits(v: nat, n: nat): (b: seq<bool>)
    ensures |b| == n
  {
    if n == 0 then [] else [v % 2 == 1] + LsbBits(v / 2, n - 1)
  }

  function MsbBits(v: nat, n: nat): (b: seq<bool>)
    ensures |b| == n
  {
    if n == 0 then [] else MsbBits(v / 2, n - 1) + [v % 2 == 1]
  }

  /** The bit string of a byte string. */
  function BitsOf(s: seq<byte>): (b: seq<bool>)
    ensures |b| == 8 * |s|
  {
    if s == [] then [] else LsbBits(s[0], 8) + BitsOf(s[1..])
  }

  /** The byte string of a bit string made of whole bytes. */
  function BytesOf(b: seq<bool>): (s: seq<byte>)
    requires |b| % 8 == 0
    ensures 8 * |s| == |b|
  {
    if b == [] then [] else
    LsbBound(b[..8]);
    assert Pow2(8) == 256;
    [Lsb(b[..8])] + BytesOf(b[8..])
  }

  lemma {:induction false} Pow2Add(a: nat, b: nat)
    ensures Pow2(a + b) == Pow2(a) * Pow2(b)
  {
    if a > 0 {
      Pow2Add(a - 1, b);
    }
  }

  lemma {:induction false} Pow2Mono(a: nat, b: nat)
    requires a <= b
    ensures Pow2(a) <= Pow2(b)
  {
    if a < b {
      Pow2Mono(a, b - 1);
    }
  }

  lemma {:induction false} LsbBound(b: seq<bool>)
    ensures Lsb(b) < Pow2(|b|)
  {
    if b != [] {
      LsbBound(b[1..]);
    }
  }

  lemma {:induction false} LsbOfBits(v: nat, n: nat)
    requires v < Pow2(n)
    ensures Lsb(LsbBits(v, n)) == v
  {
    if n > 0 {
      LsbOfBits(v / 2, n - 1);
      assert LsbBits(v, n)[1..] == LsbBits(v / 2, n - 1);
    }
  }

  lemma {:induction false} BitsOfLsb(b: seq<bool>)
    ensures LsbBits(Lsb(b), |b|) == b
  {
    if b != [] {
      BitsOfLsb(b[1..]);
      assert Lsb(b) % 2 == B2N(b[0]) && Lsb(b) / 2 == Lsb(b[1..]);
    }
  }

  lemma {:induction false} LsbConcat(a: seq<bool>, b: seq<bool>)
    ensures Lsb(a + b) == Lsb(a) + Pow2(|a|) * Lsb(b)
  {
    if a == [] {
      assert a + b == b;
    } else {
      LsbConcat(a[1..], b);
      assert (a + b)[1..] == a[1..] + b;
      assert 2 * (Pow2(|a| - 1) * Lsb(b)) == Pow2(|a|) * Lsb(b);
    }
  }

  lemma {:induction false} MsbOfBits(v: nat, n: nat)
    requires v < Pow2(n)
    ensures Msb(MsbBits(v, n)) == v
  {
    if n > 0 {
      MsbOfBits(v / 2, n - 1);
      assert MsbBits(v, n)[..n - 1] == MsbBits(v / 2, n - 1);
    }
  }

  lemma {:induction false} BitsOfMsb(b: seq<bool>)
    ensures Msb(b) < Pow2(|b|)
    ensures MsbBits(Msb(b), |b|) == b
  {
    if b != [] {
      var init, bit := b[..|b| - 1], B2N(b[|b| - 1]);
      BitsOfMsb(init);
      assert Msb(b) == 2 * Msb(init) + bit;
      assert MsbBits(Msb(b), |b|) == MsbBits(Msb(init), |b| - 1) + [b[|b| - 1]];
    }
  }

  lemma {:induction false} LsbBitsOfConcat(t: nat, a: seq<bool>, b: seq<bool>)
    requires t == Lsb(a) + Lsb(b) * Pow2(|a|)
    ensures t < Pow2(|a| + |b|)
    ensures LsbBits(t, |a| + |b|) == a + b
  {
    LsbConcat(a, b);
    LsbBound(a + b);
    BitsOfLsb(a + b);
  }

  /** Appending a value above the `n` low bits of a bit buffer appends its bit string. */
  lemma {:induction false} LsbBitsJoin(t: nat, v: nat, n: nat, w: nat, m: nat)
    requires v < Pow2(n) && w < Pow2(m)
    requires t == v + w * Pow2(n)
    ensures t < Pow2(n + m)
    ensures LsbBits(t, n + m) == LsbBits(v, n) + LsbBits(w, m)
  {
    LsbOfBits(v, n);
    LsbOfBits(w, m);
    LsbBitsOfConcat(t, LsbBits(v, n), LsbBits(w, m));
  }

  /** Taking the `n` low bits off a bit buffer splits its bit string at `n`. */
  lemma {:induction false} LsbBitsSplit(v: nat, m: nat, n: nat)
    requires v < Pow2(m) && n <= m
    ensures v % Pow2(n) == Lsb(LsbBits(v, m)[..n])
    ensures v / Pow2(n) < Pow2(m - n)
    ensures LsbBits(v / Pow2(n), m - n) == LsbBits(v, m)[n..]
  {
    var b := LsbBits(v, m);
    var lo, hi := b[..n], b[n..];
    assert b == lo + hi;
    LsbOfBits(v, m);
    LsbConcat(lo, hi);
    LsbBound(lo);
    LsbBound(hi);
    BitsOfLsb(hi);
    DivModUnique(v, Pow2(n), Lsb(hi), Lsb(lo));
  }

  lemma DivModUnique(v: nat, d: nat, q: nat, r: nat)
    requires r < d && v == r + d * q
    ensures v / d == q && v % d == r
  {
    if v / d < q {
      MulMono(d, v / d + 1, q);
    } else if v / d > q {
      MulMono(d, q + 1, v / d);
    }
  }

  lemma MulCancel(a: int, b: int, d: nat)
    requires d > 0 && a * d <= b * d
    ensures a <= b
  {
    if a > b {
      MulMono(d, b + 1, a);
    }
  }

  lemma MulMono(d: nat, a: int, b: int)
    requires a <= b
    ensures d * a <= d * b
  {
  }

  lemma {:induction false} BytesOfBits(s: seq<byte>)
    ensures BytesOf(BitsOf(s)) == s
  {
    if s != [] {
      var b := BitsOf(s);
      assert b[..8] == LsbBits(s[0], 8) && b[8..] == BitsOf(s[1..]);
      assert Pow2(8) == 256;
      LsbOfBits(s[0], 8);
      BytesOfBits(s[1..]);
    }
  }

  lemma {:induction false} BitsOfBytes(b: seq<bool>)
    requires |b| % 8 == 0
    ensures BitsOf(BytesOf(b)) == b
  {
    if b != [] {
      BitsOfLsb(b[..8]);
      BitsOfBytes(b[8..]);
      assert b == b[..8] + b[8..];
      assert BytesOf(b)[1..] == BytesOf(b[8..]);
    }
  }

  lemma {:induction false} BitsOfConcat(s: seq<byte>, t: seq<byte>)
    ensures BitsOf(s + t) == BitsOf(s) + BitsOf(t)
  {
    if s == [] {
      assert s + t == t;
    } else {
      BitsOfConcat(s[1..], t);
      assert (s + t)[1..] == s[1..] + t;
    }
  }
}
