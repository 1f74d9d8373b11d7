/** The bit reader of the inflater. Its abstract state is the string of bits not yet read. */
module BitReading {
  import opened Bits

  /** What the reader returns when the input runs out, and that value seen as a C int. */
  const EOF: nat := 0xFFFF_FFFF

  function AsInt(v: nat): int {
    if v == EOF then -1 else v
  }

  /** The next `n` bits as a number, and the bits left; at the end of input nothing is read. */
  function ReadBits(r: seq<bool>, n: nat): (nat, seq<bool>) {
    if |r| < n then (EOF, r) else (Lsb(r[..n]), r[n..])
  }

  /** A reader over the whole input drops the bits before the next byte boundary. */
  function ByteAligned(r: seq<bool>): seq<bool> {
    r[|r| % 8..]
  }

  class BitReader {
    const p: seq<byte>
    var pos: nat
    var bitbuf: nat
    var bitcnt: nat

    ghost predicate Valid()
      reads this
    {
      pos <= |p| && bitcnt <= 20 && bitbuf < Pow2(bitcnt)
    }

    /** The bits still to be read: those in the buffer, then those of the bytes not yet loaded. */
    ghost function Rest(): seq<bool>
      reads this
      requires Valid()
    {
      LsbBits(bitbuf, bitcnt) + BitsOf(p[pos..])
    }

    constructor (p: seq<byte>)
      ensures this.p == p && Valid() && bitcnt < 8
      ensures Rest() == BitsOf(p)
    {
      this.p := p;
      pos, bitbuf, bitcnt := 0, 0, 0;
      new;
      assert p[0..] == p;
    }

    /** br_bits. The buffer stays below 2^bitcnt, so OR-ing a shifted byte in is an addition. */
    method Bits(n: nat) returns (v: nat)
      requires Valid() && n <= 13
      modifies this
      ensures Valid()
      ensures (v, Rest()) == ReadBits(old(Rest()), n)
      ensures old(bitcnt) < 8 && (n <= 8 || v != EOF) ==> bitcnt < 8
    {
      ghost var r := Rest();
      while bitcnt < n
        invariant Valid() && Rest() == r
        invariant old(bitcnt) < 8 ==> bitcnt < n + 8
        invariant bitcnt > old(bitcnt) ==> bitcnt < n + 8
        invariant bitcnt >= old(bitcnt)
        decreases n - bitcnt
      {
        if pos >= |p| {
          assert BitsOf(p[pos..]) == [];
          return EOF;
        }
        Load();
      }
      v := Take(n);
    }

    /** The end of br_bits: the low `n` bits leave the buffer. */
    method Take(n: nat) returns (v: nat)
      requires Valid() && n <= bitcnt
      modifies this
      ensures Valid() && bitcnt == old(bitcnt) - n
      ensures (v, Rest()) == ReadBits(old(Rest()), n)
    {
      hide Pow2, LsbBits, BitsOf, Lsb;
      ghost var loaded, rest := LsbBits(bitbuf, bitcnt), BitsOf(p[pos..]);
      LsbBitsSplit(bitbuf, bitcnt, n);
      assert (loaded + rest)[..n] == loaded[..n] && (loaded + rest)[n..] == loaded[n..] + rest;
      v := bitbuf % Pow2(n);
      bitbuf := bitbuf / Pow2(n);
      bitcnt := bitcnt - n;
    }

    /** One turn of the loop in br_bits: moves the next input byte into the buffer. */
    method Load()
      requires Valid() && bitcnt <= 12 && pos < |p|
      modifies this
      ensures Valid() && bitcnt == old(bitcnt) + 8 && pos == old(pos) + 1
      ensures Rest() == old(Rest())
    {
      assert Pow2(8) == 256;
      hide Pow2, LsbBits;
      LsbBitsJoin(bitbuf + p[pos] * Pow2(bitcnt), bitbuf, bitcnt, p[pos], 8);
      assert p[pos..][1..] == p[pos + 1..];
      bitbuf := bitbuf + p[pos] * Pow2(bitcnt);
      bitcnt := bitcnt + 8;
      pos := pos + 1;
    }

    lemma Empty()
      requires Valid() && bitcnt == 0
      ensures Rest() == BitsOf(p[pos..])
    {
    }

    /** A stored block starts by emptying the bit buffer. */
    method Align()
      requires Valid() && bitcnt < 8
      modifies this
      ensures Valid() && bitcnt == 0 && pos == old(pos)
      ensures Rest() == BitsOf(p[pos..]) == ByteAligned(old(Rest()))
    {
      assert |Rest()| % 8 == bitcnt;
      bitbuf, bitcnt := 0, 0;
    }
  }
}
