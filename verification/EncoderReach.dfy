/** What the encodings reach: every byte string has one, and every pair of Kraft code tables has a
    dynamic header. So the decoder's theorems are about all outputs and all tables. */
module EncoderReach {
  import opened Bits
  import opened Deflate
  import opened Encoder
  import opened Huffman

  const ZERO_PAD: seq<bool> := [false, false, false, false, false, false, false]

  /** Data cut into stored blocks of at most 65535 bytes, one at least. */
  function StoredBlocks(data: seq<byte>): (bs: seq<Block>)
    ensures bs != []
    decreases |data|
  {
    if |data| <= 0xFFFF then [Verbatim(data, ZERO_PAD)] else [Verbatim(data[..0xFFFF], ZERO_PAD)] + StoredBlocks(data[0xFFFF..])
  }

  lemma {:induction false} StoredBlocksExpand(data: seq<byte>, out: seq<byte>)
    ensures ValidBlocks(StoredBlocks(data), out) && ExpandBlocks(StoredBlocks(data), out) == out + data
    decreases |data|
  {
    var bs := StoredBlocks(data);
    if |data| <= 0xFFFF {
      assert bs[1..] == [];
    } else {
      var rest := data[0xFFFF..];
      assert bs[1..] == StoredBlocks(rest);
      StoredBlocksExpand(rest, out + data[..0xFFFF]);
      assert out + data[..0xFFFF] + rest == out + data;
    }
  }

  /** Every byte string is the result of inflating some stream. */
  lemma EveryOutputIsReached(header: seq<byte>, data: seq<byte>, trailer: seq<byte>, cap: nat)
    requires |header| == 2 && ZlibHeader(header) && |data| <= cap
    ensures var bs := StoredBlocks(data);
      && ValidBlocks(bs, [])
      && Inflated(header + Compressed(bs) + trailer, cap).Ok? && Inflated(header + Compressed(bs) + trailer, cap).out == data
  {
    hide ValidBlocks, ExpandBlocks, Compressed, Inflated, ZlibHeader;
    StoredBlocksExpand(data, []);
    assert [] + data == data;
    InflateUndoesCompress(header, StoredBlocks(data), trailer, cap);
  }

  /** A code-length code that codes each of the lengths 0 to 15 with four bits. */
  const PLAIN: seq<nat> := Repeat(4, 16) + Repeat(0, 3)

  function Singles(lens: seq<nat>): (ops: seq<LengthOp>)
    ensures |ops| == |lens|
  {
    seq(|lens|, i requires 0 <= i < |lens| => One(lens[i]))
  }

  lemma PlainCounts(l: nat)
    requires 1 <= l <= MAX_BITS
    ensures Count(PLAIN, l) == if l == 4 then 16 else 0
  {
    hide Repeat, Count;
    CountConcat(Repeat(4, 16), Repeat(0, 3), l);
    CountRepeat(4, 16, l);
    CountRepeat(0, 3, l);
  }

  lemma {:induction false} PlainSum(l: nat)
    requires l <= MAX_BITS
    ensures KraftSum(PLAIN, l) == if l < 4 then 0 else Pow2(MAX_BITS)
    decreases l
  {
    hide Count, Pow2;
    if l > 0 {
      PlainSum(l - 1);
      PlainCounts(l);
      if l == 4 {
        Pow2Add(4, MAX_BITS - 4);
        assert Pow2(4) == 16 by { SixteenIsPow2(); }
      }
    }
  }

  lemma SixteenIsPow2()
    ensures Pow2(4) == 16
  {}

  lemma PlainCoded(l: nat)
    requires l <= MAX_BITS
    ensures Kraft(PLAIN) && Coded(PLAIN, l)
  {
    hide Count, Pow2, KraftSum, Code, Coded, Repeat, Buildable;
    PlainSum(MAX_BITS);
    KraftBuildable(PLAIN);
    assert PLAIN[l] == 4;
  }

  lemma {:induction false} SinglesApply(lens: seq<nat>, done: seq<nat>)
    requires forall i :: 0 <= i < |lens| ==> lens[i] <= MAX_BITS
    ensures ValidOps(PLAIN, Singles(lens), done) && ApplyOps(PLAIN, Singles(lens), done) == done + lens
    decreases |lens|
  {
    hide Coded, Kraft, Repeat;
    if lens == [] {
      assert done + lens == done;
    } else {
      PlainCoded(lens[0]);
      assert Singles(lens)[1..] == Singles(lens[1..]);
      SinglesApply(lens[1..], done + [lens[0]]);
      assert done + [lens[0]] + lens[1..] == done + lens;
    }
  }

  lemma TablesInRange(lit: seq<nat>, dist: seq<nat>)
    requires Kraft(lit) && Kraft(dist)
    ensures forall i :: 0 <= i < |lit + dist| ==> (lit + dist)[i] <= MAX_BITS
  {
    hide KraftSum, Pow2;
  }

  lemma PlainTransmits()
    ensures ValidCodeLengthCode(PLAIN, 19)
  {}

  /** Every pair of code tables the format allows has a header that transmits it. */
  lemma EveryTableHasAHeader(lit: seq<nat>, dist: seq<nat>)
    requires 257 <= |lit| <= 288 && 1 <= |dist| <= 32 && Kraft(lit) && Kraft(dist)
    ensures ValidHeader(Header(lit, dist, PLAIN, 19, Singles(lit + dist)))
  {
    TablesInRange(lit, dist);
    hide Kraft, Buildable, ValidOps, ApplyOps, Singles, Repeat, ClcRank, Coded, ValidCodeLengthCode;
    PlainCoded(0);
    KraftBuildable(PLAIN);
    KraftBuildable(lit);
    KraftBuildable(dist);
    SinglesApply(lit + dist, []);
    assert [] + (lit + dist) == lit + dist;
    PlainTransmits();
  }

  /** The encoding costs at most 42 bits a block beyond the data. */
  lemma {:induction false} StoredSize(data: seq<byte>, pos: nat, out: seq<byte>)
    ensures ValidBlocks(StoredBlocks(data), out)
    ensures |StreamBits(StoredBlocks(data), pos, out)| <= 50 * |data| + 42
    decreases |data|
  {
    var bs := StoredBlocks(data);
    StoredBlocksExpand(data, out);
    hide ValidBlocks, ExpandBlocks, ExpandBlock, LsbBits, BitsOf;
    if |data| > 0xFFFF {
      var first, rest := data[..0xFFFF], data[0xFFFF..];
      assert bs[1..] == StoredBlocks(rest);
      StoredSize(rest, pos + 3 + |BlockBits(bs[0], pos + 3, out)|, ExpandBlock(bs[0], out));
    }
  }

  lemma CompressedSize(data: seq<byte>)
    ensures ValidBlocks(StoredBlocks(data), []) && |Compressed(StoredBlocks(data))| <= 7 * |data| + 7
  {
    hide ValidBlocks, StreamBits;
    StoredSize(data, 0, []);
  }
}
