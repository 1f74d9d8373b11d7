/** The frames the network stack builds and takes apart: Ethernet, IPv4, UDP, TCP. */
module NetFrames {
  import opened Bits
  import opened Checksum
  import opened Common
  import VirtioNet

  type Ip = s: seq<byte> | |s| == 4 witness [0, 0, 0, 0]
  type Mac = s: seq<byte> | |s| == 6 witness [0, 0, 0, 0, 0, 0]
  type u16 = x: int | 0 <= x <= ONES
  type u32 = x: int | 0 <= x < WRAP32

  const MY_IP: Ip := [10, 0, 2, 15]
  const IP_LEN: nat := 20
  const ETH_LEN: nat := 14
  const UDP_LEN: nat := 8
  const TCP_LEN: nat := 20
  const MAX_PAYLOAD: nat := 1500
  const UDP: byte := 0x11
  const TCP: byte := 0x06

  datatype Segment = Segment(flags: byte, seqNo: u32, ack: u32, data: seq<byte>)

  // ---- what is on the wire ----

  function IpHeader(id: u16, proto: byte, dst: Ip, total: u16, sum: u16): (h: seq<byte>)
    ensures |h| == IP_LEN
  {
    [0x45, 0] + W16(total) + W16(id) + [0, 0, 64, proto] + W16(sum) + MY_IP + dst
  }

  function Ip4(id: u16, proto: byte, dst: Ip, total: u16): (h: seq<byte>)
    ensures |h| == IP_LEN
  {
    IpHeader(id, proto, dst, total, Sum(IpHeader(id, proto, dst, total, 0), 0))
  }

  function Frame(to: Mac, from: Mac, ip: seq<byte>, pay: seq<byte>): seq<byte> {
    to + from + [0x08, 0x00] + ip + pay
  }

  function UdpHeader(sport: u16, dport: u16, len: u16, sum: u16): (h: seq<byte>)
    ensures |h| == UDP_LEN
  {
    W16(sport) + W16(dport) + W16(len) + W16(sum)
  }

  function Datagram(sport: u16, dport: u16, dst: Ip, pay: seq<byte>): (d: seq<byte>)
    requires |pay| <= MAX_PAYLOAD
    ensures |d| == UDP_LEN + |pay|
  {
    var ps := OnesSum(PseudoHeader(MY_IP, dst, UDP, UDP_LEN + |pay|));
    var blank := UdpHeader(sport, dport, UDP_LEN + |pay|, 0) + pay;
    UdpHeader(sport, dport, UDP_LEN + |pay|, Sum(blank, ps)) + pay
  }

  function TcpHeader(sport: u16, dport: u16, s: Segment, sum: u16): (h: seq<byte>)
    ensures |h| == TCP_LEN
  {
    W16(sport) + W16(dport) + W32(s.seqNo) + W32(s.ack) + [0x50, s.flags] + W16(ONES) + W16(sum) + [0, 0]
  }

  function TcpBytes(sport: u16, dport: u16, dst: Ip, s: Segment): (d: seq<byte>)
    requires |s.data| <= MAX_PAYLOAD
    ensures |d| == TCP_LEN + |s.data|
  {
    var ps := OnesSum(PseudoHeader(MY_IP, dst, TCP, TCP_LEN + |s.data|));
    var blank := TcpHeader(sport, dport, s, 0) + s.data;
    TcpHeader(sport, dport, s, Sum(blank, ps)) + s.data
  }

  // ---- the layouts, byte by byte ----

  /** Two bytes of a frame as a number, the most significant first. */
  function Pair(s: seq<byte>, i: nat): nat
    requires i + 1 < |s|
  {
    s[i] as int * 256 + s[i + 1] as int
  }

  lemma FrameLayout(to: Mac, from: Mac, ip: seq<byte>, pay: seq<byte>)
    ensures var f := Frame(to, from, ip, pay);
      |f| == 14 + |ip| + |pay| && f[..6] == to && f[6..12] == from && f[12] == 0x08 && f[13] == 0x00
      && f[14..14 + |ip|] == ip && f[14 + |ip|..] == pay
  {}

  /** Version 4 and 5 words of header, the length, the identifier, no fragments, 64 hops, the protocol, and
      the two addresses. */
  lemma IpLayout(id: u16, proto: byte, dst: Ip, total: u16)
    ensures var h := Ip4(id, proto, dst, total);
      && |h| == 20 && h[0] == 0x45 && h[1] == 0 && Pair(h, 2) == total && Pair(h, 4) == id && h[6] == h[7] == 0
      && h[8] == 64 && h[9] == proto && h[12..16] == [10, 0, 2, 15] && h[16..20] == dst
  {
    hide Sum;
    var h := Ip4(id, proto, dst, total);
    assert h[2..4] == W16(total) && h[4..6] == W16(id);
    assert Pair(h, 2) == Pair(h[2..4], 0) && Pair(h, 4) == Pair(h[4..6], 0);
  }

  /** The ports, and the length with its header of 8 bytes. */
  lemma UdpLayout(sport: u16, dport: u16, dst: Ip, pay: seq<byte>)
    requires |pay| <= 1500
    ensures var d := Datagram(sport, dport, dst, pay);
      |d| == 8 + |pay| && Pair(d, 0) == sport && Pair(d, 2) == dport && Pair(d, 4) == 8 + |pay| && d[8..] == pay
  {
    hide Sum, OnesSum, PseudoHeader;
    var d := Datagram(sport, dport, dst, pay);
    assert d[0..2] == W16(sport) && d[2..4] == W16(dport) && d[4..6] == W16(8 + |pay|);
    assert Pair(d, 0) == Pair(d[0..2], 0) && Pair(d, 2) == Pair(d[2..4], 0) && Pair(d, 4) == Pair(d[4..6], 0);
  }

  /** The ports, the two numbers, 5 words of header, the flags, the widest window and no urgent data. */
  lemma TcpLayout(sport: u16, dport: u16, dst: Ip, s: Segment)
    requires |s.data| <= 1500
    ensures var d := TcpBytes(sport, dport, dst, s);
      && |d| == 20 + |s.data| && Pair(d, 0) == sport && Pair(d, 2) == dport
      && Pair(d, 4) * 0x1_0000 + Pair(d, 6) == s.seqNo && Pair(d, 8) * 0x1_0000 + Pair(d, 10) == s.ack
      && d[12] == 0x50 && d[13] == s.flags && Pair(d, 14) == 0xFFFF && d[18] == d[19] == 0 && d[20..] == s.data
  {
    hide Sum, OnesSum, PseudoHeader;
    var d := TcpBytes(sport, dport, dst, s);
    assert d[0..2] == W16(sport) && d[2..4] == W16(dport) && d[4..8] == W32(s.seqNo) && d[8..12] == W32(s.ack) && d[14..16] == W16(ONES);
    assert Pair(d, 0) == Pair(d[0..2], 0) && Pair(d, 2) == Pair(d[2..4], 0) && Pair(d, 14) == Pair(d[14..16], 0);
    assert Pair(d, 4) == Pair(d[4..8], 0) && Pair(d, 6) == Pair(d[4..8], 2);
    assert Pair(d, 8) == Pair(d[8..12], 0) && Pair(d, 10) == Pair(d[8..12], 2);
  }

  /** What the checksums of UDP and TCP cover besides: both addresses, the protocol and the length. */
  lemma PseudoLayout(dst: Ip, proto: byte, len: u16)
    ensures var p := PseudoHeader(MY_IP, dst, proto, len);
      |p| == 12 && p[..4] == [10, 0, 2, 15] && p[4..8] == dst && p[8] == 0 && p[9] == proto && Pair(p, 10) == len
  {
    var p := PseudoHeader(MY_IP, dst, proto, len);
    assert p[10..12] == W16(len);
  }

  // ---- every checksum verifies ----

  lemma IpVerifies(id: u16, proto: byte, dst: Ip, total: u16)
    ensures Sum(Ip4(id, proto, dst, total), 0) == 0
  {
    hide Sum, WordSum, Fold;
    var blank := IpHeader(id, proto, dst, total, 0);
    SumBound(blank);
    SumThenVerify(blank, 10, 0);
    assert Ip4(id, proto, dst, total) == PutWord(blank, 10, Sum(blank, 0));
  }

  /** Verification as the receiver does it, over the pseudo-header and the datagram, odd payloads included. */
  lemma UdpVerifies(sport: u16, dport: u16, dst: Ip, pay: seq<byte>)
    requires |pay| <= MAX_PAYLOAD
    ensures Sum(PseudoHeader(MY_IP, dst, UDP, UDP_LEN + |pay|) + Datagram(sport, dport, dst, pay), 0) == 0
  {
    hide Sum, WordSum, Fold, OnesSum, W16, PseudoHeader;
    var h := PseudoHeader(MY_IP, dst, UDP, UDP_LEN + |pay|);
    var blank := UdpHeader(sport, dport, UDP_LEN + |pay|, 0) + pay;
    SumBound(blank);
    SumThenVerify(blank, 6, OnesSum(h));
    var d := Datagram(sport, dport, dst, pay);
    PutIs(blank, 6, Sum(blank, OnesSum(h)), d);
    PseudoCovered(h, d);
  }

  lemma TcpVerifies(sport: u16, dport: u16, dst: Ip, s: Segment)
    requires |s.data| <= MAX_PAYLOAD
    ensures Sum(PseudoHeader(MY_IP, dst, TCP, TCP_LEN + |s.data|) + TcpBytes(sport, dport, dst, s), 0) == 0
  {
    hide Sum, WordSum, Fold, OnesSum, W16, W32, PseudoHeader;
    var h := PseudoHeader(MY_IP, dst, TCP, TCP_LEN + |s.data|);
    var blank := TcpHeader(sport, dport, s, 0) + s.data;
    SumBound(blank);
    SumThenVerify(blank, 16, OnesSum(h));
    var d := TcpBytes(sport, dport, dst, s);
    PutIs(blank, 16, Sum(blank, OnesSum(h)), d);
    PseudoCovered(h, d);
  }

  /** Two byte strings that agree but for the word at `i` differ by a `PutWord`. */
  lemma PutIs(s: seq<byte>, i: nat, v: nat, t: seq<byte>)
    requires i + 1 < |s| == |t| && v <= ONES && t[i..i + 2] == W16(v)
    requires t[..i] == s[..i] && t[i + 2..] == s[i + 2..]
    ensures t == PutWord(s, i, v)
  {
    assert t == t[..i] + t[i..i + 2] + t[i + 2..];
    var p := PutWord(s, i, v);
    assert p[..i] == s[..i] && p[i + 2..] == s[i + 2..] && p[i..i + 2] == W16(v);
    assert p == p[..i] + p[i..i + 2] + p[i + 2..];
  }

  // ---- taking frames apart ----

  /** The protocol and payload of a received frame, or nothing where the stack drops it. */
  function Deliver(f: seq<byte>): Option<(byte, seq<byte>)> {
    if |f| < ETH_LEN || Word(f, 12) != 0x0800 then None else
    var p := f[ETH_LEN..];
    if |p| < IP_LEN then None else
    var ihl := p[0] % 16 * 4;
    var total := Word(p, 2);
    if ihl < IP_LEN || ihl > |p| || total < ihl then None else
    var n := if total - ihl > |p| - ihl then |p| - ihl else total - ihl;
    Some((p[9], p[ihl..ihl + n]))
  }

  function ParseTcp(s: seq<byte>): Option<Segment> {
    if |s| < TCP_LEN then None else
    var off := s[12] / 16 * 4;
    if |s| < off then None else
    Some(Segment(s[13] % 64, Word(s, 4) * 0x1_0000 + Word(s, 6), Word(s, 8) * 0x1_0000 + Word(s, 10), s[off..]))
  }

  /** A frame built here is delivered whole, whatever padding Ethernet puts after it. */
  lemma DeliverUndoesFrame(to: Mac, from: Mac, id: u16, proto: byte, dst: Ip, pay: seq<byte>, pad: seq<byte>)
    requires |pay| <= MAX_PAYLOAD
    ensures Deliver(Frame(to, from, Ip4(id, proto, dst, IP_LEN + |pay|), pay) + pad) == Some((proto, pay))
  {
    hide Sum, Word, Ip4;
    var ip := Ip4(id, proto, dst, IP_LEN + |pay|);
    var f := Frame(to, from, ip, pay) + pad;
    var p := f[ETH_LEN..];
    assert p == ip + pay + pad;
    assert Word(f, 12) == 0x0800 by { EthernetType(to, from, ip + pay + pad, f); }
    assert p[..IP_LEN] == ip;
    IpFieldsRead(id, proto, dst, IP_LEN + |pay|, p);
    assert p[IP_LEN..IP_LEN + |pay|] == pay;
  }

  lemma EthernetType(to: Mac, from: Mac, rest: seq<byte>, f: seq<byte>)
    requires f == to + from + [0x08, 0x00] + rest
    ensures Word(f, 12) == 0x0800
  {}

  lemma IpFieldsRead(id: u16, proto: byte, dst: Ip, total: u16, p: seq<byte>)
    requires |p| >= IP_LEN && p[..IP_LEN] == Ip4(id, proto, dst, total)
    ensures p[0] == 0x45 && p[9] == proto && Word(p, 2) == total
  {
    hide Sum;
    assert p[0] == p[..IP_LEN][0] && p[9] == p[..IP_LEN][9];
    assert p[..IP_LEN][2..4] == W16(total) == p[2..4];
  }

  lemma ParseUndoesTcp(sport: u16, dport: u16, dst: Ip, s: Segment)
    requires |s.data| <= MAX_PAYLOAD && s.flags < 64
    ensures ParseTcp(TcpBytes(sport, dport, dst, s)) == Some(s)
    ensures Word(TcpBytes(sport, dport, dst, s), 0) == sport && Word(TcpBytes(sport, dport, dst, s), 2) == dport
  {
    hide Sum, PseudoHeader, OnesSum;
    var b := TcpBytes(sport, dport, dst, s);
    assert b[0..2] == W16(sport) && b[2..4] == W16(dport);
    assert b[4..8] == W32(s.seqNo) && b[8..12] == W32(s.ack);
    assert b[12] == 0x50 && b[13] == s.flags;
    assert b[TCP_LEN..] == s.data;
    WordAt(b, 0, 2, 0); WordAt(b, 2, 4, 0);
    WordAt(b, 4, 8, 0); WordAt(b, 4, 8, 2);
    WordAt(b, 8, 12, 0); WordAt(b, 8, 12, 2);
  }

  lemma WordAt(s: seq<byte>, lo: nat, hi: nat, i: nat)
    requires lo + i + 1 < hi <= |s|
    ensures Word(s[lo..hi], i) == Word(s, lo + i)
  {}

  // ---- the builders ----

  /** Overwriting part of a buffer. */
  function Splice(t: seq<byte>, at: nat, s: seq<byte>): (r: seq<byte>)
    requires at + |s| <= |t|
    ensures |r| == |t|
  {
    t[..at] + s + t[at + |s|..]
  }

  /** Writing next to a written part extends it. */
  lemma SpliceNext(t: seq<byte>, at: nat, s: seq<byte>, next: seq<byte>)
    requires at + |s| + |next| <= |t|
    ensures Splice(Splice(t, at, s), at + |s|, next) == Splice(t, at, s + next)
  {}

  /** Writing inside a written part replaces that piece of it. */
  lemma SpliceOver(t: seq<byte>, at: nat, a: seq<byte>, b: seq<byte>, c: seq<byte>, b': seq<byte>)
    requires at + |a| + |b| + |c| <= |t| && |b'| == |b|
    ensures Splice(Splice(t, at, a + b + c), at + |a|, b') == Splice(t, at, a + b' + c)
  {}

  lemma SpliceRead(t: seq<byte>, at: nat, s: seq<byte>)
    requires at + |s| <= |t|
    ensures Splice(t, at, s)[at..at + |s|] == s
  {}

  /** A head written in front of a body: the two read back as one. */
  lemma SpliceFront(t: seq<byte>, head: seq<byte>, body: seq<byte>)
    requires |head| + |body| <= |t|
    ensures Splice(Splice(t, |head|, body), 0, head)[..|head| + |body|] == head + body
  {}

  method Copy(a: array<byte>, at: nat, s: seq<byte>)
    requires at + |s| <= a.Length
    modifies a
    ensures a[..] == Splice(old(a[..]), at, s)
  {
    var i := 0;
    while i < |s|
      invariant 0 <= i <= |s|
      invariant forall j :: 0 <= j < a.Length ==> a[j] == if at <= j < at + i then s[j - at] else old(a[j])
    {
      a[at + i] := s[i];
      i := i + 1;
    }
    assert a[..] == Splice(old(a[..]), at, s);
  }

  method Put16(a: array<byte>, at: nat, v: u16)
    requires at + 1 < a.Length
    modifies a
    ensures a[..] == Splice(old(a[..]), at, W16(v))
  {
    a[at] := v / 256;
    a[at + 1] := v % 256;
    assert a[..] == Splice(old(a[..]), at, W16(v));
  }

  method Put32(a: array<byte>, at: nat, v: u32)
    requires at + 3 < a.Length
    modifies a
    ensures a[..] == Splice(old(a[..]), at, W32(v))
  {
    Put16(a, at, v / 0x1_0000);
    Put16(a, at + 2, v % 0x1_0000);
    SpliceNext(old(a[..]), at, W16(v / 0x1_0000), W16(v % 0x1_0000));
  }

  lemma W16Zero()
    ensures W16(0) == [0, 0]
  {}

  method Put8(a: array<byte>, at: nat, v: byte)
    requires at < a.Length
    modifies a
    ensures a[..] == Splice(old(a[..]), at, [v])
  {
    a[at] := v;
    assert a[..] == Splice(old(a[..]), at, [v]);
  }

  method IpFields(f: array<byte>, id: u16, proto: byte, dst: Ip, total: u16)
    requires f.Length >= ETH_LEN + IP_LEN
    modifies f
    ensures f[..] == Splice(old(f[..]), ETH_LEN, IpHeader(id, proto, dst, total, 0))
  {
    hide Splice, W16;
    W16Zero();
    ghost var t := f[..];
    Put8(f, 14, 0x45);
    Put8(f, 15, 0);
    SpliceNext(t, 14, [0x45], [0]);
    assert [0x45] + [0] == [0x45, 0];
    Put16(f, 16, total);
    SpliceNext(t, 14, [0x45, 0], W16(total));
    Put16(f, 18, id);
    SpliceNext(t, 14, [0x45, 0] + W16(total), W16(id));
    ghost var h := [0x45, 0] + W16(total) + W16(id);
    Put16(f, 20, 0);
    SpliceNext(t, 14, h, [0, 0]);
    Put8(f, 22, 64);
    SpliceNext(t, 14, h + [0, 0], [64]);
    Put8(f, 23, proto);
    SpliceNext(t, 14, h + [0, 0] + [64], [proto]);
    assert h + [0, 0] + [64] + [proto] == h + [0, 0, 64, proto];
    Put16(f, 24, 0);
    SpliceNext(t, 14, h + [0, 0, 64, proto], W16(0));
    Copy(f, 26, MY_IP);
    SpliceNext(t, 14, h + [0, 0, 64, proto] + W16(0), MY_IP);
    Copy(f, 30, dst);
    SpliceNext(t, 14, h + [0, 0, 64, proto] + W16(0) + MY_IP, dst);
    assert IpHeader(id, proto, dst, total, 0) == h + [0, 0, 64, proto] + W16(0) + MY_IP + dst;
  }

  method TcpFields(t: array<byte>, sport: u16, dport: u16, s: Segment)
    requires t.Length >= TCP_LEN
    modifies t
    ensures t[..] == Splice(old(t[..]), 0, TcpHeader(sport, dport, s, 0))
  {
    hide Splice, W16, W32;
    W16Zero();
    ghost var was := t[..];
    Put16(t, 0, sport);
    Put16(t, 2, dport);
    SpliceNext(was, 0, W16(sport), W16(dport));
    ghost var h := W16(sport) + W16(dport);
    Put32(t, 4, s.seqNo);
    SpliceNext(was, 0, h, W32(s.seqNo));
    Put32(t, 8, s.ack);
    SpliceNext(was, 0, h + W32(s.seqNo), W32(s.ack));
    h := h + W32(s.seqNo) + W32(s.ack);
    Put8(t, 12, 0x50);
    SpliceNext(was, 0, h, [0x50]);
    Put8(t, 13, s.flags);
    SpliceNext(was, 0, h + [0x50], [s.flags]);
    assert h + [0x50] + [s.flags] == h + [0x50, s.flags];
    h := h + [0x50, s.flags];
    Put16(t, 14, ONES);
    SpliceNext(was, 0, h, W16(ONES));
    Put16(t, 16, 0);
    SpliceNext(was, 0, h + W16(ONES), W16(0));
    Put16(t, 18, 0);
    SpliceNext(was, 0, h + W16(ONES) + W16(0), [0, 0]);
  }

  method UdpFields(u: array<byte>, sport: u16, dport: u16, len: u16)
    requires u.Length >= UDP_LEN
    modifies u
    ensures u[..] == Splice(old(u[..]), 0, UdpHeader(sport, dport, len, 0))
  {
    hide Splice, W16;
    ghost var was := u[..];
    Put16(u, 0, sport);
    Put16(u, 2, dport);
    SpliceNext(was, 0, W16(sport), W16(dport));
    Put16(u, 4, len);
    SpliceNext(was, 0, W16(sport) + W16(dport), W16(len));
    Put16(u, 6, 0);
    SpliceNext(was, 0, W16(sport) + W16(dport) + W16(len), W16(0));
  }

  /** A payload written behind a header, or nothing when it is empty, as the source guards its copy. */
  method Append(a: array<byte>, ghost was: seq<byte>, ghost head: seq<byte>, at: nat, pay: seq<byte>)
    requires at == |head| && |was| == a.Length >= |head| + |pay| && a[..] == Splice(was, 0, head)
    modifies a
    ensures a[..] == Splice(was, 0, head + pay) && a[..at + |pay|] == head + pay
  {
    SpliceNext(was, 0, head, pay);
    SpliceRead(was, 0, head + pay);
    hide Splice;
    if |pay| > 0 {
      Copy(a, at, pay);
    } else {
      assert head + pay == head;
    }
  }

  /** Rewriting a 16-bit field at `|x|` of a buffer that holds `x + field + y`. */
  method Rewrite(a: array<byte>, ghost was: seq<byte>, ghost x: seq<byte>, ghost y: seq<byte>, at: nat, n: nat, v: u16)
    requires at == |x| && n == |x| + 2 + |y| <= a.Length == |was| && a[..] == Splice(was, 0, x + W16(0) + y)
    modifies a
    ensures a[..n] == x + W16(v) + y
  {
    hide Splice, W16;
    Put16(a, at, v);
    SpliceOver(was, 0, x, W16(0), y, W16(v));
    SpliceRead(was, 0, x + W16(v) + y);
  }

  lemma IpSummed(t: seq<byte>, id: u16, proto: byte, dst: Ip, total: u16)
    requires ETH_LEN + IP_LEN <= |t|
    ensures var blank := IpHeader(id, proto, dst, total, 0);
      Splice(Splice(t, ETH_LEN, blank), ETH_LEN + 10, W16(Sum(blank, 0))) == Splice(t, ETH_LEN, Ip4(id, proto, dst, total))
  {
    hide Splice, Sum, W16;
    var blank := IpHeader(id, proto, dst, total, 0);
    var x := [0x45, 0] + W16(total) + W16(id) + [0, 0, 64, proto];
    assert forall s: u16 :: IpHeader(id, proto, dst, total, s) == x + W16(s) + (MY_IP + dst);
    SpliceOver(t, ETH_LEN, x, W16(0), MY_IP + dst, W16(Sum(blank, 0)));
  }

  lemma FrameIs(to: Mac, from: Mac, ip: seq<byte>, pay: seq<byte>)
    ensures to + from + W16(0x0800) + (ip + pay) == Frame(to, from, ip, pay)
  {}

  // ---- how far a payload gets ----

  /** A payload is refused before the identifier moves, or lost after it moved, or sent. */
  datatype Fate = Refused | Lost | Sent

  function IpFate(n: nat, ready: bool): Fate {
    if n > MAX_PAYLOAD then Refused
    else if VirtioNet.Takes(ready, ETH_LEN + IP_LEN + n) then Sent
    else Lost
  }

  function UdpFate(n: nat, ready: bool): Fate {
    if n > MAX_PAYLOAD then Refused else IpFate(UDP_LEN + n, ready)
  }

  function TcpFate(n: nat, ready: bool): Fate {
    if n > MAX_PAYLOAD then Refused else IpFate(TCP_LEN + n, ready)
  }

  function NextId(f: Fate, id: u16): u16 {
    if f == Refused then id else (id + 1) % 0x1_0000
  }

  /** The exact limits. Up to 1500, 1492 and 1480 bytes the identifier moves, but the frame goes out
      only up to 1480, 1472 and 1460, the driver's MTU less the headers; the band between is lost. */
  lemma SendLimits(n: nat, ready: bool)
    ensures IpFate(n, ready) == Sent <==> ready && n <= 1480
    ensures UdpFate(n, ready) == Sent <==> ready && n <= 1472
    ensures TcpFate(n, ready) == Sent <==> ready && n <= 1460
    ensures IpFate(n, ready) == Lost <==> n <= 1500 && (!ready || n > 1480)
    ensures UdpFate(n, ready) == Lost <==> n <= 1492 && (!ready || n > 1472)
    ensures TcpFate(n, ready) == Lost <==> n <= 1480 && (!ready || n > 1460)
  {}

  /** Payloads the builders accept and nothing sends, with the device ready. */
  lemma AcceptedAndLost()
    ensures IpFate(1490, true) == Lost && UdpFate(1480, true) == Lost && TcpFate(1470, true) == Lost
  {}

  class Sender {
    const myMac: Mac
    var ipId: u16
    var wire: seq<seq<byte>>

    constructor (mac: Mac)
      ensures myMac == mac && ipId == 0 && wire == []
    {
      myMac, ipId, wire := mac, 0, [];
    }

    /** The driver's end of a send; `ready` says that it has a device, a link and a free descriptor. */
    method NetSend(frame: seq<byte>, ready: bool)
      modifies `wire
      ensures wire == old(wire) + if VirtioNet.Takes(ready, |frame|) then [frame] else []
    {
      if ready && 14 <= |frame| <= VirtioNet.MTU {
        wire := wire + [frame];
      }
    }

    method IpSend(proto: byte, dst: Ip, to: Mac, pay: seq<byte>, ready: bool)
      modifies this
      ensures ipId == NextId(IpFate(|pay|, ready), old(ipId))
      ensures wire == old(wire) +
        if IpFate(|pay|, ready) == Sent then [Frame(to, myMac, Ip4(ipId, proto, dst, IP_LEN + |pay|), pay)] else []
    {
      hide Sum, WordSum, W16, Splice;
      if |pay| > MAX_PAYLOAD { return; }
      var f := new byte[ETH_LEN + IP_LEN + MAX_PAYLOAD];
      ipId := (ipId + 1) % 0x1_0000;
      ghost var was := f[..];
      IpFields(f, ipId, proto, dst, IP_LEN + |pay|);
      ghost var blank := IpHeader(ipId, proto, dst, IP_LEN + |pay|, 0);
      SpliceRead(was, ETH_LEN, blank);
      var sum := Csum(f[ETH_LEN..ETH_LEN + IP_LEN], 0);
      Put16(f, ETH_LEN + 10, sum);
      ghost var ip := Ip4(ipId, proto, dst, IP_LEN + |pay|);
      IpSummed(was, ipId, proto, dst, IP_LEN + |pay|);
      Copy(f, ETH_LEN + IP_LEN, pay);
      SpliceNext(was, ETH_LEN, ip, pay);
      ghost var body := f[..];
      Copy(f, 0, to);
      Copy(f, 6, myMac);
      SpliceNext(body, 0, to, myMac);
      Put16(f, 12, 0x0800);
      SpliceNext(body, 0, to + myMac, W16(0x0800));
      SpliceFront(was, to + myMac + W16(0x0800), ip + pay);
      FrameIs(to, myMac, ip, pay);
      NetSend(f[..ETH_LEN + IP_LEN + |pay|], ready);
    }

    method UdpSend(sport: u16, dport: u16, dst: Ip, to: Mac, pay: seq<byte>, ready: bool)
      modifies this
      ensures ipId == NextId(UdpFate(|pay|, ready), old(ipId))
      ensures wire == old(wire) + if UdpFate(|pay|, ready) == Sent
        then [Frame(to, myMac, Ip4(ipId, UDP, dst, IP_LEN + UDP_LEN + |pay|), Datagram(sport, dport, dst, pay))] else []
    {
      hide Sum, WordSum, W16, Splice, OnesSum, PseudoHeader;
      if |pay| > MAX_PAYLOAD { return; }
      var u := new byte[UDP_LEN + MAX_PAYLOAD];
      ghost var was := u[..];
      UdpFields(u, sport, dport, UDP_LEN + |pay|);
      Append(u, was, UdpHeader(sport, dport, UDP_LEN + |pay|, 0), UDP_LEN, pay);
      var ps := Pseudo(MY_IP, dst, UDP, UDP_LEN + |pay|);
      var sum := Csum(u[..UDP_LEN + |pay|], ps);
      Rewrite(u, was, W16(sport) + W16(dport) + W16(UDP_LEN + |pay|), pay, 6, UDP_LEN + |pay|, sum);
      IpSend(UDP, dst, to, u[..UDP_LEN + |pay|], ready);
    }

    method TcpSend(sport: u16, dport: u16, dst: Ip, to: Mac, s: Segment, ready: bool)
      modifies this
      ensures ipId == NextId(TcpFate(|s.data|, ready), old(ipId))
      ensures wire == old(wire) + if TcpFate(|s.data|, ready) == Sent
        then [Frame(to, myMac, Ip4(ipId, TCP, dst, IP_LEN + TCP_LEN + |s.data|), TcpBytes(sport, dport, dst, s))] else []
    {
      hide Sum, WordSum, W16, W32, Splice, OnesSum, PseudoHeader;
      if |s.data| > MAX_PAYLOAD { return; }
      var t := new byte[TCP_LEN + MAX_PAYLOAD];
      ghost var was := t[..];
      TcpFields(t, sport, dport, s);
      Append(t, was, TcpHeader(sport, dport, s, 0), TCP_LEN, s.data);
      var ps := Pseudo(MY_IP, dst, TCP, TCP_LEN + |s.data|);
      var sum := Csum(t[..TCP_LEN + |s.data|], ps);
      ghost var x := W16(sport) + W16(dport) + W32(s.seqNo) + W32(s.ack) + [0x50, s.flags] + W16(ONES);
      assert TcpHeader(sport, dport, s, 0) + s.data == x + W16(0) + ([0, 0] + s.data);
      Rewrite(t, was, x, [0, 0] + s.data, 16, TCP_LEN + |s.data|, sum);
      assert TcpHeader(sport, dport, s, sum) + s.data == x + W16(sum) + ([0, 0] + s.data);
      IpSend(TCP, dst, to, t[..TCP_LEN + |s.data|], ready);
    }
  }
}
