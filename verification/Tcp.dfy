/** The single-connection TCP and HTTP client as a state machine, driven by segments, polls and
    name-lookup results, and what holds over every run of it. */
module Tcp {
  import opened Bits
  import opened Checksum
  import opened Common
  import opened NetFrames

  const FIN: byte := 1
  const SYN: byte := 2
  const RST: byte := 4
  const ACK: byte := 16

  const HDR_MAX: nat := 2048
  const RETRY: nat := 50
  const MAX_RETRIES: nat := 10

  predicate Has(flags: byte, bit: byte)
    requires bit > 0
  {
    flags / bit % 2 == 1
  }

  datatype Phase = Dns | Connect | Transfer
  datatype TcpState = Closed | SynSent | Estab
  datatype Status = Ok | ErrDns | ErrConn | ErrHttp
  datatype Reply = Reply(status: Status, off: nat, len: nat)

  /** One request. `data` is what has been stored in the caller's buffer; it outlives the
      connection record, as do the segments sent (`out`), the number of name queries sent (`queries`)
      and the callbacks made (`calls`). */
  datatype Conn = Conn(active: bool, ctx: nat, phase: Phase, dnsSent: bool, tcp: TcpState, sport: u16, isn: u32, sndNxt: u32, rcvNxt: u32,
                       reqSent: bool, reqAcked: bool, req: seq<byte>, cap: nat, lastSend: nat, deadline: nat, retries: nat,
                       data: seq<byte>, out: seq<Segment>, queries: nat, calls: seq<Reply>)

  datatype Event =
    | Arrive(dport: u16, seg: Segment, at: nat)
    | Resolve(found: bool)
    | Poll(now: nat, gateway: bool, resolver: bool)
    | Abort(ctx: nat)

  // ---- the HTTP header ----

  predicate EndsAt(s: seq<byte>, i: nat)
    requires 3 <= i < |s|
  {
    s[i - 3] == 13 && s[i - 2] == 10 && s[i - 1] == 13 && s[i] == 10
  }

  function Scanned(s: seq<byte>): (n: nat)
    ensures n <= |s|
  {
    if |s| < HDR_MAX then |s| else HDR_MAX
  }

  /** The index just past the first blank line found at or after `i` in the scanned prefix. */
  function HeaderFrom(s: seq<byte>, i: nat): Option<nat>
    requires i >= 3
    decreases |s| - i
  {
    if i >= Scanned(s) then None
    else if EndsAt(s, i) then Some(i + 1)
    else HeaderFrom(s, i + 1)
  }

  function HeaderEnd(s: seq<byte>): Option<nat> {
    HeaderFrom(s, 3)
  }

  predicate Digit(b: byte) {
    48 <= b <= 57
  }

  /** The status code in a header that ends at `e`, or zero. */
  function Code(s: seq<byte>, e: nat): nat
    requires e <= |s|
  {
    if e >= 12 && s[..4] == [72, 84, 84, 80] && Digit(s[9]) && Digit(s[10]) && Digit(s[11]) then
      (s[9] as int - 48) * 100 + (s[10] as int - 48) * 10 + (s[11] as int - 48)
    else 0
  }

  function HttpStatus(s: seq<byte>): nat {
    var e := HeaderEnd(s);
    if e.Some? && e.value <= |s| then Code(s, e.value) else 0
  }

  /** What the callback is told when a transfer ends with `s` stored. */
  function Outcome(s: seq<byte>): Reply {
    var e := HeaderEnd(s);
    if 200 <= HttpStatus(s) < 400 && e.Some? && e.value <= |s| then Reply(Ok, e.value, |s| - e.value)
    else Reply(ErrHttp, 0, 0)
  }

  // ---- the steps ----

  function Emit(c: Conn, flags: byte, seqNo: u32, ack: u32, data: seq<byte>): Conn {
    c.(out := c.out + [Segment(flags, seqNo, ack, data)])
  }

  /** The cleared record; the callback is made if the request was live. */
  function Finish(c: Conn, r: Reply): Conn {
    Conn(false, 0, Dns, false, Closed, 0, 0, 0, 0, false, false, [], 0, 0, 0, 0, c.data, c.out, c.queries, c.calls + [r])
  }

  function Fail(c: Conn, s: Status): Conn {
    Finish(c, Reply(s, 0, 0))
  }

  function HandleSynSent(c: Conn, s: Segment, now: nat): Conn {
    if !Has(s.flags, SYN) || !Has(s.flags, ACK) || s.ack != (c.isn + 1) % WRAP32 then c
    else if Has(s.flags, RST) then Fail(c, ErrConn)
    else
      var d := c.(rcvNxt := (s.seqNo + 1) % WRAP32, tcp := Estab, phase := Transfer);
      Emit(d, ACK, d.sndNxt, d.rcvNxt, d.req).(sndNxt := (d.sndNxt + |d.req|) % WRAP32, reqSent := true, lastSend := now)
  }

  function Take(c: Conn, s: Segment): (n: nat)
    ensures n <= |s.data|
  {
    if |c.data| > c.cap then 0 else if |s.data| > c.cap - |c.data| then c.cap - |c.data| else |s.data|
  }

  function Store(c: Conn, s: Segment): Conn {
    c.(data := c.data + s.data[..Take(c, s)], rcvNxt := (c.rcvNxt + Take(c, s)) % WRAP32)
  }

  function Noted(c: Conn, s: Segment): Conn {
    if Has(s.flags, ACK) && c.reqSent && !c.reqAcked && s.ack >= c.sndNxt then c.(reqAcked := true) else c
  }

  /** A FIN that follows the data handled in `c`. */
  function Close(c: Conn): Conn {
    var d := c.(rcvNxt := (c.rcvNxt + 1) % WRAP32);
    var e := Emit(d, 17, d.sndNxt, d.rcvNxt, []);
    Finish(e, Outcome(e.data))
  }

  function SendAck(c: Conn): Conn {
    Emit(c, ACK, c.sndNxt, c.rcvNxt, [])
  }

  function HandleEstab(c0: Conn, s: Segment): Conn {
    if Has(s.flags, RST) then Fail(c0, ErrConn) else
    var c := Noted(c0, s);
    if |s.data| > 0 && s.seqNo != c.rcvNxt then SendAck(c)
    else if |s.data| > 0 then
      var d := Store(c, s);
      if Take(c, s) < |s.data| then Finish(SendAck(d), Outcome(d.data))
      else if Has(s.flags, FIN) then Close(d)
      else SendAck(d)
    else if Has(s.flags, FIN) then Close(c)
    else c
  }

  function Handle(c: Conn, s: Segment, now: nat): Conn {
    match c.tcp
    case SynSent => HandleSynSent(c, s, now)
    case Estab => HandleEstab(c, s)
    case Closed => c
  }

  function PollConnect(c0: Conn, now: nat, gateway: bool): Conn {
    var c := c0.(retries := 0);
    var due := now - c.lastSend >= RETRY;
    if !gateway then (if due then c.(lastSend := now) else c)
    else if c.tcp != SynSent then Emit(c.(tcp := SynSent, lastSend := now), SYN, c.isn, 0, [])
    else if due then Emit(c.(retries := 1, lastSend := now), SYN, c.isn, 0, [])
    else c
  }

  function PollTransfer(c: Conn, now: nat): Conn {
    if c.reqSent && !c.reqAcked && now - c.lastSend >= RETRY then
      if c.retries + 1 > MAX_RETRIES then Fail(c.(retries := c.retries + 1), ErrConn)
      else Emit(c.(retries := c.retries + 1, lastSend := now), ACK, (c.sndNxt - |c.req|) % WRAP32, c.rcvNxt, c.req)
    else c
  }

  /** While looking the name up: a first query once the resolver's address is known, then one per half second. */
  function PollDns(c0: Conn, now: nat, resolver: bool): Conn {
    var c := c0.(retries := 0);
    var due := now - c.lastSend >= RETRY;
    if !c.dnsSent then
      if resolver then c.(dnsSent := true, lastSend := now, queries := c.queries + 1)
      else if due then c.(lastSend := now)
      else c
    else if due then c.(retries := 1, lastSend := now, queries := c.queries + 1)
    else c
  }

  function Tick(c: Conn, now: nat, gateway: bool, resolver: bool): Conn {
    if now >= c.deadline then Fail(c, ErrConn)
    else match c.phase
      case Dns => PollDns(c, now, resolver)
      case Connect => PollConnect(c, now, gateway)
      case Transfer => PollTransfer(c, now)
  }

  function Step(c: Conn, e: Event): Conn {
    if !c.active then c
    else match e
      case Arrive(dport, seg, at) => if dport == c.sport then Handle(c, seg, at) else c
      case Resolve(found) => if c.phase != Dns then c else if found then c.(phase := Connect) else Fail(c, ErrDns)
      case Poll(now, gateway, resolver) => Tick(c, now, gateway, resolver)
      case Abort(ctx) => if ctx == c.ctx then Finish(c, Reply(Ok, 0, 0)).(calls := c.calls) else c
  }

  function Run(c: Conn, es: seq<Event>): Conn
    decreases |es|
  {
    if es == [] then c else Run(Step(c, es[0]), es[1..])
  }

  function Start(ctx: nat, sport: u16, isn: u32, req: seq<byte>, cap: nat, now: nat): Conn {
    Conn(true, ctx, Dns, false, Closed, sport, isn, (isn + 1) % WRAP32, 0, false, false, req, cap, 0, now + 1500, 0, [], [], 0, [])
  }

  // ---- header facts ----

  /** Nothing before the header's end looks like a blank line, and its end does. */
  lemma {:induction false} HeaderIsFirst(s: seq<byte>, i: nat)
    requires i >= 3
    ensures HeaderFrom(s, i).Some? ==> var e := HeaderFrom(s, i).value;
      i < e <= Scanned(s) && EndsAt(s, e - 1) && forall j :: i <= j < e - 1 ==> !EndsAt(s, j)
    ensures HeaderFrom(s, i).None? ==> forall j :: i <= j < Scanned(s) ==> !EndsAt(s, j)
    decreases |s| - i
  {
    if i < Scanned(s) && !EndsAt(s, i) { HeaderIsFirst(s, i + 1); }
  }

  /** A header once found stays where it is when more bytes arrive. */
  lemma {:induction false} HeaderStays(s: seq<byte>, t: seq<byte>, i: nat)
    requires i >= 3 && HeaderFrom(s, i).Some?
    ensures HeaderFrom(s + t, i) == HeaderFrom(s, i)
    decreases |s| - i
  {
    assert EndsAt(s + t, i) == EndsAt(s, i);
    if !EndsAt(s, i) { HeaderStays(s, t, i + 1); }
  }

  lemma StatusStays(s: seq<byte>, t: seq<byte>)
    requires HeaderEnd(s).Some?
    ensures HeaderEnd(s + t) == HeaderEnd(s) && HttpStatus(s + t) == HttpStatus(s)
  {
    HeaderStays(s, t, 3);
    HeaderIsFirst(s, 3);
    var e := HeaderEnd(s).value;
    hide HeaderFrom;
    assert (s + t)[..e] == s[..e];
    CodeOfPrefix(s, e);
    CodeOfPrefix(s + t, e);
  }

  lemma CodeOfPrefix(s: seq<byte>, e: nat)
    requires e <= |s|
    ensures Code(s, e) == Code(s[..e], e)
  {
    if e >= 12 {
      assert s[..e][..4] == s[..4];
    }
  }

  // ---- sequence numbers ----

  /** How far a sequence number lies past the server's first data byte, modulo 2^32. */
  function Offset(n: u32, iss: u32): (o: nat)
    ensures o < WRAP32
  {
    (n - iss - 1) % WRAP32
  }

  lemma OffsetOf(iss: u32, k: nat)
    requires k < WRAP32
    ensures Offset((iss + 1 + k) % WRAP32, iss) == k
  {
    if iss + 1 + k >= 2 * WRAP32 {
    } else if iss + 1 + k >= WRAP32 {
      assert (iss + 1 + k) % WRAP32 == iss + 1 + k - WRAP32;
    }
  }

  lemma OffsetMoves(n: u32, iss: u32, k: nat)
    requires Offset(n, iss) + k < WRAP32
    ensures Offset((n + k) % WRAP32, iss) == Offset(n, iss) + k
  {
    var o := Offset(n, iss);
    assert (n + k) % WRAP32 == (iss + 1 + (o + k)) % WRAP32;
    OffsetOf(iss, o + k);
  }

  /** Two sequence numbers that lie equally far past the start are the same number. */
  lemma OffsetUnique(a: u32, b: u32, iss: u32)
    requires Offset(a, iss) == Offset(b, iss)
    ensures a == b
  {}

  // ---- genuine traffic ----

  /** A segment the server holding the byte stream `s` and initial number `iss` may have sent:
      its handshake, a piece of the stream, or a reset. Only the last piece may close. */
  predicate Genuine(seg: Segment, s: seq<byte>, iss: u32) {
    if Has(seg.flags, SYN) then seg.seqNo == iss && seg.data == [] && !Has(seg.flags, FIN)
    else
      var o := Offset(seg.seqNo, iss);
      && (seg.data != [] ==> o + |seg.data| <= |s| && seg.data == s[o..o + |seg.data|])
      && (Has(seg.flags, FIN) ==> o + |seg.data| == |s|)
  }

  predicate GenuineRun(es: seq<Event>, s: seq<byte>, iss: u32) {
    forall i :: 0 <= i < |es| && es[i].Arrive? ==> Genuine(es[i].seg, s, iss)
  }

  /** An acknowledgement before the close, and how many bytes of the stream it covers. */
  predicate PlainAck(x: Segment) {
    Has(x.flags, ACK) && !Has(x.flags, FIN)
  }

  predicate CoversOnly(x: Segment, iss: u32, n: nat) {
    PlainAck(x) ==> Offset(x.ack, iss) <= n
  }

  /** Everything sent says the same about the client's own stream: the request, at its one place. */
  predicate OwnStream(x: Segment, isn: u32, req: seq<byte>) {
    && (x.data != [] ==> x.data == req && x.seqNo == (isn + 1) % WRAP32)
    && (Has(x.flags, SYN) ==> x.seqNo == isn)
  }

  predicate Inv(c: Conn, s: seq<byte>, iss: u32, isn: u32, req: seq<byte>, cap: nat) {
    && |s| < WRAP32
    && c.data <= s && |c.data| <= cap
    && (forall i :: 0 <= i < |c.out| ==> CoversOnly(c.out[i], iss, |c.data|) && OwnStream(c.out[i], isn, req))
    && (c.active ==> c.isn == isn && c.req == req && c.cap == cap && c.calls == [])
    && (c.active ==> c.reqSent == c.tcp.Estab? == c.phase.Transfer?)
    && (c.active ==> c.sndNxt == (isn + 1 + if c.reqSent then |req| else 0) % WRAP32)
    && (c.active && c.tcp.Estab? ==> Offset(c.rcvNxt, iss) == |c.data|)
    && (c.active && !c.tcp.Estab? ==> c.data == [])
    && (!c.active ==> c.calls == [] || (|c.calls| == 1 && Answer(c.calls[0], c.data)))
  }

  predicate Answer(r: Reply, data: seq<byte>) {
    r == Outcome(data) || r == Reply(ErrConn, 0, 0) || r == Reply(ErrDns, 0, 0)
  }

  // ---- every step keeps the invariant ----

  /** One more segment sent keeps what holds of all of them. */
  lemma SentKeeps(out: seq<Segment>, x: Segment, iss: u32, isn: u32, req: seq<byte>, n: nat, m: nat)
    requires n <= m && forall i :: 0 <= i < |out| ==> CoversOnly(out[i], iss, n) && OwnStream(out[i], isn, req)
    requires CoversOnly(x, iss, m) && OwnStream(x, isn, req)
    ensures forall i :: 0 <= i < |out + [x]| ==> CoversOnly((out + [x])[i], iss, m) && OwnStream((out + [x])[i], isn, req)
  {}

  lemma FlagBits()
    ensures !Has(ACK, FIN) && !Has(ACK, SYN) && Has(ACK, ACK) && !Has(SYN, ACK) && Has(17, FIN) && !Has(17, SYN) && Has(SYN, SYN)
  {}

  lemma FailKeeps(c: Conn, st: Status, s: seq<byte>, iss: u32, isn: u32, req: seq<byte>, cap: nat)
    requires Inv(c, s, iss, isn, req, cap) && c.active && (st == ErrConn || st == ErrDns)
    ensures Inv(Fail(c, st), s, iss, isn, req, cap)
  {
    hide Outcome, CoversOnly, OwnStream, Offset;
  }

  lemma SynSentKeeps(c: Conn, seg: Segment, now: nat, s: seq<byte>, iss: u32, isn: u32, req: seq<byte>, cap: nat)
    requires Inv(c, s, iss, isn, req, cap) && c.active && c.tcp.SynSent? && Genuine(seg, s, iss)
    ensures Inv(HandleSynSent(c, seg, now), s, iss, isn, req, cap)
  {
    hide Outcome, Has, CoversOnly, OwnStream, Offset;
    if Has(seg.flags, SYN) && Has(seg.flags, ACK) && seg.ack == (c.isn + 1) % WRAP32 {
      if Has(seg.flags, RST) {
        FailKeeps(c, ErrConn, s, iss, isn, req, cap);
      } else {
        assert seg.seqNo == iss;
        OffsetOf(iss, 0);
        var x := Segment(ACK, c.sndNxt, (iss + 1) % WRAP32, req);
        RequestFits(x, iss, isn, req);
        SentKeeps(c.out, x, iss, isn, req, 0, 0);
        assert c.data == [];
        assert (c.sndNxt + |req|) % WRAP32 == (isn + 1 + |req|) % WRAP32;
      }
    }
  }

  lemma RequestFits(x: Segment, iss: u32, isn: u32, req: seq<byte>)
    requires x.flags == ACK && x.seqNo == (isn + 1) % WRAP32 && x.data == req
    ensures OwnStream(x, isn, req) && (Offset(x.ack, iss) == 0 ==> CoversOnly(x, iss, 0))
  {}

  lemma AckFits(x: Segment, iss: u32, isn: u32, req: seq<byte>, n: nat)
    requires (x.flags == ACK && Offset(x.ack, iss) <= n) || x.flags == 17
    requires x.data == []
    ensures OwnStream(x, isn, req) && CoversOnly(x, iss, n)
  {}

  /** The heart of prefix safety: what a genuine segment adds continues the stream. */
  lemma StoreKeeps(c: Conn, seg: Segment, s: seq<byte>, iss: u32, isn: u32, req: seq<byte>, cap: nat)
    requires Inv(c, s, iss, isn, req, cap) && c.active && c.tcp.Estab? && Genuine(seg, s, iss)
    requires seg.data != [] && seg.seqNo == c.rcvNxt
    ensures Inv(Store(c, seg), s, iss, isn, req, cap)
    ensures Take(c, seg) < |seg.data| ==> Store(c, seg).data == s[..cap] && cap < |s|
    ensures Take(c, seg) == |seg.data| && Has(seg.flags, FIN) ==> Store(c, seg).data == s
  {
    hide Outcome, Has, OwnStream, Offset, HeaderEnd;
    var o, k := |c.data|, Take(c, seg);
    assert c.data == s[..o];
    assert seg.data[..k] == s[o..o + k];
    assert Store(c, seg).data == s[..o + k];
    OffsetMoves(c.rcvNxt, iss, k);
  }

  lemma AckKeeps(c: Conn, s: seq<byte>, iss: u32, isn: u32, req: seq<byte>, cap: nat)
    requires Inv(c, s, iss, isn, req, cap) && c.active && c.tcp.Estab?
    ensures Inv(SendAck(c), s, iss, isn, req, cap)
  {
    hide Outcome, Has, OwnStream, Offset, CoversOnly;
    var x := Segment(ACK, c.sndNxt, c.rcvNxt, []);
    AckFits(x, iss, isn, req, |c.data|);
    SentKeeps(c.out, x, iss, isn, req, |c.data|, |c.data|);
  }

  lemma DoneKeeps(c: Conn, s: seq<byte>, iss: u32, isn: u32, req: seq<byte>, cap: nat)
    requires Inv(c, s, iss, isn, req, cap) && c.active
    ensures Inv(Finish(c, Outcome(c.data)), s, iss, isn, req, cap)
  {
    hide Outcome, CoversOnly, OwnStream, Offset;
  }

  lemma CloseKeeps(c: Conn, s: seq<byte>, iss: u32, isn: u32, req: seq<byte>, cap: nat)
    requires Inv(c, s, iss, isn, req, cap) && c.active && c.tcp.Estab?
    ensures Inv(Close(c), s, iss, isn, req, cap)
  {
    hide Outcome, Has, OwnStream, Offset, CoversOnly;
    var x := Segment(17, c.sndNxt, (c.rcvNxt + 1) % WRAP32, []);
    AckFits(x, iss, isn, req, |c.data|);
    SentKeeps(c.out, x, iss, isn, req, |c.data|, |c.data|);
  }

  lemma EstabKeeps(c: Conn, seg: Segment, s: seq<byte>, iss: u32, isn: u32, req: seq<byte>, cap: nat)
    requires Inv(c, s, iss, isn, req, cap) && c.active && c.tcp.Estab? && Genuine(seg, s, iss)
    ensures Inv(HandleEstab(c, seg), s, iss, isn, req, cap)
  {
    if Has(seg.flags, RST) {
      hide Inv, Has, Fail, Genuine;
      FailKeeps(c, ErrConn, s, iss, isn, req, cap);
    } else {
      var d := Noted(c, seg);
      assert Inv(d, s, iss, isn, req, cap) by { hide Outcome, CoversOnly, OwnStream, Offset, Genuine; }
      hide Inv, Has, Genuine, Store, SendAck, Close, Finish, Take, Outcome;
      if seg.data != [] && seg.seqNo != d.rcvNxt {
        AckKeeps(d, s, iss, isn, req, cap);
      } else if seg.data != [] {
        StoreKeeps(d, seg, s, iss, isn, req, cap);
        var e := Store(d, seg);
        StoreLive(d, seg);
        AckLive(e);
        AckKeeps(e, s, iss, isn, req, cap);
        DoneKeeps(SendAck(e), s, iss, isn, req, cap);
        CloseKeeps(e, s, iss, isn, req, cap);
      } else if Has(seg.flags, FIN) {
        CloseKeeps(d, s, iss, isn, req, cap);
      }
    }
  }

  lemma StoreLive(c: Conn, seg: Segment)
    ensures Store(c, seg).active == c.active && Store(c, seg).tcp == c.tcp
  {}

  lemma AckLive(c: Conn)
    ensures SendAck(c).active == c.active && SendAck(c).data == c.data
  {}

  lemma LookupKeeps(c: Conn, now: nat, resolver: bool, s: seq<byte>, iss: u32, isn: u32, req: seq<byte>, cap: nat)
    requires Inv(c, s, iss, isn, req, cap) && c.active && c.phase.Dns?
    ensures Inv(PollDns(c, now, resolver), s, iss, isn, req, cap)
  {
    hide Outcome, Has, OwnStream, Offset, CoversOnly;
  }

  lemma ConnectKeeps(c: Conn, now: nat, gateway: bool, s: seq<byte>, iss: u32, isn: u32, req: seq<byte>, cap: nat)
    requires Inv(c, s, iss, isn, req, cap) && c.active && c.phase.Connect?
    ensures Inv(PollConnect(c, now, gateway), s, iss, isn, req, cap)
    ensures PollConnect(c, now, gateway).active && PollConnect(c, now, gateway).retries <= 1
  {
    hide Outcome, Has, OwnStream, Offset, CoversOnly;
    var x := Segment(SYN, c.isn, 0, []);
    SynFits(x, iss, isn, req, |c.data|);
    SentKeeps(c.out, x, iss, isn, req, |c.data|, |c.data|);
  }

  lemma SynFits(x: Segment, iss: u32, isn: u32, req: seq<byte>, n: nat)
    requires x.flags == SYN && x.seqNo == isn && x.data == []
    ensures OwnStream(x, isn, req) && CoversOnly(x, iss, n)
  {}

  lemma TransferKeeps(c: Conn, now: nat, s: seq<byte>, iss: u32, isn: u32, req: seq<byte>, cap: nat)
    requires Inv(c, s, iss, isn, req, cap) && c.active && c.phase.Transfer?
    ensures Inv(PollTransfer(c, now), s, iss, isn, req, cap)
  {
    hide Outcome, Has, OwnStream, Offset, CoversOnly;
    var x := Segment(ACK, (c.sndNxt - |c.req|) % WRAP32, c.rcvNxt, c.req);
    assert x.seqNo == (isn + 1) % WRAP32 by { BackOff(isn + 1, |req|); }
    AgainFits(x, iss, isn, req, |c.data|);
    SentKeeps(c.out, x, iss, isn, req, |c.data|, |c.data|);
  }

  lemma BackOff(a: nat, k: nat)
    ensures ((a + k) % WRAP32 - k) % WRAP32 == a % WRAP32
  {
    var q := (a + k) / WRAP32;
    assert (a + k) % WRAP32 - k == a - q * WRAP32;
  }

  lemma AgainFits(x: Segment, iss: u32, isn: u32, req: seq<byte>, n: nat)
    requires x.flags == ACK && x.seqNo == (isn + 1) % WRAP32 && x.data == req && Offset(x.ack, iss) <= n
    ensures OwnStream(x, isn, req) && CoversOnly(x, iss, n)
  {}

  lemma StepKeeps(c: Conn, e: Event, s: seq<byte>, iss: u32, isn: u32, req: seq<byte>, cap: nat)
    requires Inv(c, s, iss, isn, req, cap) && (e.Arrive? ==> Genuine(e.seg, s, iss))
    ensures Inv(Step(c, e), s, iss, isn, req, cap)
  {
    if c.active {
      match e
      case Arrive(dport, seg, at) =>
        hide Inv, HandleSynSent, HandleEstab, Genuine;
        if c.tcp.SynSent? { SynSentKeeps(c, seg, at, s, iss, isn, req, cap); }
        if c.tcp.Estab? { EstabKeeps(c, seg, s, iss, isn, req, cap); }
      case Resolve(found) =>
        FailKeeps(c, ErrDns, s, iss, isn, req, cap);
        hide Outcome, CoversOnly, OwnStream, Offset, Fail;
      case Poll(now, gateway, resolver) =>
        if c.phase.Dns? { LookupKeeps(c, now, resolver, s, iss, isn, req, cap); }
        hide PollDns, Inv, PollConnect, PollTransfer, Fail;
        FailKeeps(c, ErrConn, s, iss, isn, req, cap);
        if c.phase.Connect? { ConnectKeeps(c, now, gateway, s, iss, isn, req, cap); }
        if c.phase.Transfer? { TransferKeeps(c, now, s, iss, isn, req, cap); }
      case Abort(_) =>
        hide Outcome, CoversOnly, OwnStream, Offset;
    }
  }

  lemma {:induction false} RunKeeps(c: Conn, es: seq<Event>, s: seq<byte>, iss: u32, isn: u32, req: seq<byte>, cap: nat)
    requires Inv(c, s, iss, isn, req, cap) && GenuineRun(es, s, iss)
    ensures Inv(Run(c, es), s, iss, isn, req, cap)
    decreases |es|
  {
    hide Inv, Step, Genuine;
    if es != [] {
      StepKeeps(c, es[0], s, iss, isn, req, cap);
      RunKeeps(Step(c, es[0]), es[1..], s, iss, isn, req, cap);
    }
  }

  // ---- what a whole run promises ----

  lemma StartInv(ctx: nat, sport: u16, isn: u32, req: seq<byte>, cap: nat, now: nat, s: seq<byte>, iss: u32)
    requires |s| < WRAP32
    ensures Inv(Start(ctx, sport, isn, req, cap, now), s, iss, isn, req, cap)
  {}

  /** Whatever the network loses, repeats or reorders: the buffer holds a prefix of the server's
      stream, acknowledgements cover stored bytes only, and the callback runs at most once. */
  lemma PrefixSafety(ctx: nat, sport: u16, isn: u32, req: seq<byte>, cap: nat, now: nat, es: seq<Event>, s: seq<byte>, iss: u32)
    requires |s| < WRAP32 && GenuineRun(es, s, iss)
    ensures var c := Run(Start(ctx, sport, isn, req, cap, now), es);
      && c.data <= s && |c.data| <= cap
      && (c.active && c.tcp.Estab? ==> c.rcvNxt == (iss + 1 + |c.data|) % WRAP32)
      && (forall i :: 0 <= i < |c.out| && PlainAck(c.out[i]) ==> Offset(c.out[i].ack, iss) <= |c.data|)
      && (forall i :: 0 <= i < |c.out| && c.out[i].data != [] ==> c.out[i].data == req && c.out[i].seqNo == (isn + 1) % WRAP32)
      && (c.active ==> c.calls == [])
      && (!c.active ==> c.calls == [] || exists r :: c.calls == [r] && Answer(r, c.data))
  {
    StartInv(ctx, sport, isn, req, cap, now, s, iss);
    var c0 := Start(ctx, sport, isn, req, cap, now);
    RunKeeps(c0, es, s, iss, isn, req, cap);
    var c := Run(c0, es);
    hide Run, Start, Answer, Offset, PlainAck, GenuineRun;
    if c.active && c.tcp.Estab? {
      OffsetOf(iss, |c.data|);
      OffsetUnique(c.rcvNxt, (iss + 1 + |c.data|) % WRAP32, iss);
    }
    if !c.active && c.calls != [] {
      assert c.calls == [c.calls[0]];
    }
  }

  /** A FIN without data takes its place in the stream: the one check the code leaves out. */
  predicate InPlace(c: Conn, e: Event) {
    e.Arrive? && c.active && c.tcp.Estab? && e.seg.data == [] && Has(e.seg.flags, FIN) ==> e.seg.seqNo == c.rcvNxt
  }

  predicate AllInPlace(c: Conn, es: seq<Event>)
    decreases |es|
  {
    es == [] || (InPlace(c, es[0]) && AllInPlace(Step(c, es[0]), es[1..]))
  }

  function Whole(s: seq<byte>, cap: nat): seq<byte> {
    if |s| <= cap then s else s[..cap]
  }

  predicate Complete(c: Conn, s: seq<byte>, cap: nat) {
    !c.active && c.calls != [] ==> c.calls[0] == Outcome(Whole(s, cap)) || c.calls[0] == Reply(ErrConn, 0, 0) || c.calls[0] == Reply(ErrDns, 0, 0)
  }

  lemma EstabCompletes(c: Conn, seg: Segment, s: seq<byte>, iss: u32, isn: u32, req: seq<byte>, cap: nat)
    requires Inv(c, s, iss, isn, req, cap) && c.active && c.tcp.Estab? && Genuine(seg, s, iss)
    requires seg.data == [] && Has(seg.flags, FIN) ==> seg.seqNo == c.rcvNxt
    ensures Complete(HandleEstab(c, seg), s, cap)
  {
    if !Has(seg.flags, RST) {
      var d := Noted(c, seg);
      assert Inv(d, s, iss, isn, req, cap) by { hide Outcome, CoversOnly, OwnStream, Offset, Genuine; }
      if seg.data != [] && seg.seqNo == d.rcvNxt {
        StoreKeeps(d, seg, s, iss, isn, req, cap);
        hide Inv, Outcome, Has, Take, Genuine;
        var e := Store(d, seg);
        if Take(d, seg) == |seg.data| && Has(seg.flags, FIN) {
          FullIsWhole(e.data, s, cap) by { hide Store; StoreKeeps(d, seg, s, iss, isn, req, cap); InvSmall(e, s, iss, isn, req, cap); }
        }
      } else if seg.data == [] && Has(seg.flags, FIN) {
        BareFin(d, seg, s, iss, isn, req, cap);
        FullIsWhole(d.data, s, cap);
        hide Inv, Outcome, Has, Genuine;
      }
    }
  }

  lemma InvSmall(c: Conn, s: seq<byte>, iss: u32, isn: u32, req: seq<byte>, cap: nat)
    requires Inv(c, s, iss, isn, req, cap)
    ensures |c.data| <= cap
  {}

  lemma FullIsWhole(data: seq<byte>, s: seq<byte>, cap: nat)
    requires data == s && |data| <= cap
    ensures data == Whole(s, cap)
  {}

  /** A genuine FIN that carries no data ends a complete transfer exactly when its number is the next one expected. */
  lemma BareFin(c: Conn, seg: Segment, s: seq<byte>, iss: u32, isn: u32, req: seq<byte>, cap: nat)
    requires Inv(c, s, iss, isn, req, cap) && c.active && c.tcp.Estab? && Genuine(seg, s, iss)
    requires seg.data == [] && Has(seg.flags, FIN) && !Has(seg.flags, RST)
    ensures HandleEstab(c, seg).calls == [Outcome(c.data)]
    ensures c.data == s <==> seg.seqNo == c.rcvNxt
  {
    hide Outcome, Has, CoversOnly, OwnStream, Offset;
    assert Offset(seg.seqNo, iss) == |s|;
    assert c.data == s[..|c.data|];
    if |c.data| == |s| {
      OffsetUnique(seg.seqNo, c.rcvNxt, iss);
    }
  }

  lemma StepCompletes(c: Conn, e: Event, s: seq<byte>, iss: u32, isn: u32, req: seq<byte>, cap: nat)
    requires Inv(c, s, iss, isn, req, cap) && (e.Arrive? ==> Genuine(e.seg, s, iss)) && InPlace(c, e) && Complete(c, s, cap)
    ensures Complete(Step(c, e), s, cap)
  {
    hide Outcome, Genuine, CoversOnly, OwnStream, Offset, Has, HandleEstab;
    if c.active && e.Arrive? && c.tcp.Estab? {
      EstabCompletes(c, e.seg, s, iss, isn, req, cap);
    }
  }

  lemma {:induction false} RunCompletes(c: Conn, es: seq<Event>, s: seq<byte>, iss: u32, isn: u32, req: seq<byte>, cap: nat)
    requires Inv(c, s, iss, isn, req, cap) && GenuineRun(es, s, iss) && AllInPlace(c, es) && Complete(c, s, cap)
    ensures Complete(Run(c, es), s, cap)
    decreases |es|
  {
    hide Inv, Step, Genuine, Complete, InPlace;
    if es != [] {
      StepKeeps(c, es[0], s, iss, isn, req, cap);
      StepCompletes(c, es[0], s, iss, isn, req, cap);
      RunCompletes(Step(c, es[0]), es[1..], s, iss, isn, req, cap);
    }
  }

  /** The callback's answer does not depend on segmentation, loss, repetition or order: it is a
      function of the stream and the buffer size, or a connection or lookup failure. */
  lemma AnswerIsOfTheStream(ctx: nat, sport: u16, isn: u32, req: seq<byte>, cap: nat, now: nat, es: seq<Event>, s: seq<byte>, iss: u32)
    requires |s| < WRAP32 && GenuineRun(es, s, iss) && AllInPlace(Start(ctx, sport, isn, req, cap, now), es)
    ensures var calls := Run(Start(ctx, sport, isn, req, cap, now), es).calls;
      calls == [] || calls == [Outcome(Whole(s, cap))] || calls == [Reply(ErrConn, 0, 0)] || calls == [Reply(ErrDns, 0, 0)]
  {
    var c0 := Start(ctx, sport, isn, req, cap, now);
    StartInv(ctx, sport, isn, req, cap, now, s, iss);
    assert Complete(c0, s, cap);
    hide Run, AllInPlace, Start, Outcome, Genuine, Offset;
    RunKeeps(c0, es, s, iss, isn, req, cap);
    RunCompletes(c0, es, s, iss, isn, req, cap);
    var c := Run(c0, es);
    if c.calls != [] { assert c.calls == [c.calls[0]]; }
  }

  // ---- in-order delivery always answers ----

  function Joined(chunks: seq<seq<byte>>): seq<byte>
    decreases |chunks|
  {
    if chunks == [] then [] else chunks[0] + Joined(chunks[1..])
  }

  /** A stream cut into segments, sent in order from offset `o` and ended by a FIN. */
  function Feed(sport: u16, iss: u32, o: nat, chunks: seq<seq<byte>>): (es: seq<Event>)
    ensures |es| == |chunks| + 1
    decreases |chunks|
  {
    if chunks == [] then [Arrive(sport, Segment(17, (iss + 1 + o) % WRAP32, 0, []), 0)]
    else [Arrive(sport, Segment(ACK, (iss + 1 + o) % WRAP32, 0, chunks[0]), 0)] + Feed(sport, iss, o + |chunks[0]|, chunks[1..])
  }

  lemma {:induction false} Ended(c: Conn, es: seq<Event>)
    requires !c.active
    ensures Run(c, es) == c
    decreases |es|
  {
    if es != [] { Ended(c, es[1..]); }
  }

  lemma PieceGenuine(seg: Segment, s: seq<byte>, iss: u32, o: nat)
    requires |s| < WRAP32 && o + |seg.data| <= |s| && seg.data == s[o..o + |seg.data|]
    requires seg.seqNo == (iss + 1 + o) % WRAP32
    requires seg.flags == ACK || (seg.flags == 17 && o + |seg.data| == |s|)
    ensures Genuine(seg, s, iss) && !Has(seg.flags, RST)
  {
    OffsetOf(iss, o);
  }

  /** One in-order chunk is stored whole and the transfer goes on, or it overruns the buffer and ends it. */
  lemma ChunkStep(c: Conn, seg: Segment, s: seq<byte>, iss: u32, isn: u32, req: seq<byte>, cap: nat)
    requires Inv(c, s, iss, isn, req, cap) && c.active && c.tcp.Estab? && Genuine(seg, s, iss)
    requires seg.flags == ACK && seg.data != [] && seg.seqNo == c.rcvNxt
    ensures var d := HandleEstab(c, seg);
      if |c.data| + |seg.data| <= cap then d.active && d.tcp.Estab? && d.data == c.data + seg.data && d.sport == c.sport
      else !d.active && d.calls == [Outcome(s[..cap])] && |s| > cap
  {
    hide Outcome, Offset, CoversOnly, OwnStream, Genuine;
    var d := Noted(c, seg);
    assert Inv(d, s, iss, isn, req, cap) && d.data == c.data && d.rcvNxt == c.rcvNxt;
    StoreKeeps(d, seg, s, iss, isn, req, cap);
    assert seg.data[..|seg.data|] == seg.data;
  }

  lemma NextInPlace(c: Conn, iss: u32, o: nat)
    requires o < WRAP32 && Offset(c.rcvNxt, iss) == o
    ensures c.rcvNxt == (iss + 1 + o) % WRAP32
  {
    OffsetOf(iss, o);
    OffsetUnique(c.rcvNxt, (iss + 1 + o) % WRAP32, iss);
  }

  lemma {:induction false} FeedAnswers(c: Conn, chunks: seq<seq<byte>>, s: seq<byte>, iss: u32, isn: u32, req: seq<byte>, cap: nat)
    requires Inv(c, s, iss, isn, req, cap) && c.active && c.tcp.Estab?
    requires forall i :: 0 <= i < |chunks| ==> chunks[i] != []
    requires Joined(chunks) == s[|c.data|..]
    ensures Run(c, Feed(c.sport, iss, |c.data|, chunks)).calls == [Outcome(Whole(s, cap))]
    decreases |chunks|
  {
    hide Outcome, Offset, CoversOnly, OwnStream, HandleEstab, Genuine, Has;
    var o := |c.data|;
    var es := Feed(c.sport, iss, o, chunks);
    NextInPlace(c, iss, o);
    var seg := es[0].seg;
    if chunks == [] {
      assert es == [es[0]] && o == |s|;
      PieceGenuine(seg, s, iss, o);
      FlagBits();
      BareFin(c, seg, s, iss, isn, req, cap);
      assert Run(Step(c, es[0]), es[1..]) == Step(c, es[0]);
    } else {
      var rest := chunks[1..];
      ChunkPlaced(chunks, s, o);
      PieceGenuine(seg, s, iss, o);
      ChunkStep(c, seg, s, iss, isn, req, cap);
      StepKeeps(c, es[0], s, iss, isn, req, cap);
      var d := Step(c, es[0]);
      assert es[1..] == Feed(c.sport, iss, o + |chunks[0]|, rest);
      if d.active {
        FeedAnswers(d, rest, s, iss, isn, req, cap);
      } else {
        Ended(d, es[1..]);
      }
    }
  }

  lemma ChunkPlaced(chunks: seq<seq<byte>>, s: seq<byte>, o: nat)
    requires chunks != [] && o <= |s| && Joined(chunks) == s[o..]
    ensures o + |chunks[0]| <= |s| && chunks[0] == s[o..o + |chunks[0]|]
    ensures Joined(chunks[1..]) == s[o + |chunks[0]|..]
  {
    var a, b := chunks[0], Joined(chunks[1..]);
    assert s[o..] == a + b;
    assert s[o..][..|a|] == a && s[o..][|a|..] == b;
  }

  // ---- findings ----

  /** While looking up and connecting, the retry count restarts at every poll, so before the deadline
      polling never gives up: neither limit, of 8 queries and of 24 SYNs, is ever reached. */
  lemma {:induction false} ConnectNeverGivesUp(c: Conn, es: seq<Event>)
    requires c.active && !c.phase.Transfer?
    requires forall i :: 0 <= i < |es| ==> es[i].Poll? && es[i].now < c.deadline
    ensures var d := Run(c, es); d.active && d.phase == c.phase && d.calls == c.calls && (es != [] ==> d.retries <= 1)
    decreases |es|
  {
    if es != [] {
      var d := Step(c, es[0]);
      assert d.active && d.phase == c.phase && d.calls == c.calls && d.retries <= 1 && d.deadline == c.deadline;
      ConnectNeverGivesUp(d, es[1..]);
    }
  }

  /** A small complete response: a status line and a blank line. */
  const SAMPLE: seq<byte> := [72, 84, 84, 80, 47, 49, 46, 48, 32, 50, 48, 48, 13, 10, 13, 10]

  /** A bare FIN that overtakes the data makes a good response an error: the check `BareFin` names is missing. */
  lemma EarlyFinLosesTheResponse(c: Conn, seg: Segment, iss: u32, isn: u32, req: seq<byte>, cap: nat)
    requires Inv(c, SAMPLE, iss, isn, req, cap) && c.active && c.tcp.Estab? && c.data == []
    requires seg == Segment(17, (iss + 17) % WRAP32, 0, [])
    ensures Genuine(seg, SAMPLE, iss) && HandleEstab(c, seg).calls == [Reply(ErrHttp, 0, 0)] && Outcome(SAMPLE) == Reply(Ok, 16, 0)
  {
    PieceGenuine(seg, SAMPLE, iss, 16);
    FlagBits();
    BareFin(c, seg, SAMPLE, iss, isn, req, cap);
    HeaderIsFirst(SAMPLE, 3);
    assert EndsAt(SAMPLE, 15);
    assert forall i :: 3 <= i < 15 ==> !EndsAt(SAMPLE, i);
    assert SAMPLE[..4] == [72, 84, 84, 80];
  }

  /** The run that gets there, for every request: lookup, SYN, handshake, then the overtaking FIN. */
  function EarlyFin(sport: u16, isn: u32, iss: u32, now: nat): seq<Event> {
    [Resolve(true), Poll(now, true, true), Arrive(sport, Segment(18, iss, (isn + 1) % WRAP32, []), now),
     Arrive(sport, Segment(17, (iss + 17) % WRAP32, 0, []), now)]
  }

  lemma EarlyFinRun(ctx: nat, sport: u16, isn: u32, req: seq<byte>, cap: nat, now: nat, iss: u32)
    ensures GenuineRun(EarlyFin(sport, isn, iss, now), SAMPLE, iss)
    ensures Run(Start(ctx, sport, isn, req, cap, now), EarlyFin(sport, isn, iss, now)).calls == [Reply(ErrHttp, 0, 0)]
    ensures Outcome(SAMPLE) == Reply(Ok, 16, 0)
  {
    var es := EarlyFin(sport, isn, iss, now);
    var c0 := Start(ctx, sport, isn, req, cap, now);
    StartInv(ctx, sport, isn, req, cap, now, SAMPLE, iss);
    PieceGenuine(es[3].seg, SAMPLE, iss, 16);
    var c1 := Step(c0, es[0]);
    var c2 := Step(c1, es[1]);
    var c3 := Step(c2, es[2]);
    hide Outcome, Offset, CoversOnly, OwnStream, HandleEstab;
    StepKeeps(c0, es[0], SAMPLE, iss, isn, req, cap);
    StepKeeps(c1, es[1], SAMPLE, iss, isn, req, cap);
    StepKeeps(c2, es[2], SAMPLE, iss, isn, req, cap);
    assert c3.active && c3.tcp.Estab? && c3.data == [] && c3.sport == sport;
    EarlyFinLosesTheResponse(c3, es[3].seg, iss, isn, req, cap);
    RunFour(c0, es);
  }

  lemma RunFour(c: Conn, es: seq<Event>)
    requires |es| == 4
    ensures Run(c, es) == Step(Step(Step(Step(c, es[0]), es[1]), es[2]), es[3])
  {
    hide Step;
    var a := Step(c, es[0]);
    var b := Step(a, es[1]);
    var d := Step(b, es[2]);
    assert es[1..][1..] == es[2..] && es[2..][1..] == es[3..] && es[3..][1..] == [];
    assert Run(d, es[3..]) == Step(d, es[3]);
    assert Run(b, es[2..]) == Run(d, es[3..]);
    assert Run(a, es[1..]) == Run(b, es[2..]);
  }

  // ---- when an acknowledgement of the request is believed ----

  /** The request's sequence numbers pass the end of their 32-bit range. */
  predicate Crosses(isn: u32, n: nat) {
    (isn + 1) % WRAP32 + n >= WRAP32
  }

  /** The server acknowledges the SYN and at most what the request has. */
  predicate ServerAcks(e: Event, isn: u32, n: nat) {
    e.Arrive? && Has(e.seg.flags, ACK) ==> Offset(e.seg.ack, isn) <= n
  }

  /** It acknowledges all of it. */
  predicate AcksAll(e: Event, isn: u32, n: nat) {
    e.Arrive? && Has(e.seg.flags, ACK) && Offset(e.seg.ack, isn) == n
  }

  /** The comparison `ack >= sndNxt` singles out the acknowledgement of the whole request among those
      a server can send exactly when the request does not cross the end of the sequence numbers. */
  lemma NotedIff(isn: u32, n: nat)
    requires n < WRAP32
    ensures (forall a: u32 :: Offset(a, isn) <= n && a >= (isn + 1 + n) % WRAP32 ==> Offset(a, isn) == n) <==> !Crosses(isn, n)
  {
    var b: u32 := (isn + 1) % WRAP32;
    assert Offset(b, isn) == 0 by { OffsetOf(isn, 0); }
    if Crosses(isn, n) {
      EndWraps(isn, n);
    } else {
      forall a: u32 | Offset(a, isn) <= n && a >= (isn + 1 + n) % WRAP32 ensures Offset(a, isn) == n {
        NoWrap(isn, n, a);
      }
    }
  }

  lemma EndWraps(isn: u32, n: nat)
    requires n < WRAP32 && Crosses(isn, n)
    ensures (isn + 1 + n) % WRAP32 == (isn + 1) % WRAP32 + n - WRAP32 && n > 0
  {}

  lemma NoWrap(isn: u32, n: nat, a: u32)
    requires !Crosses(isn, n) && Offset(a, isn) <= n && a >= (isn + 1 + n) % WRAP32
    ensures Offset(a, isn) == n
  {
    var b := (isn + 1) % WRAP32;
    assert (isn + 1 + n) % WRAP32 == b + n;
    assert (a - b) % WRAP32 == Offset(a, isn);
  }

  /** What the acknowledgement flag rests on. */
  predicate AckInv(c: Conn, isn: u32, req: seq<byte>) {
    && (c.active ==> c.isn == isn && c.req == req && c.reqSent == c.tcp.Estab? == c.phase.Transfer?)
    && (c.active ==> c.sndNxt == (isn + 1 + if c.reqSent then |req| else 0) % WRAP32)
  }

  lemma AckStep(c: Conn, e: Event, isn: u32, req: seq<byte>)
    requires |req| < WRAP32 && !Crosses(isn, |req|) && AckInv(c, isn, req) && !c.reqAcked && ServerAcks(e, isn, |req|)
    ensures AckInv(Step(c, e), isn, req) && (Step(c, e).reqAcked ==> AcksAll(e, isn, |req|))
  {
    hide Outcome, Has, Offset, Crosses, AckInv, AcksAll, ServerAcks;
    if c.active {
      match e {
        case Arrive(_, seg, at) =>
          hide HandleSynSent, HandleEstab;
          if c.tcp.Estab? { EstabAcks(c, e, isn, req); } else { ShakeAcks(c, seg, at, isn, req); }
        case _ => QuietAcks(c, e, isn, req);
      }
    }
  }

  lemma EstabAcks(c: Conn, e: Event, isn: u32, req: seq<byte>)
    requires |req| < WRAP32 && !Crosses(isn, |req|) && AckInv(c, isn, req) && !c.reqAcked && ServerAcks(e, isn, |req|)
    requires e.Arrive? && c.active && c.tcp.Estab?
    ensures AckInv(HandleEstab(c, e.seg), isn, req) && (HandleEstab(c, e.seg).reqAcked ==> AcksAll(e, isn, |req|))
  {
    hide Outcome, Has, Offset, Crosses;
    NotedIff(isn, |req|);
  }

  lemma ShakeAcks(c: Conn, s: Segment, now: nat, isn: u32, req: seq<byte>)
    requires AckInv(c, isn, req) && c.active && !c.reqAcked && !c.tcp.Estab?
    ensures AckInv(HandleSynSent(c, s, now), isn, req) && !HandleSynSent(c, s, now).reqAcked
  {
    hide Has;
    assert !c.reqSent ==> (c.sndNxt + |req|) % WRAP32 == (isn + 1 + |req|) % WRAP32;
  }

  lemma QuietAcks(c: Conn, e: Event, isn: u32, req: seq<byte>)
    requires AckInv(c, isn, req) && c.active && !c.reqAcked && !e.Arrive?
    ensures AckInv(Step(c, e), isn, req) && !Step(c, e).reqAcked
  {
    hide Has;
  }

  /** While no request crosses the end: on every run, with whatever loss, repetition and order, the
      client believes its request acknowledged only if an acknowledgement of all of it arrived. */
  lemma {:induction false} AckSound(c: Conn, es: seq<Event>, isn: u32, req: seq<byte>)
    requires |req| < WRAP32 && !Crosses(isn, |req|) && AckInv(c, isn, req) && !c.reqAcked
    requires forall i :: 0 <= i < |es| ==> ServerAcks(es[i], isn, |req|)
    ensures Run(c, es).reqAcked ==> exists i :: 0 <= i < |es| && AcksAll(es[i], isn, |req|)
    decreases |es|
  {
    if es != [] {
      AckStep(c, es[0], isn, req);
      if !Step(c, es[0]).reqAcked {
        hide Step, AckInv, ServerAcks, AcksAll;
        AckSound(Step(c, es[0]), es[1..], isn, req);
        if Run(c, es).reqAcked {
          var i :| 0 <= i < |es[1..]| && AcksAll(es[1..][i], isn, |req|);
          assert es[i + 1] == es[1..][i];
        }
      }
    }
  }

  /** For every request that does cross it: lookup, SYN, handshake, and the handshake's SYN-ACK once more. */
  function FalseAck(sport: u16, isn: u32, iss: u32, now: nat): seq<Event> {
    var synAck := Arrive(sport, Segment(18, iss, (isn + 1) % WRAP32, []), now);
    [Resolve(true), Poll(now, true, true), synAck, synAck]
  }

  /** Nothing of the request is acknowledged, the client believes all of it is, and it never sends it again. */
  lemma FalseAckRun(ctx: nat, sport: u16, isn: u32, req: seq<byte>, cap: nat, now: nat, iss: u32, s: seq<byte>, polls: seq<Event>)
    requires |req| < WRAP32 && Crosses(isn, |req|) && |s| < WRAP32
    requires forall i :: 0 <= i < |polls| ==> polls[i].Poll? && polls[i].now < now + 1500
    ensures var es := FalseAck(sport, isn, iss, now);
      && GenuineRun(es, s, iss) && (forall i :: 0 <= i < |es| ==> ServerAcks(es[i], isn, |req|) && !AcksAll(es[i], isn, |req|))
      && var c := Run(Start(ctx, sport, isn, req, cap, now), es);
         c.active && c.reqAcked && Run(c, polls).out == c.out
  {
    var es := FalseAck(sport, isn, iss, now);
    var c0 := Start(ctx, sport, isn, req, cap, now);
    var c2 := Step(Step(c0, es[0]), es[1]);
    HalfOpen(c0, es, ctx, sport, isn, req, cap, now);
    var c3 := HandleSynSent(c2, es[2].seg, now);
    var c4 := HandleEstab(c3, es[2].seg);
    TwiceAcked(c2, es[2].seg, now);
    SynAckGenuine(sport, isn, iss, now, s, |req|);
    hide Has, Outcome, Offset, Crosses, HandleSynSent, HandleEstab;
    assert Step(c2, es[2]) == c3 && Step(c3, es[3]) == c4;
    hide Step;
    RunFour(c0, es);
    NeverAgain(c4, polls);
  }

  /** The SYN is out and the handshake may come. */
  lemma HalfOpen(c0: Conn, es: seq<Event>, ctx: nat, sport: u16, isn: u32, req: seq<byte>, cap: nat, now: nat)
    requires c0 == Start(ctx, sport, isn, req, cap, now) && |es| >= 2 && es[0] == Resolve(true) && es[1] == Poll(now, true, true)
    ensures var c2 := Step(Step(c0, es[0]), es[1]);
      && c2.active && c2.tcp.SynSent? && !c2.reqAcked && c2.isn == isn && c2.req == req
      && c2.sndNxt == (isn + 1) % WRAP32 && c2.sport == sport && c2.deadline == now + 1500
  {}

  lemma TwiceAcked(c: Conn, x: Segment, now: nat)
    requires c.active && c.tcp.SynSent? && !c.reqAcked && c.sndNxt == (c.isn + 1) % WRAP32
    requires |c.req| < WRAP32 && Crosses(c.isn, |c.req|)
    requires x.flags == 18 && x.ack == (c.isn + 1) % WRAP32 && x.data == []
    ensures var d := HandleSynSent(c, x, now);
      && d.active && d.tcp.Estab? && d.phase.Transfer? && d.sport == c.sport && d.deadline == c.deadline
      && HandleEstab(d, x) == d.(reqAcked := true)
  {
    SynAckBits();
    EndWraps(c.isn, |c.req|);
    hide Has, Outcome, Offset, Crosses;
    assert ((c.isn + 1) % WRAP32 + |c.req|) % WRAP32 == (c.isn + 1 + |c.req|) % WRAP32;
  }

  lemma SynAckGenuine(sport: u16, isn: u32, iss: u32, now: nat, s: seq<byte>, n: nat)
    requires 0 < n < WRAP32
    ensures var es := FalseAck(sport, isn, iss, now);
      GenuineRun(es, s, iss) && forall i :: 0 <= i < |es| ==> ServerAcks(es[i], isn, n) && !AcksAll(es[i], isn, n)
  {
    SynAckBits();
    OffsetOf(isn, 0);
    hide Has, Offset;
  }

  lemma SynAckBits()
    ensures Has(18, SYN) && Has(18, ACK) && !Has(18, FIN) && !Has(18, RST)
  {}

  lemma {:induction false} NeverAgain(c: Conn, polls: seq<Event>)
    requires c.active && c.phase.Transfer? && c.reqAcked
    requires forall i :: 0 <= i < |polls| ==> polls[i].Poll? && polls[i].now < c.deadline
    ensures Run(c, polls) == c
    decreases |polls|
  {
    if polls != [] {
      assert Step(c, polls[0]) == c;
      NeverAgain(c, polls[1..]);
    }
  }
}
