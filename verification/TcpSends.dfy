/** What the client puts on the wire and answers: every step's effect on the segments sent, the bytes
    stored and the callbacks, spelled out in numbers, and what follows for whole runs. */
module TcpSends {
  import opened Bits
  import opened Checksum
  import opened NetFrames
  import opened Tcp

  // ---- the connection comes up ----

  /** A connecting poll sends a SYN when none was sent yet or the last one is half a second old, once
      the gateway is known; otherwise nothing. */
  lemma ConnectSends(c: Conn, now: nat, gateway: bool, resolver: bool)
    requires c.active && c.phase.Connect? && now < c.deadline
    ensures var d := Step(c, Poll(now, gateway, resolver));
      && d.out == c.out + (if gateway && (!c.tcp.SynSent? || now - c.lastSend >= 50) then [Segment(2, c.isn, 0, [])] else [])
      && (gateway ==> d.tcp.SynSent?) && d.calls == c.calls && d.active
  {}

  /** The SYN-ACK of our SYN is answered with the request, which also acknowledges it; a reset with it
      ends the request; anything else is ignored. */
  lemma ShakeSends(c: Conn, seg: Segment, now: nat)
    requires c.active && c.tcp.SynSent?
    ensures var d := Step(c, Arrive(c.sport, seg, now));
      if !Has(seg.flags, 2) || !Has(seg.flags, 16) || seg.ack != (c.isn + 1) % 0x1_0000_0000 then d == c
      else if Has(seg.flags, 4) then !d.active && d.out == c.out && d.calls == c.calls + [Reply(ErrConn, 0, 0)]
      else
        && d.out == c.out + [Segment(16, c.sndNxt, (seg.seqNo + 1) % 0x1_0000_0000, c.req)]
        && d.active && d.tcp.Estab? && d.rcvNxt == (seg.seqNo + 1) % 0x1_0000_0000 && d.calls == c.calls && d.lastSend == now
  {
    hide Has;
  }

  /** From the start: the SYN, then the request right after the handshake. */
  lemma HandshakeRun(ctx: nat, sport: u16, isn: u32, req: seq<byte>, cap: nat, t0: nat, t1: nat, t2: nat, iss: u32)
    requires t1 < t0 + 1500
    ensures Run(Start(ctx, sport, isn, req, cap, t0),
              [Resolve(true), Poll(t1, true, true), Arrive(sport, Segment(18, iss, (isn + 1) % 0x1_0000_0000, []), t2)]).out ==
      [Segment(2, isn, 0, []), Segment(16, (isn + 1) % 0x1_0000_0000, (iss + 1) % 0x1_0000_0000, req)]
  {
    var es := [Resolve(true), Poll(t1, true, true), Arrive(sport, Segment(18, iss, (isn + 1) % 0x1_0000_0000, []), t2)];
    var c0 := Start(ctx, sport, isn, req, cap, t0);
    var c1 := Step(c0, es[0]);
    var c2 := Step(c1, es[1]);
    ConnectSends(c1, t1, true, true);
    SynAckBits();
    ShakeSends(c2, es[2].seg, t2);
    assert c2.isn == isn && c2.sndNxt == (isn + 1) % 0x1_0000_0000 && c2.sport == sport && c2.req == req;
    hide Step;
    RunThree(c0, es);
  }

  lemma RunThree(c: Conn, es: seq<Event>)
    requires |es| == 3
    ensures Run(c, es) == Step(Step(Step(c, es[0]), es[1]), es[2])
  {
    hide Step;
    var a := Step(c, es[0]);
    var b := Step(a, es[1]);
    assert es[1..][1..] == es[2..] && es[2..][1..] == [];
    assert Run(b, es[2..]) == Step(b, es[2]);
    assert Run(a, es[1..]) == Run(b, es[2..]);
  }

  // ---- the established connection ----

  /** Every segment on the established connection, by cases: what is stored, what is sent, what is answered. */
  lemma EstabSends(c: Conn, seg: Segment, at: nat)
    requires c.active && c.tcp.Estab? && |c.data| <= c.cap
    ensures var d := Step(c, Arrive(c.sport, seg, at));
      var room := c.cap - |c.data|;
      if Has(seg.flags, 4) then
        && !d.active && d.data == c.data && d.out == c.out && d.calls == c.calls + [Reply(ErrConn, 0, 0)]
      else if seg.data != [] && seg.seqNo != c.rcvNxt then
        && d.active && d.data == c.data && d.rcvNxt == c.rcvNxt && d.calls == c.calls
        && d.out == c.out + [Segment(16, c.sndNxt, c.rcvNxt, [])]
      else if seg.data != [] && |seg.data| > room then
        && !d.active && d.data == c.data + seg.data[..room] && d.calls == c.calls + [Outcome(d.data)]
        && d.out == c.out + [Segment(16, c.sndNxt, (c.rcvNxt + room) % 0x1_0000_0000, [])]
      else if Has(seg.flags, 1) then
        && !d.active && d.data == c.data + seg.data && d.calls == c.calls + [Outcome(d.data)]
        && d.out == c.out + [Segment(17, c.sndNxt, (c.rcvNxt + |seg.data| + 1) % 0x1_0000_0000, [])]
      else if seg.data != [] then
        && d.active && d.data == c.data + seg.data && d.rcvNxt == (c.rcvNxt + |seg.data|) % 0x1_0000_0000 && d.calls == c.calls
        && d.out == c.out + [Segment(16, c.sndNxt, d.rcvNxt, [])]
      else d.active && d.data == c.data && d.rcvNxt == c.rcvNxt && d.calls == c.calls && d.out == c.out
  {
    hide Has, Outcome;
    assert ((c.rcvNxt + |seg.data|) % WRAP32 + 1) % WRAP32 == (c.rcvNxt + |seg.data| + 1) % WRAP32;
    assert seg.data[..|seg.data|] == seg.data;
  }

  /** The acknowledgement of data in its place covers all the bytes stored, and no more. */
  lemma AckCovers(c: Conn, seg: Segment, at: nat, s: seq<byte>, iss: u32, isn: u32, req: seq<byte>, cap: nat)
    requires Inv(c, s, iss, isn, req, cap) && c.active && c.tcp.Estab? && Genuine(seg, s, iss)
    requires !Has(seg.flags, 4) && seg.data != [] && seg.seqNo == c.rcvNxt && !Has(seg.flags, 1)
    ensures var d := Step(c, Arrive(c.sport, seg, at));
      |d.out| == |c.out| + 1 && Offset(d.out[|c.out|].ack, iss) == |d.data| && d.out[|c.out|].flags == 16
  {
    EstabSends(c, seg, at);
    hide Has, Outcome, Step, Genuine, CoversOnly, OwnStream, Offset;
    StoreKeeps(c, seg, s, iss, isn, req, cap);
    StoredNumber(c, seg, iss, s, isn, req, cap);
  }

  lemma StoredNumber(c: Conn, seg: Segment, iss: u32, s: seq<byte>, isn: u32, req: seq<byte>, cap: nat)
    requires c.active && c.tcp.Estab? && Inv(Store(c, seg), s, iss, isn, req, cap)
    ensures Offset((c.rcvNxt + Take(c, seg)) % WRAP32, iss) == |c.data| + Take(c, seg)
  {
    hide Offset, CoversOnly, OwnStream, Outcome;
  }

  // ---- polling ----

  /** While the request is unacknowledged it is sent again half a second after the last sending, ten times at
      most, always at its one place; an eleventh time is the end of it. Before that, and once it is
      acknowledged, a poll sends nothing. */
  lemma TransferSends(c: Conn, now: nat, gateway: bool, resolver: bool, isn: u32)
    requires c.active && c.phase.Transfer? && now < c.deadline && c.reqSent && c.sndNxt == (isn + 1 + |c.req|) % 0x1_0000_0000
    ensures var d := Step(c, Poll(now, gateway, resolver));
      if c.reqAcked || now - c.lastSend < 50 then d == c
      else if c.retries >= 10 then !d.active && d.out == c.out && d.calls == c.calls + [Reply(ErrConn, 0, 0)]
      else
        && d == c.(out := c.out + [Segment(16, (isn + 1) % 0x1_0000_0000, c.rcvNxt, c.req)], retries := c.retries + 1, lastSend := now)
  {
    BackToStart(isn, |c.req|);
  }

  lemma BackToStart(isn: u32, n: nat)
    ensures ((isn + 1 + n) % WRAP32 - n) % WRAP32 == (isn + 1) % WRAP32
  {}

  /** A name query goes out once the resolver is known, and again every half second. */
  lemma LookupSends(c: Conn, now: nat, gateway: bool, resolver: bool)
    requires c.active && c.phase.Dns? && now < c.deadline
    ensures var d := Step(c, Poll(now, gateway, resolver));
      && d.out == c.out && d.calls == c.calls && d.active && d.phase.Dns?
      && d.queries == c.queries + (if (if c.dnsSent then now - c.lastSend >= 50 else resolver) then 1 else 0)
      && d.dnsSent == (c.dnsSent || resolver)
  {}

  /** At the deadline every poll ends the request with an error, whatever its phase, and sends nothing. */
  lemma DeadlineEnds(c: Conn, now: nat, gateway: bool, resolver: bool)
    requires c.active && now >= c.deadline
    ensures var d := Step(c, Poll(now, gateway, resolver)); !d.active && d.out == c.out && d.calls == c.calls + [Reply(ErrConn, 0, 0)]
  {}

  /** A started request has sent and answered nothing and waits for its name. */
  lemma StartWaits(ctx: nat, sport: u16, isn: u32, req: seq<byte>, cap: nat, now: nat)
    ensures var c := Start(ctx, sport, isn, req, cap, now);
      && c.active && c.phase.Dns? && c.tcp.Closed? && c.ctx == ctx && c.sport == sport && c.isn == isn && c.req == req && c.cap == cap
      && c.sndNxt == (isn + 1) % 0x1_0000_0000 && c.deadline == now + 1500 && c.data == [] && c.out == [] && c.calls == []
      && !c.reqSent && !c.reqAcked && !c.dnsSent && c.queries == 0
  {}

  /** The deadline is fifteen seconds after the start, and nothing moves it. */
  lemma {:induction false} DeadlineStays(c: Conn, es: seq<Event>)
    requires c.active
    ensures Run(c, es).active ==> Run(c, es).deadline == c.deadline
    decreases |es|
  {
    hide Step;
    if es != [] {
      DeadlineStep(c, es[0]);
      if Step(c, es[0]).active {
        DeadlineStays(Step(c, es[0]), es[1..]);
      } else {
        Ended(Step(c, es[0]), es[1..]);
      }
    }
  }

  lemma DeadlineStep(c: Conn, e: Event)
    requires c.active
    ensures Step(c, e).active ==> Step(c, e).deadline == c.deadline
  {
    hide Has, Outcome, HandleEstab;
    if e.Arrive? { EstabDeadline(c, e.seg); }
  }

  lemma EstabDeadline(c: Conn, seg: Segment)
    ensures HandleEstab(c, seg).active ==> HandleEstab(c, seg).deadline == c.deadline
  {
    hide Has, Outcome;
  }

  /** After its answer or an abort the record does nothing more. */
  lemma {:induction false} Ended(c: Conn, es: seq<Event>)
    requires !c.active
    ensures Run(c, es) == c
    decreases |es|
  {
    if es != [] {
      Ended(c, es[1..]);
    }
  }

  /** The lookup's result, an abort by the request's owner or another, and a segment for another port. */
  lemma OtherEvents(c: Conn, ctx: nat, dport: u16, seg: Segment, at: nat)
    requires c.active
    ensures Step(c, Resolve(true)) == if c.phase.Dns? then c.(phase := Connect) else c
    ensures var d := Step(c, Resolve(false));
      if c.phase.Dns? then !d.active && d.out == c.out && d.calls == c.calls + [Reply(ErrDns, 0, 0)] else d == c
    ensures var d := Step(c, Abort(ctx)); if ctx == c.ctx then !d.active && d.out == c.out && d.calls == c.calls else d == c
    ensures dport != c.sport ==> Step(c, Arrive(dport, seg, at)) == c
  {}

  // ---- runs with loss ----

  /** Polls before the deadline, each at least half a second after the one before. */
  ghost predicate Spaced(ps: seq<Event>, last: nat, deadline: nat)
    decreases |ps|
  {
    ps == [] || (ps[0].Poll? && ps[0].gateway && last + 50 <= ps[0].now < deadline && Spaced(ps[1..], ps[0].now, deadline))
  }

  function Copies(x: Segment, n: nat): seq<Segment> {
    if n == 0 then [] else Copies(x, n - 1) + [x]
  }

  lemma {:induction false} CopiesShift(x: Segment, n: nat)
    ensures [x] + Copies(x, n) == Copies(x, n + 1)
  {
    if n > 0 {
      CopiesShift(x, n - 1);
      assert [x] + Copies(x, n) == ([x] + Copies(x, n - 1)) + [x];
    }
  }

  /** A SYN that gets no answer is sent again at every such poll, without limit. */
  lemma {:induction false} LostSyn(c: Conn, ps: seq<Event>)
    requires c.active && c.phase.Connect? && c.tcp.SynSent? && Spaced(ps, c.lastSend, c.deadline)
    ensures Run(c, ps).out == c.out + Copies(Segment(2, c.isn, 0, []), |ps|) && Run(c, ps).active
    decreases |ps|
  {
    var x := Segment(2, c.isn, 0, []);
    if ps != [] {
      var d := Step(c, ps[0]);
      ConnectSends(c, ps[0].now, true, ps[0].resolver);
      assert d.phase.Connect? && d.isn == c.isn && d.deadline == c.deadline && d.lastSend == ps[0].now;
      LostSyn(d, ps[1..]);
      CopiesShift(x, |ps| - 1);
      hide Step, Spaced, Copies;
      assert d.out + Copies(x, |ps| - 1) == c.out + ([x] + Copies(x, |ps| - 1));
    }
  }

  /** A request that gets no answer is sent again at every such poll, ten times; the next one ends it. */
  lemma {:induction false} LostRequest(c: Conn, ps: seq<Event>, isn: u32)
    requires c.active && c.phase.Transfer? && c.reqSent && !c.reqAcked && c.sndNxt == (isn + 1 + |c.req|) % 0x1_0000_0000
    requires c.retries <= 10 && Spaced(ps, c.lastSend, c.deadline)
    ensures var x, left, d := Segment(16, (isn + 1) % 0x1_0000_0000, c.rcvNxt, c.req), 10 - c.retries, Run(c, ps);
      if |ps| <= left then d.active && d.out == c.out + Copies(x, |ps|) && d.retries == c.retries + |ps|
      else !d.active && d.out == c.out + Copies(x, left) && d.calls == c.calls + [Reply(ErrConn, 0, 0)]
    decreases |ps|
  {
    var x, left := Segment(16, (isn + 1) % 0x1_0000_0000, c.rcvNxt, c.req), 10 - c.retries;
    if ps != [] {
      var d := Step(c, ps[0]);
      TransferSends(c, ps[0].now, true, ps[0].resolver, isn);
      if left == 0 {
        Ended(d, ps[1..]);
      } else {
        LostRequest(d, ps[1..], isn);
        var n := if |ps| <= left then |ps| else left;
        CopiesShift(x, n - 1);
        hide Step, Spaced, Copies;
        assert d.out + Copies(x, n - 1) == c.out + ([x] + Copies(x, n - 1));
      }
    }
  }

  // ---- the status line ----

  /** The three digits of the status, and when they count as success. */
  lemma StatusDigits(s: seq<byte>)
    requires HeaderEnd(s).Some? && HeaderEnd(s).value >= 12 && HeaderEnd(s).value <= |s|
    requires s[0] == 72 && s[1] == 84 && s[2] == 84 && s[3] == 80
    requires 48 <= s[9] <= 57 && 48 <= s[10] <= 57 && 48 <= s[11] <= 57
    ensures HttpStatus(s) / 100 == s[9] as int - 48 && HttpStatus(s) / 10 % 10 == s[10] as int - 48 && HttpStatus(s) % 10 == s[11] as int - 48
    ensures Outcome(s) == if s[9] == 50 || s[9] == 51 then Reply(Ok, HeaderEnd(s).value, |s| - HeaderEnd(s).value) else Reply(ErrHttp, 0, 0)
  {
    assert s[..4] == [72, 84, 84, 80];
    hide HeaderEnd;
  }

  /** Without a header, or without such a line in it, the transfer is an error. */
  lemma NoStatus(s: seq<byte>)
    requires HeaderEnd(s).None? || HeaderEnd(s).value < 12 || |s| < 12 || s[..4] != [72, 84, 84, 80]
      || !(48 <= s[9] <= 57) || !(48 <= s[10] <= 57) || !(48 <= s[11] <= 57)
    ensures Outcome(s) == Reply(ErrHttp, 0, 0)
  {
    HeaderIsFirst(s, 3);
    hide HeaderFrom;
  }
}
