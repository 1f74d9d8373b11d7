/** The connection record the client updates in place, each routine proved to take the step of `Tcp`
    it stands for. The header fields are a cache of a function of the stored bytes. */
module TcpClient {
  import opened Bits
  import opened Checksum
  import opened NetFrames
  import opened Tcp

  /** The header fields agree with the bytes stored. */
  predicate HeaderCached(data: seq<byte>, done: bool, end: nat, status: nat) {
    && done == HeaderEnd(data).Some?
    && (done ==> end == HeaderEnd(data).value && end <= |data|)
    && status == HttpStatus(data)
  }

  lemma CacheStays(data: seq<byte>, more: seq<byte>, end: nat, status: nat)
    requires HeaderCached(data, true, end, status)
    ensures HeaderCached(data + more, true, end, status)
  {
    StatusStays(data, more);
  }

  lemma CacheFilled(data: seq<byte>, i: nat)
    requires 3 <= i < Scanned(data) && EndsAt(data, i) && HeaderFrom(data, i) == HeaderEnd(data)
    ensures HeaderCached(data, true, i + 1, Code(data, i + 1))
  {}

  lemma CacheEmpty(data: seq<byte>, i: nat)
    requires i >= 3 && i >= Scanned(data) && HeaderFrom(data, i) == HeaderEnd(data)
    ensures HeaderCached(data, false, 0, 0)
  {}

  /** The caller's buffer begins with the bytes stored so far. */
  ghost predicate Holds(b: array<byte>, data: seq<byte>)
    reads b
  {
    |data| <= b.Length && b[..|data|] == data
  }

  class Client {
    var active: bool
    var ctx: nat
    var phase: Phase
    var dnsSent: bool
    var tcp: TcpState
    var sport: u16
    var isn: u32
    var sndNxt: u32
    var rcvNxt: u32
    var reqSent: bool
    var reqAcked: bool
    var req: seq<byte>
    var hdrDone: bool
    var hdrEnd: nat
    var httpStatus: nat
    var buf: array<byte>
    var cap: nat
    var got: nat
    var lastSend: nat
    var deadline: nat
    var retries: nat
    var out: seq<Segment>
    var queries: nat
    var calls: seq<Reply>
    ghost var data: seq<byte>

    ghost predicate Valid()
      reads this, buf
    {
      && Holds(buf, data)
      && (active ==> got == |data| <= cap <= buf.Length && HeaderCached(data, hdrDone, hdrEnd, httpStatus) && (!hdrDone ==> hdrEnd == 0))
    }

    ghost function View(): Conn
      reads this
    {
      Conn(active, ctx, phase, dnsSent, tcp, sport, isn, sndNxt, rcvNxt, reqSent, reqAcked, req, cap, lastSend, deadline, retries, data, out, queries, calls)
    }

    constructor (context: nat, port: u16, number: u32, request: seq<byte>, b: array<byte>, size: nat, now: nat)
      requires size <= b.Length
      ensures Valid() && buf == b && View() == Start(context, port, number, request, size, now)
    {
      active, ctx, phase, dnsSent, tcp, sport, isn := true, context, Dns, false, Closed, port, number;
      sndNxt, rcvNxt, reqSent, reqAcked, req := (number + 1) % WRAP32, 0, false, false, request;
      hdrDone, hdrEnd, httpStatus, buf, cap, got := false, 0, 0, b, size, 0;
      lastSend, deadline, retries, out, queries, calls := 0, now + 1500, 0, [], 0, [];
      data := [];
      new;
      CacheEmpty([], 3);
    }

    method Send(flags: byte, seqNo: u32, ack: u32, pay: seq<byte>)
      requires Valid()
      modifies `out
      ensures Valid() && View() == Emit(old(View()), flags, seqNo, ack, pay)
    {
      out := out + [Segment(flags, seqNo, ack, pay)];
    }

    /** Clears the record and makes the callback, with the body's place if the transfer succeeded. */
    method Done(status: Status)
      requires Valid() && active
      modifies this
      ensures Valid() && buf == old(buf)
      ensures View() == Finish(old(View()), old(if status == Ok && hdrDone then Reply(Ok, hdrEnd, got - hdrEnd) else Reply(status, 0, 0)))
    {
      var off, len := 0, 0;
      if status == Ok && hdrDone && hdrEnd <= got {
        off := hdrEnd;
        len := got - off;
      }
      Clear();
      calls := calls + [Reply(status, off, len)];
    }

    /** The record set to zero, one group of fields at a time. */
    method Clear()
      requires Valid()
      modifies this
      ensures Valid() && buf == old(buf)
      ensures View() == Conn(false, 0, Dns, false, Closed, 0, 0, 0, 0, false, false, [], 0, 0, 0, 0, old(data), old(out), old(queries), old(calls))
    {
      hide Holds, HeaderCached;
      ClearTcp();
      ClearBody();
      ClearTimers();
      ClearPhase();
    }

    method ClearPhase()
      modifies `active, `ctx, `phase, `dnsSent
      ensures !active && ctx == 0 && phase == Dns && !dnsSent
    {
      active := false;
      ctx := 0;
      phase := Dns;
      dnsSent := false;
    }

    method ClearTcp()
      modifies `tcp, `sport, `isn, `sndNxt, `rcvNxt, `reqSent, `reqAcked, `req
      ensures tcp == Closed && sport == isn == sndNxt == rcvNxt == 0 && !reqSent && !reqAcked && req == []
    {
      tcp := Closed;
      sport := 0;
      isn := 0;
      sndNxt := 0;
      rcvNxt := 0;
      reqSent := false;
      reqAcked := false;
      req := [];
    }

    method ClearBody()
      modifies `hdrDone, `hdrEnd, `httpStatus, `cap, `got
      ensures !hdrDone && hdrEnd == httpStatus == cap == got == 0
    {
      hdrDone := false;
      hdrEnd := 0;
      httpStatus := 0;
      cap := 0;
      got := 0;
    }

    method ClearTimers()
      modifies `lastSend, `deadline, `retries
      ensures lastSend == deadline == retries == 0
    {
      lastSend := 0;
      deadline := 0;
      retries := 0;
    }

    method DoneHttp()
      requires Valid() && active
      modifies this
      ensures Valid() && buf == old(buf) && View() == Finish(old(View()), Outcome(old(data)))
    {
      hide HeaderFrom;
      Done(if 200 <= httpStatus < 400 then Ok else ErrHttp);
    }

    method SendRequest(now: nat)
      requires Valid() && active
      modifies this
      ensures Valid() && buf == old(buf)
      ensures View() == Emit(old(View()), ACK, old(sndNxt), old(rcvNxt), old(req)).(
        sndNxt := (old(sndNxt) + |old(req)|) % WRAP32, reqSent := true, lastSend := now)
    {
      hide Holds, HeaderCached;
      Send(ACK, sndNxt, rcvNxt, req);
      Sent(now);
    }

    method Sent(now: nat)
      requires Valid()
      modifies `sndNxt, `reqSent, `lastSend
      ensures Valid() && View() == old(View()).(sndNxt := (old(sndNxt) + |req|) % WRAP32, reqSent := true, lastSend := now)
    {
      hide Holds, HeaderCached;
      sndNxt := (sndNxt + |req|) % WRAP32;
      reqSent := true;
      lastSend := now;
    }

    method CopyIn(pay: seq<byte>)
      requires Holds(buf, data) && |data| == got && got + |pay| <= buf.Length
      modifies buf
      ensures Holds(buf, data + pay)
    {
      var i := 0;
      while i < |pay|
        invariant 0 <= i <= |pay|
        invariant buf[..got + i] == data + pay[..i]
        modifies buf
      {
        buf[got + i] := pay[i];
        i := i + 1;
        assert buf[..got + i] == buf[..got + i - 1] + [pay[i - 1]];
        assert pay[..i] == pay[..i - 1] + [pay[i - 1]];
      }
      assert pay[..i] == pay;
    }

    /** Copies up to the room left and moves the receive number by what was kept. */
    method Keep(seg: Segment) returns (take: nat)
      requires Valid() && active
      modifies `data, `got, `rcvNxt, buf
      ensures take == Take(old(View()), seg) && View() == Store(old(View()), seg)
      ensures data == old(data) + seg.data[..take] && |data| <= cap <= buf.Length && got == |data| && Holds(buf, data)
    {
      hide HeaderCached, Holds;
      var room := cap - got;
      take := if |seg.data| > room then room else |seg.data|;
      assert |data| <= buf.Length by { Bounded(); }
      CopyIn(seg.data[..take]);
      data := data + seg.data[..take];
      got := got + take;
      rcvNxt := (rcvNxt + take) % WRAP32;
    }

    lemma Bounded()
      requires Holds(buf, data)
      ensures |data| <= buf.Length
    {}

    /** Looks for the blank line in the first 2048 bytes and reads the status when it is found. */
    method Scan()
      requires active && got == |data| <= cap <= buf.Length && buf[..|data|] == data && !hdrDone && hdrEnd == 0 && httpStatus == 0
      modifies `hdrDone, `hdrEnd, `httpStatus
      ensures Valid()
    {
      var scan := if got < HDR_MAX then got else HDR_MAX;
      var i := 3;
      while i < scan && !hdrDone
        invariant i >= 3 && scan == Scanned(data)
        invariant !hdrDone ==> hdrEnd == 0 && httpStatus == 0 && HeaderFrom(data, i) == HeaderEnd(data)
        invariant hdrDone ==> HeaderCached(data, true, hdrEnd, httpStatus)
        decreases scan - i, !hdrDone
      {
        assert forall j :: 0 <= j < got ==> buf[j] == data[j];
        if buf[i - 3] == 13 && buf[i - 2] == 10 && buf[i - 1] == 13 && buf[i] == 10 {
          CacheFilled(data, i);
          hdrDone := true;
          hdrEnd := i + 1;
          ReadStatus();
        } else {
          i := i + 1;
        }
      }
      if !hdrDone { CacheEmpty(data, i); }
    }

    method ReadStatus()
      requires got == |data| <= buf.Length && buf[..|data|] == data && hdrEnd <= got && httpStatus == 0
      modifies `httpStatus
      ensures httpStatus == Code(data, hdrEnd)
    {
      assert forall j :: 0 <= j < got ==> buf[j] == data[j];
      if hdrEnd >= 12 && buf[0] == 72 && buf[1] == 84 && buf[2] == 84 && buf[3] == 80 {
        assert data[..4] == [72, 84, 84, 80];
        var c1, c2, c3 := buf[9], buf[10], buf[11];
        if 48 <= c1 <= 57 && 48 <= c2 <= 57 && 48 <= c3 <= 57 {
          httpStatus := (c1 as int - 48) * 100 + (c2 as int - 48) * 10 + (c3 as int - 48);
        }
      } else if hdrEnd >= 12 {
        assert data[..4][0] == data[0] && data[..4][1] == data[1] && data[..4][2] == data[2] && data[..4][3] == data[3];
      }
    }

    /** Storing a segment and bringing the header fields up to date. */
    method KeepAndScan(seg: Segment) returns (take: nat)
      requires Valid() && active
      modifies this, buf
      ensures Valid() && buf == old(buf) && active && take == Take(old(View()), seg) && View() == Store(old(View()), seg)
    {
      hide HeaderFrom, HttpStatus;
      ghost var was := data;
      assert !hdrDone ==> httpStatus == 0 by { StatusNeedsHeader(data); }
      take := Keep(seg);
      if !hdrDone {
        Scan();
      } else {
        CacheStays(was, seg.data[..take], hdrEnd, httpStatus);
      }
    }

    lemma StatusNeedsHeader(s: seq<byte>)
      ensures HeaderEnd(s).None? ==> HttpStatus(s) == 0
    {}

    lemma Seen()
      ensures var c := View();
        && c.active == active && c.ctx == ctx && c.phase == phase && c.dnsSent == dnsSent && c.tcp == tcp && c.sport == sport && c.isn == isn && c.sndNxt == sndNxt
        && c.rcvNxt == rcvNxt && c.req == req && c.data == data && c.reqSent == reqSent && c.reqAcked == reqAcked
        && c.lastSend == lastSend && c.deadline == deadline && c.retries == retries
    {}

    method Opened(next: u32)
      requires Valid() && active
      modifies this
      ensures Valid() && buf == old(buf) && View() == old(View()).(rcvNxt := next, tcp := Estab, phase := Transfer)
    {
      hide Holds, HeaderCached;
      rcvNxt := next;
      tcp := Estab;
      phase := Transfer;
    }

    method Note(seg: Segment)
      requires Valid() && active
      modifies `reqAcked
      ensures Valid() && View() == Noted(old(View()), seg)
    {
      hide Holds, HeaderCached, Has;
      if Has(seg.flags, ACK) && reqSent && !reqAcked && seg.ack >= sndNxt {
        reqAcked := true;
      }
    }

    method CloseDown()
      requires Valid() && active
      modifies this
      ensures Valid() && buf == old(buf) && View() == Close(old(View()))
    {
      hide Holds, HeaderCached, Outcome;
      rcvNxt := (rcvNxt + 1) % WRAP32;
      Send(17, sndNxt, rcvNxt, []);
      DoneHttp();
    }

    method HandleSegment(seg: Segment, now: nat)
      requires Valid() && active
      modifies this, buf
      ensures Valid() && buf == old(buf) && View() == Handle(old(View()), seg, now)
    {
      hide Valid, View, Has, HandleEstab;
      Seen();
      if tcp == SynSent {
        if !Has(seg.flags, SYN) || !Has(seg.flags, ACK) { return; }
        if seg.ack != (isn + 1) % WRAP32 { return; }
        if Has(seg.flags, RST) { Reset(); return; }
        Opened((seg.seqNo + 1) % WRAP32);
        Seen();
        SendRequest(now);
        return;
      }
      if tcp != Estab { return; }
      HandleData(seg);
    }

    method Reset()
      requires Valid() && active
      modifies this
      ensures Valid() && buf == old(buf) && View() == Fail(old(View()), ErrConn)
    {
      hide Holds, HeaderCached;
      Done(ErrConn);
    }

    method HandleData(seg: Segment)
      requires Valid() && active && tcp == Estab
      modifies this, buf
      ensures Valid() && buf == old(buf) && View() == HandleEstab(old(View()), seg)
    {
      hide Valid, View, Has, Take, Outcome, Noted, Store, Close;
      if Has(seg.flags, RST) { Reset(); return; }
      ghost var start := View();
      Note(seg);
      Seen();
      ghost var c := View();
      var adv := 0;
      if |seg.data| > 0 && seg.seqNo == rcvNxt {
        var take := KeepAndScan(seg);
        Seen();
        adv := take;
        if take < |seg.data| {
          Send(ACK, sndNxt, rcvNxt, []);
          Seen();
          DoneHttp();
          return;
        }
      } else if |seg.data| > 0 {
        Send(ACK, sndNxt, rcvNxt, []);
        return;
      }
      if Has(seg.flags, FIN) {
        CloseDown();
        return;
      }
      if adv != 0 { Send(ACK, sndNxt, rcvNxt, []); }
    }

    /** A TCP segment taken off the wire reaches the connection if its port matches. */
    method Receive(dport: u16, seg: Segment, now: nat)
      requires Valid()
      modifies this, buf
      ensures Valid() && buf == old(buf) && View() == Step(old(View()), Arrive(dport, seg, now))
    {
      hide Holds, HeaderCached, Handle;
      if active && dport == sport { HandleSegment(seg, now); }
    }

    method PollConnecting(now: nat, gateway: bool)
      requires Valid() && active && phase == Connect
      modifies `retries, `lastSend, `tcp, `out
      ensures Valid() && View() == PollConnect(old(View()), now, gateway)
    {
      hide Holds, HeaderCached;
      retries := 0;
      if !gateway {
        if now - lastSend >= RETRY { lastSend := now; }
        return;
      }
      if tcp != SynSent {
        tcp := SynSent;
        Send(SYN, isn, 0, []);
        lastSend := now;
      } else if now - lastSend >= RETRY {
        retries := retries + 1;
        // The limit of 24 is never reached, since every poll starts the count again.
        if retries > 24 { assert false; }
        Send(SYN, isn, 0, []);
        lastSend := now;
      }
    }

    method PollTransferring(now: nat)
      requires Valid() && active && phase == Transfer
      modifies this
      ensures Valid() && buf == old(buf) && View() == PollTransfer(old(View()), now)
    {
      hide Holds, HeaderCached;
      if reqSent && !reqAcked && now - lastSend >= RETRY {
        retries := retries + 1;
        if retries > MAX_RETRIES { Reset(); return; }
        Send(ACK, (sndNxt - |req|) % WRAP32, rcvNxt, req);
        lastSend := now;
      }
    }

    method PollLookup(now: nat, resolver: bool)
      requires Valid() && active && phase == Dns
      modifies `retries, `lastSend, `dnsSent, `queries
      ensures Valid() && View() == PollDns(old(View()), now, resolver)
    {
      hide Holds, HeaderCached;
      retries := 0;
      if !dnsSent {
        if resolver {
          Query(now);
          dnsSent := true;
        } else if now - lastSend >= RETRY {
          lastSend := now;
        }
      } else if now - lastSend >= RETRY {
        retries := retries + 1;
        // The limit of 8 is never reached either.
        if retries > 8 { assert false; }
        Query(now);
      }
    }

    /** A name query goes out. */
    method Query(now: nat)
      modifies `queries, `lastSend
      ensures queries == old(queries) + 1 && lastSend == now
    {
      queries := queries + 1;
      lastSend := now;
    }

    method PollAt(now: nat, gateway: bool, resolver: bool)
      requires Valid()
      modifies this
      ensures Valid() && buf == old(buf) && View() == Step(old(View()), Poll(now, gateway, resolver))
    {
      hide Valid, View, PollDns, PollConnect, PollTransfer;
      Seen();
      if !active { return; }
      if now >= deadline { Reset(); return; }
      if phase == Dns {
        PollLookup(now, resolver);
        return;
      }
      if phase == Connect {
        PollConnecting(now, gateway);
        return;
      }
      PollTransferring(now);
    }

    method Resolved(found: bool)
      requires Valid()
      modifies this
      ensures Valid() && buf == old(buf) && View() == Step(old(View()), Resolve(found))
    {
      hide Holds, HeaderCached;
      if !active || phase != Dns { return; }
      if !found { Done(ErrDns); return; }
      phase := Connect;
    }

    method AbortRequest(context: nat)
      requires Valid()
      modifies this
      ensures Valid() && buf == old(buf) && View() == Step(old(View()), Abort(context))
    {
      hide Holds, HeaderCached;
      if active && ctx == context { Clear(); }
    }
  }
}
