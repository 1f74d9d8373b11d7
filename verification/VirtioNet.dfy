/** The network driver over its queues: seeding the receive buffers, and the inbox ring that
    received frames wait in. */
module VirtioNet {
  import opened Bits
  import opened Common
  import opened Virtqueue

  const HEADER_SIZE: nat := 12
  const MTU: nat := 1514
  const RX_LEN: nat := 1526
  const INBOX: nat := 32

  // ---- seeding ----

  /** The state of a receive queue after `n` buffers have been added to a fresh one. */
  ghost predicate Seeded(q: Queue, rxPhys: seq<nat>, n: nat)
    reads q, q.desc, q.avail
  {
    && q.Valid() && n <= q.size <= |rxPhys| && n < WRAP
    && q.freeCount == q.size - n && (n < q.size ==> q.freeHead == n)
    && q.availIdx == q.availShared == n
    && (forall i :: 0 <= i < n ==> q.desc[i] == Desc(rxPhys[i], RX_LEN, true, 0) && q.avail[i] == i)
    && (forall i :: n <= i < q.size - 1 ==> q.desc[i].next == i + 1)
  }

  /** One more buffer: on a queue seeded this far, the descriptor handed out is number `n`. */
  lemma SeedOne(m: Memory, n: nat, addr: nat)
    requires m.Shaped() && n < m.size <= MAX_SIZE && m.freeCount == m.size - n && m.freeHead == n && m.availIdx == n
    requires n + 1 < m.size ==> m.desc[n].next == n + 1
    ensures var (a, id) := Alloc(m);
      id == Some(n) && a.Shaped() && Fill(a, n, addr, RX_LEN, true).Shaped() &&
      var m' := Submit(Fill(a, n, addr, RX_LEN, true), n);
      && m'.desc == m.desc[n := Desc(addr, RX_LEN, true, 0)] && m'.avail == m.avail[n := n]
      && m'.freeCount == m.size - n - 1 && (n + 1 < m.size ==> m'.freeHead == n + 1)
      && m'.availIdx == m'.availShared == n + 1
  {
    var a := Alloc(m).0;
    var b := Fill(a, n, addr, RX_LEN, true);
    assert b.Shaped();
    hide Alloc, Fill;
    SubmitSmall(b, n);
  }

  lemma SubmitSmall(m: Memory, n: nat)
    requires m.Shaped() && n < m.size <= MAX_SIZE && m.availIdx == n
    ensures Submit(m, n) == m.(avail := m.avail[n := n], availIdx := n + 1, availShared := n + 1)
  {
    DivModUnique(n, m.size, 0, n);
    DivModUnique(n + 1, WRAP, 0, n + 1);
  }

  lemma SeedMore(q: Queue, m: Memory, rxPhys: seq<nat>, n: nat, page: nat)
    requires q.Valid() && n < q.size <= MAX_SIZE == |rxPhys| && m.Shaped() && m.size == q.size && rxPhys[n] == page
    requires q.desc[..] == m.desc[n := Desc(page, RX_LEN, true, 0)] && q.avail[..] == m.avail[n := n]
    requires q.freeCount == q.size - n - 1 && (n + 1 < q.size ==> q.freeHead == n + 1) && q.availIdx == q.availShared == n + 1
    requires forall i :: 0 <= i < n ==> m.desc[i] == Desc(rxPhys[i], RX_LEN, true, 0) && m.avail[i] == i
    requires forall i :: n <= i < q.size - 1 ==> m.desc[i].next == i + 1
    ensures Seeded(q, rxPhys, n + 1)
  {
    assert forall i :: 0 <= i < q.size ==> q.desc[i] == q.desc[..][i] && q.avail[i] == q.avail[..][i];
  }

  /** The memory after one more receive buffer: reserve a descriptor, fill it and submit it. */
  ghost function OneMore(m: Memory, i: nat, addr: nat): Memory {
    if m.Shaped() && Alloc(m).0.Shaped() && Fill(Alloc(m).0, i, addr, RX_LEN, true).Shaped()
    then Submit(Fill(Alloc(m).0, i, addr, RX_LEN, true), i) else m
  }

  lemma IsOneMore(m: Memory, i: nat, addr: nat)
    requires m.Shaped() && Alloc(m).0.Shaped() && Fill(Alloc(m).0, i, addr, RX_LEN, true).Shaped()
    ensures OneMore(m, i, addr) == Submit(Fill(Alloc(m).0, i, addr, RX_LEN, true), i)
  {}

  /** The memory after the first `n` receive buffers. */
  ghost function AfterSeeding(m: Memory, pages: seq<nat>, n: nat): Memory
    requires n <= |pages|
  {
    if n == 0 then m else OneMore(AfterSeeding(m, pages, n - 1), n - 1, pages[n - 1])
  }

  lemma AfterNone(m: Memory, pages: seq<nat>)
    ensures AfterSeeding(m, pages, 0) == m
  {}

  lemma AfterNext(m: Memory, pages: seq<nat>, n: nat)
    requires n < |pages|
    ensures AfterSeeding(m, pages, n + 1) == OneMore(AfterSeeding(m, pages, n), n, pages[n])
  {}

  /** One turn of the receive-seeding loop, with the page the frame allocator returned. */
  method SeedBuffer(q: Queue, rxPhys: array<nat>, n: nat, page: nat)
    requires Seeded(q, rxPhys[..], n) && n < q.size <= MAX_SIZE == rxPhys.Length && rxPhys != q.avail
    modifies q, q.desc, q.avail, rxPhys
    ensures rxPhys[..] == old(rxPhys[..])[n := page]
    ensures Seeded(q, rxPhys[..], n + 1) && q.View() == OneMore(old(q.View()), n, page)
  {
    hide Alloc, Fill, Submit, OneMore;
    rxPhys[n] := page;
    ghost var m := q.View();
    SeedOne(m, n, page);
    IsOneMore(m, n, page);
    var r := q.AddBuffer(page, RX_LEN, true);
    assert q.desc[..] == m.desc[n := Desc(page, RX_LEN, true, 0)] && q.avail[..] == m.avail[n := n];
    SeedMore(q, m, rxPhys[..], n, page);
  }

  lemma NoneSeeded(q: Queue, rxPhys: seq<nat>)
    requires q.Valid() && Fresh(q.View()) && q.size <= MAX_SIZE == |rxPhys|
    ensures Seeded(q, rxPhys, 0)
  {
    assert forall i :: 0 <= i < q.size ==> q.desc[i] == q.View().desc[i];
  }

  lemma SeededIsValid(q: Queue, rxPhys: seq<nat>, n: nat)
    requires Seeded(q, rxPhys, n)
    ensures q.Valid()
  {}

  /** The receive-seeding loop of net_init. `pages` is what the frame allocator returns, 0 when it is empty. */
  method SeedRx(q: Queue, pages: seq<nat>, rxPhys: array<nat>) returns (ok: bool)
    requires q.Valid() && Fresh(q.View()) && q.size <= MAX_SIZE == rxPhys.Length && |pages| >= q.size
    requires rxPhys != q.avail
    modifies q, q.desc, q.avail, rxPhys
    ensures ok <==> forall n :: 0 <= n < q.size ==> pages[n] != 0
    ensures ok ==> Seeded(q, rxPhys[..], q.size) && forall n :: 0 <= n < q.size ==> rxPhys[n] == pages[n]
    ensures ok ==> q.View() == AfterSeeding(old(q.View()), pages, q.size)
  {
    hide OneMore, AfterSeeding, Seeded;
    ghost var m0 := q.View();
    AfterNone(m0, pages);
    NoneSeeded(q, rxPhys[..]);
    for n := 0 to q.size
      invariant Seeded(q, rxPhys[..], n) && q.Valid()
      invariant forall i :: 0 <= i < n ==> rxPhys[i] == pages[i] != 0
      invariant q.View() == AfterSeeding(m0, pages, n)
    {
      var page := pages[n];
      if page == 0 {
        return false;
      }
      SeedBuffer(q, rxPhys, n, page);
      SeededIsValid(q, rxPhys[..], n + 1);
      AfterNext(m0, pages, n);
    }
    ok := true;
  }

  // ---- sending ----

  /** What net_send takes: an Ethernet header at least, the MTU at most, and a device ready for it. */
  predicate Takes(ready: bool, len: nat) {
    ready && 14 <= len <= MTU
  }

  class Transmitter {
    const q: Queue
    const txPhys: array<nat>
    const bufs: array<Frame>
    var present: bool
    var dropped: nat

    ghost predicate Valid()
      reads this, q, q.desc
    {
      && q.Valid() && txPhys.Length >= q.size && bufs.Length >= q.size
      && q.avail != txPhys
    }

    constructor (q: Queue, txPhys: array<nat>, bufs: array<Frame>)
      requires q.Valid() && txPhys.Length >= q.size && bufs.Length >= q.size && q.avail != txPhys
      ensures Valid() && this.q == q && this.txPhys == txPhys && this.bufs == bufs && present && dropped == 0
    {
      this.q, this.txPhys, this.bufs, present, dropped := q, txPhys, bufs, true, 0;
    }

    /** net_send: the frame goes out exactly when the device is there with its link up and a free
        descriptor and the length is right. Then the buffer of the free chain's head holds twelve zero
        bytes and the frame, its descriptor points the device at them for reading, and it is the next
        one available. Only a missing link or descriptor counts as a drop. */
    method Send(data: Frame, linkUp: bool) returns (ok: bool)
      requires Valid()
      modifies `dropped, q`freeHead, q`freeCount, q`availIdx, q`availShared, q.desc, q.avail, bufs
      ensures Valid()
      ensures ok <==> present && linkUp && old(q.freeCount) > 0 && 14 <= |data| <= 1514
      ensures ok <==> Takes(present && linkUp && old(q.freeCount) > 0, |data|)
      ensures ok ==>
        var id := old(q.freeHead);
        && q.desc[..] == old(q.desc[..])[id := Desc(txPhys[id], 12 + |data|, false, 0)]
        && q.avail[..] == old(q.avail[..])[old(q.availIdx) % q.size := id]
        && q.availIdx == q.availShared == (old(q.availIdx) + 1) % 0x1_0000
        && q.freeHead == old(q.desc[id].next) && q.freeCount == old(q.freeCount) - 1
        && |bufs[id]| == 12 + |data| && (forall i :: 0 <= i < 12 ==> bufs[id][i] == 0) && bufs[id][12..] == data
        && forall i :: 0 <= i < bufs.Length && i != id ==> bufs[i] == old(bufs[i])
      ensures !ok ==> bufs[..] == old(bufs[..])
      ensures ok ==>
        var id := old(q.freeHead);
        && bufs[id] == Zeros(HEADER_SIZE) + data
        && q.View() == Submit(Fill(Alloc(old(q.View())).0, id, txPhys[id], HEADER_SIZE + |data|, false), id)
      ensures !ok ==> q.View() == old(q.View())
      ensures dropped == old(dropped) + if present && 14 <= |data| <= MTU && !ok then 1 else 0
    {
      hide Submit, Fill;
      if !present { return false; }
      if |data| < 14 || |data| > MTU { return false; }
      if !linkUp {
        dropped := dropped + 1;
        return false;
      }
      var id := q.AllocDesc();
      if id.None? {
        dropped := dropped + 1;
        return false;
      }
      bufs[id.value] := Zeros(HEADER_SIZE) + data;
      q.DescFill(id.value, txPhys[id.value], HEADER_SIZE + |data|, false);
      q.SubmitDesc(id.value);
      ok := true;
    }
  }

  function Zeros(n: nat): Frame {
    seq(n, _ => 0)
  }

  // ---- the inbox, as a queue of frames ----

  type Frame = seq<byte>

  /** The contents of a receive buffer. */
  type Buffer = b: seq<byte> | |b| >= RX_LEN witness seq(RX_LEN, _ => 0)

  datatype InboxState = InboxState(waiting: seq<Frame>, packets: nat, dropped: nat)

  /** A completion the driver keeps: more than a header, at most a full receive buffer. */
  predicate WellFormed(len: nat) {
    HEADER_SIZE < len <= RX_LEN && len - HEADER_SIZE <= MTU
  }

  function Payload(len: nat, buf: Buffer): Frame
    requires WellFormed(len)
  {
    buf[HEADER_SIZE..len]
  }

  function Staged(s: InboxState, len: nat, buf: Buffer): InboxState {
    if !WellFormed(len) then s.(dropped := s.dropped + 1)
    else if |s.waiting| == INBOX then InboxState(s.waiting[1..] + [Payload(len, buf)], s.packets + 1, s.dropped + 1)
    else s.(waiting := s.waiting + [Payload(len, buf)], packets := s.packets + 1)
  }

  function Truncated(f: Frame, cap: nat): Frame {
    if |f| > cap then f[..cap] else f
  }

  function Received(s: InboxState, cap: nat): (InboxState, Option<Frame>) {
    if s.waiting == [] then (s, None) else (s.(waiting := s.waiting[1..]), Some(Truncated(s.waiting[0], cap)))
  }

  function Slot(head: nat, i: nat): (s: nat)
    ensures s < INBOX
  {
    (head + i) % INBOX
  }

  /** The frames in the ring slots from `head` on, oldest first. */
  function Window(pages: seq<Frame>, lens: seq<nat>, head: nat, count: nat): (w: seq<Frame>)
    requires |pages| == |lens| == INBOX && forall i :: 0 <= i < INBOX ==> lens[i] <= |pages[i]|
    ensures |w| == count
  {
    seq(count, i requires 0 <= i < count => pages[Slot(head, i)][..lens[Slot(head, i)]])
  }

  lemma WindowDrop(pages: seq<Frame>, lens: seq<nat>, head: nat, count: nat)
    requires |pages| == |lens| == INBOX && (forall i :: 0 <= i < INBOX ==> lens[i] <= |pages[i]|)
    requires head < INBOX && count > 0
    ensures Window(pages, lens, (head + 1) % INBOX, count - 1) == Window(pages, lens, head, count)[1..]
    ensures Window(pages, lens, head, count)[0] == pages[head][..lens[head]]
  {
  }

  /** Writing the slot after a window that does not fill the ring extends the window. */
  lemma WindowAppend(pages: seq<Frame>, lens: seq<nat>, head: nat, count: nat, f: Frame)
    requires |pages| == |lens| == INBOX && (forall i :: 0 <= i < INBOX ==> lens[i] <= |pages[i]|)
    requires head < INBOX && count < INBOX
    ensures var slot := Slot(head, count);
      Window(pages[slot := f], lens[slot := |f|], head, count + 1) == Window(pages, lens, head, count) + [f]
  {
    forall i | 0 <= i < count ensures Slot(head, i) != Slot(head, count) {
    }
    var slot, w := Slot(head, count), Window(pages, lens, head, count);
    var w' := Window(pages[slot := f], lens[slot := |f|], head, count + 1);
    hide Slot;
    assert w'[count] == f;
    assert w'[..count] == w;
  }

  /** The inbox ring: one page per slot, the valid length beside it. */
  class Inbox {
    const pages: array<Frame>
    const lens: array<nat>
    var head: nat
    var count: nat
    var packets: nat
    var dropped: nat

    ghost predicate Valid()
      reads this, pages, lens
    {
      && pages.Length == lens.Length == INBOX && head < INBOX && count <= INBOX
      && forall i :: 0 <= i < INBOX ==> lens[i] <= |pages[i]|
    }

    ghost function View(): (s: InboxState)
      reads this, pages, lens
      requires Valid()
    {
      InboxState(Window(pages[..], lens[..], head, count), packets, dropped)
    }

    constructor ()
      ensures Valid() && fresh(pages) && fresh(lens) && View() == InboxState([], 0, 0)
    {
      pages := new Frame[INBOX](_ => []);
      lens := new nat[INBOX](_ => 0);
      head, count, packets, dropped := 0, 0, 0, 0;
    }

    /** net_stage_rx, up to handing the frame to the protocol code. */
    method Stage(len: nat, buf: Buffer)
      requires Valid()
      modifies this, pages, lens
      ensures Valid() && View() == Staged(old(View()), len, buf)
      ensures var s, t := old(View()), View();
        if 12 < len <= 1526
        then t == InboxState((if |s.waiting| == 32 then s.waiting[1..] else s.waiting) + [buf[12..len]], s.packets + 1,
                             if |s.waiting| == 32 then s.dropped + 1 else s.dropped)
        else t == InboxState(s.waiting, s.packets, s.dropped + 1)
    {
      hide Window;
      // The MTU test adds nothing to the length test before it, since RX_LEN is the MTU plus the header.
      if len <= HEADER_SIZE || len > RX_LEN || len - HEADER_SIZE > MTU {
        dropped := dropped + 1;
        return;
      }
      var payload := len - HEADER_SIZE;
      if count == INBOX {
        WindowDrop(pages[..], lens[..], head, count);
        head := (head + 1) % INBOX;
        count := count - 1;
        dropped := dropped + 1;
      }
      WindowAppend(pages[..], lens[..], head, count, buf[HEADER_SIZE..HEADER_SIZE + payload]);
      var slot := (head + count) % INBOX;
      pages[slot] := buf[HEADER_SIZE..HEADER_SIZE + payload];
      lens[slot] := payload;
      count := count + 1;
      packets := packets + 1;
    }

    /** net_receive */
    method Receive(cap: nat) returns (r: Option<Frame>)
      requires Valid()
      modifies this
      ensures Valid() && (View(), r) == Received(old(View()), cap)
      ensures var s := old(View());
        if s.waiting == [] then r == None && View() == s
        else View() == s.(waiting := s.waiting[1..]) && r.Some? && r.value <= s.waiting[0] && |r.value| == Min(|s.waiting[0]|, cap)
    {
      hide Window;
      if count == 0 {
        return None;
      }
      WindowDrop(pages[..], lens[..], head, count);
      var n := lens[head];
      if n > cap {
        n := cap;
      }
      assert pages[head][..lens[head]][..n] == pages[head][..n];
      r := Some(pages[head][..n]);
      head := (head + 1) % INBOX;
      count := count - 1;
    }
  }

  // ---- what happens to every frame ----

  datatype Event = Arrive(len: nat, buf: Buffer) | Read(cap: nat)

  /** A frame that left the inbox: read by the application, or overwritten by a newer one. */
  datatype Gone = Returned(f: Frame) | Overwritten(f: Frame)

  /** The inbox, what left it in order, what the application was given, and the malformed arrivals. */
  datatype History = History(s: InboxState, gone: seq<Gone>, delivered: seq<Frame>, malformed: nat)

  function Happen(h: History, e: Event): History
  {
    match e
    case Arrive(len, buf) =>
      var s := Staged(h.s, len, buf);
      if !WellFormed(len) then h.(s := s, malformed := h.malformed + 1)
      else if |h.s.waiting| == INBOX then h.(s := s, gone := h.gone + [Overwritten(h.s.waiting[0])])
      else h.(s := s)
    case Read(cap) =>
      var (s, r) := Received(h.s, cap);
      if r.None? then h else h.(s := s, gone := h.gone + [Returned(h.s.waiting[0])], delivered := h.delivered + [r.value])
  }

  ghost function Happened(es: seq<Event>): History
  {
    if es == [] then History(InboxState([], 0, 0), [], [], 0) else Happen(Happened(es[..|es| - 1]), es[|es| - 1])
  }

  /** The well-formed completions, in order. */
  ghost function WellFormedFrames(es: seq<Event>): seq<Frame>
  {
    if es == [] then [] else
    var e := es[|es| - 1];
    WellFormedFrames(es[..|es| - 1]) + (if e.Arrive? && WellFormed(e.len) then [Payload(e.len, e.buf)] else [])
  }

  function GoneFrames(gone: seq<Gone>): (s: seq<Frame>)
    ensures |s| == |gone|
  {
    seq(|gone|, i requires 0 <= i < |gone| => gone[i].f)
  }

  function ReturnedFrames(gone: seq<Gone>): seq<Frame> {
    if gone == [] then [] else
    ReturnedFrames(gone[..|gone| - 1]) + (if gone[|gone| - 1].Returned? then [gone[|gone| - 1].f] else [])
  }

  function Lost(gone: seq<Gone>): nat {
    if gone == [] then 0 else Lost(gone[..|gone| - 1]) + (if gone[|gone| - 1].Overwritten? then 1 else 0)
  }

  lemma GoneStep(gone: seq<Gone>, g: Gone)
    ensures GoneFrames(gone + [g]) == GoneFrames(gone) + [g.f]
    ensures ReturnedFrames(gone + [g]) == ReturnedFrames(gone) + (if g.Returned? then [g.f] else [])
    ensures Lost(gone + [g]) == Lost(gone) + (if g.Overwritten? then 1 else 0)
    ensures |ReturnedFrames(gone)| + Lost(gone) == |gone|
  {
    assert (gone + [g])[..|gone|] == gone;
    GoneCount(gone);
  }

  lemma {:induction false} GoneCount(gone: seq<Gone>)
    ensures |ReturnedFrames(gone)| + Lost(gone) == |gone|
  {
    if gone != [] {
      GoneCount(gone[..|gone| - 1]);
    }
  }

  ghost predicate AddsUp(h: History) {
    && |h.s.waiting| <= INBOX
    && |h.delivered| == |ReturnedFrames(h.gone)|
    && (forall i :: 0 <= i < |h.delivered| ==> h.delivered[i] <= ReturnedFrames(h.gone)[i])
    && h.s.packets == |ReturnedFrames(h.gone)| + |h.s.waiting| + Lost(h.gone)
    && h.s.dropped == h.malformed + Lost(h.gone)
  }

  lemma Accounting(h: History, e: Event)
    requires AddsUp(h)
    ensures AddsUp(Happen(h, e))
    ensures var h' := Happen(h, e);
      GoneFrames(h'.gone) + h'.s.waiting ==
      GoneFrames(h.gone) + h.s.waiting + (if e.Arrive? && WellFormed(e.len) then [Payload(e.len, e.buf)] else [])
  {
    hide GoneFrames, ReturnedFrames, Lost, Payload, AddsUp, Happen;
    match e {
      case Arrive(len, buf) => AccountArrival(h, len, buf);
      case Read(cap) => AccountRead(h, cap);
    }
  }

  lemma AccountArrival(h: History, len: nat, buf: Buffer)
    requires AddsUp(h)
    ensures var h' := Happen(h, Arrive(len, buf));
      AddsUp(h') && GoneFrames(h'.gone) + h'.s.waiting == GoneFrames(h.gone) + h.s.waiting + if WellFormed(len) then [Payload(len, buf)] else []
  {
    hide GoneFrames, ReturnedFrames, Lost, Payload;
    if h.s.waiting != [] {
      var f := h.s.waiting[0];
      GoneStep(h.gone, Overwritten(f));
      assert [f] + h.s.waiting[1..] == h.s.waiting;
    }
  }

  lemma AccountRead(h: History, cap: nat)
    requires AddsUp(h)
    ensures var h' := Happen(h, Read(cap));
      AddsUp(h') && GoneFrames(h'.gone) + h'.s.waiting == GoneFrames(h.gone) + h.s.waiting
  {
    hide GoneFrames, ReturnedFrames, Lost, Payload;
    if h.s.waiting != [] {
      var f := h.s.waiting[0];
      GoneStep(h.gone, Returned(f));
      assert [f] + h.s.waiting[1..] == h.s.waiting;
    }
  }

  /** After any run of arrivals and reads, every well-formed frame is accounted for, in arrival
      order: it was returned, or overwritten, or is still waiting (at most 32 are); the application
      got the returned ones, cut to its buffer; and the two counters add up. */
  lemma {:induction false} ReceivePipeline(es: seq<Event>)
    ensures var h := Happened(es);
      GoneFrames(h.gone) + h.s.waiting == WellFormedFrames(es) && AddsUp(h)
  {
    if es != [] {
      ReceivePipeline(es[..|es| - 1]);
      Accounting(Happened(es[..|es| - 1]), es[|es| - 1]);
    }
  }
}
