/** The receive queue over whole runs: seeding it is a run of driver calls, and from then on, whatever
    driver and device do, descriptor `i` points at receive page `i`. */
module RxRuns {
  import opened Virtqueue
  import opened VirtqueueProtocol
  import opened VirtioNet

  /** Every fill gives a descriptor its own page, as both the seeding loop and recycling do. */
  predicate OwnPages(steps: seq<Step>, rxPhys: seq<nat>) {
    forall k :: 0 <= k < |steps| && steps[k].DrvFill? ==> steps[k].id < |rxPhys| && steps[k].addr == rxPhys[steps[k].id]
  }

  predicate Fills(steps: seq<Step>, i: nat) {
    exists k :: 0 <= k < |steps| && steps[k].DrvFill? && steps[k].id == i
  }

  /** Descriptor `i` points at receive page `i`. */
  predicate OnPage(m: Memory, rxPhys: seq<nat>, i: nat) {
    i < |m.desc| && i < |rxPhys| && m.desc[i].addr == rxPhys[i]
  }

  lemma StepOnPage(w: World, s: Step, rxPhys: seq<nat>, i: nat)
    requires Inv(w) && Enabled(w, s) && i < w.m.size <= |rxPhys| && OwnPages([s], rxPhys)
    requires w.m.desc[i].addr == rxPhys[i] || (s.DrvFill? && s.id == i)
    ensures OnPage(Next(w, s).m, rxPhys, i)
  {
    if !s.DrvFill? {
      StepKeepsAddress(w, s, i);
    } else {
      assert [s][0] == s;
    }
  }

  /** A descriptor on its page stays there, and one that gets filled comes to be there. */
  lemma {:induction false} FilledOnPage(w: World, steps: seq<Step>, w': World, rxPhys: seq<nat>, i: nat)
    requires Inv(w) && Run(w, steps, w') && OwnPages(steps, rxPhys) && i < w.m.size <= |rxPhys|
    requires w.m.desc[i].addr == rxPhys[i] || Fills(steps, i)
    ensures OnPage(w'.m, rxPhys, i)
    decreases |steps|
  {
    hide Inv, Enabled, Next;
    InvShaped(w);
    if steps != [] {
      var s := steps[0];
      StepKeeps(w, s);
      SameSize(w, s);
      assert OwnPages([s], rxPhys);
      if w.m.desc[i].addr == rxPhys[i] || (s.DrvFill? && s.id == i) {
        StepOnPage(w, s, rxPhys, i);
      } else {
        var k :| 0 <= k < |steps| && steps[k].DrvFill? && steps[k].id == i;
        assert steps[1..][k - 1] == steps[k];
      }
      FilledOnPage(Next(w, s), steps[1..], w', rxPhys, i);
    }
  }

  lemma SameSize(w: World, s: Step)
    requires Inv(w) && Enabled(w, s)
    ensures Next(w, s).m.size == w.m.size
  {}

  /** On any run that fills every descriptor with its own page, whatever else is interleaved, every
      descriptor's address is its page. */
  lemma AddressIsItsPage(w0: World, steps: seq<Step>, w: World, rxPhys: seq<nat>)
    requires Init(w0) && Run(w0, steps, w) && OwnPages(steps, rxPhys) && w0.m.size <= |rxPhys|
    requires forall i :: 0 <= i < w0.m.size ==> Fills(steps, i)
    ensures forall i :: 0 <= i < w0.m.size ==> OnPage(w.m, rxPhys, i)
  {
    hide Inv, Run, OwnPages, Fills;
    InitInv(w0);
    hide Init;
    forall i | 0 <= i < w0.m.size ensures OnPage(w.m, rxPhys, i) {
      FilledOnPage(w0, steps, w, rxPhys, i);
    }
  }

  /** The driver calls for one receive buffer: reserve, fill, store, publish. */
  function Four(rxPhys: seq<nat>, i: nat): seq<Step>
    requires i < |rxPhys|
  {
    [DrvAlloc, DrvFill(i, rxPhys[i], RX_LEN, true), DrvStore(i), DrvPublish]
  }

  /** The seeding loop's driver calls, for buffers `i` to `n`. */
  function SeedSteps(rxPhys: seq<nat>, i: nat, n: nat): seq<Step>
    requires i <= n <= |rxPhys|
    decreases n - i
  {
    if i == n then []
    else Four(rxPhys, i) + SeedSteps(rxPhys, i + 1, n)
  }

  /** A memory seeded with the first `n` pages: what `Seeded` says of a queue. */
  ghost predicate SeededMemory(m: Memory, rxPhys: seq<nat>, n: nat) {
    && m.Shaped() && n <= m.size <= |rxPhys| && m.size <= MAX_SIZE
    && m.freeCount == m.size - n && (n < m.size ==> m.freeHead == n)
    && m.availIdx == m.availShared == n
    && (forall i :: 0 <= i < n ==> m.desc[i] == Desc(rxPhys[i], RX_LEN, true, 0) && m.avail[i] == i)
    && (forall i :: n <= i < m.size - 1 ==> m.desc[i].next == i + 1)
  }

  lemma SeededIsMemory(q: Queue, rxPhys: seq<nat>, n: nat)
    requires Seeded(q, rxPhys, n) && q.size <= MAX_SIZE
    ensures SeededMemory(q.View(), rxPhys, n)
  {}

  lemma RunOne(w: World, s: Step, rest: seq<Step>, z: World)
    requires w.m.Shaped() && Enabled(w, s) && Run(Next(w, s), rest, z)
    ensures Run(w, [s] + rest, z)
  {
    assert ([s] + rest)[1..] == rest;
  }

  lemma InvShaped(w: World)
    requires Inv(w)
    ensures w.m.Shaped() && |w.owner| == w.m.size
  {}

  lemma SeedAlloc(w: World, rxPhys: seq<nat>, i: nat)
    requires Inv(w) && SeededMemory(w.m, rxPhys, i) && i < w.m.size && w.storing.None?
    ensures Enabled(w, DrvAlloc) && Inv(Next(w, DrvAlloc))
    ensures var a := Next(w, DrvAlloc);
      a.m == Alloc(w.m).0 && a.storing.None? && i < |a.owner| && a.owner[i] == Reserved
  {
    InvShaped(w);
    hide Inv;
    StepKeeps(w, DrvAlloc);
  }

  lemma SeedFill(a: World, i: nat, addr: nat)
    requires Inv(a) && a.storing.None? && i < |a.owner| && a.owner[i] == Reserved
    ensures var s := DrvFill(i, addr, RX_LEN, true);
      a.m.Shaped() && Enabled(a, s) && Inv(Next(a, s)) && Next(a, s) == a.(m := Fill(a.m, i, addr, RX_LEN, true))
  {
    InvShaped(a);
    hide Inv;
    StepKeeps(a, DrvFill(i, addr, RX_LEN, true));
  }

  lemma SeedStore(b: World, i: nat)
    requires Inv(b) && b.storing.None? && i < |b.owner| && b.owner[i] == Reserved
    ensures b.m.Shaped() && Enabled(b, DrvStore(i)) && Inv(Next(b, DrvStore(i)))
    ensures Next(b, DrvStore(i)).m == StoreAvail(b.m, i) && Next(b, DrvStore(i)).storing.Some?
  {
    InvShaped(b);
    hide Inv;
    StepKeeps(b, DrvStore(i));
  }

  lemma SeedPublish(c: World)
    requires Inv(c) && c.storing.Some?
    ensures c.m.Shaped() && Enabled(c, DrvPublish) && Inv(Next(c, DrvPublish))
    ensures Next(c, DrvPublish).m == PublishAvail(c.m) && Next(c, DrvPublish).storing.None?
  {
    InvShaped(c);
    hide Inv;
    StepKeeps(c, DrvPublish);
  }

  lemma SeededNext(m: Memory, rxPhys: seq<nat>, i: nat)
    requires SeededMemory(m, rxPhys, i) && i < m.size
    ensures var a := Alloc(m).0;
      a.Shaped() && Fill(a, i, rxPhys[i], RX_LEN, true).Shaped() &&
      var m' := Submit(Fill(a, i, rxPhys[i], RX_LEN, true), i);
      m'.size == m.size && (m'.Shaped() ==> SeededMemory(m', rxPhys, i + 1))
  {
    SeedOne(m, i, rxPhys[i]);
    SameSizes(m, i, rxPhys[i]);
    hide Alloc, Fill, Submit;
  }

  lemma SameSizes(m: Memory, i: nat, addr: nat)
    requires m.Shaped() && Alloc(m).0.Shaped() && Fill(Alloc(m).0, i, addr, RX_LEN, true).Shaped()
    ensures Submit(Fill(Alloc(m).0, i, addr, RX_LEN, true), i).size == m.size
  {}

  /** The four calls for one buffer, one after another. */
  lemma SeedFour(w: World, rxPhys: seq<nat>, i: nat) returns (a: World, b: World, c: World, d: World)
    requires Inv(w) && SeededMemory(w.m, rxPhys, i) && i < w.m.size && w.storing.None?
    ensures w.m.Shaped() && Enabled(w, DrvAlloc) && a == Next(w, DrvAlloc)
    ensures a.m.Shaped() && Enabled(a, DrvFill(i, rxPhys[i], RX_LEN, true)) && b == Next(a, DrvFill(i, rxPhys[i], RX_LEN, true))
    ensures b.m.Shaped() && Enabled(b, DrvStore(i)) && c == Next(b, DrvStore(i))
    ensures c.m.Shaped() && Enabled(c, DrvPublish) && d == Next(c, DrvPublish)
    ensures Inv(d) && SeededMemory(d.m, rxPhys, i + 1) && d.storing.None? && d.m.size == w.m.size
    ensures d.m == OneMore(w.m, i, rxPhys[i])
  {
    hide Inv, Enabled, Next, Fill, Alloc;
    SeedAlloc(w, rxPhys, i);
    a := Next(w, DrvAlloc);
    SeedFill(a, i, rxPhys[i]);
    b := Next(a, DrvFill(i, rxPhys[i], RX_LEN, true));
    SeedStore(b, i);
    c := Next(b, DrvStore(i));
    SeedPublish(c);
    d := Next(c, DrvPublish);
    InvShaped(d);
    SeededNext(w.m, rxPhys, i);
    hide SeededMemory;
    assert d.m == Submit(b.m, i);
  }

  lemma {:induction false} SeedRunFrom(w: World, rxPhys: seq<nat>, i: nat, m0: Memory) returns (w1: World)
    requires Inv(w) && SeededMemory(w.m, rxPhys, i) && w.storing.None? && w.m == AfterSeeding(m0, rxPhys, i)
    ensures i <= w.m.size <= |rxPhys| && Run(w, SeedSteps(rxPhys, i, w.m.size), w1)
    ensures Inv(w1) && SeededMemory(w1.m, rxPhys, w1.m.size) && w1.m == AfterSeeding(m0, rxPhys, w.m.size)
    ensures w1.m.size == w.m.size
    decreases w.m.size - i
  {
    hide Inv, Enabled, Next, OneMore, Run;
    if i == w.m.size {
      w1 := w;
      RunNone(w);
    } else {
      var a, b, c, d := SeedFour(w, rxPhys, i);
      w1 := SeedRunFrom(d, rxPhys, i + 1, m0);
      FourRun(w, a, b, c, d, rxPhys, i, w1);
    }
  }

  lemma RunNone(w: World)
    ensures Run(w, [], w)
  {}

  /** A run that starts with the four calls. */
  lemma FourRun(w: World, a: World, b: World, c: World, d: World, rxPhys: seq<nat>, i: nat, w1: World)
    requires i < w.m.size <= |rxPhys|
    requires w.m.Shaped() && Enabled(w, DrvAlloc) && a == Next(w, DrvAlloc)
    requires a.m.Shaped() && Enabled(a, DrvFill(i, rxPhys[i], RX_LEN, true)) && b == Next(a, DrvFill(i, rxPhys[i], RX_LEN, true))
    requires b.m.Shaped() && Enabled(b, DrvStore(i)) && c == Next(b, DrvStore(i))
    requires c.m.Shaped() && Enabled(c, DrvPublish) && d == Next(c, DrvPublish)
    requires Run(d, SeedSteps(rxPhys, i + 1, w.m.size), w1)
    ensures Run(w, SeedSteps(rxPhys, i, w.m.size), w1)
  {
    hide Enabled, Next, Run;
    var rest := SeedSteps(rxPhys, i + 1, w.m.size);
    RunOne(c, DrvPublish, rest, w1);
    RunOne(b, DrvStore(i), [DrvPublish] + rest, w1);
    RunOne(a, DrvFill(i, rxPhys[i], RX_LEN, true), [DrvStore(i)] + ([DrvPublish] + rest), w1);
    RunOne(w, DrvAlloc, [DrvFill(i, rxPhys[i], RX_LEN, true)] + ([DrvStore(i)] + ([DrvPublish] + rest)), w1);
    assert SeedSteps(rxPhys, i, w.m.size) ==
      [DrvAlloc] + ([DrvFill(i, rxPhys[i], RX_LEN, true)] + ([DrvStore(i)] + ([DrvPublish] + rest)));
  }

  /** Seeding a fresh queue is a run, and it leaves the memory that the seeding loop's contract describes. */
  lemma SeedingIsARun(w0: World, rxPhys: seq<nat>) returns (w1: World)
    requires Init(w0) && w0.m.size <= |rxPhys|
    ensures Run(w0, SeedSteps(rxPhys, 0, w0.m.size), w1)
    ensures Inv(w1) && SeededMemory(w1.m, rxPhys, w1.m.size) && w1.m.size == w0.m.size
    ensures w1.m == AfterSeeding(w0.m, rxPhys, w0.m.size)
  {
    InitInv(w0);
    hide Inv, Run;
    w1 := SeedRunFrom(w0, rxPhys, 0, w0.m);
  }

  lemma InitFresh(w: World)
    requires Init(w)
    ensures Fresh(w.m) && w.m.size <= MAX_SIZE
  {}

  /** From `w0` the driver calls for all the pages lead to `w1`, whose memory `m` is and is seeded. */
  ghost predicate Joined(w0: World, w1: World, m: Memory, pages: seq<nat>, rxPhys: seq<nat>) {
    && m.size <= |pages| && m.size <= |rxPhys| && Inv(w1) && w1.m == m
    && Run(w0, SeedSteps(pages, 0, m.size), w1)
    && SeededMemory(m, rxPhys, m.size) && forall n :: 0 <= n < m.size ==> rxPhys[n] == pages[n]
  }

  /** The seeding loop and the protocol, joined: when the loop succeeds on a fresh queue, its driver
      calls are a run, and that run ends in a world whose memory is the queue's. Every run from there
      on keeps each descriptor on its page, by `SeededAddressesStay`. */
  method SeedReceiveQueue(q: Queue, pages: seq<nat>, rxPhys: array<nat>, ghost w0: World) returns (ok: bool, ghost w1: World)
    requires q.Valid() && Init(w0) && w0.m == q.View() && q.size <= MAX_SIZE == rxPhys.Length && |pages| >= q.size
    requires rxPhys != q.avail
    modifies q, q.desc, q.avail, rxPhys
    ensures ok <==> forall n :: 0 <= n < q.size ==> pages[n] != 0
    ensures ok ==> q.Valid() && Joined(w0, w1, q.View(), pages, rxPhys[..])
  {
    hide Inv, Run, OneMore, AfterSeeding, Init, Seeded, SeededMemory;
    ghost var m0 := w0.m;
    assert Fresh(m0) && m0.size == q.size <= MAX_SIZE by { InitFresh(w0); }
    w1 := w0;
    ok := SeedRx(q, pages, rxPhys);
    if ok {
      w1 := SeedingIsARun(w0, pages);
      SeededIsMemory(q, rxPhys[..], q.size);
    }
  }

  /** After seeding, on every run in which a fill only ever gives a descriptor its own page, receive
      descriptor `i` keeps pointing at page `i`, whatever is popped, recycled, taken or returned. */
  lemma SeededAddressesStay(w1: World, steps: seq<Step>, w: World, rxPhys: seq<nat>)
    requires Inv(w1) && SeededMemory(w1.m, rxPhys, w1.m.size) && Run(w1, steps, w) && OwnPages(steps, rxPhys)
    ensures forall i :: 0 <= i < w1.m.size ==> OnPage(w.m, rxPhys, i)
  {
    hide Inv, Run, OwnPages, Fills;
    forall i | 0 <= i < w1.m.size ensures OnPage(w.m, rxPhys, i) {
      FilledOnPage(w1, steps, w, rxPhys, i);
    }
  }
}
