/** The heap over whole runs of allocations and releases. */
module KheapRuns {
  import opened Kheap
  import opened KheapAllocator

  /** The payloads handed out: address and size of every used block. */
  ghost function Live(base: nat, segs: seq<Seg>): set<(nat, nat)> {
    set i | 0 <= i < |segs| && !segs[i].free :: (At(base, segs, i) + HEADER, segs[i].size)
  }

  lemma LiveMark(base: nat, segs: seq<Seg>, k: nat, free: bool)
    requires k < |segs| && segs[k].free != free
    ensures var p := (At(base, segs, k) + HEADER, segs[k].size);
      Live(base, segs[k := segs[k].(free := free)]) == if free then Live(base, segs) - {p} else Live(base, segs) + {p}
  {
    hide At;
    MarkAt(base, segs, k, free);
    AtInjective(base, segs);
    var segs' := segs[k := segs[k].(free := free)];
    assert !free ==> !segs'[k].free;
    var p := (At(base, segs, k) + HEADER, segs[k].size);
    forall x | x in Live(base, segs') ensures x in Live(base, segs) || (!free && x == p)
      ensures free ==> x != p
    {
      var i :| 0 <= i < |segs'| && !segs'[i].free && x == (At(base, segs', i) + HEADER, segs'[i].size);
      if i != k {
        assert !segs[i].free && At(base, segs, i) != At(base, segs, k);
      }
    }
    forall x | x in Live(base, segs) && x != (At(base, segs, k) + HEADER, segs[k].size) ensures x in Live(base, segs') {
      var i :| 0 <= i < |segs| && !segs[i].free && x == (At(base, segs, i) + HEADER, segs[i].size);
      assert !segs'[i].free;
    }
  }

  lemma LiveJoin(base: nat, segs: seq<Seg>, k: nat)
    requires k + 1 < |segs| && segs[k].free && segs[k + 1].free
    ensures Live(base, Joined(segs, k)) == Live(base, segs)
  {
    hide At;
    JoinAt(base, segs, k);
    var segs' := Joined(segs, k);
    forall x | x in Live(base, segs') ensures x in Live(base, segs) {
      var i :| 0 <= i < |segs'| && !segs'[i].free && x == (At(base, segs', i) + HEADER, segs'[i].size);
      var j := if i < k then i else i + 1;
      assert segs[j] == segs'[i];
    }
    forall x | x in Live(base, segs) ensures x in Live(base, segs') {
      var i :| 0 <= i < |segs| && !segs[i].free && x == (At(base, segs, i) + HEADER, segs[i].size);
      var j := if i < k then i else i - 1;
      assert segs'[j] == segs[i];
    }
  }

  lemma LiveSplit(base: nat, segs: seq<Seg>, k: nat, n: nat)
    requires k < |segs| && segs[k].free && segs[k].size >= n + HEADER
    ensures Live(base, Split(segs, k, n)) == Live(base, segs)
  {
    hide At;
    SplitAt(base, segs, k, n);
    var segs' := Split(segs, k, n);
    forall x | x in Live(base, segs') ensures x in Live(base, segs) {
      var i :| 0 <= i < |segs'| && !segs'[i].free && x == (At(base, segs', i) + HEADER, segs'[i].size);
      var j := if i < k then i else i - 1;
      assert segs[j] == segs'[i];
    }
    forall x | x in Live(base, segs) ensures x in Live(base, segs') {
      var i :| 0 <= i < |segs| && !segs[i].free && x == (At(base, segs, i) + HEADER, segs[i].size);
      var j := if i < k then i else i + 1;
      assert segs'[j] == segs[i];
    }
  }

  /** Allocating adds one payload and leaves every other one where it is. */
  lemma AllocLive(base: nat, segs: seq<Seg>, n: nat, k: nat)
    requires k < |segs| && Fits(segs[k], n)
    ensures |Alloc(segs, n, k)| > k && Alloc(segs, n, k)[k].size >= n
    ensures Live(base, Alloc(segs, n, k)) == Live(base, segs) + {(At(base, segs, k) + HEADER, Alloc(segs, n, k)[k].size)}
  {
    hide At;
    AllocIsSplit(segs, n, k);
    if segs[k].size >= n + HEADER + MIN_BLOCK {
      LiveSplit(base, segs, k, n);
      SplitAt(base, segs, k, n);
      LiveMark(base, Split(segs, k, n), k, false);
    } else {
      LiveMark(base, segs, k, false);
    }
  }

  /** Releasing removes one payload and leaves every other one where it is. */
  lemma ReleaseLive(base: nat, segs: seq<Seg>, i: nat)
    requires i < |segs| && !segs[i].free
    ensures Live(base, Release(segs, i)) == Live(base, segs) - {(At(base, segs, i) + HEADER, segs[i].size)}
  {
    hide At;
    LiveMark(base, segs, i, true);
    var marked := segs[i := segs[i].(free := true)];
    var before := i > 0 && segs[i - 1].free;
    if before {
      LiveJoin(base, marked, i - 1);
    }
    var joined, k := if before then Joined(marked, i - 1) else marked, if before then i - 1 else i;
    if k + 1 < |joined| && joined[k + 1].free {
      LiveJoin(base, joined, k);
    }
  }

  // ---- runs ----

  datatype Op = Take(size: nat) | Give(index: nat)

  function Step(segs: seq<Seg>, op: Op): seq<Seg> {
    match op
    case Take(size) =>
      var k := FirstFit(segs, Align16(size), 0);
      if size == 0 || k == |segs| then segs else Alloc(segs, Align16(size), k)
    case Give(i) => if i < |segs| && !segs[i].free then Release(segs, i) else segs
  }

  function Run(segs: seq<Seg>, ops: seq<Op>): seq<Seg>
    decreases |ops|
  {
    if ops == [] then segs else Run(Step(segs, ops[0]), ops[1..])
  }

  lemma StepTiles(segs: seq<Seg>, total: nat, op: Op)
    requires Tiles(segs, total)
    ensures Tiles(Step(segs, op), total)
  {
    hide Tiles, Alloc, Release;
    match op {
      case Take(size) =>
        var k := FirstFit(segs, Align16(size), 0);
        if size > 0 && k < |segs| {
          AllocTiles(segs, total, Align16(size), k);
        }
      case Give(i) =>
        if i < |segs| && !segs[i].free {
          ReleaseTiles(segs, total, i);
        }
    }
  }

  lemma {:induction false} RunTiles(segs: seq<Seg>, total: nat, ops: seq<Op>)
    requires Tiles(segs, total)
    ensures Tiles(Run(segs, ops), total)
    decreases |ops|
  {
    hide Tiles, Step;
    if ops != [] {
      StepTiles(segs, total, ops[0]);
      RunTiles(Step(segs, ops[0]), total, ops[1..]);
    }
  }

  lemma UsedIsLive(base: nat, segs: seq<Seg>, i: nat)
    requires i < |segs| && !segs[i].free
    ensures Live(base, segs) != {}
  {
    assert (At(base, segs, i) + HEADER, segs[i].size) in Live(base, segs);
  }

  /** After any run from a fresh heap the blocks tile it exactly; used, free and header bytes add up
      to the heap; payloads do not overlap; and once nothing is live the heap is the one free block
      it started as, whatever the order of the releases. */
  lemma HeapRun(base: nat, total: nat, ops: seq<Op>)
    requires total % 16 == 0 && total > HEADER
    ensures var segs := Run([Seg(total - HEADER, true)], ops);
      && Tiles(segs, total)
      && Bytes(segs, true) + Bytes(segs, false) + HEADER * |segs| == total
      && (Live(base, segs) == {} ==> segs == [Seg(total - HEADER, true)])
  {
    var start := [Seg(total - HEADER, true)];
    var segs := Run(start, ops);
    SpanRun(start);
    OnePair(start[0]);
    RunTiles(start, total, ops);
    BytesAddUp(segs);
    if Live(base, segs) == {} {
      forall i | 0 <= i < |segs| ensures segs[i].free {
        if !segs[i].free {
          UsedIsLive(base, segs, i);
        }
      }
      AllFreeIsInitial(segs, total);
    }
  }

  /** Two live payloads never overlap, and lie inside the heap. */
  lemma LiveDisjoint(base: nat, segs: seq<Seg>, total: nat, p: (nat, nat), q: (nat, nat))
    requires Tiles(segs, total) && p in Live(base, segs) && q in Live(base, segs)
    ensures p == q || p.0 + p.1 <= q.0 || q.0 + q.1 <= p.0
    ensures base + HEADER <= p.0 && p.0 + p.1 <= base + total
  {
    hide At, Tiles;
    var i :| 0 <= i < |segs| && !segs[i].free && p == (At(base, segs, i) + HEADER, segs[i].size);
    var j :| 0 <= j < |segs| && !segs[j].free && q == (At(base, segs, j) + HEADER, segs[j].size);
    if i < j {
      BlocksDisjoint(base, segs, total, i, j);
    } else if j < i {
      BlocksDisjoint(base, segs, total, j, i);
    }
    AtBase(base, segs, i);
    AtEnd(base, segs, total, i);
  }

  lemma AtEnd(base: nat, segs: seq<Seg>, total: nat, i: nat)
    requires Tiles(segs, total) && i < |segs|
    ensures At(base, segs, i) + HEADER + segs[i].size <= base + total
  {
    SpanMono(segs, i, |segs|);
    assert segs[..|segs|] == segs;
  }
}
