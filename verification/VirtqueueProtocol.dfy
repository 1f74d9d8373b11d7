/** Driver and device sharing a virtqueue, as interleaved steps: who owns each descriptor, and what
    each side has handed to the other. A submission and a completion are two steps each, the ring
    store and the index store, so the other side may move in between. */
module VirtqueueProtocol {
  import opened Common
  import opened Virtqueue
  import Bits

  datatype Owner = Free | Reserved | Available | Held | Used | Popped

  /** The memory, the device's own counters, and the history of both directions. */
  datatype World = World(m: Memory, owner: seq<Owner>, storing: Option<nat>,
                         devAvail: nat, devUsed: nat, devStoring: Option<Elem>,
                         submitted: seq<nat>, taken: seq<nat>, completed: seq<Elem>, popped: seq<Elem>)

  datatype Step =
    | DrvAlloc
    | DrvFill(id: nat, addr: nat, len: nat, deviceWrites: bool)
    | DrvStore(id: nat)
    | DrvPublish
    | DrvFree(id: nat)
    | DrvPop
    | DevTake
    | DevStore(id: nat, len: nat)
    | DevPublish

  /** The driver is sequential and passes only descriptors it owns; the device returns only
      descriptors it holds. Filling and freeing are never done between the two stores. */
  ghost predicate Enabled(w: World, s: Step) {
    match s
    case DrvAlloc => w.storing.None?
    case DrvFill(id, _, _, _) => w.storing.None? && id < |w.owner| && w.owner[id] == Reserved
    case DrvStore(id) => w.storing.None? && id < |w.owner| && (w.owner[id] == Reserved || w.owner[id] == Popped)
    case DrvPublish => w.storing.Some?
    case DrvFree(id) => w.storing.None? && id < |w.owner| && (w.owner[id] == Reserved || w.owner[id] == Popped)
    case DrvPop => w.storing.None?
    case DevTake => true
    case DevStore(id, _) => w.devStoring.None? && id < |w.owner| && w.owner[id] == Held
    case DevPublish => w.devStoring.Some?
  }

  function Give(owner: seq<Owner>, id: nat, o: Owner): seq<Owner> {
    if id < |owner| then owner[id := o] else owner
  }

  function Next(w: World, s: Step): World
    requires w.m.Shaped()
  {
    match s
    case DrvAlloc =>
      var (m, r) := Alloc(w.m);
      if r.None? then w else w.(m := m, owner := Give(w.owner, r.value, Reserved))
    case DrvFill(id, addr, len, dw) => w.(m := Fill(w.m, id, addr, len, dw))
    case DrvStore(id) => w.(m := StoreAvail(w.m, id), storing := Some(id))
    case DrvPublish =>
      if w.storing.None? then w else
      w.(m := PublishAvail(w.m), storing := None, owner := Give(w.owner, w.storing.value, Available),
         submitted := w.submitted + [w.storing.value])
    case DrvFree(id) => w.(m := FreeDesc(w.m, id), owner := Give(w.owner, id, Free))
    case DrvPop =>
      var (m, r) := Pop(w.m);
      if r.None? then w else w.(m := m, owner := Give(w.owner, r.value.id, Popped), popped := w.popped + [r.value])
    case DevTake =>
      if w.devAvail == w.m.availShared then w else
      var id := w.m.avail[w.devAvail % w.m.size];
      w.(devAvail := (w.devAvail + 1) % WRAP, owner := Give(w.owner, id, Held), taken := w.taken + [id])
    case DevStore(id, len) =>
      w.(m := w.m.(used := w.m.used[w.devUsed % w.m.size := Elem(id, len)]), devStoring := Some(Elem(id, len)))
    case DevPublish =>
      if w.devStoring.None? then w else
      var i := (w.devUsed + 1) % WRAP;
      w.(m := w.m.(usedShared := i), devUsed := i, devStoring := None,
         owner := Give(w.owner, w.devStoring.value.id, Used), completed := w.completed + [w.devStoring.value])
  }

  // ---- lists of the descriptors in one state ----

  /** `ids` lists every descriptor owned by `o`, each exactly once. */
  ghost predicate Lists(ids: seq<nat>, owner: seq<Owner>, o: Owner) {
    && (forall j :: 0 <= j < |ids| ==> ids[j] < |owner| && owner[ids[j]] == o)
    && (forall j, k :: 0 <= j < k < |ids| ==> ids[j] != ids[k])
    && (forall i :: 0 <= i < |owner| && owner[i] == o ==> i in ids)
  }

  lemma ListsOther(ids: seq<nat>, owner: seq<Owner>, o: Owner, i: nat, y: Owner)
    requires Lists(ids, owner, o) && i < |owner| && owner[i] != o && y != o
    ensures Lists(ids, owner[i := y], o)
  {
  }

  lemma ListsAppend(ids: seq<nat>, owner: seq<Owner>, o: Owner, i: nat)
    requires Lists(ids, owner, o) && i < |owner| && owner[i] != o
    ensures Lists(ids + [i], owner[i := o], o)
  {
    var ids', owner' := ids + [i], owner[i := o];
    assert ids'[|ids|] == i;
    forall k | 0 <= k < |owner'| && owner'[k] == o ensures k in ids' {
      if k != i {
        assert k in ids;
      }
    }
  }

  lemma ListsPush(ids: seq<nat>, owner: seq<Owner>, o: Owner, i: nat)
    requires Lists(ids, owner, o) && i < |owner| && owner[i] != o
    ensures Lists([i] + ids, owner[i := o], o)
  {
    var ids', owner' := [i] + ids, owner[i := o];
    assert ids'[0] == i;
    forall k | 0 <= k < |owner'| && owner'[k] == o ensures k in ids' {
      if k != i {
        assert k in ids;
      }
    }
  }

  lemma ListsPop(ids: seq<nat>, owner: seq<Owner>, o: Owner, y: Owner)
    requires Lists(ids, owner, o) && ids != [] && y != o
    ensures Lists(ids[1..], owner[ids[0] := y], o)
  {
    var ids', owner' := ids[1..], owner[ids[0] := y];
    forall k | 0 <= k < |owner'| && owner'[k] == o ensures k in ids' {
      assert k in ids;
      var j :| 0 <= j < |ids| && ids[j] == k;
      assert ids'[j - 1] == k;
    }
  }

  lemma ListsFirst(ids: seq<nat>, owner: seq<Owner>, o: Owner)
    requires Lists(ids, owner, o) && ids != []
    ensures ids[0] < |owner| && owner[ids[0]] == o
  {}

  /** Distinct descriptors fit in the table; a descriptor outside the list leaves a slot to spare. */
  lemma {:induction false} ListsFit(ids: seq<nat>, n: nat)
    requires forall j :: 0 <= j < |ids| ==> ids[j] < n
    requires forall j, k :: 0 <= j < k < |ids| ==> ids[j] != ids[k]
    ensures |ids| <= n
    ensures (exists i :: 0 <= i < n && i !in ids) ==> |ids| < n
  {
    var all := Below(n);
    IdsCard(ids);
    var s := set j | 0 <= j < |ids| :: ids[j];
    assert s <= all;
    SubsetCard(s, all);
    if i :| 0 <= i < n && i !in ids {
      assert s <= all - {i};
      SubsetCard(s, all - {i});
    }
  }

  ghost function Below(n: nat): (s: set<nat>)
    ensures |s| == n && forall i :: i in s <==> 0 <= i < n
  {
    if n == 0 then {} else Below(n - 1) + {n - 1}
  }

  lemma {:induction false} IdsCard(ids: seq<nat>)
    requires forall j, k :: 0 <= j < k < |ids| ==> ids[j] != ids[k]
    ensures |set j | 0 <= j < |ids| :: ids[j]| == |ids|
  {
    if ids != [] {
      var n := |ids| - 1;
      IdsCard(ids[..n]);
      var a, b := set j | 0 <= j < n :: ids[j], set j | 0 <= j < |ids| :: ids[j];
      assert a == set j | 0 <= j < |ids[..n]| :: ids[..n][j];
      assert b == a + {ids[n]};
    }
  }

  lemma {:induction false} SubsetCard<T>(a: set<T>, b: set<T>)
    requires a <= b
    ensures |a| <= |b|
  {
    if a != {} {
      var x :| x in a;
      SubsetCard(a - {x}, b - {x});
    }
  }

  // ---- rings ----

  /** The slots hold every entry of the log not yet read, at its position modulo the ring size. */
  ghost predicate RingHolds<T>(slots: seq<T>, log: seq<T>, read: nat) {
    && |slots| > 0 && read <= |log| <= read + |slots|
    && forall k :: read <= k < |log| ==> slots[k % |slots|] == log[k]
  }

  lemma ModInWindow(j: nat, k: nat, n: nat)
    requires n > 0 && j < k < j + n
    ensures j % n != k % n
  {
    if k / n <= j / n {
      Bits.MulMono(n, k / n, j / n);
    } else {
      Bits.MulMono(n, j / n + 1, k / n);
    }
  }

  /** Storing the next entry overwrites nothing unread while the ring is not full. */
  lemma RingStore<T>(slots: seq<T>, log: seq<T>, read: nat, x: T)
    requires RingHolds(slots, log, read) && |log| < read + |slots|
    ensures RingHolds(slots[|log| % |slots| := x], log, read)
    ensures RingHolds(slots[|log| % |slots| := x], log + [x], read)
  {
    forall k | read <= k < |log| ensures k % |slots| != |log| % |slots| {
      ModInWindow(k, |log|, |slots|);
    }
  }

  lemma RingPublish<T>(slots: seq<T>, log: seq<T>, read: nat, x: T)
    requires RingHolds(slots, log, read) && |log| < read + |slots| && slots[|log| % |slots|] == x
    ensures RingHolds(slots, log + [x], read)
  {
    assert slots[|log| % |slots| := x] == slots;
    RingStore(slots, log, read, x);
  }

  lemma RingRead<T>(slots: seq<T>, log: seq<T>, read: nat)
    requires RingHolds(slots, log, read) && read < |log|
    ensures RingHolds(slots, log, read + 1)
  {}

  // ---- the invariant ----

  /** The free list: `n` descriptors from `head` along the next links. */
  ghost function Chain(desc: seq<Desc>, head: nat, n: nat): seq<nat>
    decreases n
  {
    if n == 0 || head >= |desc| then [] else [head] + Chain(desc, desc[head].next, n - 1)
  }

  function Ids(es: seq<Elem>): (ids: seq<nat>)
    ensures |ids| == |es|
  {
    seq(|es|, i requires 0 <= i < |es| => es[i].id)
  }

  ghost predicate Sized(w: World) {
    && w.m.Shaped() && |w.owner| == w.m.size <= MAX_SIZE && WRAP % w.m.size == 0
  }

  /** The free descriptors are exactly the chain from freeHead, without repetition. */
  ghost predicate FreeInv(w: World) {
    var c := Chain(w.m.desc, w.m.freeHead, w.m.freeCount);
    |c| == w.m.freeCount && Lists(c, w.owner, Free)
  }

  /** The driver-to-device direction. */
  ghost predicate AvailInv(w: World)
    requires Sized(w)
  {
    && w.taken <= w.submitted
    && Lists(w.submitted[|w.taken|..], w.owner, Available)
    && RingHolds(w.m.avail, w.submitted, |w.taken|)
    && w.m.availIdx == w.m.availShared == |w.submitted| % WRAP
    && w.devAvail == |w.taken| % WRAP
    && (w.storing.Some? ==>
         && w.storing.value < |w.owner| && w.owner[w.storing.value] in {Reserved, Popped}
         && w.m.avail[|w.submitted| % w.m.size] == w.storing.value)
  }

  /** The device-to-driver direction. */
  ghost predicate UsedInv(w: World)
    requires Sized(w)
  {
    && w.popped <= w.completed
    && Lists(Ids(w.completed[|w.popped|..]), w.owner, Used)
    && RingHolds(w.m.used, w.completed, |w.popped|)
    && w.devUsed == w.m.usedShared == |w.completed| % WRAP
    && w.m.usedIdx == |w.popped| % WRAP
    && (w.devStoring.Some? ==>
         && w.devStoring.value.id < |w.owner| && w.owner[w.devStoring.value.id] == Held
         && w.m.used[|w.completed| % w.m.size] == w.devStoring.value)
  }

  ghost predicate Inv(w: World) {
    Sized(w) && FreeInv(w) && AvailInv(w) && UsedInv(w)
  }

  ghost predicate Init(w: World) {
    && Fresh(w.m) && w.m.size <= MAX_SIZE && WRAP % w.m.size == 0
    && |w.owner| == w.m.size && (forall i :: 0 <= i < |w.owner| ==> w.owner[i] == Free)
    && w.storing.None? && w.devStoring.None? && w.devAvail == w.devUsed == 0
    && w.submitted == w.taken == [] && w.completed == w.popped == []
  }

  /** A chain does not depend on descriptors outside it. */
  lemma {:induction false} ChainFrame(desc: seq<Desc>, head: nat, n: nat, i: nat, d: Desc)
    requires i < |desc| && i !in Chain(desc, head, n)
    ensures Chain(desc[i := d], head, n) == Chain(desc, head, n)
    decreases n
  {
    if n > 0 && head < |desc| {
      var tail := Chain(desc, desc[head].next, n - 1);
      assert Chain(desc, head, n) == [head] + tail;
      assert head in [head] + tail && forall k :: k in tail ==> k in [head] + tail;
      ChainFrame(desc, desc[head].next, n - 1, i, d);
    }
  }

  lemma {:induction false} FreshChain(m: Memory, i: nat)
    requires Fresh(m) && i <= m.size
    ensures var c := Chain(m.desc, if i == m.size then 0 else i, m.size - i);
      |c| == m.size - i && forall j :: 0 <= j < |c| ==> c[j] == i + j
    decreases m.size - i
  {
    if i < m.size {
      FreshChain(m, i + 1);
      assert m.desc[i].next == if i == m.size - 1 then 0 else i + 1;
    }
  }

  lemma InitInv(w: World)
    requires Init(w)
    ensures Inv(w)
  {
    FreshChain(w.m, 0);
    var c := Chain(w.m.desc, 0, w.m.size);
    forall i | 0 <= i < |w.owner| ensures i in c {
      assert c[i] == i;
    }
  }

  /** Free-running counters stay in step with the log lengths through the 16-bit wrap. */
  lemma WrapStep(n: nat, size: nat)
    requires size > 0 && WRAP % size == 0
    ensures (n + 1) % WRAP == (n % WRAP + 1) % WRAP
    ensures n % WRAP % size == n % size
  {
    SlotIffDivides(size, n);
  }

  /** A ring slot computed from the wrapped counter is the slot of the unwrapped one, for every
      counter value, exactly when the ring size divides 2^16. */
  lemma SlotIffDivides(size: nat, n: nat)
    requires size > 0
    ensures WRAP % size == 0 ==> n % WRAP % size == n % size
    ensures (forall k: nat :: k % WRAP % size == k % size) ==> WRAP % size == 0
  {
    if WRAP % size == 0 {
      var q := WRAP / size;
      Bits.DivModUnique(n, size, q * (n / WRAP) + n % WRAP / size, n % WRAP % size);
    }
    assert WRAP % WRAP == 0 && 0 % size == 0;
  }

  /** Two log lengths no further apart than the ring wrap to the same counter only when equal. */
  lemma SameCounter(a: nat, b: nat)
    requires a <= b < a + WRAP
    ensures a % WRAP == b % WRAP <==> a == b
  {
    if a < b {
      ModInWindow(a, b, WRAP);
    }
  }

  // ---- every step keeps the invariant ----

  /** A change of owner between two states neither of which a queue lists. */
  lemma OwnerMoves(w: World, id: nat, o: Owner)
    requires Inv(w) && id < |w.owner|
    ensures var owner := w.owner[id := o];
      && (w.owner[id] != Free && o != Free ==> Lists(Chain(w.m.desc, w.m.freeHead, w.m.freeCount), owner, Free))
      && (w.owner[id] != Available && o != Available ==> Lists(w.submitted[|w.taken|..], owner, Available))
      && (w.owner[id] != Used && o != Used ==> Lists(Ids(w.completed[|w.popped|..]), owner, Used))
  {
    hide Lists, Chain, Ids;
    if w.owner[id] != Free && o != Free {
      ListsOther(Chain(w.m.desc, w.m.freeHead, w.m.freeCount), w.owner, Free, id, o);
    }
    if w.owner[id] != Available && o != Available {
      ListsOther(w.submitted[|w.taken|..], w.owner, Available, id, o);
    }
    if w.owner[id] != Used && o != Used {
      ListsOther(Ids(w.completed[|w.popped|..]), w.owner, Used, id, o);
    }
  }

  lemma AllocKeeps(w: World)
    requires Inv(w) && Enabled(w, DrvAlloc)
    ensures Inv(Next(w, DrvAlloc))
  {
    if w.m.freeCount > 0 {
      var c := Chain(w.m.desc, w.m.freeHead, w.m.freeCount);
      assert c[0] == w.m.freeHead && c[1..] == Chain(w.m.desc, w.m.desc[c[0]].next, w.m.freeCount - 1);
      ListsPop(c, w.owner, Free, Reserved);
      OwnerMoves(w, c[0], Reserved);
      hide Lists, RingHolds, Chain, Ids;
    }
  }

  lemma FillKeeps(w: World, id: nat, addr: nat, len: nat, dw: bool)
    requires Inv(w) && Enabled(w, DrvFill(id, addr, len, dw))
    ensures Inv(Next(w, DrvFill(id, addr, len, dw)))
  {
    ChainFrame(w.m.desc, w.m.freeHead, w.m.freeCount, id, Desc(addr, len, dw, 0));
    hide RingHolds, Chain, Ids;
  }

  lemma ChainPush(desc: seq<Desc>, head: nat, n: nat, id: nat)
    requires id < |desc| && id !in Chain(desc, head, n)
    ensures Chain(desc[id := desc[id].(next := head)], id, n + 1) == [id] + Chain(desc, head, n)
  {
    ChainFrame(desc, head, n, id, desc[id].(next := head));
  }

  lemma FreeKeeps(w: World, id: nat)
    requires Inv(w) && Enabled(w, DrvFree(id))
    ensures Inv(Next(w, DrvFree(id)))
  {
    var c := Chain(w.m.desc, w.m.freeHead, w.m.freeCount);
    assert id !in c;
    hide Lists, RingHolds, Chain, Ids;
    ChainPush(w.m.desc, w.m.freeHead, w.m.freeCount, id);
    ListsPush(c, w.owner, Free, id);
    OwnerMoves(w, id, Free);
  }

  /** A descriptor the driver or the device holds leaves room in the ring for its submission. */
  lemma RoomToSubmit(w: World, id: nat)
    requires Inv(w) && id < |w.owner| && w.owner[id] != Available
    ensures |w.submitted| < |w.taken| + w.m.size
  {
    var ids := w.submitted[|w.taken|..];
    assert id !in ids;
    ListsFit(ids, w.m.size);
  }

  lemma RoomToComplete(w: World, id: nat)
    requires Inv(w) && id < |w.owner| && w.owner[id] != Used
    ensures |w.completed| < |w.popped| + w.m.size
  {
    var ids := Ids(w.completed[|w.popped|..]);
    assert id !in ids;
    ListsFit(ids, w.m.size);
  }

  lemma StoreKeeps(w: World, id: nat)
    requires Inv(w) && Enabled(w, DrvStore(id))
    ensures Inv(Next(w, DrvStore(id)))
  {
    RoomToSubmit(w, id);
    WrapStep(|w.submitted|, w.m.size);
    RingStore(w.m.avail, w.submitted, |w.taken|, id);
    hide Lists, RingHolds, Chain, Ids;
  }

  lemma PublishKeeps(w: World)
    requires Inv(w) && Enabled(w, DrvPublish)
    ensures Inv(Next(w, DrvPublish))
  {
    hide Lists, RingHolds, Chain, Ids;
    var id := w.storing.value;
    RoomToSubmit(w, id);
    WrapStep(|w.submitted|, w.m.size);
    RingPublish(w.m.avail, w.submitted, |w.taken|, id);
    ListsAppend(w.submitted[|w.taken|..], w.owner, Available, id);
    assert (w.submitted + [id])[|w.taken|..] == w.submitted[|w.taken|..] + [id];
    OwnerMoves(w, id, Available);
  }

  /** What the driver pops is the oldest completion not yet popped, and it finds one whenever there is one. */
  lemma PopIsNext(w: World)
    requires Inv(w)
    ensures Pop(w.m).1 == if |w.popped| < |w.completed| then Some(w.completed[|w.popped|]) else None
  {
    SameCounter(|w.popped|, |w.completed|);
    WrapStep(|w.popped|, w.m.size);
  }

  lemma PopKeeps(w: World)
    requires Inv(w) && Enabled(w, DrvPop)
    ensures Inv(Next(w, DrvPop))
  {
    hide Lists, Chain, Ids, RingHolds;
    PopIsNext(w);
    if |w.popped| < |w.completed| {
      var e, n := w.completed[|w.popped|], |w.popped|;
      WrapStep(n, w.m.size);
      var ids := Ids(w.completed[n..]);
      IdsRest(w.completed[n..]);
      assert w.completed[n..][1..] == w.completed[n + 1..];
      ListsFirst(ids, w.owner, Used);
      ListsPop(ids, w.owner, Used, Popped);
      RingRead(w.m.used, w.completed, n);
      OwnerMoves(w, e.id, Popped);
      assert w.popped + [e] == w.completed[..n + 1];
    }
  }

  /** What the device takes is the oldest submission not yet taken, and it finds one whenever there is one. */
  lemma TakeIsNext(w: World)
    requires Inv(w)
    ensures w.devAvail == w.m.availShared <==> |w.taken| == |w.submitted|
    ensures |w.taken| < |w.submitted| ==> w.m.avail[w.devAvail % w.m.size] == w.submitted[|w.taken|]
  {
    SameCounter(|w.taken|, |w.submitted|);
    WrapStep(|w.taken|, w.m.size);
  }

  lemma TakeKeeps(w: World)
    requires Inv(w)
    ensures Inv(Next(w, DevTake))
  {
    hide Lists, Chain, Ids, RingHolds;
    TakeIsNext(w);
    if |w.taken| < |w.submitted| {
      var id, n := w.submitted[|w.taken|], |w.taken|;
      WrapStep(n, w.m.size);
      var ids := w.submitted[n..];
      assert ids[0] == id && ids[1..] == w.submitted[n + 1..];
      ListsFirst(ids, w.owner, Available);
      ListsPop(ids, w.owner, Available, Held);
      RingRead(w.m.avail, w.submitted, n);
      OwnerMoves(w, id, Held);
      assert w.taken + [id] == w.submitted[..n + 1];
    }
  }

  lemma DevStoreKeeps(w: World, id: nat, len: nat)
    requires Inv(w) && Enabled(w, DevStore(id, len))
    ensures Inv(Next(w, DevStore(id, len)))
  {
    RoomToComplete(w, id);
    WrapStep(|w.completed|, w.m.size);
    RingStore(w.m.used, w.completed, |w.popped|, Elem(id, len));
    hide Lists, RingHolds, Chain, Ids;
  }

  lemma IdsRest(es: seq<Elem>)
    requires es != []
    ensures Ids(es)[0] == es[0].id && Ids(es)[1..] == Ids(es[1..])
  {}

  lemma IdsAppend(es: seq<Elem>, e: Elem)
    ensures Ids(es + [e]) == Ids(es) + [e.id]
  {}

  lemma DevPublishKeeps(w: World)
    requires Inv(w) && Enabled(w, DevPublish)
    ensures Inv(Next(w, DevPublish))
  {
    hide Lists, RingHolds, Chain, Ids;
    var e := w.devStoring.value;
    RoomToComplete(w, e.id);
    WrapStep(|w.completed|, w.m.size);
    RingPublish(w.m.used, w.completed, |w.popped|, e);
    var ids := Ids(w.completed[|w.popped|..]);
    ListsAppend(ids, w.owner, Used, e.id);
    assert (w.completed + [e])[|w.popped|..] == w.completed[|w.popped|..] + [e];
    IdsAppend(w.completed[|w.popped|..], e);
    OwnerMoves(w, e.id, Used);
  }

  lemma StepKeeps(w: World, s: Step)
    requires Inv(w) && Enabled(w, s)
    ensures Inv(Next(w, s))
  {
    hide Inv, Next;
    match s
    case DrvAlloc => AllocKeeps(w);
    case DrvFill(id, addr, len, dw) => FillKeeps(w, id, addr, len, dw);
    case DrvStore(id) => StoreKeeps(w, id);
    case DrvPublish => PublishKeeps(w);
    case DrvFree(id) => FreeKeeps(w, id);
    case DrvPop => PopKeeps(w);
    case DevTake => TakeKeeps(w);
    case DevStore(id, len) => DevStoreKeeps(w, id, len);
    case DevPublish => DevPublishKeeps(w);
  }

  // ---- whole runs ----

  ghost predicate Run(w: World, steps: seq<Step>, w': World)
    decreases |steps|
  {
    if steps == [] then w' == w
    else w.m.Shaped() && Enabled(w, steps[0]) && Run(Next(w, steps[0]), steps[1..], w')
  }

  lemma {:induction false} RunKeeps(w: World, steps: seq<Step>, w': World)
    requires Inv(w) && Run(w, steps, w')
    ensures Inv(w')
    decreases |steps|
  {
    if steps != [] {
      StepKeeps(w, steps[0]);
      hide Inv;
      RunKeeps(Next(w, steps[0]), steps[1..], w');
    }
  }

  /** Over every interleaving of the driver and the device from a fresh queue: the device has taken
      the submissions, and the driver popped the completions, each exactly once and in order; no
      entry the other side has still to read is overwritten; each descriptor is in one place, and
      the chain of length freeCount from freeHead holds the free ones and nothing else. */
  lemma QueueSafety(w0: World, steps: seq<Step>, w: World)
    requires Init(w0) && Run(w0, steps, w)
    ensures w.taken <= w.submitted && w.popped <= w.completed
    ensures RingHolds(w.m.avail, w.submitted, |w.taken|) && RingHolds(w.m.used, w.completed, |w.popped|)
    ensures var chain := Chain(w.m.desc, w.m.freeHead, w.m.freeCount);
      |chain| == w.m.freeCount && Lists(chain, w.owner, Free)
    ensures Lists(w.submitted[|w.taken|..], w.owner, Available)
    ensures Lists(Ids(w.completed[|w.popped|..]), w.owner, Used)
  {
    InitInv(w0);
    RunKeeps(w0, steps, w);
  }

  /** On any such run the driver's next pop, and the device's next take, is the oldest entry still
      outstanding, and comes up empty only when nothing is outstanding: nothing is lost or repeated. */
  lemma NextTransferIsOldest(w0: World, steps: seq<Step>, w: World)
    requires Init(w0) && Run(w0, steps, w)
    ensures w.m.Shaped()
    ensures Pop(w.m).1 == if |w.popped| < |w.completed| then Some(w.completed[|w.popped|]) else None
    ensures w.devAvail == w.m.availShared <==> w.taken == w.submitted
    ensures w.taken < w.submitted ==> w.m.avail[w.devAvail % w.m.size] == w.submitted[|w.taken|]
  {
    InitInv(w0);
    RunKeeps(w0, steps, w);
    PopIsNext(w);
    TakeIsNext(w);
  }

  lemma StepKeepsAddress(w: World, s: Step, i: nat)
    requires Inv(w) && Enabled(w, s) && i < w.m.size && !s.DrvFill?
    ensures var m := Next(w, s).m; m.size == w.m.size == |m.desc| && SameBuffer(m.desc[i], w.m.desc[i])
  {
  }

  /** Address, length and direction are the same. */
  predicate SameBuffer(a: Desc, b: Desc) {
    a.addr == b.addr && a.len == b.len && a.deviceWrites == b.deviceWrites
  }

  /** Until it is filled again, a descriptor names the same buffer in the same direction. */
  lemma {:induction false} AddressesStay(w: World, steps: seq<Step>, w': World, i: nat)
    requires Inv(w) && Run(w, steps, w') && i < w.m.size
    requires forall k :: 0 <= k < |steps| ==> !steps[k].DrvFill?
    ensures i < |w.m.desc| == w.m.size == w'.m.size == |w'.m.desc| && SameBuffer(w'.m.desc[i], w.m.desc[i])
    decreases |steps|
  {
    if steps != [] {
      StepKeeps(w, steps[0]);
      StepKeepsAddress(w, steps[0], i);
      hide Inv, Enabled, Next;
      AddressesStay(Next(w, steps[0]), steps[1..], w', i);
    }
  }
}
