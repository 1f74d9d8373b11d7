/** A split virtqueue's driver side: what each driver call does to the shared memory, as functions,
    and the driver class proved against them. All indices are free-running 16-bit counters. */
module Virtqueue {
  import opened Common

  const WRAP: nat := 0x1_0000
  const MAX_SIZE: nat := 256

  datatype Desc = Desc(addr: nat, len: nat, deviceWrites: bool, next: nat)
  datatype Elem = Elem(id: nat, len: nat)

  /** The driver's counters, the descriptor table and both rings with their shared indices. */
  datatype Memory = Memory(size: nat, freeHead: nat, freeCount: nat, availIdx: nat, usedIdx: nat,
                           desc: seq<Desc>, avail: seq<nat>, availShared: nat, used: seq<Elem>, usedShared: nat)
  {
    predicate Shaped() {
      && size >= 2 && |desc| == |avail| == |used| == size
      && freeHead < size && forall i :: 0 <= i < size ==> desc[i].next < size
    }
  }

  function Alloc(m: Memory): (Memory, Option<nat>)
    requires m.Shaped()
  {
    if m.freeCount == 0 then (m, None)
    else (m.(freeHead := m.desc[m.freeHead].next, freeCount := m.freeCount - 1), Some(m.freeHead))
  }

  function Fill(m: Memory, id: nat, addr: nat, len: nat, deviceWrites: bool): Memory {
    if id >= |m.desc| then m else m.(desc := m.desc[id := Desc(addr, len, deviceWrites, 0)])
  }

  /** The two stores of a submission, in program order. */
  function StoreAvail(m: Memory, id: nat): Memory
    requires m.Shaped()
  {
    if id >= m.size then m else m.(avail := m.avail[m.availIdx % m.size := id])
  }

  function PublishAvail(m: Memory): Memory {
    var i := (m.availIdx + 1) % WRAP;
    m.(availIdx := i, availShared := i)
  }

  function Submit(m: Memory, id: nat): Memory
    requires m.Shaped()
  {
    if id >= m.size then m else PublishAvail(StoreAvail(m, id))
  }

  function FreeDesc(m: Memory, id: nat): Memory {
    if id >= |m.desc| then m
    else m.(desc := m.desc[id := m.desc[id].(next := m.freeHead)], freeHead := id, freeCount := m.freeCount + 1)
  }

  function Pop(m: Memory): (Memory, Option<Elem>)
    requires m.Shaped()
  {
    if m.usedIdx == m.usedShared then (m, None)
    else (m.(usedIdx := (m.usedIdx + 1) % WRAP), Some(m.used[m.usedIdx % m.size]))
  }

  /** Both table and rings as virtio_queue_init_one leaves them. */
  ghost predicate Fresh(m: Memory) {
    && m.Shaped() && m.freeHead == 0 && m.freeCount == m.size
    && m.availIdx == m.usedIdx == m.availShared == m.usedShared == 0
    && forall i :: 0 <= i < m.size ==> m.desc[i].next == if i == m.size - 1 then 0 else i + 1
  }

  class Queue {
    const size: nat
    var freeHead: nat
    var freeCount: nat
    var availIdx: nat
    var usedIdx: nat
    const desc: array<Desc>
    const avail: array<nat>
    const used: array<Elem>
    var availShared: nat
    var usedShared: nat

    ghost predicate Valid()
      reads this, desc
    {
      && size >= 2 && desc.Length == avail.Length == used.Length == size
      && freeHead < size && forall i :: 0 <= i < size ==> desc[i].next < size
    }

    ghost function View(): (m: Memory)
      reads this, desc, avail, used
      requires Valid()
      ensures m.Shaped()
    {
      Memory(size, freeHead, freeCount, availIdx, usedIdx, desc[..], avail[..], availShared, used[..], usedShared)
    }

    /** virtio_queue_init_one, its free-list part. The size is capped; a size below 2 is refused before. */
    constructor (offered: nat)
      requires offered >= 2
      ensures Valid() && fresh(desc) && fresh(avail) && fresh(used)
      ensures size == if offered > MAX_SIZE then MAX_SIZE else offered
      ensures Fresh(View())
    {
      var n := if offered > MAX_SIZE then MAX_SIZE else offered;
      size := n;
      var d := new Desc[n](_ => Desc(0, 0, false, 0));
      for i := 0 to n
        invariant forall k :: 0 <= k < i ==> d[k].next == k + 1
      {
        d[i] := d[i].(next := i + 1);
      }
      d[n - 1] := d[n - 1].(next := 0);
      desc := d;
      avail := new nat[n](_ => 0);
      used := new Elem[n](_ => Elem(0, 0));
      freeHead, freeCount, availIdx, usedIdx := 0, n, 0, 0;
      availShared, usedShared := 0, 0;
    }

    /** virtio_queue_alloc_desc: the head of the free chain. */
    method AllocDesc() returns (r: Option<nat>)
      requires Valid()
      modifies `freeHead, `freeCount
      ensures Valid() && (View(), r) == Alloc(old(View()))
      ensures if old(freeCount) == 0 then r == None && freeHead == old(freeHead) && freeCount == 0
        else r == Some(old(freeHead)) && freeHead == desc[old(freeHead)].next && freeCount == old(freeCount) - 1
    {
      if freeCount == 0 {
        return None;
      }
      var id := freeHead;
      freeHead := desc[id].next;
      freeCount := freeCount - 1;
      r := Some(id);
    }

    /** virtio_queue_desc_fill: all four fields of one descriptor, or nothing for an id out of range. */
    method DescFill(id: nat, addr: nat, len: nat, deviceWrites: bool)
      requires Valid()
      modifies desc
      ensures Valid() && View() == Fill(old(View()), id, addr, len, deviceWrites)
      ensures forall i :: 0 <= i < size && i != id ==> desc[i] == old(desc[i])
      ensures id < size ==>
        desc[id].addr == addr && desc[id].len == len && desc[id].deviceWrites == deviceWrites && desc[id].next == 0
    {
      if id < size {
        desc[id] := Desc(addr, len, deviceWrites, 0);
      }
    }

    /** virtio_queue_submit, and virtio_queue_recycle, which has the same body. */
    method SubmitDesc(id: nat)
      requires Valid()
      modifies `availIdx, `availShared, avail
      ensures Valid() && View() == Submit(old(View()), id)
      ensures id < size ==> avail[..] == old(avail[..])[old(availIdx) % size := id]
      ensures id < size ==> availIdx == availShared == (old(availIdx) + 1) % 0x1_0000
      ensures id >= size ==> avail[..] == old(avail[..]) && availIdx == old(availIdx) && availShared == old(availShared)
    {
      if id < size {
        avail[availIdx % size] := id;
        availIdx := (availIdx + 1) % WRAP;
        availShared := availIdx;
      }
    }

    /** virtio_queue_free_desc: the descriptor becomes the head of the free chain. */
    method ReleaseDesc(id: nat)
      requires Valid()
      modifies `freeHead, `freeCount, desc
      ensures Valid() && View() == FreeDesc(old(View()), id)
      ensures if id < size
        then desc[..] == old(desc[..])[id := old(desc[id]).(next := old(freeHead))] && freeHead == id && freeCount == old(freeCount) + 1
        else desc[..] == old(desc[..]) && freeHead == old(freeHead) && freeCount == old(freeCount)
    {
      if id < size {
        desc[id] := desc[id].(next := freeHead);
        freeHead := id;
        freeCount := freeCount + 1;
      }
    }

    /** virtio_queue_pop_used: the next element, unless the device has published none since. */
    method PopUsed() returns (r: Option<Elem>)
      requires Valid()
      modifies `usedIdx
      ensures Valid() && (View(), r) == Pop(old(View()))
      ensures if old(usedIdx) == usedShared then r == None && usedIdx == old(usedIdx)
        else r == Some(used[old(usedIdx) % size]) && usedIdx == (old(usedIdx) + 1) % 0x1_0000
    {
      if usedIdx == usedShared {
        return None;
      }
      r := Some(used[usedIdx % size]);
      usedIdx := (usedIdx + 1) % WRAP;
    }

    /** virtio_queue_add_buffer_id: reserve, fill, submit. */
    method AddBuffer(addr: nat, len: nat, deviceWrites: bool) returns (r: Option<nat>)
      requires Valid()
      modifies `freeHead, `freeCount, `availIdx, `availShared, desc, avail
      ensures Valid()
      ensures old(freeCount) == 0 ==> r == None && View() == old(View())
      ensures old(freeCount) > 0 ==>
        var id := old(freeHead);
        && r == Some(id) && freeHead == old(desc[id].next) && freeCount == old(freeCount) - 1
        && desc[..] == old(desc[..])[id := Desc(addr, len, deviceWrites, 0)]
        && avail[..] == old(avail[..])[old(availIdx) % size := id] && availIdx == availShared == (old(availIdx) + 1) % 0x1_0000
      ensures var (m, id) := Alloc(old(View()));
        r == id && View() == if id.None? then m else Submit(Fill(m, id.value, addr, len, deviceWrites), id.value)
    {
      r := AllocDesc();
      if r.Some? {
        DescFill(r.value, addr, len, deviceWrites);
        SubmitDesc(r.value);
      }
    }
  }
}
