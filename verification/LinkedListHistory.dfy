/** Clients' bytes over whole histories of the linked-list allocator: calls, and owners' own writes. */
module LinkedListHistory {
  import opened Alignment
  import opened ByteMemory
  import opened Layouts
  import opened FreeList
  import opened FreeListHistory
  import opened LinkedListHeap

  // The last value an owner wrote to a byte, or the one it had at the beginning.
  function LastWritten(events: seq<Event>, owner: Allocation, x: nat, initial: byte): (b: byte)
    decreases |events|
  {
    if events == [] then initial
    else
      var e := events[|events| - 1];
      if e.Write? && e.owner == owner && e.addr == x then e.value
      else LastWritten(events[..|events| - 1], owner, x, initial)
  }

  lemma AllocKeepsOthers(h: Heap, m: Memory, layout: Layout, h': Heap, m': Memory, a: Allocation)
    requires Happens(h, m, Call(AllocOp(layout)), h', m') && a in h.live
    ensures FreeList.Valid(h') && a in h'.live && GoodAllocation(a)
    ensures SameBytes(m, m', a.ptr, Block(a).size)
  {
    hide AllSeparated, Accounted, GoodFree, GoodBounds, AlignUp, SizeAlign, FirstFit, FitStart;
    hide Alloc, AlignedTo, IsPow2, SameOutside;
    var k := IndexOf(h.live, a);
    AllocKeepsValid(h, layout);
    assert h.live <= h'.live;
    assert h'.live[k] == a;
    OtherLiveBytesKept(h, m, m', k, k);
  }

  lemma DeallocKeepsOthers(h: Heap, m: Memory, b: Allocation, h': Heap, m': Memory, a: Allocation)
    requires Happens(h, m, Call(DeallocOp(b)), h', m') && a in h.live && a != b
    ensures FreeList.Valid(h') && a in h'.live && GoodAllocation(a)
    ensures SameBytes(m, m', a.ptr, Block(a).size)
  {
    hide AllSeparated, Accounted, GoodFree, GoodBounds, AlignUp, SizeAlign, FirstFit, FitStart;
    hide AlignedTo, IsPow2, SameOutside;
    var k, i := IndexOf(h.live, a), IndexOf(h.live, b);
    DeallocKeepsValid(h, b);
    assert h'.live[if k < i then k else k - 1] == a;
    OtherLiveBytesKept(h, m, m', k, i);
  }

  // A write changes one byte, of its owner's block and of no other.
  lemma WriteIsOwn(h: Heap, m: Memory, b: Allocation, addr: nat, value: byte, a: Allocation)
    requires Happens(h, m, Write(b, addr, value), h, m[addr := value]) && a in h.live
    ensures GoodAllocation(a)
    ensures forall x :: a.ptr <= x < Block(a).End() ==> x in m
    ensures a != b ==> !(a.ptr <= addr < Block(a).End())
  {
    hide Accounted, GoodFree, AlignUp, SizeAlign, AlignedTo, IsPow2;
    var k, i := IndexOf(h.live, a), IndexOf(h.live, b);
    assert Inside(Block(h.live[k]), Region(h.start, h.size));
    assert Blocks(h.live)[k] == Block(a) && Blocks(h.live)[i] == Block(b);
    if k < i {
      assert Disjoint(Blocks(h.live)[k], Blocks(h.live)[i]);
    } else if i < k {
      assert Disjoint(Blocks(h.live)[i], Blocks(h.live)[k]);
    }
  }

  // One event, seen from a byte of an allocation that it does not free.
  lemma EventKeepsByte(h: Heap, m: Memory, e: Event, h': Heap, m': Memory, a: Allocation, x: nat)
    requires Happens(h, m, e, h', m') && a in h.live && e != Call(DeallocOp(a))
    ensures a in h'.live && GoodAllocation(a)
    ensures a.ptr <= x < Block(a).End() ==>
      x in m && x in m' && m'[x] == if e.Write? && e.owner == a && e.addr == x then e.value else m[x]
  {
    match e {
      case Call(AllocOp(layout)) => AllocKeepsOthers(h, m, layout, h', m', a);
      case Call(DeallocOp(b)) => DeallocKeepsOthers(h, m, b, h', m', a);
      case Write(b, addr, value) => WriteIsOwn(h, m, b, addr, value, a);
    }
  }

  /** In every history that does not panic, with the owners' writes anywhere between the calls, an
      allocation that is not freed stays live, and each of its bytes is what its own owner last wrote
      there, or what it was at the beginning: no call and no other owner changes it. */
  lemma {:induction false} BytesBelongToOwner(hs: seq<Heap>, ms: seq<Memory>, events: seq<Event>, a: Allocation, x: nat)
    requires |hs| == |ms| == |events| + 1 && FreeList.Valid(hs[0])
    requires forall i :: 0 <= i < |events| ==> Happens(hs[i], ms[i], events[i], hs[i + 1], ms[i + 1])
    requires Mapped(ms[0], hs[0].start, hs[0].size) && a in hs[0].live && Call(DeallocOp(a)) !in events
    ensures a in hs[|events|].live && GoodAllocation(a)
    ensures a.ptr <= x < Block(a).End() ==>
      && x in ms[0] && x in ms[|events|]
      && ms[|events|][x] == LastWritten(events, a, x, ms[0][x])
    decreases |events|
  {
    hide Happens, FreeList.Valid;
    var n := |events| - 1;
    if n < 0 {
      LiveIsMapped(hs[0], ms[0], a);
    } else {
      BytesBelongToOwner(hs[..n + 1], ms[..n + 1], events[..n], a, x);
      EventKeepsByte(hs[n], ms[n], events[n], hs[n + 1], ms[n + 1], a, x);
    }
  }

  lemma LiveIsMapped(h: Heap, m: Memory, a: Allocation)
    requires FreeList.Valid(h) && Mapped(m, h.start, h.size) && a in h.live
    ensures GoodAllocation(a) && SameBytes(m, m, a.ptr, Block(a).size)
  {
    var k := IndexOf(h.live, a);
    assert Inside(Block(h.live[k]), Region(h.start, h.size));
  }
}
