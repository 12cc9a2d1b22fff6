/** The linked-list allocator as the source has it (`allocator/linked_list.rs`): the free list is
    a chain of two-word nodes written into the free memory itself. */
module LinkedListHeap {
  import opened Alignment
  import opened ByteMemory
  import opened Layouts
  import FreeList
  import FreeListHistory

  const NEXT_OFFSET: nat := 8

  // The address of the i-th region, or 0 (`None`) past the end of the list.
  ghost function AddrAt(rs: seq<Region>, i: nat): (r: nat) {
    if i < |rs| then rs[i].start else 0
  }

  ghost predicate NodeAt(m: Memory, r: Region, next: nat) {
    && Mapped(m, r.start, FreeList.NODE_SIZE)
    && Load(m, r.start) == r.size
    && Load(m, r.start + NEXT_OFFSET) == next
  }

  // The chain that starts at `head` holds exactly the regions rs, in that order.
  ghost predicate Linked(m: Memory, head: nat, rs: seq<Region>) {
    && head == AddrAt(rs, 0)
    && forall i :: 0 <= i < |rs| ==> NodeAt(m, rs[i], AddrAt(rs, i + 1))
  }

  // Regions that can each hold a node, apart from each other.
  ghost predicate NodeRegions(rs: seq<Region>) {
    && Separated(rs)
    && forall i :: 0 <= i < |rs| ==>
         0 < rs[i].start && rs[i].End() <= ADDRESS_LIMIT && rs[i].size >= FreeList.NODE_SIZE
  }

  ghost predicate Covered(x: int, rs: seq<Region>) {
    exists i :: 0 <= i < |rs| && rs[i].start <= x < rs[i].End()
  }

  // m' differs from m only inside rs.
  ghost predicate SameOutside(m: Memory, m': Memory, rs: seq<Region>) {
    && m.Keys == m'.Keys
    && forall x :: x in m && !Covered(x, rs) ==> m'[x] == m[x]
  }

  // -------- What can happen to the heap's bytes --------

  // A call of the allocator, or an owner writing a byte of its own block.
  datatype Event = Call(op: FreeListHistory.Op) | Write(owner: FreeList.Allocation, addr: nat, value: byte)

  // One event that does not panic: the abstract step, and the bytes it may change.
  ghost predicate Happens(h: FreeList.Heap, m: Memory, e: Event, h': FreeList.Heap, m': Memory) {
    && FreeList.Valid(h) && Mapped(m, h.start, h.size)
    && match e
       case Call(op) =>
         && FreeListHistory.Legal(h, op)
         && FreeListHistory.Step(h, op).1 != FreeList.Panic && FreeListHistory.Step(h, op).0 == h'
         && (op.AllocOp? ==> SameOutside(m, m', h.free))
         && (op.DeallocOp? ==>
               FreeList.GoodAllocation(op.allocation) && SameOutside(m, m', [FreeList.Block(op.allocation)]))
       case Write(owner, addr, value) =>
         && owner in h.live && FreeList.GoodAllocation(owner) && owner.ptr <= addr < FreeList.Block(owner).End()
         && h' == h && m' == m[addr := value]
  }

  lemma AllocHappens(h: FreeList.Heap, m: Memory, layout: Layout, m': Memory)
    requires FreeList.Valid(h) && Mapped(m, h.start, h.size) && ValidLayout(layout)
    requires FreeList.Alloc(h, layout).1 != FreeList.Panic && SameOutside(m, m', h.free)
    ensures Happens(h, m, Call(FreeListHistory.AllocOp(layout)), FreeList.Alloc(h, layout).0, m')
  {
    hide FreeList.Valid, FreeList.Alloc, SameOutside, Mapped;
  }

  lemma DeallocHappens(h: FreeList.Heap, m: Memory, a: FreeList.Allocation, m': Memory)
    requires FreeList.Valid(h) && Mapped(m, h.start, h.size) && a in h.live
    requires FreeList.GoodAllocation(a) && a.ptr <= ADDRESS_LIMIT
    requires SameOutside(m, m', [FreeList.Block(a)])
    ensures Happens(h, m, Call(FreeListHistory.DeallocOp(a)), FreeList.Dealloc(h, a).0, m')
  {
    hide FreeList.Valid, FreeList.Dealloc, SameOutside, Mapped;
  }

  lemma SameOutsideItself(m: Memory, rs: seq<Region>)
    ensures SameOutside(m, m, rs)
  {
  }

  // A node survives any change that leaves its 16 bytes alone.
  lemma NodeFrame(m: Memory, m': Memory, r: Region, next: nat)
    requires NodeAt(m, r, next) && SameBytes(m, m', r.start, FreeList.NODE_SIZE)
    ensures NodeAt(m', r, next)
  {
    LoadFrame(m, m', r.start);
    LoadFrame(m, m', r.start + NEXT_OFFSET);
  }

  // Writing a node.
  function WriteNode(m: Memory, addr: nat, size: nat, next: nat): (m': Memory)
    requires Mapped(m, addr, FreeList.NODE_SIZE) && size < WORD_LIMIT && next < WORD_LIMIT
    ensures NodeAt(m', Region(addr, size), next)
    ensures m'.Keys == m.Keys
    ensures forall x :: x in m && !(addr <= x < addr + FreeList.NODE_SIZE) ==> m'[x] == m[x]
  {
    var m1 := Store(m, addr, size);
    LoadStored(m, addr, size);
    var m2 := Store(m1, addr + NEXT_OFFSET, next);
    LoadStored(m1, addr + NEXT_OFFSET, next);
    assert SameBytes(m1, m2, addr, WORD_BYTES);
    LoadFrame(m1, m2, addr);
    m2
  }

  // Redirecting a node.
  function SetNext(m: Memory, addr: nat, next: nat): (m': Memory)
    requires Mapped(m, addr, FreeList.NODE_SIZE) && next < WORD_LIMIT
    ensures m'.Keys == m.Keys
    ensures NodeAt(m', Region(addr, Load(m, addr)), next)
    ensures forall x :: x in m && !(addr <= x < addr + FreeList.NODE_SIZE) ==> m'[x] == m[x]
  {
    var m' := Store(m, addr + NEXT_OFFSET, next);
    LoadStored(m, addr + NEXT_OFFSET, next);
    assert SameBytes(m, m', addr, WORD_BYTES);
    LoadFrame(m, m', addr);
    m'
  }

  // Disjoint regions of at least a node keep each other's nodes.
  lemma NodesApart(m: Memory, m': Memory, a: Region, b: Region, next: nat)
    requires NodeAt(m, b, next) && Disjoint(a, b)
    requires a.size >= FreeList.NODE_SIZE && b.size >= FreeList.NODE_SIZE
    requires m'.Keys == m.Keys
    requires forall x :: x in m && !(a.start <= x < a.start + FreeList.NODE_SIZE) ==> m'[x] == m[x]
    ensures NodeAt(m', b, next)
  {
    assert SameBytes(m, m', b.start, FreeList.NODE_SIZE);
    NodeFrame(m, m', b, next);
  }

  // Pushing a node in front of the chain.
  lemma LinkedPush(m: Memory, m': Memory, head: nat, r: Region, rs: seq<Region>)
    requires Linked(m, head, rs) && NodeRegions([r] + rs)
    requires NodeAt(m', r, head) && m'.Keys == m.Keys
    requires forall x :: x in m && !(r.start <= x < r.start + FreeList.NODE_SIZE) ==> m'[x] == m[x]
    ensures Linked(m', r.start, [r] + rs)
  {
    var rs' := [r] + rs;
    forall i | 0 <= i < |rs'| ensures NodeAt(m', rs'[i], AddrAt(rs', i + 1)) {
      if i > 0 {
        assert rs'[i] == rs[i - 1] && AddrAt(rs', i + 1) == AddrAt(rs, i);
        assert Disjoint(rs'[0], rs'[i]);
        NodesApart(m, m', r, rs[i - 1], AddrAt(rs, i));
      }
    }
  }

  // Unlinking the node at position k by redirecting its predecessor.
  lemma LinkedUnlink(m: Memory, m': Memory, head': nat, rs: seq<Region>, k: nat)
    requires NodeRegions(rs) && k < |rs| && Linked(m, AddrAt(rs, 0), rs)
    requires m'.Keys == m.Keys
    requires forall i :: 0 <= i < |rs| && i != k && i + 1 != k ==> NodeAt(m', rs[i], AddrAt(rs, i + 1))
    requires k > 0 ==> NodeAt(m', rs[k - 1], AddrAt(rs, k + 1)) && head' == AddrAt(rs, 0)
    requires k == 0 ==> head' == AddrAt(rs, 1)
    ensures Linked(m', head', RemoveAt(rs, k))
  {
    var rs' := RemoveAt(rs, k);
    forall i | 0 <= i < |rs'| ensures NodeAt(m', rs'[i], AddrAt(rs', i + 1)) {
      if i < k {
        assert rs'[i] == rs[i];
        assert AddrAt(rs', i + 1) == if i + 1 < k then AddrAt(rs, i + 1) else AddrAt(rs, k + 1);
      } else {
        assert rs'[i] == rs[i + 1] && AddrAt(rs', i + 1) == AddrAt(rs, i + 2);
      }
    }
  }

  class LinkedListAllocator {
    // The memory the allocator lives in, and `head.next` (0 for `None`).
    var mem: Memory
    var head: nat
    // The abstract heap the bytes stand for.
    ghost var heap: FreeList.Heap

    ghost predicate Valid()
      reads this
    {
      && FreeList.Valid(heap)
      && Mapped(mem, heap.start, heap.size)
      && Linked(mem, head, heap.free)
    }

    constructor (mem: Memory)
      ensures this.mem == mem && head == 0
    {
      this.mem := mem;
      head := 0;
    }

    method Init(heapStart: nat, heapSize: nat) returns (ok: bool)
      requires head == 0
      requires 0 < heapStart && heapStart + heapSize <= ADDRESS_LIMIT && Mapped(mem, heapStart, heapSize)
      modifies this
      ensures ok <==> FreeList.HoldsNode(Region(heapStart, heapSize))
      ensures ok ==> Valid() && heap == FreeList.Init(heapStart, heapSize)
      ensures SameOutside(old(mem), mem, [Region(heapStart, heapSize)])
    {
      heap := FreeList.Init(heapStart, heapSize);
      ok := AddFreeRegion(heapStart, heapSize, []);
      if ok {
        assert [Region(heapStart, heapSize)] + [] == heap.free;
        FreeList.InitIsValid(heapStart, heapSize);
      }
    }

    /** `add_free_region`: false is a failed assertion. */
    method AddFreeRegion(addr: nat, size: nat, ghost rs: seq<Region>) returns (ok: bool)
      requires Linked(mem, head, rs) && NodeRegions(rs)
      requires 0 < addr && addr + size <= ADDRESS_LIMIT && Mapped(mem, addr, size)
      requires Apart(Region(addr, size), rs)
      modifies this`mem, this`head
      ensures ok <==> FreeList.HoldsNode(Region(addr, size))
      ensures ok ==> Linked(mem, head, [Region(addr, size)] + rs)
      ensures !ok ==> mem == old(mem) && head == old(head)
      ensures SameOutside(old(mem), mem, [Region(addr, size)])
    {
      if AlignUp(addr, FreeList.NODE_ALIGN) != addr || size < FreeList.NODE_SIZE {
        return false;
      }
      ghost var r := Region(addr, size);
      mem := WriteNode(mem, addr, size, head);
      LinkedPush(old(mem), mem, head, r, rs);
      head := addr;
      forall x | x in mem && !Covered(x, [r]) ensures mem[x] == old(mem)[x] {
        assert addr <= x < addr + size ==> Covered(x, [r]) by { assert [r][0] == r; }
      }
      return true;
    }

    // The loop of `find_region`: walks from the dummy head to the first node that fits.
    method Search(size: nat, align: nat, ghost rs: seq<Region>) returns (current: nat, region: nat, start: nat)
      requires Linked(mem, head, rs) && NodeRegions(rs) && FreeList.GoodRequest(size, align)
      ensures FreeList.Addressable(rs)
      ensures var i := FreeList.FirstFit(rs, size, align);
        && region == AddrAt(rs, i) && (region == 0 <==> i == |rs|)
        && current == (if i == 0 then 0 else rs[i - 1].start)
        && (i < |rs| ==> FreeList.FitStart(rs[i], size, align) == Some(start))
    {
      hide AlignUp, FreeList.FitStart, FreeList.FirstFit, Load, FreeList.GoodRequest, Separated, NodeAt;
      current, region, start := 0, head, 0;
      ghost var k := 0;
      while region != 0
        invariant 0 <= k <= |rs| && region == AddrAt(rs, k)
        invariant current == (if k == 0 then 0 else rs[k - 1].start)
        invariant forall j :: 0 <= j < k ==> FreeList.FitStart(rs[j], size, align) == None
        decreases |rs| - k
      {
        NodeIsRegion(mem, rs, k);
        var fit := FreeList.FitStart(Region(region, Load(mem, region)), size, align);
        if fit.Some? {
          FirstFitIs(rs, size, align, k);
          start := fit.value;
          return;
        }
        current, region, k := region, Load(mem, region + NEXT_OFFSET), k + 1;
      }
      FirstFitIs(rs, size, align, k);
    }

    /** `find_region`: unlinks the first region that fits and returns its node and the start of the
        allocation; None, with nothing changed, when no region fits. */
    method FindRegion(size: nat, align: nat, ghost rs: seq<Region>) returns (found: Option<(nat, nat)>)
      requires Linked(mem, head, rs) && NodeRegions(rs) && FreeList.GoodRequest(size, align)
      modifies this`mem, this`head
      ensures FreeList.Addressable(rs)
      ensures var i := FreeList.FirstFit(rs, size, align);
        if i == |rs| then found == None && mem == old(mem) && head == old(head)
        else
          && found == Some((rs[i].start, FreeList.FitStart(rs[i], size, align).value))
          && Linked(mem, head, RemoveAt(rs, i))
          && Mapped(mem, rs[i].start, WORD_BYTES) && Load(mem, rs[i].start) == rs[i].size
      ensures SameOutside(old(mem), mem, rs)
    {
      hide AlignUp, FreeList.FitStart, FreeList.FirstFit, FromBytes, FreeList.GoodRequest;
      hide Linked, NodeRegions, Separated, SameOutside, Load;
      var current, region, start := Search(size, align, rs);
      if region == 0 {
        SameOutsideItself(mem, rs);
        return None;
      }
      ghost var i := FreeList.FirstFit(rs, size, align);
      Unlink(current, region, rs, i);
      assert NodeAt(mem, rs[i], 0);
      return Some((region, start));
    }

    // `region.next.take()`, then `current.next = next`.
    method Unlink(current: nat, region: nat, ghost rs: seq<Region>, ghost k: nat)
      requires Linked(mem, head, rs) && NodeRegions(rs) && k < |rs| && region == rs[k].start
      requires current == (if k == 0 then 0 else rs[k - 1].start)
      modifies this`mem, this`head
      ensures Linked(mem, head, RemoveAt(rs, k))
      ensures NodeAt(mem, rs[k], 0)
      ensures SameOutside(old(mem), mem, rs)
    {
      assert NodeAt(mem, rs[k], AddrAt(rs, k + 1));
      assert Region(region, Load(mem, region)) == rs[k];
      var next := Load(mem, region + NEXT_OFFSET);
      mem := SetNext(mem, region, 0);
      if current == 0 {
        head := next;
        UnlinkFirst(old(mem), mem, rs);
      } else {
        RedirectPredecessor(current, next, old(mem), rs, k);
      }
    }

    // `current.next = next` for a node that is not the dummy head.
    method RedirectPredecessor(current: nat, next: nat, ghost m: Memory, ghost rs: seq<Region>, ghost k: nat)
      requires Linked(m, head, rs) && NodeRegions(rs) && 0 < k < |rs|
      requires current == rs[k - 1].start && next == AddrAt(rs, k + 1)
      requires NodeAt(mem, rs[k], 0) && mem.Keys == m.Keys
      requires forall x :: x in m && !(rs[k].start <= x < rs[k].start + FreeList.NODE_SIZE) ==> mem[x] == m[x]
      modifies this`mem
      ensures Linked(mem, head, RemoveAt(rs, k)) && NodeAt(mem, rs[k], 0) && SameOutside(m, mem, rs)
    {
      hide SameOutside, Separated, FreeList.GoodRequest, Load;
      ghost var m1 := mem;
      KeepOthers(m, mem, rs, k);
      assert NodeAt(mem, rs[k - 1], AddrAt(rs, k));
      assert Region(current, Load(mem, current)) == rs[k - 1];
      assert next < WORD_LIMIT;
      mem := SetNext(mem, current, next);
      UnlinkLater(m, m1, mem, rs, k);
    }

    /** `alloc`. The state afterwards is the one `FreeList.Alloc` gives, and no byte outside the old
        free regions changes. */
    method Alloc(layout: Layout) returns (reply: FreeList.Reply)
      requires Valid() && ValidLayout(layout)
      modifies this
      ensures FreeList.Addressable(old(heap.free))
      ensures (heap, reply) == FreeList.Alloc(old(heap), layout)
      ensures reply != FreeList.Panic ==> Valid()
      ensures reply != FreeList.Panic ==>
        Happens(old(heap), old(mem), Call(FreeListHistory.AllocOp(layout)), heap, mem)
      ensures SameOutside(old(mem), mem, old(heap.free))
    {
      hide Linked, Happens, SameOutside, FreeList.Alloc;
      reply := Carve(layout);
      if reply != FreeList.Panic {
        AllocHappens(old(heap), old(mem), layout, mem);
      }
    }

    // The body of `alloc`.
    method Carve(layout: Layout) returns (reply: FreeList.Reply)
      requires Valid() && ValidLayout(layout)
      modifies this
      ensures FreeList.Addressable(old(heap.free))
      ensures (heap, reply) == FreeList.Alloc(old(heap), layout)
      ensures reply != FreeList.Panic ==> Valid()
      ensures SameOutside(old(mem), mem, old(heap.free))
    {
      hide AlignUp, FreeList.FitStart, FreeList.FirstFit, FreeList.SizeAlign, FromBytes, Linked, Covered;
      match FreeList.SizeAlign(layout) {
        case None =>
          return FreeList.Panic;
        case Some((size, align)) =>
          assert NodeRegions(heap.free);
          var found := FindRegion(size, align, heap.free);
          match found {
            case None =>
              return FreeList.Null;
            case Some((region, allocStart)) =>
              ghost var i := FreeList.FirstFit(heap.free, size, align);
              ghost var m1 := mem;
              RestRegions(heap, size, align, i);
              var allocEnd := allocStart + size;
              var excess := region + Load(mem, region) - allocEnd;
              var ok := ReturnExcess(allocEnd, excess, RemoveAt(heap.free, i));
              InsideFrame(m1, mem, Region(allocEnd, excess), heap.free, i);
              AllocRefines(heap, layout, size, align, i, allocStart, Region(allocEnd, excess), ok, mem, head);
              heap := FreeList.Alloc(heap, layout).0;
              return if ok then FreeList.Pointer(allocStart) else FreeList.Panic;
          }
      }
    }

    // The tail of `alloc`: what the unlinked region does not need goes back on the list.
    method ReturnExcess(allocEnd: nat, excess: nat, ghost rest: seq<Region>) returns (ok: bool)
      requires Linked(mem, head, rest) && NodeRegions(rest)
      requires 0 < allocEnd && allocEnd + excess <= ADDRESS_LIMIT && Mapped(mem, allocEnd, excess)
      requires Apart(Region(allocEnd, excess), rest)
      modifies this`mem, this`head
      ensures ok <==> excess == 0 || FreeList.HoldsNode(Region(allocEnd, excess))
      ensures ok ==> Linked(mem, head, if excess > 0 then [Region(allocEnd, excess)] + rest else rest)
      ensures SameOutside(old(mem), mem, [Region(allocEnd, excess)])
    {
      ok := true;
      if excess > 0 {
        ok := AddFreeRegion(allocEnd, excess, rest);
      }
    }

    /** `dealloc` of a live allocation: nothing fails, and only bytes of the freed block change. */
    method Dealloc(ptr: nat, layout: Layout) returns (ok: bool)
      requires Valid() && FreeList.Allocation(ptr, layout) in heap.live
      modifies this
      ensures ok && Valid()
      ensures FreeList.GoodAllocation(FreeList.Allocation(ptr, layout)) && ptr <= ADDRESS_LIMIT
      ensures heap == FreeList.Dealloc(old(heap), FreeList.Allocation(ptr, layout)).0
      ensures SameOutside(old(mem), mem, [FreeList.Block(FreeList.Allocation(ptr, layout))])
      ensures Happens(old(heap), old(mem), Call(FreeListHistory.DeallocOp(FreeList.Allocation(ptr, layout))), heap, mem)
    {
      hide Happens, AlignUp, AlignedTo, IsPow2, FreeList.SizeAlign, SameOutside;
      ghost var a := FreeList.Allocation(ptr, layout);
      FreeList.DeallocKeepsValid(heap, a);
      var size := FreeList.SizeAlign(layout).value.0;
      FreedBlockIsApart(heap, a);
      ok := AddFreeRegion(ptr, size, heap.free);
      DeallocHappens(heap, old(mem), a, mem);
      heap := FreeList.Dealloc(heap, a).0;
    }

    /** A client writing a byte of a block it owns. The free list does not notice. */
    method ClientWrite(ghost a: FreeList.Allocation, addr: nat, value: byte)
      requires Valid() && a in heap.live && FreeList.GoodAllocation(a)
      requires a.ptr <= addr < FreeList.Block(a).End()
      modifies this`mem
      ensures Valid() && Happens(heap, old(mem), Write(a, addr, value), heap, mem)
    {
      hide FreeList.AllSeparated, FreeList.Accounted, FreeList.SizeAlign, AlignedTo, FromBytes, Load;
      FreedBlockIsApart(heap, a);
      mem := mem[addr := value];
      forall i | 0 <= i < |heap.free| ensures NodeAt(mem, heap.free[i], AddrAt(heap.free, i + 1)) {
        assert Disjoint(FreeList.Block(a), heap.free[i]);
        NodeFrame(old(mem), mem, heap.free[i], AddrAt(heap.free, i + 1));
      }
    }
  }

  // Rewriting the node of region k leaves the other nodes as they are.
  lemma KeepOthers(m: Memory, m': Memory, rs: seq<Region>, k: nat)
    requires NodeRegions(rs) && k < |rs| && Linked(m, AddrAt(rs, 0), rs)
    requires m'.Keys == m.Keys
    requires forall x :: x in m && !(rs[k].start <= x < rs[k].start + FreeList.NODE_SIZE) ==> m'[x] == m[x]
    ensures forall i :: 0 <= i < |rs| && i != k ==> NodeAt(m', rs[i], AddrAt(rs, i + 1))
  {
    forall i | 0 <= i < |rs| && i != k ensures NodeAt(m', rs[i], AddrAt(rs, i + 1)) {
      if i < k {
        assert Disjoint(rs[i], rs[k]);
      } else {
        assert Disjoint(rs[k], rs[i]);
      }
      NodesApart(m, m', rs[k], rs[i], AddrAt(rs, i + 1));
    }
  }

  lemma SameOutsideNode(m: Memory, m': Memory, rs: seq<Region>, k: nat)
    requires k < |rs| && rs[k].size >= FreeList.NODE_SIZE && m'.Keys == m.Keys
    requires forall x :: x in m && !(rs[k].start <= x < rs[k].start + FreeList.NODE_SIZE) ==> m'[x] == m[x]
    ensures SameOutside(m, m', rs)
  {
  }

  // Taking the first node off.
  lemma UnlinkFirst(m: Memory, m': Memory, rs: seq<Region>)
    requires NodeRegions(rs) && |rs| > 0 && Linked(m, AddrAt(rs, 0), rs)
    requires NodeAt(m', rs[0], 0) && m'.Keys == m.Keys
    requires forall x :: x in m && !(rs[0].start <= x < rs[0].start + FreeList.NODE_SIZE) ==> m'[x] == m[x]
    ensures Linked(m', AddrAt(rs, 1), RemoveAt(rs, 0)) && SameOutside(m, m', rs)
  {
    KeepOthers(m, m', rs, 0);
    LinkedUnlink(m, m', AddrAt(rs, 1), rs, 0);
    SameOutsideNode(m, m', rs, 0);
  }

  // Taking a later node off: first its own pointer is cleared, then its predecessor's redirected.
  lemma UnlinkLater(m: Memory, m1: Memory, m': Memory, rs: seq<Region>, k: nat)
    requires NodeRegions(rs) && 0 < k < |rs| && Linked(m, AddrAt(rs, 0), rs)
    requires NodeAt(m1, rs[k], 0) && m1.Keys == m.Keys
    requires forall x :: x in m && !(rs[k].start <= x < rs[k].start + FreeList.NODE_SIZE) ==> m1[x] == m[x]
    requires NodeAt(m', rs[k - 1], AddrAt(rs, k + 1)) && m'.Keys == m1.Keys
    requires forall x :: x in m1 && !(rs[k - 1].start <= x < rs[k - 1].start + FreeList.NODE_SIZE) ==> m'[x] == m1[x]
    ensures Linked(m', AddrAt(rs, 0), RemoveAt(rs, k)) && SameOutside(m, m', rs) && NodeAt(m', rs[k], 0)
  {
    KeepOthers(m, m1, rs, k);
    forall i | 0 <= i < |rs| && i != k && i + 1 != k ensures NodeAt(m', rs[i], AddrAt(rs, i + 1)) {
      if i < k {
        assert Disjoint(rs[i], rs[k - 1]);
      } else {
        assert Disjoint(rs[k - 1], rs[i]);
      }
      NodesApart(m1, m', rs[k - 1], rs[i], AddrAt(rs, i + 1));
    }
    assert Disjoint(rs[k - 1], rs[k]);
    NodesApart(m1, m', rs[k - 1], rs[k], 0);
    LinkedUnlink(m, m', AddrAt(rs, 0), rs, k);
    SameOutsideNode(m, m1, rs, k);
    SameOutsideNode(m1, m', rs, k - 1);
  }

  // The node of region k.
  lemma NodeIsRegion(m: Memory, rs: seq<Region>, k: nat)
    requires k < |rs| && NodeAt(m, rs[k], AddrAt(rs, k + 1))
    ensures Mapped(m, rs[k].start, FreeList.NODE_SIZE) && Region(rs[k].start, Load(m, rs[k].start)) == rs[k]
    ensures Load(m, rs[k].start + NEXT_OFFSET) == AddrAt(rs, k + 1)
  {
  }

  lemma FirstFitIs(rs: seq<Region>, size: nat, align: nat, k: nat)
    requires FreeList.GoodRequest(size, align) && FreeList.Addressable(rs) && k <= |rs|
    requires forall j :: 0 <= j < k ==> FreeList.FitStart(rs[j], size, align) == None
    requires k < |rs| ==> FreeList.FitStart(rs[k], size, align) != None
    ensures FreeList.FirstFit(rs, size, align) == k
  {
    var i := FreeList.FirstFit(rs, size, align);
    assert i >= k;
    assert k < |rs| ==> i <= k;
  }

  // A change inside a part of region i is a change inside rs.
  lemma InsideFrame(m: Memory, m': Memory, part: Region, rs: seq<Region>, i: nat)
    requires i < |rs| && Inside(part, rs[i]) && SameOutside(m, m', [part])
    ensures SameOutside(m, m', rs)
  {
    forall x | x in m && !Covered(x, rs) ensures m'[x] == m[x] {
      assert !(rs[i].start <= x < rs[i].End());
      assert !Covered(x, [part]);
    }
  }

  // With the list relinked around the excess, the bytes stand for the heap `FreeList.Alloc` gives.
  lemma AllocRefines(h: FreeList.Heap, layout: Layout, size: nat, align: nat, i: nat, allocStart: nat, excess: Region,
                     ok: bool, m: Memory, head: nat)
    requires FreeList.Valid(h) && ValidLayout(layout) && FreeList.SizeAlign(layout) == Some((size, align))
    requires i == FreeList.FirstFit(h.free, size, align) && i < |h.free|
    requires FreeList.FitStart(h.free[i], size, align) == Some(allocStart)
    requires excess.start == allocStart + size && excess.End() == h.free[i].End()
    requires ok <==> excess.size == 0 || FreeList.HoldsNode(excess)
    requires ok ==> Linked(m, head, if excess.size > 0 then [excess] + RemoveAt(h.free, i) else RemoveAt(h.free, i))
    ensures var (h', reply) := FreeList.Alloc(h, layout);
            && reply == (if ok then FreeList.Pointer(allocStart) else FreeList.Panic)
            && h'.start == h.start && h'.size == h.size
            && (ok ==> FreeList.Valid(h') && Linked(m, head, h'.free))
  {
    FreeList.AllocFound(h, layout, size, align, i, allocStart, excess);
    FreeList.AllocKeepsValid(h, layout);
  }

  // What is left of the chosen region is apart from the regions that stay on the list.
  lemma RestRegions(h: FreeList.Heap, size: nat, align: nat, i: nat)
    requires FreeList.Valid(h) && FreeList.GoodRequest(size, align) && i < |h.free|
    requires FreeList.FitStart(h.free[i], size, align).Some?
    ensures NodeRegions(RemoveAt(h.free, i))
    ensures var end := FreeList.FitStart(h.free[i], size, align).value + size;
            && end <= h.free[i].End()
            && Inside(Region(end, h.free[i].End() - end), h.free[i])
            && Apart(Region(end, h.free[i].End() - end), RemoveAt(h.free, i))
  {
    SeparatedRemove(h.free, i);
  }

  lemma FreedBlockIsApart(h: FreeList.Heap, a: FreeList.Allocation)
    requires FreeList.Valid(h) && a in h.live && FreeList.GoodAllocation(a)
    ensures NodeRegions(h.free) && Apart(FreeList.Block(a), h.free)
    ensures Inside(FreeList.Block(a), Region(h.start, h.size))
  {
    var i := FreeList.IndexOf(h.live, a);
    assert FreeList.Blocks(h.live)[i] == FreeList.Block(a);
    forall j | 0 <= j < |h.free| ensures Disjoint(FreeList.Block(a), h.free[j]) {
      assert Apart(h.free[j], FreeList.Blocks(h.live));
    }
  }

  /** A change confined to the free regions, or to one live block, keeps every byte of every other
      live block. */
  lemma OtherLiveBytesKept(h: FreeList.Heap, m: Memory, m': Memory, k: nat, i: nat)
    requires FreeList.Valid(h) && Mapped(m, h.start, h.size) && k < |h.live|
    requires
      || SameOutside(m, m', h.free)
      || (i < |h.live| && i != k && SameOutside(m, m', [FreeList.Block(h.live[i])]))
    ensures SameBytes(m, m', h.live[k].ptr, FreeList.Block(h.live[k]).size)
  {
    var b := FreeList.Block(h.live[k]);
    assert FreeList.Blocks(h.live)[k] == b && Inside(b, Region(h.start, h.size));
    if SameOutside(m, m', h.free) {
      FreedBlockIsApart(h, h.live[k]);
      forall x | b.start <= x < b.End() ensures !Covered(x, h.free) {
        assert forall j :: 0 <= j < |h.free| ==> Disjoint(b, h.free[j]);
      }
    } else {
      var c := FreeList.Block(h.live[i]);
      assert FreeList.Blocks(h.live)[i] == c;
      assert Disjoint(b, c) || Disjoint(c, b);
      assert forall x :: b.start <= x < b.End() ==> !Covered(x, [c]);
    }
  }
}
