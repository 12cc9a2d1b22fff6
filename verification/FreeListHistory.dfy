/** Whole histories of the linked-list allocator. */
module FreeListHistory {
  import opened Alignment
  import opened Layouts
  import opened FreeList

  datatype Op = AllocOp(layout: Layout) | DeallocOp(allocation: Allocation)

  // Misuse: the client broke the `GlobalAlloc` contract (freed something that is not live).
  datatype Outcome = Running(heap: Heap) | Panicked | Misuse

  // The client side of `GlobalAlloc`.
  ghost predicate Legal(h: Heap, op: Op) {
    match op
    case AllocOp(layout) => ValidLayout(layout)
    case DeallocOp(a) => a in h.live
  }

  ghost function Step(h: Heap, op: Op): (r: (Heap, Reply))
    requires Valid(h) && Legal(h, op)
    ensures r.1 != Panic ==> Valid(r.0)
    ensures op.DeallocOp? ==> r.1 != Panic
  {
    match op
    case AllocOp(layout) => AllocKeepsValid(h, layout); Alloc(h, layout)
    case DeallocOp(a) => DeallocKeepsValid(h, a); Dealloc(h, a)
  }

  /** A history from a valid heap; every state it passes through is valid: regions aligned, big
      enough, inside the heap and apart from each other and from every live block, and every byte
      accounted for. */
  ghost function Run(h: Heap, ops: seq<Op>): (r: Outcome)
    requires Valid(h)
    ensures r.Running? ==> Valid(r.heap)
    decreases |ops|
  {
    if ops == [] then Running(h)
    else if !Legal(h, ops[0]) then Misuse
    else
      var (h', reply) := Step(h, ops[0]);
      if reply == Panic then Panicked else Run(h', ops[1..])
  }

  // -------- When the size assertion cannot fail --------

  // Every allocation request keeps sizes in multiples of 16.
  ghost predicate SixteenByteRequest(layout: Layout) {
    ValidLayout(layout) && SizeAlign(layout).Some? && SizeAlign(layout).value.0 % 16 == 0
  }

  ghost predicate SixteenByteOps(ops: seq<Op>) {
    forall i :: 0 <= i < |ops| && ops[i].AllocOp? ==> SixteenByteRequest(ops[i].layout)
  }

  ghost predicate SixteenByteHeap(h: Heap) {
    && (forall i :: 0 <= i < |h.free| ==> h.free[i].start % 16 == 0 && h.free[i].size % 16 == 0)
    && (forall i :: 0 <= i < |h.live| ==> h.live[i].ptr % 16 == 0 && SixteenByteRequest(h.live[i].layout))
  }

  lemma SixteenByteFit(region: Region, size: nat, align: nat)
    requires GoodRequest(size, align) && region.End() <= ADDRESS_LIMIT && region.start % 16 == 0
    requires FitStart(region, size, align).Some?
    ensures FitStart(region, size, align).value % 16 == 0
  {
    hide AlignUp, AlignedTo, FitStart, SizeAlign, FirstFit;
    FitMeaning(region, size, align);
    var start := FitStart(region, size, align).value;
    EightIsPow2();
    if align >= 16 {
      LargerAlignment(16, align, start);
    } else {
      Pow2Between(align);
      SameMultipleOfEight(region.start, start);
    }
  }

  lemma Pow2Between(align: nat)
    requires IsPow2(align) && 8 <= align < 16
    ensures align == 8
  {
    var k: nat :| align == Pow2(k);
    assert Pow2(3) == 8 && Pow2(4) == 16;
    if k >= 4 {
      Pow2Monotone(4, k);
    } else if k < 3 {
      Pow2Monotone(k, 2);
    }
  }

  lemma SameMultipleOfEight(a: nat, b: nat)
    requires a % 8 == 0 && b % 8 == 0 && a <= b < a + 8
    ensures a == b
  {
  }

  lemma SixteenByteRest(start: nat, size: nat, ptr: nat, taken: nat)
    requires start % 16 == 0 && size % 16 == 0 && ptr % 16 == 0 && taken % 16 == 0
    ensures (ptr + taken) % 16 == 0
    ensures (start + size - (ptr + taken)) % 16 == 0
  {
  }

  lemma SixteenByteFirstFit(h: Heap, size: nat, align: nat)
    requires Addressable(h.free) && SixteenByteHeap(h) && GoodRequest(size, align) && size % 16 == 0
    ensures FirstFitExcess(h, size, align) == 0 || FirstFitExcess(h, size, align) >= NODE_SIZE
  {
    var i := FirstFit(h.free, size, align);
    if i < |h.free| {
      var r := h.free[i];
      SixteenByteFit(r, size, align);
      SixteenByteRest(r.start, r.size, FitStart(r, size, align).value, size);
    }
  }

  lemma SixteenByteAllocRuns(h: Heap, layout: Layout)
    requires Valid(h) && SixteenByteHeap(h) && SixteenByteRequest(layout)
    ensures Alloc(h, layout).1 != Panic
  {
    var (size, align) := SizeAlign(layout).value;
    SixteenByteFirstFit(h, size, align);
    AllocPanicsExactly(h, layout);
  }

  lemma SixteenByteCarved(h: Heap, i: nat, a: Allocation, excess: Region)
    requires Valid(h) && SixteenByteHeap(h) && SixteenByteRequest(a.layout)
    requires Carves(h, i, a, excess) && a.ptr % 16 == 0
    ensures SixteenByteHeap(Carved(h, i, a, excess))
  {
    hide AlignUp, AlignedTo, FitStart, SizeAlign, FirstFit, AllSeparated, Accounted;
    SixteenByteRest(h.free[i].start, h.free[i].size, a.ptr, Block(a).size);
    assert excess.start == a.ptr + Block(a).size;
    assert excess.size == h.free[i].start + h.free[i].size - excess.start;
  }

  lemma SixteenByteAlloc(h: Heap, layout: Layout)
    requires Valid(h) && SixteenByteHeap(h) && SixteenByteRequest(layout)
    ensures Alloc(h, layout).1 != Panic && SixteenByteHeap(Alloc(h, layout).0)
  {
    SixteenByteAllocRuns(h, layout);
    if Alloc(h, layout).1.Pointer? {
      var (size, align) := SizeAlign(layout).value;
      SixteenByteFit(h.free[FirstFit(h.free, size, align)], size, align);
      var i, excess := AllocCarves(h, layout);
      SixteenByteCarved(h, i, Allocation(Alloc(h, layout).1.addr, layout), excess);
    } else {
      AllocKeepsValid(h, layout);
    }
  }

  lemma SixteenByteDealloc(h: Heap, a: Allocation)
    requires Valid(h) && SixteenByteHeap(h) && a in h.live
    ensures ValidLayout(a.layout) && a.ptr <= ADDRESS_LIMIT
    ensures SixteenByteHeap(Dealloc(h, a).0)
  {
    hide AlignUp, AlignedTo, IsPow2, FitStart, SizeAlign, FirstFit, AllSeparated, Accounted;
    DeallocKeepsValid(h, a);
  }

  lemma SixteenByteStep(h: Heap, op: Op)
    requires Valid(h) && SixteenByteHeap(h) && Legal(h, op)
    requires op.AllocOp? ==> SixteenByteRequest(op.layout)
    ensures Step(h, op).1 != Panic && SixteenByteHeap(Step(h, op).0)
  {
    match op {
      case AllocOp(layout) => SixteenByteAlloc(h, layout);
      case DeallocOp(a) => SixteenByteDealloc(h, a);
    }
  }

  lemma {:induction false} SixteenByteRun(h: Heap, ops: seq<Op>)
    requires Valid(h) && SixteenByteHeap(h) && SixteenByteOps(ops)
    ensures Run(h, ops) != Panicked
    decreases |ops|
  {
    if ops == [] || !Legal(h, ops[0]) {
    } else {
      SixteenByteStep(h, ops[0]);
      SixteenByteRun(Step(h, ops[0]).0, ops[1..]);
    }
  }

  /** With a heap start and size that are multiples of 16 and adjusted request sizes that are
      multiples of 16, no history fails an assertion. */
  lemma SixteenByteHistoryNeverPanics(start: nat, size: nat, ops: seq<Op>)
    requires 0 < start && start + size <= ADDRESS_LIMIT && NODE_SIZE <= size
    requires start % 16 == 0 && size % 16 == 0 && SixteenByteOps(ops)
    ensures HoldsNode(Region(start, size)) && Valid(Init(start, size))
    ensures Run(Init(start, size), ops) != Panicked
  {
    assert start % NODE_ALIGN == 0;
    NodeAlignment(start);
    InitIsValid(start, size);
    SixteenByteRun(Init(start, size), ops);
  }

  // A 40-byte heap and a request for 32 bytes: 8 bytes are left, and `alloc` panics although
  // the request fits.
  lemma SmallRemainderPanics()
    ensures var layout := Layout(32, 8);
            && ValidLayout(layout) && Valid(Init(4096, 40))
            && Inside(Region(4096, 32), Init(4096, 40).free[0])
            && Run(Init(4096, 40), [AllocOp(layout)]) == Panicked
  {
    var layout := Layout(32, 8);
    EightIsPow2();
    NodeAlignment(4096);
    InitIsValid(4096, 40);
    var h := Init(4096, 40);
    AlignUpIsLeastMultiple(32, 8);
    AlignUpIsLeastMultiple(4096, 8);
    assert SizeAlign(layout) == Some((32, 8));
    assert FitStart(h.free[0], 32, 8) == Some(4096);
    assert FirstFit(h.free, 32, 8) == 0;
    assert FirstFitExcess(h, 32, 8) == 8;
    AllocPanicsExactly(h, layout);
    assert Legal(h, AllocOp(layout));
  }

  // -------- When conservation is exact --------

  ghost predicate SmallAlignOps(ops: seq<Op>) {
    forall i :: 0 <= i < |ops| && ops[i].AllocOp? ==> ops[i].layout.align <= NODE_ALIGN
  }

  lemma SmallAlignAlloc(h: Heap, layout: Layout)
    requires Valid(h) && ValidLayout(layout) && layout.align <= NODE_ALIGN
    ensures Alloc(h, layout).0.padding == h.padding
  {
    if SizeAlign(layout).Some? {
      var (size, align) := SizeAlign(layout).value;
      var i := FirstFit(h.free, size, align);
      if i < |h.free| {
        FitMeaning(h.free[i], size, align);
        SameMultipleOfEight(h.free[i].start, FitStart(h.free[i], size, align).value);
      }
    }
  }

  lemma SmallAlignStep(h: Heap, op: Op)
    requires Valid(h) && Legal(h, op) && (op.AllocOp? ==> op.layout.align <= NODE_ALIGN)
    ensures Step(h, op).0.padding == h.padding
  {
    match op {
      case AllocOp(layout) => SmallAlignAlloc(h, layout);
      case DeallocOp(a) => DeallocKeepsValid(h, a);
    }
  }

  lemma {:induction false} SmallAlignRun(h: Heap, ops: seq<Op>)
    requires Valid(h) && SmallAlignOps(ops)
    ensures Run(h, ops).Running? ==> Run(h, ops).heap.padding == h.padding
    decreases |ops|
  {
    if ops == [] || !Legal(h, ops[0]) || Step(h, ops[0]).1 == Panic {
    } else {
      SmallAlignStep(h, ops[0]);
      SmallAlignRun(Step(h, ops[0]).0, ops[1..]);
    }
  }

  lemma StepKeepsBounds(h: Heap, op: Op)
    requires Valid(h) && Legal(h, op)
    ensures Step(h, op).0.start == h.start && Step(h, op).0.size == h.size
  {
  }

  lemma {:induction false} BoundsNeverMove(h: Heap, ops: seq<Op>)
    requires Valid(h)
    ensures Run(h, ops).Running? ==> Run(h, ops).heap.start == h.start && Run(h, ops).heap.size == h.size
    decreases |ops|
  {
    if ops == [] || !Legal(h, ops[0]) || Step(h, ops[0]).1 == Panic {
    } else {
      StepKeepsBounds(h, ops[0]);
      BoundsNeverMove(Step(h, ops[0]).0, ops[1..]);
    }
  }

  /** In every history that does not panic, free bytes, live bytes and skipped bytes add up to the
      heap; when no request asks for more than 8-byte alignment nothing is ever skipped. */
  lemma BytesAreConserved(start: nat, size: nat, ops: seq<Op>)
    requires 0 < start && start + size <= ADDRESS_LIMIT && HoldsNode(Region(start, size))
    ensures Valid(Init(start, size))
    ensures var r := Run(Init(start, size), ops);
            r.Running? ==>
              && TotalSize(r.heap.free) + TotalSize(Blocks(r.heap.live)) + r.heap.padding == size
              && (SmallAlignOps(ops) ==> r.heap.padding == 0)
  {
    InitIsValid(start, size);
    BoundsNeverMove(Init(start, size), ops);
    if SmallAlignOps(ops) {
      SmallAlignRun(Init(start, size), ops);
    }
  }
}
