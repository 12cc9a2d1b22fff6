/** What the linked-list allocator (`allocator/linked_list.rs`) does to its sequence of
    free regions, and what every history of allocations and deallocations keeps.

    The list in memory is the subject of `LinkedListHeap`; here a region is a value. */
module FreeList {
  import opened Alignment
  import opened Layouts

  // `size_of::<ListNode>()` and `align_of::<ListNode>()`.
  const NODE_SIZE: nat := 16
  const NODE_ALIGN: nat := 8

  datatype Allocation = Allocation(ptr: nat, layout: Layout)

  // What a call returns: an address, the null pointer, or a failed assertion.
  datatype Reply = Pointer(addr: nat) | Null | Panic

  // The bounds given to `init`, the free list from its head, the allocations not yet
  // freed, and the bytes skipped in front of aligned allocations so far.
  datatype Heap = Heap(start: nat, size: nat, free: seq<Region>, live: seq<Allocation>, padding: nat)

  // `pad_to_align`.
  lemma PaddedSize(size: nat, align: nat)
    requires IsPow2(align) && NODE_ALIGN <= align && size + align <= ADDRESS_LIMIT
    ensures AlignUp(size, align) % NODE_ALIGN == 0 && size <= AlignUp(size, align) <= ADDRESS_LIMIT
  {
    hide AlignUp, AlignedTo;
    EightIsPow2();
    AlignUpAligned(size, align);
    LargerAlignment(NODE_ALIGN, align, AlignUp(size, align));
  }

  // `size_align`; None is the `expect` on `align_to`. The adjusted request has a size that is
  // a multiple of 8, at least 16 and at least the requested one.
  function SizeAlign(layout: Layout): (r: Option<(nat, nat)>)
    requires ValidLayout(layout)
    ensures r.None? <==> layout.size + Max(layout.align, NODE_ALIGN) > ADDRESS_LIMIT
    ensures r.Some? ==> GoodRequest(r.value.0, r.value.1)
    ensures r.Some? ==> layout.size <= r.value.0 && r.value.1 == Max(layout.align, NODE_ALIGN)
  {
    var align := Max(layout.align, NODE_ALIGN);
    if layout.size + align > ADDRESS_LIMIT then None
    else
      EightIsPow2();
      PaddedSize(layout.size, align);
      Some((Max(AlignUp(layout.size, align), NODE_SIZE), align))
  }

  /** The adjusted size is the smallest multiple of the adjusted alignment that holds the request, or 16 if
      that is larger. */
  lemma SizeAlignIsLeast(layout: Layout)
    requires ValidLayout(layout)
    ensures SizeAlign(layout).None? <==> layout.size + Max(layout.align, 8) > ADDRESS_LIMIT
    ensures SizeAlign(layout).Some? ==>
      var (size, align) := SizeAlign(layout).value;
      && align == Max(layout.align, 8) && Max(layout.size, 16) <= size
      && (size == 16 || size % align == 0)
      && forall m: nat :: m % align == 0 && layout.size <= m ==> size <= Max(m, 16)
  {
    hide AlignUp, IsPow2;
    if SizeAlign(layout).Some? {
      EightIsPow2();
      AlignUpIsLeastMultiple(layout.size, Max(layout.align, NODE_ALIGN));
    }
  }

  ghost predicate GoodRequest(size: nat, align: nat) {
    && IsPow2(align) && NODE_ALIGN <= align <= ADDRESS_LIMIT
    && size % NODE_ALIGN == 0 && NODE_SIZE <= size <= ADDRESS_LIMIT
  }

  // `alloc_from_region`.
  function FitStart(region: Region, size: nat, align: nat): (r: Option<nat>)
    requires GoodRequest(size, align) && region.End() <= ADDRESS_LIMIT
    ensures r.Some? ==> region.start <= r.value && r.value + size <= region.End()
  {
    AlignUpAligned(region.start, align);
    var allocStart := AlignUp(region.start, align);
    if allocStart + size >= WORD_LIMIT then None
    else if allocStart + size > region.End() then None
    else Some(allocStart)
  }

  // A fit is the lowest aligned place for the request inside the region, and without a fit there is
  // no such place.
  lemma FitMeaning(region: Region, size: nat, align: nat)
    requires GoodRequest(size, align) && region.End() <= ADDRESS_LIMIT
    ensures match FitStart(region, size, align)
            case Some(start) =>
              && AlignedTo(start, align) && start % NODE_ALIGN == 0
              && region.start <= start < region.start + align
              && forall s: nat :: AlignedTo(s, align) && Inside(Region(s, size), region) ==> start <= s
            case None => forall s: nat :: AlignedTo(s, align) ==> !Inside(Region(s, size), region)
  {
    EightIsPow2();
    AlignUpAligned(region.start, align);
    LargerAlignment(NODE_ALIGN, align, AlignUp(region.start, align));
  }

  predicate Addressable(free: seq<Region>) {
    forall i :: 0 <= i < |free| ==> free[i].End() <= ADDRESS_LIMIT
  }

  // The index of the first region that fits, or the length of the list.
  function FirstFit(free: seq<Region>, size: nat, align: nat): (i: nat)
    requires GoodRequest(size, align) && Addressable(free)
    ensures i <= |free|
    ensures forall j :: 0 <= j < i ==> FitStart(free[j], size, align) == None
    ensures i < |free| ==> FitStart(free[i], size, align) != None
  {
    if free == [] || FitStart(free[0], size, align) != None then 0
    else 1 + FirstFit(free[1..], size, align)
  }

  // The two assertions of `add_free_region`.
  predicate HoldsNode(region: Region)
    requires region.start <= ADDRESS_LIMIT
  {
    AlignUp(region.start, NODE_ALIGN) == region.start && region.size >= NODE_SIZE
  }

  // `alloc`: the new heap and the reply.
  function Alloc(h: Heap, layout: Layout): (r: (Heap, Reply))
    requires ValidLayout(layout) && Addressable(h.free)
  {
    match SizeAlign(layout)
    case None => (h, Panic)
    case Some((size, align)) =>
      var i := FirstFit(h.free, size, align);
      if i == |h.free| then (h, Null)
      else Place(h, layout, size, i, FitStart(h.free[i], size, align).value)
  }

  // The second half of `alloc`: region i is off the list, and what it has left goes back on.
  function Place(h: Heap, layout: Layout, size: nat, i: nat, allocStart: nat): (r: (Heap, Reply))
    requires i < |h.free| && h.free[i].start <= allocStart
    requires allocStart + size <= h.free[i].End() <= ADDRESS_LIMIT
  {
    var region, rest := h.free[i], RemoveAt(h.free, i);
    var excess := Region(allocStart + size, region.End() - (allocStart + size));
    if excess.size > 0 && !HoldsNode(excess) then (h.(free := rest), Panic) else
    (h.(free := if excess.size > 0 then [excess] + rest else rest,
        live := h.live + [Allocation(allocStart, layout)],
        padding := h.padding + (allocStart - region.start)),
     Pointer(allocStart))
  }

  // Some aligned place for the request lies in the region.
  ghost predicate HasRoom(region: Region, size: nat, align: nat) {
    exists s: nat :: AlignedTo(s, align) && Inside(Region(s, size), region)
  }

  // The lowest aligned place for the request in the region.
  ghost predicate IsLowest(region: Region, size: nat, align: nat, start: nat) {
    && AlignedTo(start, align) && Inside(Region(start, size), region)
    && forall s: nat :: AlignedTo(s, align) && Inside(Region(s, size), region) ==> start <= s
  }

  lemma FitIsLowest(region: Region, size: nat, align: nat)
    requires GoodRequest(size, align) && region.End() <= ADDRESS_LIMIT
    ensures FitStart(region, size, align).Some? <==> HasRoom(region, size, align)
    ensures FitStart(region, size, align).Some? ==>
      IsLowest(region, size, align, FitStart(region, size, align).value)
  {
    hide AlignUp, AlignedTo, IsPow2, FitStart;
    FitMeaning(region, size, align);
  }

  lemma FirstFitHasRoom(free: seq<Region>, size: nat, align: nat)
    requires GoodRequest(size, align) && Addressable(free)
    ensures var i := FirstFit(free, size, align);
            && (i < |free| ==> HasRoom(free[i], size, align))
            && forall j :: 0 <= j < i ==> !HasRoom(free[j], size, align)
  {
    hide AlignUp, FitStart, HasRoom, GoodRequest;
    var i := FirstFit(free, size, align);
    forall j | 0 <= j < |free| ensures FitStart(free[j], size, align).Some? <==> HasRoom(free[j], size, align) {
      FitIsLowest(free[j], size, align);
    }
  }

  // What a region has behind a block.
  function Behind(region: Region, end: nat): (r: seq<Region>)
    requires end <= region.End()
  {
    if end < region.End() then [Region(end, region.End() - end)] else []
  }

  /** First fit, in full: the block is at the lowest aligned place in the first region that has one; that
      region leaves the list, and what it has behind the block becomes the first region. */
  lemma AllocIsFirstFit(h: Heap, layout: Layout) returns (i: nat)
    requires Addressable(h.free) && ValidLayout(layout) && Alloc(h, layout).1.Pointer?
    ensures SizeAlign(layout).Some? && i < |h.free|
    ensures var ((size, align), ptr) := (SizeAlign(layout).value, Alloc(h, layout).1.addr);
            && (forall j :: 0 <= j < i ==> !HasRoom(h.free[j], size, align))
            && IsLowest(h.free[i], size, align, ptr)
            && Alloc(h, layout).0.free == Behind(h.free[i], ptr + size) + (h.free[..i] + h.free[i + 1..])
  {
    hide AlignUp, IsPow2, FitStart, HoldsNode, HasRoom, SizeAlign, FirstFit;
    var (size, align) := SizeAlign(layout).value;
    i := FirstFit(h.free, size, align);
    FirstFitHasRoom(h.free, size, align);
    FitIsLowest(h.free[i], size, align);
    assert [] + RemoveAt(h.free, i) == RemoveAt(h.free, i);
  }

  ghost predicate GoodAllocation(a: Allocation) {
    ValidLayout(a.layout) && SizeAlign(a.layout).Some?
  }

  // The block an allocation owns: its adjusted size at its address.
  function Block(a: Allocation): (r: Region)
    requires GoodAllocation(a)
  {
    Region(a.ptr, SizeAlign(a.layout).value.0)
  }

  function IndexOf<T(==)>(s: seq<T>, x: T): (i: nat)
    requires x in s
    ensures i < |s| && s[i] == x
  {
    if s[0] == x then 0 else 1 + IndexOf(s[1..], x)
  }

  // `dealloc` of a live allocation.
  function Dealloc(h: Heap, a: Allocation): (r: (Heap, Reply))
    requires a in h.live && ValidLayout(a.layout) && a.ptr <= ADDRESS_LIMIT
  {
    match SizeAlign(a.layout)
    case None => (h, Panic)
    case Some(_) =>
      if !HoldsNode(Block(a)) then (h, Panic) else
      (h.(free := [Block(a)] + h.free, live := RemoveAt(h.live, IndexOf(h.live, a))), Null)
  }

  // -------- What every history keeps --------

  ghost function Blocks(live: seq<Allocation>): (rs: seq<Region>)
    requires forall i :: 0 <= i < |live| ==> GoodAllocation(live[i])
    ensures |rs| == |live| && forall i :: 0 <= i < |live| ==> rs[i] == Block(live[i])
  {
    seq(|live|, i requires 0 <= i < |live| => Block(live[i]))
  }

  ghost predicate GoodBounds(h: Heap) {
    0 < h.start && h.start % NODE_ALIGN == 0 && h.start + h.size <= ADDRESS_LIMIT
  }

  ghost predicate GoodFree(h: Heap) {
    forall i :: 0 <= i < |h.free| ==>
      Inside(h.free[i], Region(h.start, h.size))
      && h.free[i].start % NODE_ALIGN == 0 && h.free[i].size >= NODE_SIZE
  }

  ghost predicate GoodLive(h: Heap) {
    forall i :: 0 <= i < |h.live| ==>
      GoodAllocation(h.live[i])
      && Inside(Block(h.live[i]), Region(h.start, h.size))
      && AlignedTo(h.live[i].ptr, Max(h.live[i].layout.align, NODE_ALIGN))
  }

  ghost predicate AllSeparated(h: Heap)
    requires GoodLive(h)
  {
    && Separated(h.free)
    && Separated(Blocks(h.live))
    && forall i :: 0 <= i < |h.free| ==> Apart(h.free[i], Blocks(h.live))
  }

  // free bytes + live bytes + skipped bytes = heap bytes.
  ghost predicate Accounted(h: Heap)
    requires GoodLive(h)
  {
    TotalSize(h.free) + TotalSize(Blocks(h.live)) + h.padding == h.size
  }

  ghost predicate Valid(h: Heap) {
    GoodBounds(h) && GoodFree(h) && GoodLive(h) && AllSeparated(h) && Accounted(h)
  }

  // `init` on an unused heap that passes both assertions.
  function Init(start: nat, size: nat): (h': Heap) {
    Heap(start, size, [Region(start, size)], [], 0)
  }

  lemma InitIsValid(start: nat, size: nat)
    requires 0 < start && start + size <= ADDRESS_LIMIT && HoldsNode(Region(start, size))
    ensures Valid(Init(start, size))
  {
    NodeAlignment(start);
    var h := Init(start, size);
    assert h.free[1..] == [];
    assert Blocks(h.live) == [];
  }

  // The alignment assertion holds exactly of multiples of 8.
  lemma NodeAlignment(addr: nat)
    requires addr <= ADDRESS_LIMIT
    ensures AlignUp(addr, NODE_ALIGN) == addr <==> addr % NODE_ALIGN == 0
  {
    EightIsPow2();
    AlignUpIsLeastMultiple(addr, NODE_ALIGN);
  }

  lemma BlocksAppend(live: seq<Allocation>, a: Allocation)
    requires forall i :: 0 <= i < |live| ==> GoodAllocation(live[i])
    requires GoodAllocation(a)
    ensures forall i :: 0 <= i < |live + [a]| ==> GoodAllocation((live + [a])[i])
    ensures Blocks(live + [a]) == Blocks(live) + [Block(a)]
    ensures TotalSize(Blocks(live + [a])) == TotalSize(Blocks(live)) + Block(a).size
  {
    assert Blocks(live + [a]) == Blocks(live) + [Block(a)];
    TotalSizeSum(Blocks(live), [Block(a)]);
    assert TotalSize([Block(a)]) == Block(a).size;
  }

  lemma BlocksRemove(live: seq<Allocation>, i: nat)
    requires forall i :: 0 <= i < |live| ==> GoodAllocation(live[i])
    requires i < |live|
    ensures forall k :: 0 <= k < |live| - 1 ==> GoodAllocation(RemoveAt(live, i)[k])
    ensures Blocks(RemoveAt(live, i)) == RemoveAt(Blocks(live), i)
    ensures TotalSize(Blocks(RemoveAt(live, i))) == TotalSize(Blocks(live)) - Block(live[i]).size
  {
    assert Blocks(RemoveAt(live, i)) == RemoveAt(Blocks(live), i);
    TotalSizeRemove(Blocks(live), i);
  }

  lemma SumOfMultiples(a: nat, b: nat)
    requires a % NODE_ALIGN == 0 && b % NODE_ALIGN == 0
    ensures (a + b) % NODE_ALIGN == 0
  {
  }

  // The pieces of a successful allocation: the chosen region, the block and what is left behind it.
  ghost predicate Carves(h: Heap, i: nat, a: Allocation, excess: Region) {
    && i < |h.free| && GoodAllocation(a)
    && AlignedTo(a.ptr, SizeAlign(a.layout).value.1) && a.ptr % NODE_ALIGN == 0
    && h.free[i].start <= a.ptr < h.free[i].start + SizeAlign(a.layout).value.1
    && Block(a).End() == excess.start && excess.End() == h.free[i].End()
  }

  ghost function Carved(h: Heap, i: nat, a: Allocation, excess: Region): (h': Heap)
    requires Carves(h, i, a, excess)
  {
    var rest := RemoveAt(h.free, i);
    h.(free := if excess.size > 0 then [excess] + rest else rest,
       live := h.live + [a],
       padding := h.padding + (a.ptr - h.free[i].start))
  }

  // A non-panicking, non-null allocation is a carving.
  lemma AllocCarves(h: Heap, layout: Layout) returns (i: nat, excess: Region)
    requires Valid(h) && ValidLayout(layout) && Alloc(h, layout).1.Pointer?
    ensures Carves(h, i, Allocation(Alloc(h, layout).1.addr, layout), excess)
    ensures excess.size == 0 || excess.size >= NODE_SIZE
    ensures Alloc(h, layout).0 == Carved(h, i, Allocation(Alloc(h, layout).1.addr, layout), excess)
    ensures i == FirstFit(h.free, SizeAlign(layout).value.0, SizeAlign(layout).value.1)
  {
    hide AlignUp, AlignedTo, IsPow2, FitStart, SizeAlign, FirstFit, AllSeparated, Accounted, GoodLive;
    var (size, align) := SizeAlign(layout).value;
    i := FirstFit(h.free, size, align);
    FitMeaning(h.free[i], size, align);
    excess := PlaceCarves(h, layout, size, i, FitStart(h.free[i], size, align).value);
  }

  lemma PlaceCarves(h: Heap, layout: Layout, size: nat, i: nat, start: nat) returns (excess: Region)
    requires i < |h.free| && h.free[i].start <= start && start + size <= h.free[i].End() <= ADDRESS_LIMIT
    requires GoodAllocation(Allocation(start, layout)) && size == SizeAlign(layout).value.0
    requires AlignedTo(start, SizeAlign(layout).value.1) && start % NODE_ALIGN == 0
    requires start < h.free[i].start + SizeAlign(layout).value.1
    requires Place(h, layout, size, i, start).1.Pointer?
    ensures Carves(h, i, Allocation(start, layout), excess)
    ensures excess.size == 0 || excess.size >= NODE_SIZE
    ensures Place(h, layout, size, i, start).0 == Carved(h, i, Allocation(start, layout), excess)
  {
    hide AlignUp, AlignedTo, IsPow2, SizeAlign;
    excess := Region(start + size, h.free[i].End() - (start + size));
  }

  // Where `alloc` has found a region, the free list and the reply depend on the excess alone.
  lemma AllocFound(h: Heap, layout: Layout, size: nat, align: nat, i: nat, allocStart: nat, excess: Region)
    requires Valid(h) && ValidLayout(layout) && SizeAlign(layout) == Some((size, align))
    requires i == FirstFit(h.free, size, align) && i < |h.free|
    requires FitStart(h.free[i], size, align) == Some(allocStart)
    requires excess.start == allocStart + size && excess.End() == h.free[i].End()
    ensures var ok := excess.size == 0 || HoldsNode(excess);
            var rest := RemoveAt(h.free, i);
            && Alloc(h, layout).1 == (if ok then Pointer(allocStart) else Panic)
            && Alloc(h, layout).0.free == (if ok && excess.size > 0 then [excess] + rest else rest)
            && Alloc(h, layout).0.start == h.start && Alloc(h, layout).0.size == h.size
  {
    hide AlignUp, AlignedTo, IsPow2, FitStart, SizeAlign, FirstFit;
    assert excess == Region(allocStart + size, h.free[i].End() - (allocStart + size));
  }

  lemma CarvedFree(h: Heap, i: nat, a: Allocation, excess: Region)
    requires Valid(h) && Carves(h, i, a, excess)
    requires excess.size == 0 || excess.size >= NODE_SIZE
    ensures GoodFree(Carved(h, i, a, excess))
  {
    hide AlignedTo, IsPow2, SizeAlign;
    var rest := RemoveAt(h.free, i);
    SumOfMultiples(a.ptr, Block(a).size);
    assert GoodFree(h.(free := rest));
    assert Inside(excess, Region(h.start, h.size));
  }

  lemma CarvedLive(h: Heap, i: nat, a: Allocation, excess: Region)
    requires Valid(h) && Carves(h, i, a, excess)
    ensures GoodLive(Carved(h, i, a, excess))
  {
    hide AlignedTo, IsPow2, SizeAlign;
    var h' := Carved(h, i, a, excess);
    assert Inside(h.free[i], Region(h.start, h.size));
    forall k | 0 <= k < |h'.live|
      ensures GoodAllocation(h'.live[k])
      ensures Inside(Block(h'.live[k]), Region(h.start, h.size))
      ensures AlignedTo(h'.live[k].ptr, Max(h'.live[k].layout.align, NODE_ALIGN))
    {
      if k < |h.live| {
        assert h'.live[k] == h.live[k];
      } else {
        assert h'.live[k] == a;
      }
    }
  }

  lemma CarvedFreeSeparated(h: Heap, i: nat, a: Allocation, excess: Region)
    requires Valid(h) && Carves(h, i, a, excess)
    ensures Separated(Carved(h, i, a, excess).free)
    ensures forall k :: 0 <= k < |Carved(h, i, a, excess).free| ==>
              Disjoint(Carved(h, i, a, excess).free[k], Block(a))
  {
    hide AlignedTo, IsPow2, SizeAlign;
    SeparatedRemove(h.free, i);
    assert Apart(h.free[i], RemoveAt(h.free, i));
  }

  lemma CarvedLiveSeparated(h: Heap, i: nat, a: Allocation, excess: Region)
    requires Valid(h) && Carves(h, i, a, excess)
    ensures Separated(Blocks(h.live) + [Block(a)])
    ensures forall k :: 0 <= k < |Carved(h, i, a, excess).free| ==>
              Apart(Carved(h, i, a, excess).free[k], Blocks(h.live))
  {
    hide AlignedTo, IsPow2, SizeAlign;
    assert Apart(h.free[i], Blocks(h.live));
    assert Apart(Block(a), Blocks(h.live)) && Apart(excess, Blocks(h.live));
  }

  lemma CarvedSeparated(h: Heap, i: nat, a: Allocation, excess: Region)
    requires Valid(h) && Carves(h, i, a, excess) && GoodLive(Carved(h, i, a, excess))
    ensures AllSeparated(Carved(h, i, a, excess))
  {
    hide AlignedTo, IsPow2, SizeAlign, Separated, Apart, Accounted, GoodFree;
    var free := Carved(h, i, a, excess).free;
    BlocksAppend(h.live, a);
    CarvedFreeSeparated(h, i, a, excess);
    CarvedLiveSeparated(h, i, a, excess);
    forall k | 0 <= k < |free| ensures Apart(free[k], Blocks(h.live) + [Block(a)]) {
      ApartAppend(free[k], Blocks(h.live), Block(a));
    }
  }

  lemma ApartAppend(r: Region, rs: seq<Region>, last: Region)
    requires Apart(r, rs) && Disjoint(r, last)
    ensures Apart(r, rs + [last])
  {
  }

  lemma CarvedAccounted(h: Heap, i: nat, a: Allocation, excess: Region)
    requires Valid(h) && Carves(h, i, a, excess) && GoodLive(Carved(h, i, a, excess))
    ensures Accounted(Carved(h, i, a, excess))
  {
    var rest := RemoveAt(h.free, i);
    TotalSizeRemove(h.free, i);
    BlocksAppend(h.live, a);
    assert ([excess] + rest)[1..] == rest;
  }

  /** `alloc` from a valid heap. A pointer is aligned as requested, was carved out of the first
      region with room for it, and skips fewer bytes than the alignment. Null means that no aligned
      place for the adjusted request exists in any free region, and changes nothing. */
  lemma AllocKeepsValid(h: Heap, layout: Layout)
    requires Valid(h) && ValidLayout(layout)
    ensures Alloc(h, layout).1 != Panic ==> Valid(Alloc(h, layout).0)
    ensures Alloc(h, layout).1.Pointer? ==>
      var (h', reply) := Alloc(h, layout);
      && reply.addr > 0 && reply.addr % layout.align == 0
      && h'.live == h.live + [Allocation(reply.addr, layout)]
      && h.padding <= h'.padding < h.padding + Max(layout.align, NODE_ALIGN)
    ensures Alloc(h, layout).1.Null? ==>
      && Alloc(h, layout).0 == h
      && var (size, align) := SizeAlign(layout).value;
         forall j, s: nat :: 0 <= j < |h.free| && s % align == 0 ==> !Inside(Region(s, size), h.free[j])
  {
    if Alloc(h, layout).1.Pointer? {
      var a := Allocation(Alloc(h, layout).1.addr, layout);
      var i, excess := AllocCarves(h, layout);
      CarvedFree(h, i, a, excess);
      CarvedLive(h, i, a, excess);
      CarvedSeparated(h, i, a, excess);
      CarvedAccounted(h, i, a, excess);
      EightIsPow2();
      LargerAlignment(layout.align, Max(layout.align, NODE_ALIGN), a.ptr);
    } else if Alloc(h, layout).1.Null? {
      var (size, align) := SizeAlign(layout).value;
      forall j, s: nat | 0 <= j < |h.free| && s % align == 0
        ensures !Inside(Region(s, size), h.free[j])
      {
        AlignedToIsMultiple(s, align);
        FitMeaning(h.free[j], size, align);
      }
    }
  }

  // The bytes the first region that fits would have left over; 0 when none fits.
  ghost function FirstFitExcess(h: Heap, size: nat, align: nat): (r: nat)
    requires GoodRequest(size, align) && Addressable(h.free)
  {
    var i := FirstFit(h.free, size, align);
    if i == |h.free| then 0
    else h.free[i].End() - (FitStart(h.free[i], size, align).value + size)
  }

  /** Exactly when `alloc` fails an assertion: the adjusted layout is invalid, or the first region
      that fits leaves 1 to 15 bytes. The alignment assertion never is the reason. */
  lemma AllocPanicsExactly(h: Heap, layout: Layout)
    requires Valid(h) && ValidLayout(layout)
    ensures Alloc(h, layout).1 == Panic <==>
      match SizeAlign(layout)
      case None => true
      case Some((size, align)) => 1 <= FirstFitExcess(h, size, align) < 16
  {
    hide AlignUp, AlignedTo, IsPow2, FitStart, SizeAlign, FirstFit;
    if SizeAlign(layout).Some? {
      var (size, align) := SizeAlign(layout).value;
      var i := FirstFit(h.free, size, align);
      if i < |h.free| {
        ExcessIsAligned(h.free[i], size, align);
      }
    }
  }

  lemma ExcessIsAligned(region: Region, size: nat, align: nat)
    requires GoodRequest(size, align) && region.End() <= ADDRESS_LIMIT
    requires FitStart(region, size, align).Some?
    ensures var end := FitStart(region, size, align).value + size;
            end <= ADDRESS_LIMIT && AlignUp(end, NODE_ALIGN) == end
  {
    hide AlignUp, AlignedTo, IsPow2, FitStart;
    FitMeaning(region, size, align);
    var start := FitStart(region, size, align).value;
    SumOfMultiples(start, size);
    NodeAlignment(start + size);
  }

  /** `dealloc` of a live allocation passes both assertions, keeps the heap valid and puts
      exactly the freed block at the front of the list. */
  lemma DeallocKeepsValid(h: Heap, a: Allocation)
    requires Valid(h) && a in h.live
    ensures ValidLayout(a.layout) && GoodAllocation(a) && a.ptr <= ADDRESS_LIMIT
    ensures Dealloc(h, a).1 == Null
    ensures Valid(Dealloc(h, a).0)
    ensures Dealloc(h, a).0.free == [Block(a)] + h.free
    ensures multiset(Dealloc(h, a).0.live) == multiset(h.live) - multiset{a}
  {
    var i := IndexOf(h.live, a);
    assert GoodAllocation(h.live[i]) && Inside(Block(a), Region(h.start, h.size));
    BlockHoldsNode(a);
    DeallocSeparated(h, a, i);
    DeallocAccounted(h, a, i);
    RemoveAtMultiset(h.live, i);
  }

  lemma RemoveAtMultiset<T>(s: seq<T>, i: nat)
    requires i < |s|
    ensures multiset(RemoveAt(s, i)) == multiset(s) - multiset{s[i]}
  {
    assert s == s[..i] + [s[i]] + s[i + 1..];
  }

  lemma DeallocAccounted(h: Heap, a: Allocation, i: nat)
    requires Valid(h) && i < |h.live| && h.live[i] == a
    requires GoodLive(h.(free := [Block(a)] + h.free, live := RemoveAt(h.live, i)))
    ensures Accounted(h.(free := [Block(a)] + h.free, live := RemoveAt(h.live, i)))
  {
    BlocksRemove(h.live, i);
    assert ([Block(a)] + h.free)[1..] == h.free;
  }

  lemma BlockHoldsNode(a: Allocation)
    requires GoodAllocation(a) && a.ptr <= ADDRESS_LIMIT
    requires AlignedTo(a.ptr, Max(a.layout.align, NODE_ALIGN))
    ensures HoldsNode(Block(a)) && a.ptr % NODE_ALIGN == 0
  {
    EightIsPow2();
    LargerAlignment(NODE_ALIGN, SizeAlign(a.layout).value.1, a.ptr);
    NodeAlignment(a.ptr);
  }

  lemma DeallocSeparated(h: Heap, a: Allocation, i: nat)
    requires Valid(h) && i < |h.live| && h.live[i] == a
    ensures GoodLive(h.(free := [Block(a)] + h.free, live := RemoveAt(h.live, i)))
    ensures AllSeparated(h.(free := [Block(a)] + h.free, live := RemoveAt(h.live, i)))
  {
    BlocksRemove(h.live, i);
    SeparatedMove(h.free, Blocks(h.live), i);
  }

  // Moving one block from the live side to the front of the free side.
  lemma SeparatedMove(free: seq<Region>, live: seq<Region>, i: nat)
    requires Separated(free) && Separated(live) && i < |live|
    requires forall k :: 0 <= k < |free| ==> Apart(free[k], live)
    ensures Separated([live[i]] + free) && Separated(RemoveAt(live, i))
    ensures forall k :: 0 <= k < |free| + 1 ==> Apart(([live[i]] + free)[k], RemoveAt(live, i))
  {
    var free' := [live[i]] + free;
    SeparatedRemove(live, i);
    forall k | 0 < k < |free'| ensures Disjoint(free'[0], free'[k]) && Apart(free'[k], RemoveAt(live, i)) {
      assert free'[k] == free[k - 1] && Apart(free[k - 1], live);
    }
  }
}
