/** The bump allocator (`allocator/bump.rs`). */
module Bump {
  import opened Alignment
  import opened Layouts

  datatype Block = Block(ptr: nat, layout: Layout) {
    function Span(): (r: Region) {
      Region(ptr, layout.size)
    }
  }

  // The allocator's bounds and `next`, and the allocations not yet freed in the order they were made.
  datatype Heap = Heap(start: nat, end: nat, next: nat, live: seq<Block>)

  ghost predicate Valid(h: Heap) {
    && 0 < h.start <= h.next <= h.end <= ADDRESS_LIMIT
    && (h.live == [] ==> h.next == h.start)
    && (forall i :: 0 <= i < |h.live| ==>
          && ValidLayout(h.live[i].layout) && AlignedTo(h.live[i].ptr, h.live[i].layout.align)
          && h.start <= h.live[i].ptr && h.live[i].Span().End() <= h.next)
    && (forall i, j :: 0 <= i < j < |h.live| ==> h.live[i].Span().End() <= h.live[j].ptr)
  }

  // `alloc`; None is the null pointer.
  function Alloc(h: Heap, layout: Layout): (r: (Heap, Option<nat>))
    requires ValidLayout(layout) && h.next <= ADDRESS_LIMIT
  {
    var allocStart := AlignUp(h.next, layout.align);
    var allocEnd := allocStart + layout.size;
    if allocEnd >= WORD_LIMIT || allocEnd > h.end then (h, None)
    else (h.(next := allocEnd, live := h.live + [Block(allocStart, layout)]), Some(allocStart))
  }

  // `dealloc` of the i-th live allocation.
  function Dealloc(h: Heap, i: nat): (h': Heap)
    requires i < |h.live|
  {
    var live := RemoveAt(h.live, i);
    h.(live := live, next := if live == [] then h.start else h.next)
  }

  lemma AllocKeepsValid(h: Heap, layout: Layout)
    requires Valid(h) && ValidLayout(layout)
    ensures Valid(Alloc(h, layout).0)
    ensures match Alloc(h, layout).1
      case Some(ptr) =>
        && ptr % layout.align == 0 && h.next <= ptr
        && (forall s: nat :: s % layout.align == 0 && h.next <= s ==> ptr <= s)
        && Alloc(h, layout).0 == h.(next := ptr + layout.size, live := h.live + [Block(ptr, layout)])
      case None => Alloc(h, layout).0 == h
                   && forall s: nat :: s % layout.align == 0 && h.next <= s ==> s + layout.size > h.end
  {
    hide AlignUp, AlignedTo, IsPow2;
    AlignUpIsLeastMultiple(h.next, layout.align);
    AlignedToIsMultiple(AlignUp(h.next, layout.align), layout.align);
  }

  lemma DeallocKeepsValid(h: Heap, i: nat)
    requires Valid(h) && i < |h.live|
    ensures Valid(Dealloc(h, i))
    ensures Dealloc(h, i).live == h.live[..i] + h.live[i + 1..]
    ensures Dealloc(h, i).next == if |h.live| == 1 then h.start else h.next
  {
    hide AlignedTo, IsPow2;
  }

  // -------- Histories --------

  datatype Op = AllocOp(layout: Layout) | DeallocOp(i: nat)

  ghost predicate Legal(h: Heap, op: Op) {
    match op
    case AllocOp(layout) => ValidLayout(layout)
    case DeallocOp(i) => i < |h.live|
  }

  ghost function Step(h: Heap, op: Op): (h': Heap)
    requires Valid(h) && Legal(h, op)
    ensures Valid(h') && h'.start == h.start && h'.end == h.end
  {
    match op
    case AllocOp(layout) => AllocKeepsValid(h, layout); Alloc(h, layout).0
    case DeallocOp(i) => DeallocKeepsValid(h, i); Dealloc(h, i)
  }

  // The states of a history that keeps the contract, None if it does not.
  ghost function Run(h: Heap, ops: seq<Op>): (r: Option<Heap>)
    requires Valid(h)
    ensures r.Some? ==> Valid(r.value) && r.value.start == h.start && r.value.end == h.end
    decreases |ops|
  {
    if ops == [] then Some(h) else if !Legal(h, ops[0]) then None else Run(Step(h, ops[0]), ops[1..])
  }

  lemma StepCounts(h: Heap, op: Op)
    requires Valid(h) && Legal(h, op)
    ensures var h' := Step(h, op);
            |h'.live| == if op.DeallocOp? then |h.live| - 1
                         else if Alloc(h, op.layout).1.Some? then |h.live| + 1 else |h.live|
    ensures Step(h, op).next < h.next ==> op.DeallocOp? && Step(h, op).live == []
  {
    hide AlignUp, AlignedTo, IsPow2;
    match op {
      case AllocOp(layout) => AllocKeepsValid(h, layout);
      case DeallocOp(i) => DeallocKeepsValid(h, i);
    }
  }

  /** `next` is the high end of everything live: while a history never runs out of live allocations, it
      never moves down. */
  lemma {:induction false} NextOnlyFallsWhenEmpty(h: Heap, ops: seq<Op>)
    requires Valid(h) && Run(h, ops).Some?
    requires forall n :: 0 < n <= |ops| && Run(h, ops[..n]).Some? ==> Run(h, ops[..n]).value.live != []
    ensures Run(h, ops).value.next >= h.next
    decreases |ops|
  {
    hide Valid, AlignUp;
    if ops == [] {
    } else {
      var h', rest := Step(h, ops[0]), ops[1..];
      StepCounts(h, ops[0]);
      RunFirst(h, ops);
      assert ops[..1] == [ops[0]] && h'.live != [];
      forall n | 0 < n <= |rest| && Run(h', rest[..n]).Some? ensures Run(h', rest[..n]).value.live != [] {
        assert ops[..n + 1] == [ops[0]] + rest[..n];
        RunFirst(h, ops[..n + 1]);
        assert ops[..n + 1][1..] == rest[..n];
      }
      NextOnlyFallsWhenEmpty(h', rest);
    }
  }

  lemma RunFirst(h: Heap, ops: seq<Op>)
    requires Valid(h) && ops != [] && Legal(h, ops[0])
    ensures Run(h, ops) == Run(Step(h, ops[0]), ops[1..])
    ensures Run(h, [ops[0]]) == Some(Step(h, ops[0]))
  {
    assert [ops[0]][1..] == [];
  }

  // With no empty requests, the counter is bounded by the heap and cannot overflow.
  lemma {:induction false} LiveFitsHeap(h: Heap, n: nat)
    requires Valid(h) && n <= |h.live| && forall i :: 0 <= i < |h.live| ==> h.live[i].layout.size > 0
    ensures n > 0 ==> h.start + n <= h.live[n - 1].Span().End()
    ensures n <= h.next - h.start
  {
    if n == 0 {
    } else {
      LiveFitsHeap(h, n - 1);
      if n > 1 {
        assert h.live[n - 2].Span().End() <= h.live[n - 1].ptr;
      }
    }
  }
}

/** The allocator itself. */
module BumpHeap {
  import opened Alignment
  import opened Layouts
  import Bump

  class BumpAllocator {
    var heapStart: nat
    var heapEnd: nat
    var next: nat
    var allocations: nat
    ghost var heap: Bump.Heap

    ghost predicate Valid()
      reads this
    {
      && Bump.Valid(heap) && heapStart == heap.start && heapEnd == heap.end && next == heap.next
      && allocations == |heap.live|
    }

    constructor ()
      ensures heapStart == heapEnd == next == allocations == 0
    {
      heapStart, heapEnd, next, allocations := 0, 0, 0, 0;
    }

    /** `init`. */
    method Init(start: nat, size: nat)
      requires allocations == 0 && 0 < start && start + size <= ADDRESS_LIMIT
      modifies this
      ensures Valid() && heap == Bump.Heap(start, start + size, start, [])
    {
      heapStart, heapEnd, next := start, start + size, start;
      heap := Bump.Heap(start, start + size, start, []);
    }

    /** `alloc`. */
    method Alloc(layout: Layout) returns (r: Option<nat>)
      requires Valid() && ValidLayout(layout)
      modifies this
      ensures Valid() && (heap, r) == Bump.Alloc(old(heap), layout)
    {
      hide AlignUp, AlignedTo, IsPow2;
      Bump.AllocKeepsValid(heap, layout);
      var allocStart := AlignUp(next, layout.align);
      heap := Bump.Alloc(heap, layout).0;
      if allocStart + layout.size >= WORD_LIMIT {
        return None;
      }
      var allocEnd := allocStart + layout.size;
      if allocEnd > heapEnd {
        return None;
      }
      next := allocEnd;
      allocations := allocations + 1;
      return Some(allocStart);
    }

    /** `dealloc` of a live allocation: the counter never underflows. */
    method Dealloc(ghost i: nat)
      requires Valid() && i < |heap.live|
      modifies this
      ensures Valid() && heap == Bump.Dealloc(old(heap), i)
    {
      Bump.DeallocKeepsValid(heap, i);
      heap := Bump.Dealloc(heap, i);
      allocations := allocations - 1;
      if allocations == 0 {
        next := heapStart;
      }
    }
  }
}
