/** The fixed-size block allocator (`allocator/fixed_size_block.rs`) over block addresses.

    `linked_list_allocator::Heap`, the fallback, is known by its contract only: what it hands out is
    aligned, inside the heap and disjoint from everything it has handed out and not got back. The
    lists in memory are the subject of `FixedBlockHeap`. */
module FixedBlocks {
  import opened Alignment
  import opened Layouts

  const BLOCK_SIZES: seq<nat> := [8, 16, 32, 64, 128, 256, 512, 1024, 2048]

  const NODE_SIZE: nat := 8

  function Required(layout: Layout): (r: nat) {
    if layout.size < layout.align then layout.align else layout.size
  }

  // `list_index`: the position of the first block size that is large enough.
  function ListIndex(layout: Layout): (r: Option<nat>)
    ensures r.Some? ==> r.value < |BLOCK_SIZES|
    ensures r.Some? ==> layout.size <= BLOCK_SIZES[r.value] && layout.align <= BLOCK_SIZES[r.value]
    ensures r.Some? ==> forall j :: 0 <= j < r.value ==> BLOCK_SIZES[j] < layout.size || BLOCK_SIZES[j] < layout.align
    ensures r.None? <==> layout.size > 2048 || layout.align > 2048
  {
    PositionFrom(0, Required(layout))
  }

  function PositionFrom(i: nat, required: nat): (r: Option<nat>)
    requires i <= |BLOCK_SIZES|
    ensures r.Some? ==> i <= r.value < |BLOCK_SIZES| && required <= BLOCK_SIZES[r.value]
    ensures r.Some? ==> forall j :: i <= j < r.value ==> BLOCK_SIZES[j] < required
    ensures r.None? ==> forall j :: i <= j < |BLOCK_SIZES| ==> BLOCK_SIZES[j] < required
    decreases |BLOCK_SIZES| - i
  {
    if i == |BLOCK_SIZES| then None
    else if BLOCK_SIZES[i] >= required then Some(i)
    else PositionFrom(i + 1, required)
  }

  // The layout under which the memory for a request comes from the fallback.
  function FallbackLayout(layout: Layout): (r: Layout) {
    match ListIndex(layout)
    case Some(i) => Layout(BLOCK_SIZES[i], BLOCK_SIZES[i])
    case None => layout
  }

  // The heap's bounds; the block lists from their heads; the allocations not yet freed and the
  // layouts they were made with; what the fallback has out; and the blocks ever carved, by class.
  datatype Pool = Pool(start: nat, size: nat, lists: seq<seq<nat>>, live: map<nat, Layout>,
                       out: map<nat, Layout>, carved: seq<nat>)

  datatype Op = AllocOp(layout: Layout, fallback: Option<nat>) | DeallocOp(ptr: nat, layout: Layout)

  function Init(start: nat, size: nat): (p': Pool) {
    Pool(start, size, seq(9, _ => []), map[], map[], seq(9, _ => 0))
  }

  // -------- The operations --------

  // Whether `alloc` turns to the fallback.
  predicate AsksFallback(p: Pool, layout: Layout)
    requires |p.lists| == 9
  {
    match ListIndex(layout)
    case Some(i) => p.lists[i] == []
    case None => true
  }

  // `alloc`; the result is None for the null pointer.
  function Alloc(p: Pool, layout: Layout, fallback: Option<nat>): (r: (Pool, Option<nat>))
    requires |p.lists| == |p.carved| == 9
  {
    match ListIndex(layout)
    case Some(i) =>
      if p.lists[i] != [] then
        var ptr := p.lists[i][0];
        (p.(lists := p.lists[i := p.lists[i][1..]], live := p.live[ptr := layout]), Some(ptr))
      else if fallback.None? then (p, None)
      else (p.(live := p.live[fallback.value := layout], out := p.out[fallback.value := FallbackLayout(layout)],
               carved := p.carved[i := p.carved[i] + 1]),
            fallback)
    case None =>
      if fallback.None? then (p, None)
      else (p.(live := p.live[fallback.value := layout], out := p.out[fallback.value := layout]), fallback)
  }

  // `dealloc`.
  function Dealloc(p: Pool, ptr: nat, layout: Layout): (p': Pool)
    requires |p.lists| == 9
  {
    match ListIndex(layout)
    case Some(i) => p.(lists := p.lists[i := [ptr] + p.lists[i]], live := p.live - {ptr})
    case None => p.(live := p.live - {ptr}, out := p.out - {ptr})
  }

  // -------- What every history keeps --------

  function Span(ptr: nat, layout: Layout): (r: Region) {
    Region(ptr, layout.size)
  }

  // The fallback's contract for one answer.
  ghost predicate GoodFallback(p: Pool, ptr: nat, layout: Layout) {
    && ptr !in p.out && AlignedTo(ptr, layout.align)
    && Inside(Span(ptr, layout), Region(p.start, p.size))
    && forall q :: q in p.out ==> Disjoint(Span(ptr, layout), Span(q, p.out[q]))
  }

  ghost predicate GoodOut(p: Pool) {
    && 0 < p.start && p.start + p.size <= ADDRESS_LIMIT
    && (forall q :: q in p.out ==>
          && AlignedTo(q, p.out[q].align)
          && Inside(Span(q, p.out[q]), Region(p.start, p.size)))
    && forall q, r :: q in p.out && r in p.out && q != r ==> Disjoint(Span(q, p.out[q]), Span(r, p.out[r]))
  }

  // Listed blocks are out under their class's layout, once each, and not live.
  ghost predicate GoodLists(p: Pool) {
    && |p.lists| == |p.carved| == 9
    && (forall i, j :: 0 <= i < 9 && 0 <= j < |p.lists[i]| ==>
          && p.lists[i][j] in p.out && p.out[p.lists[i][j]] == Layout(BLOCK_SIZES[i], BLOCK_SIZES[i])
          && p.lists[i][j] !in p.live)
    && (forall i, j, k :: 0 <= i < 9 && 0 <= j < k < |p.lists[i]| ==> p.lists[i][j] != p.lists[i][k])
  }

  // Live allocations are out under the layout that their own layout asks the fallback for.
  ghost predicate GoodLive(p: Pool) {
    forall q :: q in p.live ==>
      ValidLayout(p.live[q]) && q in p.out && p.out[q] == FallbackLayout(p.live[q])
  }

  ghost function LiveOfClass(live: map<nat, Layout>, i: nat): (r: set<nat>) {
    set q | q in live && ListIndex(live[q]) == Some(i)
  }

  // Every block carved for a class is live or listed.
  ghost predicate Counted(p: Pool)
    requires |p.lists| == |p.carved| == 9
  {
    forall i :: 0 <= i < 9 ==> p.carved[i] == |LiveOfClass(p.live, i)| + |p.lists[i]|
  }

  // Nothing is out that is neither live nor listed.
  ghost predicate NoneLost(p: Pool)
    requires |p.lists| == 9
  {
    forall q :: q in p.out ==> q in p.live || exists i :: 0 <= i < 9 && q in p.lists[i]
  }

  ghost predicate Valid(p: Pool) {
    GoodOut(p) && GoodLists(p) && GoodLive(p) && Counted(p) && NoneLost(p)
  }

  // What `GlobalAlloc` and the fallback promise for one call.
  ghost predicate Legal(p: Pool, op: Op)
    requires |p.lists| == 9
  {
    match op
    case AllocOp(layout, fallback) =>
      ValidLayout(layout)
      && (AsksFallback(p, layout) && fallback.Some? ==> GoodFallback(p, fallback.value, FallbackLayout(layout)))
    case DeallocOp(ptr, layout) => ptr in p.live && p.live[ptr] == layout
  }

  function Step(p: Pool, op: Op): (p': Pool)
    requires |p.lists| == |p.carved| == 9
    ensures |p'.lists| == |p'.carved| == 9 && p'.start == p.start && p'.size == p.size
  {
    match op
    case AllocOp(layout, fallback) => Alloc(p, layout, fallback).0
    case DeallocOp(ptr, layout) => Dealloc(p, ptr, layout)
  }

  lemma InitIsValid(start: nat, size: nat)
    requires 0 < start && start + size <= ADDRESS_LIMIT
    ensures Valid(Init(start, size))
  {
    assert forall i :: 0 <= i < 9 ==> LiveOfClass(map[], i) == {};
  }

  // Block sizes are powers of two, and both assertions of `dealloc` hold of each of them.
  lemma BlockSizesArePowers(i: nat)
    requires i < 9
    ensures IsPow2(BLOCK_SIZES[i]) && BLOCK_SIZES[i] == Pow2(i + 3) && NODE_SIZE <= BLOCK_SIZES[i]
  {
    assert Pow2(3) == 8 && Pow2(7) == 128 && Pow2(11) == 2048;
  }

  // What a request asks of the fallback serves the request.
  lemma FallbackLayoutServes(layout: Layout, ptr: nat)
    requires ValidLayout(layout) && AlignedTo(ptr, FallbackLayout(layout).align)
    ensures layout.size <= FallbackLayout(layout).size && ptr % layout.align == 0
  {
    if ListIndex(layout).Some? {
      BlockSizesArePowers(ListIndex(layout).value);
    }
    LargerAlignment(layout.align, FallbackLayout(layout).align, ptr);
  }

  lemma LiveAdd(live: map<nat, Layout>, ptr: nat, layout: Layout, i: nat)
    requires ptr !in live
    ensures |LiveOfClass(live[ptr := layout], i)|
         == |LiveOfClass(live, i)| + (if ListIndex(layout) == Some(i) then 1 else 0)
  {
    hide ListIndex;
    var after := LiveOfClass(live[ptr := layout], i);
    if ListIndex(layout) == Some(i) {
      assert after == LiveOfClass(live, i) + {ptr};
    } else {
      assert after == LiveOfClass(live, i);
    }
  }

  lemma LiveRemove(live: map<nat, Layout>, ptr: nat, i: nat)
    requires ptr in live
    ensures |LiveOfClass(live - {ptr}, i)|
         == |LiveOfClass(live, i)| - (if ListIndex(live[ptr]) == Some(i) then 1 else 0)
  {
    hide ListIndex;
    var after := LiveOfClass(live - {ptr}, i);
    if ListIndex(live[ptr]) == Some(i) {
      assert LiveOfClass(live, i) == after + {ptr};
    } else {
      assert after == LiveOfClass(live, i);
    }
  }

  // -------- Each operation keeps it --------

  lemma AllocKeepsCount(p: Pool, layout: Layout, fallback: Option<nat>)
    requires Valid(p) && Legal(p, AllocOp(layout, fallback))
    ensures Counted(Step(p, AllocOp(layout, fallback)))
  {
    hide AlignedTo, ListIndex, IsPow2, GoodOut, NoneLost, GoodFallback;
    var p' := Step(p, AllocOp(layout, fallback));
    var r := Alloc(p, layout, fallback).1;
    if r.Some? {
      AllocAddsLive(p, layout, fallback);
      forall k | 0 <= k < 9 ensures p'.carved[k] == |LiveOfClass(p'.live, k)| + |p'.lists[k]| {
        LiveAdd(p.live, r.value, layout, k);
      }
    }
  }

  lemma DeallocKeepsCount(p: Pool, ptr: nat, layout: Layout)
    requires Valid(p) && Legal(p, DeallocOp(ptr, layout))
    ensures Counted(Step(p, DeallocOp(ptr, layout)))
  {
    hide AlignedTo, ListIndex, IsPow2, GoodOut, NoneLost, GoodLive;
    var p' := Step(p, DeallocOp(ptr, layout));
    forall k | 0 <= k < 9 ensures p'.carved[k] == |LiveOfClass(p'.live, k)| + |p'.lists[k]| {
      LiveRemove(p.live, ptr, k);
    }
  }

  lemma StepKeepsCount(p: Pool, op: Op)
    requires Valid(p) && Legal(p, op)
    ensures Counted(Step(p, op))
  {
    hide Counted, GoodOut, GoodLive, NoneLost, ListIndex;
    match op {
      case AllocOp(layout, fallback) => AllocKeepsCount(p, layout, fallback);
      case DeallocOp(ptr, layout) => DeallocKeepsCount(p, ptr, layout);
    }
  }

  // Reusing a listed block.
  lemma ReuseKeepsValid(p: Pool, layout: Layout, i: nat)
    requires Valid(p) && ValidLayout(layout) && ListIndex(layout) == Some(i) && p.lists[i] != []
    requires Counted(Step(p, AllocOp(layout, None)))
    ensures Valid(Step(p, AllocOp(layout, None)))
  {
    hide AlignedTo, ListIndex, IsPow2, Counted, NoneLost;
    var p' := Alloc(p, layout, None).0;
    ListShrinks(p, layout, i, p');
    FirstIsOut(p, i);
    assert GoodOut(p') && GoodLive(p');
  }

  lemma FirstIsOut(p: Pool, i: nat)
    requires GoodLists(p) && i < 9 && p.lists[i] != []
    ensures p.lists[i][0] in p.out && p.out[p.lists[i][0]] == Layout(BLOCK_SIZES[i], BLOCK_SIZES[i])
  {
  }

  lemma ListShrinks(p: Pool, layout: Layout, i: nat, p': Pool)
    requires GoodLists(p) && NoneLost(p) && i < 9 && p.lists[i] != []
    requires p' == p.(lists := p.lists[i := p.lists[i][1..]], live := p.live[p.lists[i][0] := layout])
    ensures GoodLists(p') && NoneLost(p')
  {
    var ptr := p.lists[i][0];
    assert p.lists[i] == [ptr] + p'.lists[i];
    ListedElsewhere(p, i, ptr);
    forall q | q in p'.out && q !in p'.live ensures exists k :: 0 <= k < 9 && q in p'.lists[k] {
      var k :| 0 <= k < 9 && q in p.lists[k];
      assert q in p'.lists[k];
    }
  }

  // A block is listed once: not in another list, for the lists differ in the blocks' sizes.
  lemma ListedElsewhere(p: Pool, i: nat, ptr: nat)
    requires GoodLists(p) && i < 9 && p.lists[i] != [] && ptr == p.lists[i][0]
    ensures forall k, j :: 0 <= k < 9 && 0 <= j < |p.lists[k]| && p.lists[k][j] == ptr ==> k == i && j == 0
  {
    assert forall a, b :: 0 <= a < b < 9 ==> BLOCK_SIZES[a] != BLOCK_SIZES[b];
  }

  // A fresh block from the fallback.
  lemma CarveKeepsValid(p: Pool, layout: Layout, ptr: nat)
    requires Valid(p) && ValidLayout(layout) && AsksFallback(p, layout)
    requires GoodFallback(p, ptr, FallbackLayout(layout))
    requires Counted(Alloc(p, layout, Some(ptr)).0)
    ensures Valid(Alloc(p, layout, Some(ptr)).0)
  {
    hide AlignedTo, ListIndex, IsPow2, Counted, GoodOut, NoneLost;
    var p' := Alloc(p, layout, Some(ptr)).0;
    assert p'.lists == p.lists && p'.live == p.live[ptr := layout] && p'.out == p.out[ptr := FallbackLayout(layout)];
    OutGrows(p, ptr, FallbackLayout(layout), p');
    ListsStay(p, ptr, layout, p');
  }

  lemma ListsStay(p: Pool, ptr: nat, layout: Layout, p': Pool)
    requires GoodLists(p) && GoodLive(p) && NoneLost(p) && ValidLayout(layout) && ptr !in p.out
    requires p'.lists == p.lists && |p'.carved| == 9
    requires p'.live == p.live[ptr := layout] && p'.out == p.out[ptr := FallbackLayout(layout)]
    ensures GoodLists(p') && GoodLive(p') && NoneLost(p')
  {
    hide ListIndex, FallbackLayout, IsPow2;
  }

  lemma OutGrows(p: Pool, ptr: nat, layout: Layout, p': Pool)
    requires GoodOut(p) && GoodFallback(p, ptr, layout)
    requires p'.out == p.out[ptr := layout] && p'.start == p.start && p'.size == p.size
    ensures GoodOut(p')
  {
    hide AlignedTo;
  }

  // Listing a freed block.
  lemma ListKeepsValid(p: Pool, ptr: nat, i: nat)
    requires Valid(p) && ptr in p.live && ListIndex(p.live[ptr]) == Some(i)
    requires Counted(Dealloc(p, ptr, p.live[ptr]))
    ensures Valid(Dealloc(p, ptr, p.live[ptr]))
  {
    hide AlignedTo, ListIndex, IsPow2, Counted;
    var p' := Dealloc(p, ptr, p.live[ptr]);
    assert p'.lists[i][0] == ptr && p'.lists[i][1..] == p.lists[i];
    ListGrows(p, ptr, i, p');
    assert GoodOut(p') && GoodLive(p');
    assert NoneLost(p') by {
      forall q | q in p'.out && q !in p'.live ensures exists k :: 0 <= k < 9 && q in p'.lists[k] {
        if q == ptr {
          assert q in p'.lists[i];
        } else {
          var k :| 0 <= k < 9 && q in p.lists[k];
          assert q in p'.lists[k];
        }
      }
    }
  }

  lemma ListGrows(p: Pool, ptr: nat, i: nat, p': Pool)
    requires GoodLists(p) && i < 9 && ptr in p.live && ptr in p.out
    requires p.out[ptr] == Layout(BLOCK_SIZES[i], BLOCK_SIZES[i])
    requires p' == p.(lists := p.lists[i := [ptr] + p.lists[i]], live := p.live - {ptr})
    ensures GoodLists(p')
  {
  }

  // Giving a large allocation back to the fallback.
  lemma GiveBackKeepsValid(p: Pool, ptr: nat)
    requires Valid(p) && ptr in p.live && ListIndex(p.live[ptr]).None?
    requires Counted(Dealloc(p, ptr, p.live[ptr]))
    ensures Valid(Dealloc(p, ptr, p.live[ptr]))
  {
    hide AlignedTo, ListIndex, IsPow2, Counted;
    var p' := Dealloc(p, ptr, p.live[ptr]);
    LargeIsNotListed(p, ptr);
    OutShrinks(p, ptr, p');
    assert GoodLive(p');
  }

  lemma LargeIsNotListed(p: Pool, ptr: nat)
    requires Valid(p) && ptr in p.live
    ensures forall i :: 0 <= i < 9 ==> ptr !in p.lists[i]
  {
    hide AlignedTo, ListIndex, IsPow2, Counted, GoodOut, NoneLost, GoodLive;
  }

  lemma OutShrinks(p: Pool, ptr: nat, p': Pool)
    requires GoodOut(p) && GoodLists(p) && NoneLost(p) && forall i :: 0 <= i < 9 ==> ptr !in p.lists[i]
    requires p' == p.(live := p.live - {ptr}, out := p.out - {ptr})
    ensures GoodOut(p') && GoodLists(p') && NoneLost(p')
  {
    hide AlignedTo;
  }

  lemma StepKeepsValid(p: Pool, op: Op)
    requires Valid(p) && Legal(p, op)
    ensures Valid(Step(p, op))
  {
    hide GoodOut, GoodLive, Counted, NoneLost;
    StepKeepsCount(p, op);
    match op {
      case AllocOp(layout, fallback) =>
        if AsksFallback(p, layout) {
          if fallback.Some? {
            CarveKeepsValid(p, layout, fallback.value);
          }
        } else {
          ReuseKeepsValid(p, layout, ListIndex(layout).value);
        }
      case DeallocOp(ptr, layout) =>
        if ListIndex(layout).Some? {
          ListKeepsValid(p, ptr, ListIndex(layout).value);
        } else {
          GiveBackKeepsValid(p, ptr);
        }
    }
  }

  lemma AllocAddsLive(p: Pool, layout: Layout, fallback: Option<nat>)
    requires GoodLists(p) && GoodLive(p) && Legal(p, AllocOp(layout, fallback)) && Alloc(p, layout, fallback).1.Some?
    ensures var (p', r) := Alloc(p, layout, fallback);
            && r.value !in p.live && p'.live == p.live[r.value := layout] && p'.start == p.start && p'.size == p.size
  {
    hide AlignedTo, ListIndex, IsPow2;
  }

  /** What `alloc` hands out has the size and the alignment asked for, whether the block is fresh or was
      freed under another layout of its class, and is apart from every other live allocation and from
      every listed block; the null pointer comes only from the fallback and changes nothing. */
  lemma AllocServes(p: Pool, layout: Layout, fallback: Option<nat>)
    requires Valid(p) && Legal(p, AllocOp(layout, fallback))
    ensures match Alloc(p, layout, fallback)
      case (p', Some(ptr)) =>
        && ptr % layout.align == 0 && ptr !in p.live && p'.live == p.live[ptr := layout]
        && Inside(Span(ptr, layout), Region(p.start, p.size))
        && (forall q :: q in p.live ==> Disjoint(Span(ptr, layout), Span(q, p.live[q])))
        && (forall i, j :: 0 <= i < 9 && 0 <= j < |p'.lists[i]| ==>
              Disjoint(Span(ptr, layout), Region(p'.lists[i][j], BLOCK_SIZES[i])))
      case (p', None) => p' == p && AsksFallback(p, layout) && fallback == None
  {
    hide AlignedTo, ListIndex, IsPow2, Counted, NoneLost, GoodOut;
    StepKeepsValid(p, AllocOp(layout, fallback));
    var (p', r) := Alloc(p, layout, fallback);
    if r.Some? {
      var ptr := r.value;
      AllocAddsLive(p, layout, fallback);
      LiveIsApart(p', ptr);
      forall q | q in p.live ensures Disjoint(Span(ptr, layout), Span(q, p.live[q])) {
        assert q in p'.live && p'.live[q] == p.live[q];
      }
    }
  }

  /** In every valid state a live allocation has its size and alignment, and is apart from every other
      live allocation and every listed block. */
  lemma LiveIsApart(p: Pool, ptr: nat)
    requires Valid(p) && ptr in p.live
    ensures ptr % p.live[ptr].align == 0 && Inside(Span(ptr, p.live[ptr]), Region(p.start, p.size))
    ensures forall q :: q in p.live && q != ptr ==> Disjoint(Span(ptr, p.live[ptr]), Span(q, p.live[q]))
    ensures forall i, j :: 0 <= i < 9 && 0 <= j < |p.lists[i]| ==>
              Disjoint(Span(ptr, p.live[ptr]), Region(p.lists[i][j], BLOCK_SIZES[i]))
  {
    hide AlignedTo, ListIndex, IsPow2, Counted, NoneLost, FallbackLayout;
    FallbackLayoutServes(p.live[ptr], ptr);
    forall q | q in p.live && q != ptr ensures Disjoint(Span(ptr, p.live[ptr]), Span(q, p.live[q])) {
      FallbackLayoutServes(p.live[q], q);
      assert Disjoint(Span(ptr, p.out[ptr]), Span(q, p.out[q]));
    }
    forall i, j | 0 <= i < 9 && 0 <= j < |p.lists[i]|
      ensures Disjoint(Span(ptr, p.live[ptr]), Region(p.lists[i][j], BLOCK_SIZES[i]))
    {
      var q := p.lists[i][j];
      assert q != ptr && Disjoint(Span(ptr, p.out[ptr]), Span(q, p.out[q]));
    }
  }

  /** Every block that goes back to the fallback is one it has out, under the very layout it was asked
      for; a listed block is aligned to its size. */
  lemma FallbackGetsBackWhatItGave(p: Pool, ptr: nat, layout: Layout)
    requires Valid(p) && Legal(p, DeallocOp(ptr, layout))
    ensures ptr > 0
    ensures ListIndex(layout).None? ==>
      ptr in p.out && p.out[ptr] == layout && Dealloc(p, ptr, layout).out == p.out - {ptr}
    ensures ListIndex(layout).Some? ==>
      var i := ListIndex(layout).value;
      && Dealloc(p, ptr, layout).lists[i] == [ptr] + p.lists[i] && Dealloc(p, ptr, layout).out == p.out
      && p.out[ptr] == Layout(BLOCK_SIZES[i], BLOCK_SIZES[i]) && ptr % BLOCK_SIZES[i] == 0
      && NODE_SIZE <= BLOCK_SIZES[i]
  {
    if ListIndex(layout).Some? {
      var i := ListIndex(layout).value;
      BlockSizesArePowers(i);
      AlignedToIsMultiple(ptr, BLOCK_SIZES[i]);
    }
  }

  /** Last in, first out: the next request of a freed block's class gets that very block, and the fallback
      is not asked; freeing what was just reused undoes the reuse. */
  lemma FreedIsReused(p: Pool, ptr: nat, layout: Layout, fallback: Option<nat>)
    requires Valid(p) && ptr in p.live && ListIndex(layout).Some? && ListIndex(p.live[ptr]) == ListIndex(layout)
    ensures var freed := Dealloc(p, ptr, p.live[ptr]);
            && |freed.lists| == |freed.carved| == 9 && !AsksFallback(freed, layout)
            && Alloc(freed, layout, fallback) == (p.(live := p.live[ptr := layout]), Some(ptr))
            && Dealloc(Alloc(freed, layout, fallback).0, ptr, layout) == freed
  {
    hide ListIndex;
    var i := ListIndex(layout).value;
    var freed := Dealloc(p, ptr, p.live[ptr]);
    IndexInRange(layout);
    assert freed.lists[i][1..] == p.lists[i];
    assert p.lists[i := p.lists[i]] == p.lists;
    assert freed.lists[i := freed.lists[i][1..]] == p.lists;
    assert (p.live - {ptr})[ptr := layout] == p.live[ptr := layout];
    assert p.live[ptr := layout] - {ptr} == p.live - {ptr};
  }

  lemma IndexInRange(layout: Layout)
    ensures ListIndex(layout).Some? ==> ListIndex(layout).value < 9
  {
  }

  // -------- Histories --------

  /** A history of calls, None if a caller or the fallback breaks its promise. Every state it passes
      through is valid. */
  ghost function Run(p: Pool, ops: seq<Op>): (r: Option<Pool>)
    requires Valid(p)
    ensures r.Some? ==> Valid(r.value)
    decreases |ops|
  {
    if ops == [] then Some(p)
    else if !Legal(p, ops[0]) then None
    else
      StepKeepsValid(p, ops[0]);
      Run(Step(p, ops[0]), ops[1..])
  }

  // The largest number of blocks of class i live at once in any state of a history.
  ghost function PeakLive(p: Pool, ops: seq<Op>, i: nat): (r: nat)
    requires |p.lists| == |p.carved| == 9
    decreases |ops|
  {
    var liveNow := |LiveOfClass(p.live, i)|;
    if ops == [] then liveNow else Max(liveNow, PeakLive(Step(p, ops[0]), ops[1..], i))
  }

  // A block is carved only when every block of the class is live.
  lemma StepCarves(p: Pool, op: Op, i: nat)
    requires Valid(p) && Legal(p, op) && i < 9
    ensures Step(p, op).carved[i] == Max(p.carved[i], |LiveOfClass(Step(p, op).live, i)|)
  {
    hide AlignedTo, ListIndex, IsPow2, GoodOut, GoodLive, NoneLost;
    StepKeepsCount(p, op);
  }

  lemma {:induction false} CarvedIsPeak(p: Pool, ops: seq<Op>, i: nat)
    requires Valid(p) && Run(p, ops).Some? && i < 9
    ensures Run(p, ops).value.carved[i] == Max(p.carved[i], PeakLive(p, ops, i))
    ensures PeakLive(p, ops, i) >= |LiveOfClass(p.live, i)|
    decreases |ops|
  {
    hide GoodOut, GoodLive, NoneLost, LiveOfClass;
    if ops == [] {
    } else {
      StepKeepsValid(p, ops[0]);
      StepCarves(p, ops[0], i);
      CarvedIsPeak(Step(p, ops[0]), ops[1..], i);
    }
  }

  /** The high-water mark: after any history, the blocks ever carved for a class are the live ones and
      the listed ones together, and exactly as many as were ever live at once. */
  lemma HighWaterMark(start: nat, size: nat, ops: seq<Op>, i: nat)
    requires 0 < start && start + size <= ADDRESS_LIMIT && i < 9
    ensures Valid(Init(start, size))
    ensures match Run(Init(start, size), ops)
      case None => true
      case Some(p) =>
        && p.carved[i] == |LiveOfClass(p.live, i)| + |p.lists[i]|
        && p.carved[i] == PeakLive(Init(start, size), ops, i)
  {
    InitIsValid(start, size);
    if Run(Init(start, size), ops).Some? {
      CarvedIsPeak(Init(start, size), ops, i);
    }
  }
}
