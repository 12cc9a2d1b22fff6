/** The boot-information frame allocator (`memory.rs`) and the mapping of the heap (`allocator.rs`). */
module Frames {
  import opened Layouts

  datatype MemoryRegion = MemoryRegion(start: nat, end: nat, usable: bool)

  // `PhysFrame::containing_address`.
  function FrameOf(addr: nat): (r: nat) {
    addr - addr % PAGE
  }

  // `(start..end).step_by(4096)`, each address to its frame.
  function RegionFrames(start: nat, end: nat): (fs: seq<nat>)
    decreases end - start
  {
    if start >= end then [] else [FrameOf(start)] + RegionFrames(start + PAGE, end)
  }

  // `usable_frames`: all of them, in the order of the memory map.
  function UsableFrames(memoryMap: seq<MemoryRegion>): (r: seq<nat>) {
    if memoryMap == [] then []
    else (if memoryMap[0].usable then RegionFrames(memoryMap[0].start, memoryMap[0].end) else [])
         + UsableFrames(memoryMap[1..])
  }

  // -------- A stored iterator --------

  // An iterator that is kept instead of rebuilt: the regions not yet begun, and the rest of the current one.
  datatype Cursor = Cursor(start: nat, end: nat, rest: seq<MemoryRegion>)

  function CursorNext(c: Cursor): (r: (Option<nat>, Cursor))
    decreases |c.rest|
  {
    if c.start < c.end then (Some(FrameOf(c.start)), c.(start := c.start + PAGE))
    else if c.rest == [] then (None, c)
    else if c.rest[0].usable then CursorNext(Cursor(c.rest[0].start, c.rest[0].end, c.rest[1..]))
    else CursorNext(Cursor(0, 0, c.rest[1..]))
  }

  function Remaining(c: Cursor): (r: seq<nat>) {
    RegionFrames(c.start, c.end) + UsableFrames(c.rest)
  }

  lemma {:induction false} CursorNextIsHead(c: Cursor)
    ensures var (frame, c') := CursorNext(c);
            if Remaining(c) == [] then frame == None && Remaining(c') == []
            else frame == Some(Remaining(c)[0]) && Remaining(c') == Remaining(c)[1..]
    decreases |c.rest|
  {
    if c.start < c.end {
      assert Remaining(c)[1..] == RegionFrames(c.start + PAGE, c.end) + UsableFrames(c.rest);
    } else if c.rest != [] {
      var next := if c.rest[0].usable then Cursor(c.rest[0].start, c.rest[0].end, c.rest[1..])
                  else Cursor(0, 0, c.rest[1..]);
      assert Remaining(next) == Remaining(c);
      CursorNextIsHead(next);
    }
  }

  // The cursor after n calls.
  function CursorAfter(c: Cursor, n: nat): (r: Cursor) {
    if n == 0 then c else CursorNext(CursorAfter(c, n - 1)).1
  }

  lemma {:induction false} CursorAfterDrops(c: Cursor, n: nat)
    ensures Remaining(CursorAfter(c, n)) == if n <= |Remaining(c)| then Remaining(c)[n..] else []
  {
    if n == 0 {
    } else {
      CursorAfterDrops(c, n - 1);
      CursorNextIsHead(CursorAfter(c, n - 1));
      if n <= |Remaining(c)| {
        assert Remaining(c)[n - 1..][1..] == Remaining(c)[n..];
      }
    }
  }

  function Nth(frames: seq<nat>, n: nat): (r: Option<nat>) {
    if n < |frames| then Some(frames[n]) else None
  }

  /** Rebuilding the iterator and skipping to position n gives what the (n+1)-st call on a stored
      iterator gives. */
  lemma RebuiltIsStored(memoryMap: seq<MemoryRegion>, n: nat)
    ensures Nth(UsableFrames(memoryMap), n) == CursorNext(CursorAfter(Cursor(0, 0, memoryMap), n)).0
  {
    var c := Cursor(0, 0, memoryMap);
    assert Remaining(c) == UsableFrames(memoryMap);
    CursorAfterDrops(c, n);
    CursorNextIsHead(CursorAfter(c, n));
  }

  // -------- Every usable frame once --------

  // What the bootloader guarantees: usable regions start and end at page boundaries and do not overlap.
  ghost predicate GoodMap(memoryMap: seq<MemoryRegion>) {
    && (forall i :: 0 <= i < |memoryMap| && memoryMap[i].usable ==>
          memoryMap[i].start % PAGE == 0 && memoryMap[i].end % PAGE == 0 && memoryMap[i].start <= memoryMap[i].end)
    && (forall i, j :: 0 <= i < j < |memoryMap| && memoryMap[i].usable && memoryMap[j].usable ==>
          memoryMap[i].end <= memoryMap[j].start || memoryMap[j].end <= memoryMap[i].start)
  }

  // A whole frame inside a usable region.
  ghost predicate UsableFrame(memoryMap: seq<MemoryRegion>, f: nat) {
    f % PAGE == 0
    && exists i :: 0 <= i < |memoryMap| && memoryMap[i].usable && memoryMap[i].start <= f < memoryMap[i].end
  }

  ghost predicate Distinct(fs: seq<nat>) {
    forall i, j :: 0 <= i < j < |fs| ==> fs[i] != fs[j]
  }

  lemma {:induction false} RegionFramesExactly(start: nat, end: nat)
    requires start % PAGE == 0 && end % PAGE == 0
    ensures forall f :: f in RegionFrames(start, end) <==> f % PAGE == 0 && start <= f < end
    ensures Distinct(RegionFrames(start, end))
    decreases end - start
  {
    if start >= end {
    } else {
      RegionFramesExactly(start + PAGE, end);
      assert FrameOf(start) == start;
      forall f ensures f in RegionFrames(start, end) <==> f % PAGE == 0 && start <= f < end {
        NextBoundary(start, f);
      }
      DistinctConcat([start], RegionFrames(start + PAGE, end));
    }
  }

  lemma DistinctConcat(a: seq<nat>, b: seq<nat>)
    requires Distinct(a) && Distinct(b) && forall f :: f in a ==> f !in b
    ensures Distinct(a + b)
  {
    forall i, j | 0 <= i < j < |a + b| ensures (a + b)[i] != (a + b)[j] {
      if i < |a| <= j {
        assert (a + b)[i] in a && (a + b)[j] in b;
      }
    }
  }

  lemma NextBoundary(start: nat, f: int)
    requires start % PAGE == 0
    ensures f % PAGE == 0 && start <= f ==> f == start || start + PAGE <= f
  {
  }

  /** The iterator yields every usable frame, no other, and none twice. */
  lemma {:induction false} UsableFramesExactly(memoryMap: seq<MemoryRegion>)
    requires GoodMap(memoryMap)
    ensures forall f :: f in UsableFrames(memoryMap) <==> f >= 0 && UsableFrame(memoryMap, f)
    ensures Distinct(UsableFrames(memoryMap))
    decreases |memoryMap|
  {
    if memoryMap == [] {
    } else {
      var rest := memoryMap[1..];
      UsableFramesExactly(rest);
      var mine := if memoryMap[0].usable then RegionFrames(memoryMap[0].start, memoryMap[0].end) else [];
      if memoryMap[0].usable {
        RegionFramesExactly(memoryMap[0].start, memoryMap[0].end);
      }
      forall f: nat ensures UsableFrame(memoryMap, f) <==> f in mine || UsableFrame(rest, f) {
        UsableSplit(memoryMap, f);
      }
      forall f | f in mine ensures f !in UsableFrames(rest) {
        NotInTheRest(memoryMap, f);
      }
      DistinctConcat(mine, UsableFrames(rest));
    }
  }

  /** In the order of the map and upwards within a region: behind the frames of the regions before it, the
      j-th frame of a usable region is the one that holds the address 4096 * j behind its start, and there
      are as many as there are such addresses. */
  lemma UsableFramesInOrder(memoryMap: seq<MemoryRegion>, i: nat, j: nat)
    requires i < |memoryMap|
    ensures var region, before := memoryMap[i], |UsableFrames(memoryMap[..i])|;
            && (!region.usable ==> |UsableFrames(memoryMap[..i + 1])| == before)
            && (region.usable ==>
                (before + j < |UsableFrames(memoryMap[..i + 1])| <==> region.start + j * PAGE < region.end))
            && (region.usable && region.start + j * PAGE < region.end ==>
                before + j < |UsableFrames(memoryMap)|
                && UsableFrames(memoryMap)[before + j] == (region.start + j * PAGE) / PAGE * PAGE)
  {
    hide RegionFrames;
    var region := memoryMap[i];
    var mine := if region.usable then RegionFrames(region.start, region.end) else [];
    assert memoryMap[..i + 1] == memoryMap[..i] + [region] && [region][1..] == [];
    assert memoryMap == memoryMap[..i + 1] + memoryMap[i + 1..];
    UsableFramesConcat(memoryMap[..i], [region]);
    UsableFramesConcat(memoryMap[..i + 1], memoryMap[i + 1..]);
    assert UsableFrames([region]) == mine;
    RegionFramesAt(region.start, region.end, j);
  }

  lemma {:induction false} UsableFramesConcat(a: seq<MemoryRegion>, b: seq<MemoryRegion>)
    ensures UsableFrames(a + b) == UsableFrames(a) + UsableFrames(b)
    decreases |a|
  {
    hide RegionFrames;
    if a == [] {
      assert a + b == b;
    } else {
      assert (a + b)[1..] == a[1..] + b;
      UsableFramesConcat(a[1..], b);
    }
  }

  lemma {:induction false} RegionFramesAt(start: nat, end: nat, j: nat)
    ensures j < |RegionFrames(start, end)| <==> start + j * PAGE < end
    ensures start + j * PAGE < end ==> RegionFrames(start, end)[j] == (start + j * PAGE) / PAGE * PAGE
    decreases j
  {
    if start >= end {
    } else if j == 0 {
    } else {
      RegionFramesAt(start + PAGE, end, j - 1);
    }
  }

  // Regions do not overlap.
  lemma NotInTheRest(memoryMap: seq<MemoryRegion>, f: nat)
    requires GoodMap(memoryMap) && memoryMap != [] && memoryMap[0].usable
    requires memoryMap[0].start <= f < memoryMap[0].end
    ensures !UsableFrame(memoryMap[1..], f)
  {
    assert forall i :: 0 <= i < |memoryMap[1..]| ==> memoryMap[1..][i] == memoryMap[i + 1];
  }

  lemma UsableSplit(memoryMap: seq<MemoryRegion>, f: nat)
    requires memoryMap != []
    ensures UsableFrame(memoryMap, f) <==>
            || (f % PAGE == 0 && memoryMap[0].usable && memoryMap[0].start <= f < memoryMap[0].end)
            || UsableFrame(memoryMap[1..], f)
  {
    var rest := memoryMap[1..];
    if UsableFrame(rest, f) {
      var i :| 0 <= i < |rest| && rest[i].usable && rest[i].start <= f < rest[i].end;
      assert memoryMap[i + 1] == rest[i];
    }
    if UsableFrame(memoryMap, f) {
      var i :| 0 <= i < |memoryMap| && memoryMap[i].usable && memoryMap[i].start <= f < memoryMap[i].end;
      assert i > 0 ==> rest[i - 1] == memoryMap[i];
    }
  }

  // -------- The allocator and the heap --------

  class BootInfoFrameAllocator {
    const memoryMap: seq<MemoryRegion>
    var next: nat

    constructor (memoryMap: seq<MemoryRegion>)
      ensures this.memoryMap == memoryMap && next == 0
    {
      this.memoryMap := memoryMap;
      next := 0;
    }

    // `usable_frames().nth(n)`: walks the regions and counts.
    method NthUsable(n: nat) returns (r: Option<nat>)
      ensures r == Nth(UsableFrames(memoryMap), n)
    {
      hide FrameOf, RegionFrames;
      var skip, i := n, 0;
      while i < |memoryMap|
        invariant 0 <= i <= |memoryMap|
        invariant Nth(UsableFrames(memoryMap), n) == Nth(UsableFrames(memoryMap[i..]), skip)
      {
        var region := memoryMap[i];
        assert memoryMap[i..][0] == region && memoryMap[i..][1..] == memoryMap[i + 1..];
        if region.usable {
          r, skip := NthInRegion(region.start, region.end, skip);
          if r.Some? {
            return;
          }
        }
        i := i + 1;
      }
      return None;
    }

    // `step_by(4096)` over one region: the frame, or how many are still to be skipped behind it.
    method NthInRegion(start: nat, end: nat, n: nat) returns (r: Option<nat>, skip: nat)
      ensures r == Nth(RegionFrames(start, end), n)
      ensures r.None? ==> n == |RegionFrames(start, end)| + skip
    {
      hide FrameOf;
      var addr := start;
      skip := n;
      while addr < end
        invariant Nth(RegionFrames(start, end), n) == Nth(RegionFrames(addr, end), skip)
        invariant |RegionFrames(start, end)| - n == |RegionFrames(addr, end)| - skip
        decreases end - addr
      {
        assert RegionFrames(addr, end) == [FrameOf(addr)] + RegionFrames(addr + PAGE, end);
        if skip == 0 {
          return Some(FrameOf(addr)), 0;
        }
        addr, skip := addr + PAGE, skip - 1;
      }
      r := None;
    }

    /** `allocate_frame`. */
    method AllocateFrame() returns (r: Option<nat>)
      modifies this
      ensures r == Nth(UsableFrames(memoryMap), old(next)) && next == old(next) + 1
    {
      r := NthUsable(next);
      next := next + 1;
    }
  }

  const HEAP_START: nat := 0x4444_4444_0000
  const HEAP_SIZE: nat := 100 * 1024

  // What `map_to` did with one page: how many frames it drew for new tables, and whether it succeeded.
  datatype MapTo = MapTo(tables: nat, ok: bool)

  datatype InitResult = Mapped | FrameAllocationFailed | MapFailed

  // A frame drawn, and the heap page it was drawn for, None for a page table.
  datatype Draw = Draw(frame: nat, page: Option<nat>)

  // The draws are successive answers of the allocator.
  ghost predicate Drawn(frames: seq<nat>, from: nat, draws: seq<Draw>) {
    forall i :: 0 <= i < |draws| ==> from + i < |frames| && draws[i].frame == frames[from + i]
  }

  lemma DrawnFit(frames: seq<nat>, from: nat, draws: seq<Draw>)
    requires Drawn(frames, from, draws) && draws != []
    ensures from + |draws| <= |frames|
  {
    assert draws[|draws| - 1].frame == frames[from + |draws| - 1];
  }

  // No frame is handed out twice, to pages or to tables.
  lemma DrawnAreDistinct(memoryMap: seq<MemoryRegion>, from: nat, draws: seq<Draw>)
    requires GoodMap(memoryMap) && Drawn(UsableFrames(memoryMap), from, draws)
    ensures forall i, j :: 0 <= i < j < |draws| ==> draws[i].frame != draws[j].frame
    ensures forall i :: 0 <= i < |draws| ==> UsableFrame(memoryMap, draws[i].frame)
  {
    UsableFramesExactly(memoryMap);
  }

  const FIRST_PAGE: nat := HEAP_START / PAGE
  const HEAP_PAGES: nat := 25

  // Frames drawn for the first n pages of the heap: one for each page, and `map_to`'s for tables.
  function Needed(mapTo: nat -> MapTo, n: nat): (r: nat) {
    if n == 0 then 0 else Needed(mapTo, n - 1) + 1 + mapTo(FIRST_PAGE + n - 1).tables
  }

  // `map_to` accepts page i of the heap.
  predicate Accepted(mapTo: nat -> MapTo, i: nat) {
    mapTo(FIRST_PAGE + i).ok
  }

  predicate AllAccepted(mapTo: nat -> MapTo, n: nat) {
    forall i :: 0 <= i < n ==> Accepted(mapTo, i)
  }

  // Page k is the first that `map_to` refuses.
  predicate FirstRefused(mapTo: nat -> MapTo, k: nat) {
    k < HEAP_PAGES && AllAccepted(mapTo, k) && !Accepted(mapTo, k)
  }

  lemma {:induction false} NeededMonotone(mapTo: nat -> MapTo, m: nat, n: nat)
    requires m <= n
    ensures Needed(mapTo, m) <= Needed(mapTo, n)
    decreases n
  {
    if m == n {
    } else {
      NeededMonotone(mapTo, m, n - 1);
    }
  }

  // The draws for page i of the heap: the first one serves the page, the others are for tables.
  ghost predicate ServesPage(mapTo: nat -> MapTo, draws: seq<Draw>, i: nat) {
    && (Needed(mapTo, i) < |draws| ==> draws[Needed(mapTo, i)].page == Some(0x4444_4444_0000 + i * 4096))
    && forall j :: Needed(mapTo, i) < j < Needed(mapTo, i + 1) && j < |draws| ==> draws[j].page == None
  }

  ghost predicate Serves(mapTo: nat -> MapTo, draws: seq<Draw>, n: nat) {
    forall i: nat :: i < n ==> ServesPage(mapTo, draws, i)
  }

  // `map_to`'s own draws, for page tables.
  method DrawTables(allocator: BootInfoFrameAllocator, tables: nat, ghost before: seq<Draw>, ghost from: nat)
    returns (ok: bool, ghost draws: seq<Draw>)
    requires Drawn(UsableFrames(allocator.memoryMap), from, before) && allocator.next == from + |before|
    requires before != []
    modifies allocator
    ensures Drawn(UsableFrames(allocator.memoryMap), from, draws) && before <= draws
    ensures forall j :: |before| <= j < |draws| ==> draws[j].page == None
    ensures ok <==> from + |before| + tables <= |UsableFrames(allocator.memoryMap)|
    ensures ok ==> allocator.next == from + |draws| && |draws| == |before| + tables
    ensures !ok ==> from + |draws| == |UsableFrames(allocator.memoryMap)|
  {
    hide UsableFrames;
    draws := before;
    for i := 0 to tables
      invariant Drawn(UsableFrames(allocator.memoryMap), from, draws) && before <= draws
      invariant allocator.next == from + |draws| && |draws| == |before| + i
      invariant forall j :: |before| <= j < |draws| ==> draws[j].page == None
    {
      DrawnFit(UsableFrames(allocator.memoryMap), from, draws);
      var frame := allocator.AllocateFrame();
      if frame.None? {
        return false, draws;
      }
      draws := draws + [Draw(frame.value, None)];
    }
    DrawnFit(UsableFrames(allocator.memoryMap), from, draws);
    ok := true;
  }

  // What one page comes to: it is refused, or drawn with its tables, unless the frames end before that.
  ghost predicate PageMapped(page: nat, outcome: MapTo, from: nat, frames: nat,
                             before: seq<Draw>, draws: seq<Draw>, r: InitResult)
  {
    && before <= draws && (|before| < |draws| ==> draws[|before|].page == Some(page))
    && (forall j :: |before| < j < |draws| ==> draws[j].page == None)
    && if from + |before| + 1 + outcome.tables <= frames then
         r == (if outcome.ok then Mapped else MapFailed) && |draws| == |before| + 1 + outcome.tables
       else r == FrameAllocationFailed && from + |draws| == Max(from + |before|, frames)
  }

  // One turn of the loop of `init_heap`.
  method MapPage(allocator: BootInfoFrameAllocator, page: nat, outcome: MapTo, ghost before: seq<Draw>, ghost from: nat)
    returns (r: InitResult, ghost draws: seq<Draw>)
    requires Drawn(UsableFrames(allocator.memoryMap), from, before) && allocator.next == from + |before|
    modifies allocator
    ensures Drawn(UsableFrames(allocator.memoryMap), from, draws)
    ensures PageMapped(page, outcome, from, |UsableFrames(allocator.memoryMap)|, before, draws, r)
    ensures r != FrameAllocationFailed ==> allocator.next == from + |draws|
  {
    hide UsableFrames;
    var frame := allocator.AllocateFrame();
    if frame.None? {
      return FrameAllocationFailed, before;
    }
    draws := before + [Draw(frame.value, Some(page))];
    var ok;
    ok, draws := DrawTables(allocator, outcome.tables, draws, from);
    r := if !ok then FrameAllocationFailed else if outcome.ok then Mapped else MapFailed;
  }

  // n pages are mapped.
  ghost predicate Progress(mapTo: nat -> MapTo, n: nat, draws: seq<Draw>) {
    AllAccepted(mapTo, n) && |draws| == Needed(mapTo, n) && Serves(mapTo, draws, n)
  }

  // What the loop has come to: k pages are mapped, page k was refused, or the frames end at page k.
  ghost predicate Outcome(mapTo: nat -> MapTo, k: nat, from: nat, frames: nat, draws: seq<Draw>, r: InitResult) {
    match r
    case Mapped => k == HEAP_PAGES && Progress(mapTo, k, draws) && from + |draws| <= frames
    case MapFailed =>
      && FirstRefused(mapTo, k) && from + |draws| <= frames
      && |draws| == Needed(mapTo, k + 1) && Serves(mapTo, draws, k + 1)
    case FrameAllocationFailed =>
      && k < HEAP_PAGES && AllAccepted(mapTo, k) && from + Needed(mapTo, k + 1) > frames
      && from + |draws| == Max(from, frames) && |draws| <= Needed(mapTo, k + 1) && Serves(mapTo, draws, k + 1)
  }

  lemma NothingDrawn(frames: seq<nat>, from: nat, mapTo: nat -> MapTo)
    ensures Drawn(frames, from, []) && Progress(mapTo, 0, [])
  {
  }

  lemma PageAdvances(mapTo: nat -> MapTo, k: nat, from: nat, frames: nat,
                     before: seq<Draw>, draws: seq<Draw>, r: InitResult)
    requires Progress(mapTo, k, before) && k < HEAP_PAGES && (before == [] || from + |before| <= frames)
    requires PageMapped(HEAP_START + k * PAGE, mapTo(FIRST_PAGE + k), from, frames, before, draws, r)
    ensures if r == Mapped then Progress(mapTo, k + 1, draws) && from + |draws| <= frames
            else Outcome(mapTo, k, from, frames, draws, r)
  {
    hide ServesPage;
    forall i: nat | i < k ensures ServesPage(mapTo, draws, i) {
      NeededMonotone(mapTo, i + 1, k);
      StillServes(mapTo, before, draws, i);
    }
    NextServes(mapTo, before, draws, k);
  }

  lemma StillServes(mapTo: nat -> MapTo, before: seq<Draw>, draws: seq<Draw>, i: nat)
    requires before <= draws && Needed(mapTo, i + 1) <= |before| && ServesPage(mapTo, before, i)
    ensures ServesPage(mapTo, draws, i)
  {
  }

  lemma NextServes(mapTo: nat -> MapTo, before: seq<Draw>, draws: seq<Draw>, k: nat)
    requires |before| == Needed(mapTo, k)
    requires |before| < |draws| ==> draws[|before|].page == Some(HEAP_START + k * PAGE)
    requires forall j :: |before| < j < |draws| ==> draws[j].page == None
    ensures ServesPage(mapTo, draws, k)
  {
  }

  lemma HeapIsMapped(mapTo: nat -> MapTo, from: nat, frames: nat, draws: seq<Draw>)
    requires Progress(mapTo, HEAP_PAGES, draws) && from + |draws| <= frames
    ensures Outcome(mapTo, HEAP_PAGES, from, frames, draws, Mapped)
  {
  }

  // The first refused page is one page.
  lemma FirstRefusedIsUnique(mapTo: nat -> MapTo, j: nat, k: nat)
    requires FirstRefused(mapTo, j) && FirstRefused(mapTo, k)
    ensures j == k
  {
    assert j < k ==> Accepted(mapTo, j);
    assert k < j ==> Accepted(mapTo, k);
  }

  lemma NotYetServed(mapTo: nat -> MapTo, draws: seq<Draw>, i: nat)
    requires |draws| <= Needed(mapTo, i)
    ensures ServesPage(mapTo, draws, i)
  {
  }

  lemma OutcomeExactly(mapTo: nat -> MapTo, k: nat, from: nat, frames: nat, draws: seq<Draw>, r: InitResult)
    requires Outcome(mapTo, k, from, frames, draws, r)
    ensures r == Mapped <==> AllAccepted(mapTo, HEAP_PAGES) && from + Needed(mapTo, HEAP_PAGES) <= frames
    ensures r == MapFailed <==> exists j: nat :: FirstRefused(mapTo, j) && from + Needed(mapTo, j + 1) <= frames
    ensures r == Mapped ==> |draws| == Needed(mapTo, HEAP_PAGES) && HEAP_PAGES * 4096 == 100 * 1024
    ensures r == MapFailed ==> forall j: nat :: FirstRefused(mapTo, j) ==> |draws| == Needed(mapTo, j + 1)
    ensures Serves(mapTo, draws, HEAP_PAGES)
    ensures r == FrameAllocationFailed ==> from + |draws| == Max(from, frames)
  {
    hide Needed, ServesPage;
    forall i: nat | i < HEAP_PAGES ensures ServesPage(mapTo, draws, i) {
      if i > k {
        NeededMonotone(mapTo, k + 1, i);
        NotYetServed(mapTo, draws, i);
      }
    }
    forall j: nat | FirstRefused(mapTo, j)
      ensures r != Mapped
      ensures r == MapFailed ==> j == k
      ensures r == FrameAllocationFailed ==> from + Needed(mapTo, j + 1) > frames
    {
      assert r == Mapped ==> Accepted(mapTo, j);
      match r {
        case Mapped =>
        case MapFailed => FirstRefusedIsUnique(mapTo, j, k);
        case FrameAllocationFailed =>
          assert j < k ==> Accepted(mapTo, j);
          NeededMonotone(mapTo, k + 1, Max(j, k) + 1);
      }
    }
    match r {
      case Mapped =>
      case MapFailed => assert !Accepted(mapTo, k);
      case FrameAllocationFailed => NeededMonotone(mapTo, k + 1, HEAP_PAGES);
    }
  }

  /** `init_heap`, exactly. It succeeds if and only if `map_to` accepts all 25 pages and the usable frames
      left cover the pages and the tables; then those 25 pages are mapped in order and the allocator has
      moved on by just that much. A refusal is reported if and only if the frames reach as far as the first
      page that `map_to` refuses, and nothing is drawn behind it; otherwise the usable frames are used up.
      In every case the frames drawn are successive usable frames, for each page first its own and then
      those of its tables, so no frame serves two pages, or a page and a table. */
  method InitHeap(allocator: BootInfoFrameAllocator, mapTo: nat -> MapTo)
    returns (r: InitResult, ghost draws: seq<Draw>)
    modifies allocator
    ensures Drawn(UsableFrames(allocator.memoryMap), old(allocator.next), draws)
    ensures GoodMap(allocator.memoryMap) ==>
      forall i, j :: 0 <= i < j < |draws| ==> draws[i].frame != draws[j].frame
    ensures r == Mapped <==>
      && AllAccepted(mapTo, HEAP_PAGES)
      && old(allocator.next) + Needed(mapTo, HEAP_PAGES) <= |UsableFrames(allocator.memoryMap)|
    ensures r == MapFailed <==>
      exists k: nat :: FirstRefused(mapTo, k)
        && old(allocator.next) + Needed(mapTo, k + 1) <= |UsableFrames(allocator.memoryMap)|
    ensures r == Mapped ==> |draws| == Needed(mapTo, HEAP_PAGES) && HEAP_PAGES * 4096 == 100 * 1024
    ensures r == MapFailed ==> forall k: nat :: FirstRefused(mapTo, k) ==> |draws| == Needed(mapTo, k + 1)
    ensures Serves(mapTo, draws, HEAP_PAGES)
    ensures r != FrameAllocationFailed ==> allocator.next == old(allocator.next) + |draws|
    ensures r == FrameAllocationFailed ==>
      old(allocator.next) + |draws| == Max(old(allocator.next), |UsableFrames(allocator.memoryMap)|)
  {
    hide *;
    ghost var k;
    r, draws, k := MapHeapPages(allocator, mapTo);
    OutcomeExactly(mapTo, k, old(allocator.next), |UsableFrames(allocator.memoryMap)|, draws, r);
    if GoodMap(allocator.memoryMap) {
      DrawnAreDistinct(allocator.memoryMap, old(allocator.next), draws);
    }
  }

  // The loop of `init_heap`, and the page k it stopped at.
  method MapHeapPages(allocator: BootInfoFrameAllocator, mapTo: nat -> MapTo)
    returns (r: InitResult, ghost draws: seq<Draw>, ghost k: nat)
    modifies allocator
    ensures Drawn(UsableFrames(allocator.memoryMap), old(allocator.next), draws)
    ensures Outcome(mapTo, k, old(allocator.next), |UsableFrames(allocator.memoryMap)|, draws, r)
    ensures r != FrameAllocationFailed ==> allocator.next == old(allocator.next) + |draws|
  {
    hide UsableFrames, Drawn, Progress, Outcome, PageMapped;
    ghost var from := allocator.next;
    ghost var frames := UsableFrames(allocator.memoryMap);
    draws, k, r := [], 0, Mapped;
    NothingDrawn(frames, from, mapTo);
    var heapEndPage := (HEAP_START + HEAP_SIZE - 1) / PAGE;
    var page := FIRST_PAGE;
    while page <= heapEndPage
      invariant FIRST_PAGE <= page <= heapEndPage + 1 && k == page - FIRST_PAGE
      invariant Drawn(frames, from, draws) && allocator.next == from + |draws| && r == Mapped
      invariant Progress(mapTo, k, draws) && ((k == 0 && draws == []) || from + |draws| <= |frames|)
    {
      ghost var before := draws;
      r, draws := MapPage(allocator, page * PAGE, mapTo(page), before, from);
      PageAdvances(mapTo, k, from, |frames|, before, draws, r);
      if r != Mapped {
        return;
      }
      page, k := page + 1, k + 1;
    }
    HeapIsMapped(mapTo, from, |frames|, draws);
  }
}
