/** The fixed-size block allocator with its lists in memory: a freed block holds the address of the
    next block of its class in its first word. */
module FixedBlockHeap {
  import opened Alignment
  import opened ByteMemory
  import opened Layouts
  import opened FixedBlocks

  // The address at position i of a list, or 0 (`None`) past its end.
  ghost function BlockAt(blocks: seq<nat>, i: nat): (r: nat) {
    if i < |blocks| then blocks[i] else 0
  }

  ghost predicate LinkAt(m: Memory, addr: nat, next: nat) {
    Mapped(m, addr, WORD_BYTES) && Load(m, addr) == next
  }

  // The chain that starts at `head` is exactly the list `blocks`.
  ghost predicate Chained(m: Memory, head: nat, blocks: seq<nat>) {
    && head == BlockAt(blocks, 0)
    && forall j :: 0 <= j < |blocks| ==> LinkAt(m, blocks[j], BlockAt(blocks, j + 1))
  }

  ghost predicate AllChained(m: Memory, heads: seq<nat>, lists: seq<seq<nat>>) {
    |heads| == |lists| == 9 && forall i :: 0 <= i < 9 ==> Chained(m, heads[i], lists[i])
  }

  // m and m' agree on what the fallback has out; elsewhere the fallback may have written.
  ghost predicate SameOut(m: Memory, m': Memory, out: map<nat, Layout>) {
    m'.Keys == m.Keys && forall q :: q in out ==> SameBytes(m, m', q, out[q].size)
  }

  // m and m' agree outside the first word of a block.
  ghost predicate SameBut(m: Memory, m': Memory, addr: nat) {
    m'.Keys == m.Keys && forall x :: x in m && !(addr <= x < addr + WORD_BYTES) ==> m'[x] == m[x]
  }

  function WriteLink(m: Memory, addr: nat, value: nat): (m': Memory)
    requires Mapped(m, addr, WORD_BYTES) && value < WORD_LIMIT
    ensures LinkAt(m', addr, value) && SameBut(m, m', addr)
  {
    LoadStored(m, addr, value);
    StoreFrame(m, addr, value);
    Store(m, addr, value)
  }

  // Two blocks that are out do not share a word.
  lemma BlocksApart(p: Pool, i: nat, j: nat, addr: nat)
    requires Valid(p) && i < 9 && j < |p.lists[i]| && addr in p.out && addr != p.lists[i][j]
    requires p.out[addr].size >= NODE_SIZE
    ensures addr + WORD_BYTES <= p.lists[i][j] || p.lists[i][j] + WORD_BYTES <= addr
  {
    hide AlignedTo, Counted, FixedBlocks.NoneLost;
    BlockSizesArePowers(i);
    assert Disjoint(Span(addr, p.out[addr]), Span(p.lists[i][j], p.out[p.lists[i][j]]));
  }

  lemma LinkFrame(m: Memory, m': Memory, addr: nat, next: nat)
    requires LinkAt(m, addr, next) && SameBytes(m, m', addr, WORD_BYTES)
    ensures LinkAt(m', addr, next)
  {
    LoadFrame(m, m', addr);
  }

  // Writing the first word of a block that is out keeps every other node.
  lemma LinkKept(p: Pool, m: Memory, m': Memory, i: nat, j: nat, addr: nat, next: nat)
    requires Valid(p) && i < 9 && j < |p.lists[i]| && addr in p.out && addr != p.lists[i][j]
    requires p.out[addr].size >= NODE_SIZE && SameBut(m, m', addr) && LinkAt(m, p.lists[i][j], next)
    ensures LinkAt(m', p.lists[i][j], next)
  {
    BlocksApart(p, i, j, addr);
    LinkFrame(m, m', p.lists[i][j], next);
  }

  // What the fallback writes elsewhere keeps every list.
  lemma ListsKept(p: Pool, m: Memory, m': Memory, heads: seq<nat>)
    requires Valid(p) && AllChained(m, heads, p.lists) && SameOut(m, m', p.out)
    ensures AllChained(m', heads, p.lists)
  {
    hide AlignedTo, Counted, FixedBlocks.NoneLost, GoodOut;
    forall i, j | 0 <= i < 9 && 0 <= j < |p.lists[i]|
      ensures LinkAt(m', p.lists[i][j], BlockAt(p.lists[i], j + 1))
    {
      BlockSizesArePowers(i);
      assert Chained(m, heads[i], p.lists[i]);
      assert SameBytes(m, m', p.lists[i][j], BLOCK_SIZES[i]);
      LinkFrame(m, m', p.lists[i][j], BlockAt(p.lists[i], j + 1));
    }
  }

  // Popping the first block of list i and clearing its word.
  lemma PopKeepsChains(p: Pool, m: Memory, m': Memory, heads: seq<nat>, i: nat)
    requires Valid(p) && AllChained(m, heads, p.lists) && i < 9 && p.lists[i] != []
    requires SameBut(m, m', p.lists[i][0])
    ensures AllChained(m', heads[i := BlockAt(p.lists[i], 1)], p.lists[i := p.lists[i][1..]])
  {
    hide AlignedTo, Counted, FixedBlocks.NoneLost, GoodOut, LinkAt;
    var addr, rest := p.lists[i][0], p.lists[i][1..];
    BlockSizesArePowers(i);
    ListedElsewhere(p, i, addr);
    forall k, j | 0 <= k < 9 && 0 <= j < |p.lists[k]| && (k != i || j != 0)
      ensures LinkAt(m', p.lists[k][j], BlockAt(p.lists[k], j + 1))
    {
      assert Chained(m, heads[k], p.lists[k]);
      LinkKept(p, m, m', k, j, addr, BlockAt(p.lists[k], j + 1));
    }
    forall j | 0 <= j < |rest| ensures LinkAt(m', rest[j], BlockAt(rest, j + 1)) {
      assert rest[j] == p.lists[i][j + 1] && BlockAt(rest, j + 1) == BlockAt(p.lists[i], j + 2);
    }
  }

  // Writing the first word of a live block keeps every list.
  lemma LiveWriteKeepsChains(p: Pool, m: Memory, m': Memory, heads: seq<nat>, addr: nat)
    requires Valid(p) && AllChained(m, heads, p.lists) && addr in p.live
    requires p.out[addr].size >= NODE_SIZE && SameBut(m, m', addr)
    ensures AllChained(m', heads, p.lists)
  {
    hide AlignedTo, Counted, FixedBlocks.NoneLost, GoodOut, LinkAt;
    forall k, j | 0 <= k < 9 && 0 <= j < |p.lists[k]|
      ensures LinkAt(m', p.lists[k][j], BlockAt(p.lists[k], j + 1))
    {
      assert Chained(m, heads[k], p.lists[k]);
      LinkKept(p, m, m', k, j, addr, BlockAt(p.lists[k], j + 1));
    }
  }

  // An owner's write keeps the word of a listed block.
  lemma OwnWriteKeepsLink(p: Pool, m: Memory, i: nat, j: nat, next: nat, ptr: nat, addr: nat, value: byte)
    requires FixedBlocks.Valid(p) && i < 9 && j < |p.lists[i]| && LinkAt(m, p.lists[i][j], next)
    requires ptr in p.live && ptr <= addr < ptr + p.live[ptr].size
    ensures LinkAt(m[addr := value], p.lists[i][j], next)
  {
    hide AlignedTo, ListIndex, IsPow2, GoodOut, GoodLive, Counted, FixedBlocks.NoneLost;
    LiveIsApart(p, ptr);
    BlockSizesArePowers(i);
    assert Disjoint(Span(ptr, p.live[ptr]), Region(p.lists[i][j], BLOCK_SIZES[i]));
    LinkFrame(m, m[addr := value], p.lists[i][j], next);
  }

  // An owner's write keeps every list.
  lemma OwnWriteKeepsChains(p: Pool, m: Memory, heads: seq<nat>, ptr: nat, addr: nat, value: byte)
    requires FixedBlocks.Valid(p) && AllChained(m, heads, p.lists)
    requires ptr in p.live && ptr <= addr < ptr + p.live[ptr].size
    ensures AllChained(m[addr := value], heads, p.lists)
  {
    hide LinkAt, FixedBlocks.Valid;
    forall i, j | 0 <= i < 9 && 0 <= j < |p.lists[i]|
      ensures LinkAt(m[addr := value], p.lists[i][j], BlockAt(p.lists[i], j + 1))
    {
      assert Chained(m, heads[i], p.lists[i]);
      OwnWriteKeepsLink(p, m, i, j, BlockAt(p.lists[i], j + 1), ptr, addr, value);
    }
  }

  // A block whose word points at the head of a chain is the head of a longer one.
  lemma ChainedPush(m: Memory, head: nat, blocks: seq<nat>, addr: nat)
    requires Chained(m, head, blocks) && LinkAt(m, addr, head)
    ensures Chained(m, addr, [addr] + blocks)
  {
    hide LinkAt;
    var more := [addr] + blocks;
    forall j | 0 <= j < |more| ensures LinkAt(m, more[j], BlockAt(more, j + 1)) {
      if j > 0 {
        assert more[j] == blocks[j - 1] && BlockAt(more, j + 1) == BlockAt(blocks, j);
      }
    }
  }

  // -------- What can happen to the heap's bytes --------

  // A call of the allocator, or an owner writing a byte of its own allocation.
  datatype Event = Call(op: Op) | Write(owner: nat, addr: nat, value: byte)

  // The bytes a call may change.
  ghost predicate CallChanges(p: Pool, m: Memory, op: Op, m': Memory)
    requires |p.lists| == 9
  {
    match op
    case AllocOp(layout, fallback) =>
      if AsksFallback(p, layout) then SameOut(m, m', p.out)
      else SameBut(m, m', p.lists[ListIndex(layout).value][0])
    case DeallocOp(ptr, layout) =>
      if ListIndex(layout).Some? then SameBut(m, m', ptr) else SameOut(m, m', p.out - {ptr})
  }

  // One event: the abstract step, and the bytes it may change.
  ghost predicate Happens(p: Pool, m: Memory, e: Event, p': Pool, m': Memory) {
    && FixedBlocks.Valid(p) && Mapped(m, p.start, p.size)
    && match e
       case Call(op) => Legal(p, op) && p' == Step(p, op) && CallChanges(p, m, op, m')
       case Write(owner, addr, value) =>
         && owner in p.live && owner <= addr < owner + p.live[owner].size
         && p' == p && m' == m[addr := value]
  }

  class FixedSizeBlockAllocator {
    var mem: Memory
    // `list_heads`, 0 for `None`.
    var listHeads: array<nat>
    // The abstract state the bytes stand for.
    ghost var pool: Pool

    ghost predicate Valid()
      reads this, listHeads
    {
      && FixedBlocks.Valid(pool) && listHeads.Length == 9
      && Mapped(mem, pool.start, pool.size)
      && AllChained(mem, listHeads[..], pool.lists)
    }

    /** `new` and `init`. */
    constructor (mem: Memory, heapStart: nat, heapSize: nat)
      requires 0 < heapStart && heapStart + heapSize <= ADDRESS_LIMIT && Mapped(mem, heapStart, heapSize)
      ensures Valid() && fresh(listHeads) && this.mem == mem && pool == Init(heapStart, heapSize)
    {
      this.mem := mem;
      listHeads := new nat[9](_ => 0);
      pool := Init(heapStart, heapSize);
      InitIsValid(heapStart, heapSize);
    }

    // What the fallback has out is in the heap's memory.
    lemma OutIsMapped(ptr: nat)
      requires Valid() && ptr in pool.out && pool.out[ptr].size >= NODE_SIZE
      ensures Mapped(mem, ptr, WORD_BYTES) && 0 < ptr < ADDRESS_LIMIT
    {
      hide AlignedTo, Counted, FixedBlocks.NoneLost, GoodLists, GoodLive;
      assert Inside(Span(ptr, pool.out[ptr]), Region(pool.start, pool.size));
    }

    lemma HeadIsFirst(i: nat)
      requires Valid() && i < 9
      ensures listHeads[i] == BlockAt(pool.lists[i], 0) && listHeads[i] < WORD_LIMIT
      ensures listHeads[i] != 0 <==> pool.lists[i] != []
      ensures pool.lists[i] != [] ==>
        LinkAt(mem, listHeads[i], BlockAt(pool.lists[i], 1)) && listHeads[i] in pool.out
        && pool.out[listHeads[i]] == Layout(BLOCK_SIZES[i], BLOCK_SIZES[i])
    {
      hide AlignedTo, Counted, FixedBlocks.NoneLost, GoodLive;
      assert Chained(mem, listHeads[..][i], pool.lists[i]);
      if pool.lists[i] != [] {
        BlockSizesArePowers(i);
        assert pool.lists[i][0] in pool.out;
        OutIsMapped(pool.lists[i][0]);
      }
    }

    /** `alloc`. The fallback's answer and the memory it leaves are parameters bound by its contract: an
        aligned, disjoint block, and no change to anything it has out. */
    method Alloc(layout: Layout, fallback: Option<nat>, fallbackMem: Memory) returns (r: Option<nat>)
      requires Valid() && Legal(pool, AllocOp(layout, fallback)) && SameOut(mem, fallbackMem, pool.out)
      modifies this, listHeads
      ensures Valid() && listHeads == old(listHeads)
      ensures (pool, r) == FixedBlocks.Alloc(old(pool), layout, fallback)
      ensures if AsksFallback(old(pool), layout) then mem == fallbackMem else SameBut(old(mem), mem, r.value)
      ensures Happens(old(pool), old(mem), Call(AllocOp(layout, fallback)), pool, mem)
    {
      hide AlignedTo, ListIndex, IsPow2, GoodOut, GoodLive, Counted, FixedBlocks.NoneLost, AllChained;
      StepKeepsValid(pool, AllocOp(layout, fallback));
      match ListIndex(layout) {
        case Some(i) =>
          HeadIsFirst(i);
          if listHeads[i] != 0 {
            r := PopBlock(i);
          } else {
            ListsKept(pool, mem, fallbackMem, listHeads[..]);
            mem := fallbackMem;
            r := fallback;
          }
        case None =>
          ListsKept(pool, mem, fallbackMem, listHeads[..]);
          mem := fallbackMem;
          r := fallback;
      }
      pool := FixedBlocks.Alloc(pool, layout, fallback).0;
    }

    // `list_heads[index] = node.next.take()`.
    method PopBlock(i: nat) returns (r: Option<nat>)
      requires Valid() && i < 9 && pool.lists[i] != []
      modifies this`mem, listHeads
      ensures r == Some(pool.lists[i][0]) && SameBut(old(mem), mem, r.value)
      ensures AllChained(mem, listHeads[..], pool.lists[i := pool.lists[i][1..]])
      ensures Mapped(mem, pool.start, pool.size)
    {
      hide AlignedTo, ListIndex, IsPow2, GoodOut, GoodLive, Counted, FixedBlocks.NoneLost, AllChained;
      HeadIsFirst(i);
      ghost var heads := listHeads[..];
      var node := listHeads[i];
      listHeads[i] := Load(mem, node);
      mem := WriteLink(mem, node, 0);
      PopKeepsChains(pool, old(mem), mem, heads, i);
      assert listHeads[..] == heads[i := BlockAt(pool.lists[i], 1)];
      return Some(node);
    }

    /** `dealloc` of a live allocation with its own layout. A small block is written to in its first word
        and listed; a large one goes to the fallback, which may write where it has nothing out. */
    method Dealloc(ptr: nat, layout: Layout, fallbackMem: Memory)
      requires Valid() && Legal(pool, DeallocOp(ptr, layout)) && SameOut(mem, fallbackMem, pool.out - {ptr})
      modifies this, listHeads
      ensures Valid() && listHeads == old(listHeads)
      ensures pool == FixedBlocks.Dealloc(old(pool), ptr, layout)
      ensures if ListIndex(layout).Some? then SameBut(old(mem), mem, ptr) else mem == fallbackMem
      ensures Happens(old(pool), old(mem), Call(DeallocOp(ptr, layout)), pool, mem)
    {
      hide AlignedTo, ListIndex, IsPow2, GoodOut, GoodLive, Counted, FixedBlocks.NoneLost, AllChained;
      StepKeepsValid(pool, DeallocOp(ptr, layout));
      FallbackGetsBackWhatItGave(pool, ptr, layout);
      match ListIndex(layout) {
        case Some(i) =>
          LiveIsOut(pool, ptr);
          PushBlock(ptr, i);
          pool := FixedBlocks.Dealloc(pool, ptr, layout);
        case None =>
          pool := FixedBlocks.Dealloc(pool, ptr, layout);
          ListsKept(pool, mem, fallbackMem, listHeads[..]);
          mem := fallbackMem;
      }
    }

    /** An owner writing a byte of its allocation. No list notices. */
    method ClientWrite(ghost ptr: nat, addr: nat, value: byte)
      requires Valid() && ptr in pool.live && ptr <= addr < ptr + pool.live[ptr].size
      modifies this`mem
      ensures Valid() && Happens(pool, old(mem), Write(ptr, addr, value), pool, mem)
    {
      hide FixedBlocks.Valid, AllChained;
      LiveIsMapped(pool, mem, ptr);
      OwnWriteKeepsChains(pool, mem, listHeads[..], ptr, addr, value);
      mem := mem[addr := value];
    }

    method PushBlock(ptr: nat, i: nat)
      requires Valid() && i < 9 && ptr in pool.live && ptr in pool.out && pool.out[ptr].size >= NODE_SIZE
      modifies this`mem, listHeads
      ensures SameBut(old(mem), mem, ptr) && Mapped(mem, pool.start, pool.size)
      ensures AllChained(mem, listHeads[..], pool.lists[i := [ptr] + pool.lists[i]])
    {
      hide AlignedTo, ListIndex, IsPow2, GoodOut, GoodLive, Counted, FixedBlocks.NoneLost, LinkAt;
      HeadIsFirst(i);
      OutIsMapped(ptr);
      ghost var heads := listHeads[..];
      mem := WriteLink(mem, ptr, listHeads[i]);
      LiveWriteKeepsChains(pool, old(mem), mem, heads, ptr);
      ChainedPush(mem, heads[i], pool.lists[i], ptr);
      listHeads[i] := ptr;
      assert listHeads[..] == heads[i := ptr];
    }
  }

  lemma LiveIsOut(p: Pool, ptr: nat)
    requires FixedBlocks.Valid(p) && ptr in p.live
    ensures ptr in p.out && p.out[ptr] == FallbackLayout(p.live[ptr])
  {
  }

  /** No call changes a byte of a live allocation it was not asked to free: neither a write to the first
      word of a block that is not live or is being freed, nor the fallback's own writes. */
  lemma OtherLiveBytesKept(p: Pool, m: Memory, m': Memory, ptr: nat, other: nat)
    requires FixedBlocks.Valid(p) && Mapped(m, p.start, p.size) && ptr in p.live && other != ptr
    requires
      || SameOut(m, m', p.out - {other})
      || (other in p.out && p.out[other].size >= NODE_SIZE && SameBut(m, m', other))
    ensures SameBytes(m, m', ptr, p.live[ptr].size)
  {
    hide AlignedTo, ListIndex, IsPow2, Counted, FixedBlocks.NoneLost, GoodLists, FallbackLayout;
    FallbackLayoutServes(p.live[ptr], ptr);
    if SameOut(m, m', p.out - {other}) {
      assert ptr in p.out - {other};
      assert SameBytes(m, m', ptr, p.out[ptr].size);
    } else {
      assert Disjoint(Span(ptr, p.out[ptr]), Span(other, p.out[other]));
      assert Inside(Span(ptr, p.out[ptr]), Region(p.start, p.size));
    }
  }

  // The last value an owner wrote to a byte, or the one it had at the beginning.
  function LastWritten(events: seq<Event>, owner: nat, x: nat, initial: byte): (b: byte)
    decreases |events|
  {
    if events == [] then initial
    else
      var e := events[|events| - 1];
      if e.Write? && e.owner == owner && e.addr == x then e.value
      else LastWritten(events[..|events| - 1], owner, x, initial)
  }

  lemma AllocKeepsOthers(p: Pool, m: Memory, layout: Layout, fallback: Option<nat>, p': Pool, m': Memory, ptr: nat)
    requires Happens(p, m, Call(AllocOp(layout, fallback)), p', m') && ptr in p.live
    ensures ptr in p'.live && p'.live[ptr] == p.live[ptr] && SameBytes(m, m', ptr, p.live[ptr].size)
  {
    hide AlignedTo, ListIndex, IsPow2, Counted, FixedBlocks.NoneLost, GoodOut, FallbackLayout, SameBytes;
    AllocServes(p, layout, fallback);
    if AsksFallback(p, layout) {
      assert SameOut(m, m', p.out - {ptr + 1});
      OtherLiveBytesKept(p, m, m', ptr, ptr + 1);
    } else {
      var i := ListIndex(layout).value;
      BlockSizesArePowers(i);
      OtherLiveBytesKept(p, m, m', ptr, p.lists[i][0]);
    }
  }

  lemma DeallocKeepsOthers(p: Pool, m: Memory, freed: nat, layout: Layout, p': Pool, m': Memory, ptr: nat)
    requires Happens(p, m, Call(DeallocOp(freed, layout)), p', m') && ptr in p.live && ptr != freed
    ensures ptr in p'.live && p'.live[ptr] == p.live[ptr] && SameBytes(m, m', ptr, p.live[ptr].size)
  {
    hide AlignedTo, ListIndex, IsPow2, Counted, FixedBlocks.NoneLost, GoodOut, FallbackLayout, SameBytes;
    FallbackGetsBackWhatItGave(p, freed, layout);
    LiveIsOut(p, freed);
    OtherLiveBytesKept(p, m, m', ptr, freed);
  }

  // One event, seen from a byte of an allocation that it does not free.
  lemma EventKeepsByte(p: Pool, m: Memory, e: Event, p': Pool, m': Memory, ptr: nat, x: nat)
    requires Happens(p, m, e, p', m') && ptr in p.live
    requires e.Call? && e.op.DeallocOp? ==> e.op.ptr != ptr
    ensures ptr in p'.live && p'.live[ptr] == p.live[ptr]
    ensures ptr <= x < ptr + p.live[ptr].size ==>
      x in m && x in m' && m'[x] == if e.Write? && e.owner == ptr && e.addr == x then e.value else m[x]
  {
    hide AlignedTo, ListIndex, IsPow2, Counted, FixedBlocks.NoneLost, GoodOut, GoodLists, GoodLive, Step;
    match e {
      case Call(AllocOp(layout, fallback)) => AllocKeepsOthers(p, m, layout, fallback, p', m', ptr);
      case Call(DeallocOp(freed, layout)) => DeallocKeepsOthers(p, m, freed, layout, p', m', ptr);
      case Write(owner, addr, value) => LiveIsApart(p, ptr);
    }
  }

  /** Over every history, with the owners' writes anywhere between the calls, an allocation that is not
      freed stays live under its layout, and each of its bytes is what its own owner last wrote there, or
      what it was at the beginning: no call, no other owner and no fallback changes it. */
  lemma {:induction false} BytesBelongToOwner(ps: seq<Pool>, ms: seq<Memory>, events: seq<Event>, ptr: nat, x: nat)
    requires |ps| == |ms| == |events| + 1 && FixedBlocks.Valid(ps[0]) && Mapped(ms[0], ps[0].start, ps[0].size)
    requires forall i :: 0 <= i < |events| ==> Happens(ps[i], ms[i], events[i], ps[i + 1], ms[i + 1])
    requires ptr in ps[0].live
    requires forall i :: 0 <= i < |events| && events[i].Call? && events[i].op.DeallocOp? ==> events[i].op.ptr != ptr
    ensures ptr in ps[|events|].live && ps[|events|].live[ptr] == ps[0].live[ptr]
    ensures ptr <= x < ptr + ps[0].live[ptr].size ==>
      && x in ms[0] && x in ms[|events|]
      && ms[|events|][x] == LastWritten(events, ptr, x, ms[0][x])
    decreases |events|
  {
    hide Happens, FixedBlocks.Valid;
    var n := |events| - 1;
    if n < 0 {
      LiveIsMapped(ps[0], ms[0], ptr);
    } else {
      BytesBelongToOwner(ps[..n + 1], ms[..n + 1], events[..n], ptr, x);
      EventKeepsByte(ps[n], ms[n], events[n], ps[n + 1], ms[n + 1], ptr, x);
    }
  }

  lemma LiveIsMapped(p: Pool, m: Memory, ptr: nat)
    requires FixedBlocks.Valid(p) && Mapped(m, p.start, p.size) && ptr in p.live
    ensures SameBytes(m, m, ptr, p.live[ptr].size)
  {
    LiveIsApart(p, ptr);
  }
}
