/** The page-table walk of `memory.rs`, after section 5.3 (long-mode page translation) of the AMD64
    Architecture Programmer's Manual, Volume 2. */
module Paging {
  import opened Alignment
  import opened Layouts

  const ENTRIES: nat := 512
  const ENTRY_BYTES: nat := 8
  const LOW_48_BITS: nat := 0x1_0000_0000_0000
  const LOW_52_BITS: nat := 0x10_0000_0000_0000
  const CANONICAL_HALF: nat := 0x8000_0000_0000

  // The word at a virtual address. The caller guarantees that all of physical memory is mapped at an
  // offset, so every word a walk asks for is there.
  type Words = nat -> nat

  // What reading an entry comes to. NoTable: the table's address cannot be formed.
  datatype FrameOf = Frame(start: nat) | NotPresent | HugeFrame | NoTable

  // `entry.frame()`: bit 0 is PRESENT, bit 7 is HUGE_PAGE, bits 12 to 51 are the frame's address.
  function EntryFrame(entry: nat): (r: FrameOf)
    ensures r.Frame? ==> r.start % PAGE == 0 && r.start < LOW_52_BITS
    ensures !r.NoTable?
  {
    if entry % 2 == 0 then NotPresent
    else if entry / 128 % 2 == 1 then HugeFrame
    else Frame(entry % LOW_52_BITS / PAGE * PAGE)
  }

  /** An entry put together from a frame, its flags and the bits above the address gives the frame back
      exactly when the flags say that it is present and not huge. */
  lemma EntryRoundTrip(frame: nat, flags: nat, high: nat)
    requires frame % PAGE == 0 && frame < LOW_52_BITS && flags < PAGE
    ensures EntryFrame(high * LOW_52_BITS + frame + flags) ==
            if flags % 2 == 0 then NotPresent else if flags / 128 % 2 == 1 then HugeFrame else Frame(frame)
  {
    var low := frame + flags;
    var entry := high * LOW_52_BITS + low;
    assert low < LOW_52_BITS && low / PAGE * PAGE == frame;
    RemainderIsUnique(entry, LOW_52_BITS, high, low);
    FlagBits(high, frame / PAGE, flags);
  }

  lemma FlagBits(high: nat, page: nat, flags: nat)
    requires flags < PAGE
    ensures var entry := high * LOW_52_BITS + page * PAGE + flags;
            entry % 2 == flags % 2 && entry / 128 % 2 == flags / 128 % 2
  {
    var above := high * 0x100_0000_0000 + page;
    assert high * LOW_52_BITS + page * PAGE == above * 4096;
    LowFlags(above, flags);
  }

  lemma LowFlags(above: nat, flags: nat)
    ensures (above * 4096 + flags) % 2 == flags % 2
    ensures (above * 4096 + flags) / 128 % 2 == flags / 128 % 2
  {
    RemainderIsUnique(above * 4096 + flags, 2, above * 2048 + flags / 2, flags % 2);
    RemainderIsUnique(above * 4096 + flags, 128, above * 32 + flags / 128, flags % 128);
    EvenPlus(above * 16, flags / 128);
  }

  lemma EvenPlus(half: nat, bits: nat)
    ensures (2 * half + bits) % 2 == bits % 2
  {
  }

  // Adding to a `VirtAddr`: a sum whose bits 47 to 63 are alike is an address, one with only bit 47 of
  // them set is sign-extended, any other panics, and so does overflow.
  function VirtAdd(base: nat, n: nat): (r: Option<nat>)
    ensures r.None? <==> base + n >= WORD_LIMIT || 2 * CANONICAL_HALF <= base + n < WORD_LIMIT - CANONICAL_HALF
    ensures r.Some? ==> r.value < CANONICAL_HALF || WORD_LIMIT - CANONICAL_HALF <= r.value < WORD_LIMIT
    ensures r.Some? ==> r.value % LOW_48_BITS == (base + n) % LOW_48_BITS
  {
    var sum := base + n;
    if sum >= WORD_LIMIT then None else
    var top := sum / CANONICAL_HALF;
    if top == 0 || top == 0x1_FFFF then Some(sum)
    else if top == 1 then Some(sum + 0xFFFF_0000_0000_0000)
    else None
  }

  // What the table at `frame` says about an index.
  function Entry(words: Words, offset: nat, frame: nat, index: nat): (r: FrameOf) {
    match VirtAdd(offset, frame)
    case None => NoTable
    case Some(table) => EntryFrame(words(table + ENTRY_BYTES * index))
  }

  // `p4_index` to `p1_index` and `page_offset`.
  function Indexes(addr: nat): (r: seq<nat>)
    ensures |r| == 4 && forall i :: 0 <= i < 4 ==> r[i] < ENTRIES
  {
    [addr / 0x80_0000_0000 % 512, addr / 0x4000_0000 % 512, addr / 0x20_0000 % 512, addr / 0x1000 % 512]
  }

  function PageOffset(addr: nat): (r: nat) {
    addr % PAGE
  }

  datatype Translation = Physical(addr: nat) | Unmapped | HugePanic | AddressPanic

  // -------- The tables as a tree --------

  datatype Tree = Missing | Huge | NoAddress | Leaf(frame: nat) | Node(children: seq<Tree>)

  // The tree of the tables that hang from the table at `frame`.
  ghost function TreeAt(words: Words, offset: nat, frame: nat, level: nat): (t: Tree)
    ensures level == 0 ==> t == Leaf(frame)
    ensures level > 0 ==> t.Node? && |t.children| == ENTRIES
    ensures level > 0 ==> forall i :: 0 <= i < ENTRIES ==> t.children[i] == ChildAt(words, offset, frame, level, i)
    decreases level, 1
  {
    if level == 0 then Leaf(frame)
    else Node(seq(ENTRIES, i requires 0 <= i < ENTRIES => ChildAt(words, offset, frame, level, i)))
  }

  ghost function ChildAt(words: Words, offset: nat, frame: nat, level: nat, i: nat): (t: Tree)
    requires level > 0
    decreases level, 0
  {
    match Entry(words, offset, frame, i)
    case NotPresent => Missing
    case HugeFrame => Huge
    case NoTable => NoAddress
    case Frame(f) => TreeAt(words, offset, f, level - 1)
  }

  // Following a path down the tree.
  ghost function Lookup(t: Tree, path: seq<nat>): (r: Tree)
    decreases |path|
  {
    if path == [] || !t.Node? || path[0] >= |t.children| then t
    else Lookup(t.children[path[0]], path[1..])
  }

  ghost function Meaning(t: Tree, pageOffset: nat): (r: Translation) {
    match t
    case Leaf(frame) => Physical(frame + pageOffset)
    case Huge => HugePanic
    case NoAddress => AddressPanic
    case _ => Unmapped
  }

  // What a virtual address means under the tables at `cr3`.
  ghost function Translated(words: Words, offset: nat, cr3: nat, addr: nat): (r: Translation) {
    Meaning(Lookup(TreeAt(words, offset, cr3, 4), Indexes(addr)), PageOffset(addr))
  }

  /** `translate_addr_inner`: the loop over the four indexes finds what the tree says. */
  method TranslateAddr(words: Words, offset: nat, cr3: nat, addr: nat) returns (r: Translation)
    ensures r == Translated(words, offset, cr3, addr)
  {
    var tableIndexes := Indexes(addr);
    var frame: nat := cr3;
    ghost var tree := TreeAt(words, offset, cr3, 4);
    for i := 0 to 4
      invariant Lookup(TreeAt(words, offset, frame, 4 - i), tableIndexes[i..]) == Lookup(tree, tableIndexes)
    {
      var index := tableIndexes[i];
      assert tableIndexes[i..][1..] == tableIndexes[i + 1..];
      ghost var child := ChildAt(words, offset, frame, 4 - i, index);
      assert Lookup(tree, tableIndexes) == Lookup(child, tableIndexes[i + 1..]);
      match Entry(words, offset, frame, index) {
        case Frame(f) => frame := f;
        case NotPresent => return Unmapped;
        case HugeFrame => return HugePanic;
        case NoTable => return AddressPanic;
      }
    }
    assert tableIndexes[4..] == [];
    return Physical(frame + PageOffset(addr));
  }

  // -------- What a translation means --------

  // Nine more bits of a number.
  lemma NineMoreBits(a: nat, q: nat)
    requires q >= 1
    ensures a % (512 * q) == (a / q % 512) * q + a % q
  {
    var n := a / q;
    var high, digit := n / 512, n % 512;
    assert a == n * q + a % q;
    TwoDigits(high, digit, q);
    MultipleWithin(digit, q);
    RemainderIsUnique(a, 512 * q, high, digit * q + a % q);
  }

  lemma TwoDigits(high: nat, digit: nat, q: nat)
    ensures (high * 512 + digit) * q == high * (512 * q) + digit * q
  {
    Distribute(high * 512, digit, q);
  }

  lemma MultipleWithin(digit: nat, q: nat)
    requires digit < 512 && q >= 1
    ensures 0 <= digit * q <= 511 * q
  {
  }

  /** The four 9-bit indexes and the 12-bit offset are the low 48 bits of the address. */
  lemma IndexesReconstruct(addr: nat)
    ensures var p := Indexes(addr);
            p[0] * 0x80_0000_0000 + p[1] * 0x4000_0000 + p[2] * 0x20_0000 + p[3] * 0x1000 + PageOffset(addr)
            == addr % LOW_48_BITS
  {
    NineMoreBits(addr, 0x1000);
    NineMoreBits(addr, 0x20_0000);
    NineMoreBits(addr, 0x4000_0000);
    NineMoreBits(addr, 0x80_0000_0000);
  }

  // The frames a walk passes: after k steps from `frame` along `path` it stands at the result, None if
  // an entry on the way is not a frame.
  ghost function WalkTo(words: Words, offset: nat, frame: nat, path: seq<nat>, k: nat): (r: Option<nat>)
    requires k <= |path|
    decreases k
  {
    if k == 0 then Some(frame)
    else match WalkTo(words, offset, frame, path, k - 1)
      case None => None
      case Some(f) =>
        match Entry(words, offset, f, path[k - 1])
        case Frame(f') => Some(f')
        case _ => None
  }

  // The entry the walk reads in its k-th step.
  ghost predicate WalkReads(words: Words, offset: nat, cr3: nat, addr: nat, k: nat, what: FrameOf) {
    k < 4 && match WalkTo(words, offset, cr3, Indexes(addr), k)
             case None => false
             case Some(f) => Entry(words, offset, f, Indexes(addr)[k]) == what
  }

  lemma {:induction false} LookupFollowsWalk(words: Words, offset: nat, cr3: nat, path: seq<nat>, k: nat)
    requires |path| == 4 && k <= 4 && forall i :: 0 <= i < 4 ==> path[i] < ENTRIES
    requires WalkTo(words, offset, cr3, path, k).Some?
    ensures Lookup(TreeAt(words, offset, cr3, 4), path)
         == Lookup(TreeAt(words, offset, WalkTo(words, offset, cr3, path, k).value, 4 - k), path[k..])
    decreases k
  {
    if k == 0 {
      assert path[0..] == path;
    } else {
      LookupFollowsWalk(words, offset, cr3, path, k - 1);
      var f := WalkTo(words, offset, cr3, path, k - 1).value;
      assert path[k - 1..][1..] == path[k..];
      var index, level := path[k - 1], 4 - (k - 1);
      assert TreeAt(words, offset, f, level).children[index] == ChildAt(words, offset, f, level, index);
    }
  }

  function Stopped(what: FrameOf): (r: Translation) {
    if what.NotPresent? then Unmapped else if what.HugeFrame? then HugePanic else AddressPanic
  }

  lemma WalkDecides(words: Words, offset: nat, cr3: nat, addr: nat, k: nat, what: FrameOf)
    requires WalkReads(words, offset, cr3, addr, k, what) && !what.Frame?
    ensures Translated(words, offset, cr3, addr) == Stopped(what)
  {
    var path := Indexes(addr);
    LookupFollowsWalk(words, offset, cr3, path, k);
    var f := WalkTo(words, offset, cr3, path, k).value;
    assert path[k..][0] == path[k];
    assert TreeAt(words, offset, f, 4 - k).children[path[k]] == ChildAt(words, offset, f, 4 - k, path[k]);
  }

  lemma WalkArrives(words: Words, offset: nat, cr3: nat, addr: nat)
    requires WalkTo(words, offset, cr3, Indexes(addr), 4).Some?
    ensures Translated(words, offset, cr3, addr)
         == Physical(WalkTo(words, offset, cr3, Indexes(addr), 4).value + PageOffset(addr))
    ensures WalkTo(words, offset, cr3, Indexes(addr), 4).value % PAGE == 0
    ensures WalkTo(words, offset, cr3, Indexes(addr), 4).value < LOW_52_BITS
  {
    LookupFollowsWalk(words, offset, cr3, Indexes(addr), 4);
    assert Indexes(addr)[4..] == [];
  }

  // A walk that does not arrive reads an entry that stops it.
  lemma {:induction false} WalkStops(words: Words, offset: nat, cr3: nat, addr: nat, k: nat)
    returns (j: nat, what: FrameOf)
    requires k <= 4 && WalkTo(words, offset, cr3, Indexes(addr), k).None?
    ensures WalkReads(words, offset, cr3, addr, j, what) && !what.Frame?
    decreases k
  {
    if WalkTo(words, offset, cr3, Indexes(addr), k - 1).None? {
      j, what := WalkStops(words, offset, cr3, addr, k - 1);
    } else {
      var f := WalkTo(words, offset, cr3, Indexes(addr), k - 1).value;
      j, what := k - 1, Entry(words, offset, f, Indexes(addr)[k - 1]);
    }
  }

  /** Exactly one of four things: the walk reads four frames and the address is mapped; it reads an
      entry that is not present and the address is unmapped; it reads a huge-page entry and panics; it
      comes to a frame that cannot be addressed and panics. */
  lemma TranslationExactly(words: Words, offset: nat, cr3: nat, addr: nat)
    ensures var t := Translated(words, offset, cr3, addr);
            && (t == Unmapped <==> exists k :: WalkReads(words, offset, cr3, addr, k, NotPresent))
            && (t == HugePanic <==> exists k :: WalkReads(words, offset, cr3, addr, k, HugeFrame))
            && (t == AddressPanic <==> exists k :: WalkReads(words, offset, cr3, addr, k, NoTable))
            && (t.Physical? <==> WalkTo(words, offset, cr3, Indexes(addr), 4).Some?)
  {
    forall k, what | WalkReads(words, offset, cr3, addr, k, what) && !what.Frame?
      ensures Translated(words, offset, cr3, addr) == Stopped(what)
    {
      WalkDecides(words, offset, cr3, addr, k, what);
    }
    if WalkTo(words, offset, cr3, Indexes(addr), 4).Some? {
      WalkArrives(words, offset, cr3, addr);
    } else {
      var k, what := WalkStops(words, offset, cr3, addr, 4);
    }
  }

  // -------- What tables written in memory mean --------

  // The fields of an entry as they are written: a frame, the twelve bits below it, the bits above.
  datatype Fields = Fields(frame: nat, flags: nat, high: nat)

  predicate GoodFields(e: Fields) {
    e.frame % PAGE == 0 && e.frame < LOW_52_BITS && e.flags < PAGE
  }

  predicate PointsOn(e: Fields) {
    GoodFields(e) && e.flags % 2 == 1 && e.flags / 128 % 2 == 0
  }

  // Where the walk stands after following k entries.
  function TableOf(cr3: nat, entries: seq<Fields>, k: nat): (frame: nat)
    requires k <= |entries|
  {
    if k == 0 then cr3 else entries[k - 1].frame
  }

  // The word for the address in table k holds the entry: 512 words of 8 bytes make a table.
  ghost predicate WrittenAt(words: Words, offset: nat, table: nat, addr: nat, k: nat, e: Fields) {
    && VirtAdd(offset, table).Some? && k < 4
    && words(VirtAdd(offset, table).value + 8 * Indexes(addr)[k]) == e.high * 0x10_0000_0000_0000 + e.frame + e.flags
  }

  // The first n tables on the way of the address hold these entries, each pointing on.
  ghost predicate Hangs(words: Words, offset: nat, cr3: nat, addr: nat, entries: seq<Fields>) {
    |entries| <= 4 && forall k :: 0 <= k < |entries| ==>
      PointsOn(entries[k]) && WrittenAt(words, offset, TableOf(cr3, entries, k), addr, k, entries[k])
  }

  lemma {:induction false} WalkFollowsEntries(words: Words, offset: nat, cr3: nat, addr: nat,
                                              entries: seq<Fields>, k: nat)
    requires Hangs(words, offset, cr3, addr, entries) && k <= |entries|
    ensures WalkTo(words, offset, cr3, Indexes(addr), k) == Some(TableOf(cr3, entries, k))
  {
    hide Indexes, Entry, WrittenAt, PointsOn;
    if k == 0 {
    } else {
      WalkFollowsEntries(words, offset, cr3, addr, entries, k - 1);
      var e := entries[k - 1];
      assert PointsOn(e);
      EntryIsWritten(words, offset, TableOf(cr3, entries, k - 1), addr, k - 1, e);
    }
  }

  lemma EntryIsWritten(words: Words, offset: nat, table: nat, addr: nat, k: nat, e: Fields)
    requires WrittenAt(words, offset, table, addr, k, e)
    ensures PointsOn(e) ==> Entry(words, offset, table, Indexes(addr)[k]) == Frame(e.frame)
    ensures GoodFields(e) && e.flags % 2 == 0 ==> Entry(words, offset, table, Indexes(addr)[k]) == NotPresent
    ensures GoodFields(e) && e.flags % 2 == 1 && e.flags / 128 % 2 == 1 ==>
      Entry(words, offset, table, Indexes(addr)[k]) == HugeFrame
  {
    hide Indexes, EntryFrame;
    if GoodFields(e) {
      EntryRoundTrip(e.frame, e.flags, e.high);
    }
  }

  /** What the tables in memory say is what the translation is. Four entries that point on, each at 8 bytes
      times its index in its table, map the address into the frame of the last. Behind fewer of them, an
      entry without PRESENT leaves the address unmapped, one with PRESENT and HUGE panics, and so does a
      table whose address cannot be formed. */
  lemma WrittenTablesTranslate(words: Words, offset: nat, cr3: nat, addr: nat, entries: seq<Fields>, stop: Fields)
    requires Hangs(words, offset, cr3, addr, entries)
    ensures |entries| == 4 ==> Translated(words, offset, cr3, addr) == Physical(entries[3].frame + addr % 4096)
    ensures var table := TableOf(cr3, entries, |entries|);
            |entries| < 4 ==>
              && (VirtAdd(offset, table).None? ==> Translated(words, offset, cr3, addr) == AddressPanic)
              && (WrittenAt(words, offset, table, addr, |entries|, stop) && GoodFields(stop) ==>
                  && (stop.flags % 2 == 0 ==> Translated(words, offset, cr3, addr) == Unmapped)
                  && (stop.flags % 2 == 1 && stop.flags / 128 % 2 == 1 ==>
                      Translated(words, offset, cr3, addr) == HugePanic))
  {
    hide Indexes, Translated, WalkTo, WrittenAt, GoodFields, PointsOn, Hangs;
    var n := |entries|;
    HangsShort(words, offset, cr3, addr, entries);
    WalkFollowsEntries(words, offset, cr3, addr, entries, n);
    if n == 4 {
      WalkArrives(words, offset, cr3, addr);
    } else {
      var table := TableOf(cr3, entries, n);
      WrittenIsAddressed(words, offset, table, addr, n, stop);
      if VirtAdd(offset, table).None? {
        WalkDecides(words, offset, cr3, addr, n, NoTable);
      } else if WrittenAt(words, offset, table, addr, n, stop) && GoodFields(stop) {
        EntryIsWritten(words, offset, table, addr, n, stop);
        var what := Entry(words, offset, table, Indexes(addr)[n]);
        if !what.Frame? {
          WalkDecides(words, offset, cr3, addr, n, what);
        }
      }
    }
  }

  lemma WrittenIsAddressed(words: Words, offset: nat, table: nat, addr: nat, k: nat, e: Fields)
    ensures WrittenAt(words, offset, table, addr, k, e) ==> VirtAdd(offset, table).Some?
  {
  }

  lemma HangsShort(words: Words, offset: nat, cr3: nat, addr: nat, entries: seq<Fields>)
    requires Hangs(words, offset, cr3, addr, entries)
    ensures |entries| <= 4
  {
  }

  // Physical memory ends at `end`, every table that a walk comes to lies in it, and it is mapped in one
  // half of the canonical addresses.
  ghost predicate MappedAt(words: Words, offset: nat, cr3: nat, end: nat) {
    && cr3 < end
    && (forall addr: nat, k: nat, f: nat :: WalkReads(words, offset, cr3, addr, k, Frame(f)) ==> f < end)
    && (offset + end <= CANONICAL_HALF || (WORD_LIMIT - CANONICAL_HALF <= offset && offset + end <= WORD_LIMIT))
  }

  lemma WalkStaysInMemory(words: Words, offset: nat, cr3: nat, end: nat, addr: nat, k: nat)
    requires MappedAt(words, offset, cr3, end) && k <= 4
    ensures var f := WalkTo(words, offset, cr3, Indexes(addr), k); f.Some? ==> f.value < end
  {
    hide Indexes, EntryFrame;
    var f := WalkTo(words, offset, cr3, Indexes(addr), k);
    assert k > 0 && f.Some? ==> WalkReads(words, offset, cr3, addr, k - 1, Frame(f.value));
  }

  lemma TableIsAddressed(words: Words, offset: nat, cr3: nat, end: nat, addr: nat, k: nat)
    requires MappedAt(words, offset, cr3, end)
    ensures !WalkReads(words, offset, cr3, addr, k, NoTable)
  {
    hide Indexes, WalkTo, EntryFrame;
    if k < 4 {
      WalkStaysInMemory(words, offset, cr3, end, addr, k);
    }
  }

  /** With all of physical memory mapped at canonical addresses, as the caller must guarantee, forming the
      address of a table never panics; and a physical address found always fits in 52 bits. */
  lemma AddressesAreFormed(words: Words, offset: nat, cr3: nat, end: nat, addr: nat)
    ensures MappedAt(words, offset, cr3, end) ==> Translated(words, offset, cr3, addr) != AddressPanic
    ensures Translated(words, offset, cr3, addr).Physical? ==> Translated(words, offset, cr3, addr).addr < LOW_52_BITS
  {
    hide Translated, Indexes, WalkReads, WalkTo, MappedAt;
    TranslationExactly(words, offset, cr3, addr);
    if MappedAt(words, offset, cr3, end) {
      forall k: nat ensures !WalkReads(words, offset, cr3, addr, k, NoTable) {
        TableIsAddressed(words, offset, cr3, end, addr, k);
      }
    }
    if WalkTo(words, offset, cr3, Indexes(addr), 4).Some? {
      WalkArrives(words, offset, cr3, addr);
    }
  }

  // Addresses of one page have the same indexes.
  lemma SamePageSameIndexes(a: nat, b: nat)
    requires a / PAGE == b / PAGE
    ensures Indexes(a) == Indexes(b)
  {
    var page := a / PAGE;
    assert a / 0x20_0000 == page / 512 == b / 0x20_0000;
    assert a / 0x4000_0000 == page / 0x4_0000 == b / 0x4000_0000;
    assert a / 0x80_0000_0000 == page / 0x800_0000 == b / 0x80_0000_0000;
  }

  /** A translation keeps the offset in the page and sends all addresses of one page to one frame. */
  lemma PagesMapToFrames(words: Words, offset: nat, cr3: nat, a: nat, b: nat)
    requires a / PAGE == b / PAGE
    ensures match (Translated(words, offset, cr3, a), Translated(words, offset, cr3, b))
      case (Physical(pa), Physical(pb)) =>
        pa / PAGE == pb / PAGE && pa % PAGE == a % PAGE && pb % PAGE == b % PAGE
      case (ta, tb) => ta == tb
  {
    hide Indexes, Translated, WalkTo, WalkReads;
    SamePageSameIndexes(a, b);
    TranslationExactly(words, offset, cr3, a);
    TranslationExactly(words, offset, cr3, b);
    if WalkTo(words, offset, cr3, Indexes(a), 4).Some? {
      WalkArrives(words, offset, cr3, a);
      WalkArrives(words, offset, cr3, b);
      FrameAndOffset(WalkTo(words, offset, cr3, Indexes(a), 4).value, a % PAGE);
      FrameAndOffset(WalkTo(words, offset, cr3, Indexes(a), 4).value, b % PAGE);
    } else {
      SameStop(words, offset, cr3, a, b);
    }
  }

  lemma FrameAndOffset(frame: nat, pageOffset: nat)
    requires frame % PAGE == 0 && pageOffset < PAGE
    ensures (frame + pageOffset) / PAGE == frame / PAGE && (frame + pageOffset) % PAGE == pageOffset
  {
  }

  lemma SameStop(words: Words, offset: nat, cr3: nat, a: nat, b: nat)
    requires Indexes(a) == Indexes(b) && WalkTo(words, offset, cr3, Indexes(a), 4).None?
    ensures Translated(words, offset, cr3, a) == Translated(words, offset, cr3, b)
    ensures !Translated(words, offset, cr3, a).Physical?
  {
    var k, what := WalkStops(words, offset, cr3, a, 4);
    WalkDecides(words, offset, cr3, a, k, what);
    WalkDecides(words, offset, cr3, b, k, what);
  }
}
