/** Allocation requests and the address ranges that answer them. */
module Layouts {
  import opened Alignment

  datatype Option<+T> = None | Some(value: T)

  // The size of a page and of a physical frame.
  const PAGE: nat := 4096

  function Max(a: nat, b: nat): (r: nat) {
    if a < b then b else a
  }

  // `core::alloc::Layout`.
  datatype Layout = Layout(size: nat, align: nat)

  // What Rust guarantees of every `Layout`: a power-of-two alignment, and a size that
  // stays below 2^63 when rounded up to it.
  ghost predicate ValidLayout(layout: Layout) {
    IsPow2(layout.align) && layout.size + layout.align <= ADDRESS_LIMIT
  }

  // The bytes [start, start + size).
  datatype Region = Region(start: nat, size: nat) {
    function End(): (r: nat) {
      start + size
    }
  }

  ghost predicate Disjoint(a: Region, b: Region) {
    a.End() <= b.start || b.End() <= a.start
  }

  ghost predicate Inside(a: Region, b: Region) {
    b.start <= a.start && a.End() <= b.End()
  }

  // Pairwise disjoint.
  ghost predicate Separated(rs: seq<Region>) {
    forall i, j :: 0 <= i < j < |rs| ==> Disjoint(rs[i], rs[j])
  }

  // Disjoint from every member of rs.
  ghost predicate Apart(r: Region, rs: seq<Region>) {
    forall j :: 0 <= j < |rs| ==> Disjoint(r, rs[j])
  }

  function RemoveAt<T>(s: seq<T>, i: nat): (r: seq<T>)
    requires i < |s|
    ensures |r| == |s| - 1
    ensures forall k :: 0 <= k < |r| ==> r[k] == (if k < i then s[k] else s[k + 1])
  {
    s[..i] + s[i + 1..]
  }

  function TotalSize(rs: seq<Region>): (r: nat) {
    if rs == [] then 0 else rs[0].size + TotalSize(rs[1..])
  }

  lemma {:induction false} TotalSizeSum(a: seq<Region>, b: seq<Region>)
    ensures TotalSize(a + b) == TotalSize(a) + TotalSize(b)
  {
    if a == [] {
      assert a + b == b;
    } else {
      TotalSizeSum(a[1..], b);
      assert (a + b)[1..] == a[1..] + b;
    }
  }

  lemma TotalSizeRemove(rs: seq<Region>, i: nat)
    requires i < |rs|
    ensures TotalSize(RemoveAt(rs, i)) == TotalSize(rs) - rs[i].size
  {
    TotalSizeSum(rs[..i], rs[i..]);
    TotalSizeSum(rs[..i], rs[i + 1..]);
    assert rs == rs[..i] + rs[i..];
    assert rs[i..][1..] == rs[i + 1..];
  }

  lemma SeparatedRemove(rs: seq<Region>, i: nat)
    requires Separated(rs) && i < |rs|
    ensures Separated(RemoveAt(rs, i)) && Apart(rs[i], RemoveAt(rs, i))
  {
  }
}
