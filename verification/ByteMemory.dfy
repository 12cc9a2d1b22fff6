/** Byte-addressed memory and the little-endian machine words stored in it.

    The allocators keep their free lists inside the memory they manage, so both
    the list nodes and the clients' data are bytes of one `Memory`. */
module ByteMemory {
  import opened Alignment

  type byte = b: int | 0 <= b < 256

  type Memory = map<int, byte>

  const WORD_BYTES: nat := 8

  function Pow256(n: nat): (r: nat)
    ensures r >= 1
  {
    if n == 0 then 1 else 256 * Pow256(n - 1)
  }

  function ToBytes(v: nat, n: nat): (bs: seq<byte>)
    ensures |bs| == n
  {
    if n == 0 then [] else [v % 256] + ToBytes(v / 256, n - 1)
  }

  function FromBytes(bs: seq<byte>): (r: nat) {
    if bs == [] then 0 else bs[0] + 256 * FromBytes(bs[1..])
  }

  lemma {:induction false} BytesRoundTrip(v: nat, n: nat)
    requires v < Pow256(n)
    ensures FromBytes(ToBytes(v, n)) == v
  {
    if n == 0 {
    } else {
      BytesRoundTrip(v / 256, n - 1);
      assert ToBytes(v, n)[1..] == ToBytes(v / 256, n - 1);
    }
  }

  lemma Pow256Step(n: nat)
    ensures Pow256(n + 2) == 0x1_0000 * Pow256(n)
  {
    assert Pow256(n + 2) == 256 * Pow256(n + 1);
  }

  lemma WordBytesHoldWord()
    ensures Pow256(WORD_BYTES) == WORD_LIMIT
  {
    var n: nat := WORD_BYTES - 8;
    Pow256Step(n);
    Pow256Step(n + 2);
    Pow256Step(n + 4);
    Pow256Step(n + 6);
  }

  // Every byte of [addr, addr + len) exists.
  predicate Mapped(m: Memory, addr: int, len: nat) {
    forall x :: addr <= x < addr + len ==> x in m
  }

  // m and m' hold the same bytes in [addr, addr + len).
  ghost predicate SameBytes(m: Memory, m': Memory, addr: int, len: nat) {
    forall x :: addr <= x < addr + len ==> x in m && x in m' && m[x] == m'[x]
  }

  function Bytes(m: Memory, addr: int, len: nat): (bs: seq<byte>)
    requires Mapped(m, addr, len)
    ensures |bs| == len
    ensures forall i :: 0 <= i < len ==> bs[i] == m[addr + i]
  {
    seq(len, i requires 0 <= i < len => m[addr + i])
  }

  function Load(m: Memory, addr: int): (r: nat)
    requires Mapped(m, addr, WORD_BYTES)
  {
    FromBytes(Bytes(m, addr, WORD_BYTES))
  }

  function Store(m: Memory, addr: int, v: nat): (m': Memory)
    requires Mapped(m, addr, WORD_BYTES)
  {
    var bs := ToBytes(v, WORD_BYTES);
    map x | x in m :: if addr <= x < addr + WORD_BYTES then bs[x - addr] else m[x]
  }

  // A word that fits reads back as written.
  lemma LoadStored(m: Memory, addr: int, v: nat)
    requires Mapped(m, addr, WORD_BYTES) && v < WORD_LIMIT
    ensures Mapped(Store(m, addr, v), addr, WORD_BYTES)
    ensures Load(Store(m, addr, v), addr) == v
  {
    var bs := ToBytes(v, WORD_BYTES);
    WordBytesHoldWord();
    BytesRoundTrip(v, WORD_BYTES);
    assert Bytes(Store(m, addr, v), addr, WORD_BYTES) == bs;
  }

  // A store changes no byte outside its word.
  lemma StoreFrame(m: Memory, addr: int, v: nat)
    requires Mapped(m, addr, WORD_BYTES)
    ensures Store(m, addr, v).Keys == m.Keys
    ensures forall x :: x in m && !(addr <= x < addr + WORD_BYTES) ==> Store(m, addr, v)[x] == m[x]
  {
  }

  // A word only depends on its own bytes.
  lemma LoadFrame(m: Memory, m': Memory, addr: int)
    requires SameBytes(m, m', addr, WORD_BYTES)
    ensures Mapped(m, addr, WORD_BYTES) && Mapped(m', addr, WORD_BYTES)
    ensures Load(m, addr) == Load(m', addr)
  {
    assert Bytes(m, addr, WORD_BYTES) == Bytes(m', addr, WORD_BYTES);
  }
}
