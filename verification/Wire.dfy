/** Bytes and little-endian words, as the packet parsers and the code scanner read them. */
module Wire {
  datatype Option<+T> = None | Some(value: T)

  type byte = x: int | 0 <= x < 0x100
  type uint32 = x: int | 0 <= x < 0x1_0000_0000
  type uint64 = x: int | 0 <= x < 0x1_0000_0000_0000_0000

  function Pow256(n: nat): (r: nat)
    ensures r > 0
  {
    if n == 0 then 1 else 0x100 * Pow256(n - 1)
  }

  function Word(b0: int, b1: int, b2: int, b3: int): int {
    b0 + 0x100 * b1 + 0x1_0000 * b2 + 0x100_0000 * b3
  }

  /** The four bytes at `at`, least significant first. */
  function LoadU32(s: seq<byte>, at: nat): (v: uint32)
    requires at + 4 <= |s|
  {
    Word(s[at], s[at + 1], s[at + 2], s[at + 3])
  }

  /** The encoding a sender uses; `LoadU32` is its inverse. */
  function U32Bytes(v: uint32): (s: seq<byte>)
    ensures |s| == 4
  {
    [v % 0x100, v / 0x100 % 0x100, v / 0x1_0000 % 0x100, v / 0x100_0000]
  }

  lemma SplitByte(a: int, p: int, b: int, q: int)
    requires 0 <= a < 0x100 && 0 <= b < 0x100
    requires a + 0x100 * p == b + 0x100 * q
    ensures a == b && p == q
  {
  }

  lemma SplitHalf(a: int, p: int, b: int, q: int)
    requires 0 <= a < 0x1_0000 && 0 <= b < 0x1_0000
    requires a + 0x1_0000 * p == b + 0x1_0000 * q
    ensures a == b && p == q
  {
  }

  lemma SameWordSameBytes(a0: byte, a1: byte, a2: byte, a3: byte, b0: byte, b1: byte, b2: byte, b3: byte)
    requires Word(a0, a1, a2, a3) == Word(b0, b1, b2, b3)
    ensures a0 == b0 && a1 == b1 && a2 == b2 && a3 == b3
  {
    SplitByte(a0, a1 + 0x100 * (a2 + 0x100 * a3), b0, b1 + 0x100 * (b2 + 0x100 * b3));
    SplitByte(a1, a2 + 0x100 * a3, b1, b2 + 0x100 * b3);
    SplitByte(a2, a3, b2, b3);
  }

  lemma SameLoadSameBytes(s: seq<byte>, t: seq<byte>, at: nat)
    requires at + 4 <= |s| && at + 4 <= |t|
    requires LoadU32(s, at) == LoadU32(t, at)
    ensures forall x :: at <= x < at + 4 ==> x < |s| && x < |t| && s[x] == t[x]
  {
    SameWordSameBytes(s[at], s[at + 1], s[at + 2], s[at + 3], t[at], t[at + 1], t[at + 2], t[at + 3]);
    forall x | at <= x < at + 4 ensures s[x] == t[x] {
      assert x == at || x == at + 1 || x == at + 2 || x == at + 3;
    }
  }

  lemma WordOfBytes(v: uint32)
    ensures Word(v % 0x100, v / 0x100 % 0x100, v / 0x1_0000 % 0x100, v / 0x100_0000) == v
  {
    var v1 := v / 0x100;
    var v2 := v1 / 0x100;
    assert v / 0x1_0000 == v2;
    assert v / 0x100_0000 == v2 / 0x100;
  }

  lemma LoadU32OfU32Bytes(pre: seq<byte>, v: uint32, post: seq<byte>)
    ensures LoadU32(pre + U32Bytes(v) + post, |pre|) == v
  {
    var s, b := pre + U32Bytes(v) + post, U32Bytes(v);
    assert s[|pre|] == b[0] && s[|pre| + 1] == b[1] && s[|pre| + 2] == b[2] && s[|pre| + 3] == b[3];
    WordOfBytes(v);
  }
}
