/**
 The SHA-256 hash function as FIPS 180-4 defines it, on messages of whole bytes.
*/
module Sha256Spec {
  // Section 4.2.2
  const K: seq<bv32> :=
    (([0x428a2f98, 0x71374491, 0xb5c0fbcf, 0xe9b5dba5, 0x3956c25b, 0x59f111f1, 0x923f82a4, 0xab1c5ed5] +
      [0xd807aa98, 0x12835b01, 0x243185be, 0x550c7dc3, 0x72be5d74, 0x80deb1fe, 0x9bdc06a7, 0xc19bf174]) +
     ([0xe49b69c1, 0xefbe4786, 0x0fc19dc6, 0x240ca1cc, 0x2de92c6f, 0x4a7484aa, 0x5cb0a9dc, 0x76f988da] +
      [0x983e5152, 0xa831c66d, 0xb00327c8, 0xbf597fc7, 0xc6e00bf3, 0xd5a79147, 0x06ca6351, 0x14292967])) +
    (([0x27b70a85, 0x2e1b2138, 0x4d2c6dfc, 0x53380d13, 0x650a7354, 0x766a0abb, 0x81c2c92e, 0x92722c85] +
      [0xa2bfe8a1, 0xa81a664b, 0xc24b8b70, 0xc76c51a3, 0xd192e819, 0xd6990624, 0xf40e3585, 0x106aa070]) +
     ([0x19a4c116, 0x1e376c08, 0x2748774c, 0x34b0bcb5, 0x391c0cb3, 0x4ed8aa4a, 0x5b9cca4f, 0x682e6ff3] +
      [0x748f82ee, 0x78a5636f, 0x84c87814, 0x8cc70208, 0x90befffa, 0xa4506ceb, 0xbef9a3f7, 0xc67178f2]))

  function RoundConstant(t: nat): bv32
    requires t < 64
  {
    K[t]
  }

  // Section 3.2
  function RotateRight(value: bv32, amount: bv32): bv32
    requires amount <= 32
  {
    (value >> amount) | (value << (32 - amount))
  }

  /** The two shifts are a circular shift, for every amount in use. */
  lemma RotateRightIsRotation(v: bv32)
    ensures RotateRight(v, 2) == v.RotateRight(2) && RotateRight(v, 6) == v.RotateRight(6)
    ensures RotateRight(v, 7) == v.RotateRight(7) && RotateRight(v, 11) == v.RotateRight(11)
    ensures RotateRight(v, 13) == v.RotateRight(13) && RotateRight(v, 17) == v.RotateRight(17)
    ensures RotateRight(v, 18) == v.RotateRight(18) && RotateRight(v, 19) == v.RotateRight(19)
    ensures RotateRight(v, 22) == v.RotateRight(22) && RotateRight(v, 25) == v.RotateRight(25)
  {
  }

  /** Addition modulo 2^32. */
  function Add(x: bv32, y: bv32): bv32 { x + y }

  // Section 4.1.2
  function Ch(x: bv32, y: bv32, z: bv32): bv32 { (x & y) ^ (!x & z) }
  function Maj(x: bv32, y: bv32, z: bv32): bv32 { (x & y) ^ (x & z) ^ (y & z) }
  function BigSigma0(x: bv32): bv32 { RotateRight(x, 2) ^ RotateRight(x, 13) ^ RotateRight(x, 22) }
  function BigSigma1(x: bv32): bv32 { RotateRight(x, 6) ^ RotateRight(x, 11) ^ RotateRight(x, 25) }
  function SmallSigma0(x: bv32): bv32 { RotateRight(x, 7) ^ RotateRight(x, 18) ^ (x >> 3) }
  function SmallSigma1(x: bv32): bv32 { RotateRight(x, 17) ^ RotateRight(x, 19) ^ (x >> 10) }

  /** Four bytes as a word, most significant first (section 3.1). */
  function Word(b0: bv8, b1: bv8, b2: bv8, b3: bv8): bv32 {
    ((b0 as bv32) << 24) | ((b1 as bv32) << 16) | ((b2 as bv32) << 8) | (b3 as bv32)
  }

  function WordBytes(w: bv32): (s: seq<bv8>)
    ensures |s| == 4
  {
    [((w >> 24) & 0xFF) as bv8, ((w >> 16) & 0xFF) as bv8, ((w >> 8) & 0xFF) as bv8, (w & 0xFF) as bv8]
  }

  /** Writing a word out and reading it back gives the same word. */
  lemma WordOfWordBytes(w: bv32)
    ensures var s := WordBytes(w); Word(s[0], s[1], s[2], s[3]) == w
  {
  }

  // ---------- Section 6.2.2 ----------

  /** The eight working variables, and likewise an intermediate hash value. */
  datatype Vars = Vars(a: bv32, b: bv32, c: bv32, d: bv32, e: bv32, f: bv32, g: bv32, h: bv32)

  function Plus(x: Vars, y: Vars): Vars {
    Vars(Add(x.a, y.a), Add(x.b, y.b), Add(x.c, y.c), Add(x.d, y.d),
         Add(x.e, y.e), Add(x.f, y.f), Add(x.g, y.g), Add(x.h, y.h))
  }

  /** The message schedule; the order of the four summands does not matter. */
  function W(block: seq<bv8>, t: nat): bv32
    requires |block| == 64
  {
    if t < 16 then Word(block[4 * t], block[4 * t + 1], block[4 * t + 2], block[4 * t + 3])
    else Add(Add(Add(W(block, t - 16), SmallSigma0(W(block, t - 15))), W(block, t - 7)), SmallSigma1(W(block, t - 2)))
  }

  function Round(v: Vars, k: bv32, w: bv32): Vars {
    var t1 := Add(Add(Add(Add(v.h, BigSigma1(v.e)), Ch(v.e, v.f, v.g)), k), w);
    var t2 := Add(BigSigma0(v.a), Maj(v.a, v.b, v.c));
    Vars(Add(t1, t2), v.a, v.b, v.c, Add(v.d, t1), v.e, v.f, v.g)
  }

  function Rounds(v: Vars, block: seq<bv8>, t: nat): Vars
    requires |block| == 64 && t <= 64
  {
    if t == 0 then v else Round(Rounds(v, block, t - 1), RoundConstant(t - 1), W(block, t - 1))
  }

  function Compress(h: Vars, block: seq<bv8>): Vars
    requires |block| == 64
  {
    Plus(h, Rounds(h, block, 64))
  }

  /** The hash value after every block of `m`. */
  function HashBlocks(h: Vars, m: seq<bv8>): Vars
    requires |m| % 64 == 0
  {
    if |m| == 0 then h else Compress(HashBlocks(h, m[..|m| - 64]), m[|m| - 64..])
  }

  lemma HashOneMoreBlock(h: Vars, m: seq<bv8>, block: seq<bv8>)
    requires |m| % 64 == 0 && |block| == 64
    ensures HashBlocks(h, m + block) == Compress(HashBlocks(h, m), block)
  {
    var n := m + block;
    assert n[..|n| - 64] == m && n[|n| - 64..] == block;
  }

  // ---------- Sections 5.1.1, 5.3.3 and 6.2 ----------

  const INITIAL: Vars := Vars(
    0x6a09e667, 0xbb67ae85, 0x3c6ef372, 0xa54ff53a, 0x510e527f, 0x9b05688c, 0x1f83d9ab, 0x5be0cd19)

  /** The number of zero bytes between the 0x80 byte and the length: the smallest that brings the
      total to eight bytes short of a block. */
  function ZeroBytes(n: nat): (z: nat)
    ensures (n + 1 + z) % 64 == 56 && z < 64
  {
    (119 - n % 64) % 64
  }

  lemma ZeroBytesIsSmallest(n: nat, y: nat)
    requires (n + 1 + y) % 64 == 56
    ensures ZeroBytes(n) <= y
  {
  }

  function Zeros(n: nat): (s: seq<bv8>)
    ensures |s| == n
  {
    seq(n, _ => 0)
  }

  /** `value` modulo 256^width, most significant byte first. */
  function BigEndian(value: nat, width: nat): (s: seq<bv8>)
    ensures |s| == width
  {
    if width == 0 then [] else BigEndian(value / 256, width - 1) + [(value % 256) as bv8]
  }

  function Pad(m: seq<bv8>): (p: seq<bv8>)
    ensures |p| == |m| + 1 + ZeroBytes(|m|) + 8
  {
    m + [0x80] + Zeros(ZeroBytes(|m|)) + BigEndian(8 * |m|, 8)
  }

  lemma PadFillsBlocks(m: seq<bv8>)
    ensures |Pad(m)| % 64 == 0
  {
    hide ZeroBytes, Pad;
    EightMoreFillABlock(|m| + 1 + ZeroBytes(|m|));
  }

  lemma EightMoreFillABlock(n: nat)
    requires n % 64 == 56
    ensures (n + 8) % 64 == 0
  {
  }

  function Bytes(h: Vars): (s: seq<bv8>)
    ensures |s| == 32
  {
    WordBytes(h.a) + WordBytes(h.b) + WordBytes(h.c) + WordBytes(h.d) +
    WordBytes(h.e) + WordBytes(h.f) + WordBytes(h.g) + WordBytes(h.h)
  }

  /** The digest; the standard defines it for messages of fewer than 2^64 bits. */
  function Digest(m: seq<bv8>): (d: seq<bv8>)
    ensures |d| == 32
  {
    PadFillsBlocks(m);
    Bytes(HashBlocks(INITIAL, Pad(m)))
  }
}
