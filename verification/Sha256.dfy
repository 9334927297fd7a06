/**
 The streaming SHA-256 of the client fingerprint check: Init, any number of Updates, Final.
*/
module Sha256 {
  import opened Arithmetic
  import opened Sha256Spec
  import Wire

  method Schedule(block: seq<bv8>) returns (w: array<bv32>)
    requires |block| == 64
    ensures fresh(w) && w.Length == 64
    ensures forall t :: 0 <= t < 64 ==> w[t] == W(block, t)
  {
    hide SmallSigma0, SmallSigma1, Add, Word;
    w := new bv32[64];
    for i := 0 to 16
      invariant forall t :: 0 <= t < i ==> w[t] == W(block, t)
    {
      var offset := i * 4;
      w[i] := Word(block[offset], block[offset + 1], block[offset + 2], block[offset + 3]);
    }
    for i := 16 to 64
      invariant forall t :: 0 <= t < i ==> w[t] == W(block, t)
    {
      var sigma0 := SmallSigma0(w[i - 15]);
      var sigma1 := SmallSigma1(w[i - 2]);
      w[i] := Add(Add(Add(w[i - 16], sigma0), w[i - 7]), sigma1);
    }
  }

  /** The eight words of a context's state as a hash value. */
  function Value(state: array<bv32>): Vars
    requires state.Length == 8
    reads state
  {
    Vars(state[0], state[1], state[2], state[3], state[4], state[5], state[6], state[7])
  }

  method ProcessBlock(state: array<bv32>, block: seq<bv8>)
    requires state.Length == 8 && |block| == 64
    modifies state
    ensures Value(state) == Compress(old(Value(state)), block)
  {
    hide BigSigma0, BigSigma1, Ch, Maj, Add, RoundConstant, W;
    var schedule := Schedule(block);
    ghost var start := Value(state);
    var a, b, c, d := state[0], state[1], state[2], state[3];
    var e, f, g, h := state[4], state[5], state[6], state[7];
    for i := 0 to 64
      invariant Vars(a, b, c, d, e, f, g, h) == Rounds(start, block, i)
    {
      var sum1 := BigSigma1(e);
      var choice := Ch(e, f, g);
      var temp1 := Add(Add(Add(Add(h, sum1), choice), RoundConstant(i)), schedule[i]);
      var sum0 := BigSigma0(a);
      var majority := Maj(a, b, c);
      var temp2 := Add(sum0, majority);
      h := g;
      g := f;
      f := e;
      e := Add(d, temp1);
      d := c;
      c := b;
      b := a;
      a := Add(temp1, temp2);
    }
    state[0] := Add(state[0], a);
    state[1] := Add(state[1], b);
    state[2] := Add(state[2], c);
    state[3] := Add(state[3], d);
    state[4] := Add(state[4], e);
    state[5] := Add(state[5], f);
    state[6] := Add(state[6], g);
    state[7] := Add(state[7], h);
  }

  /** What a context has taken in: whole blocks are in the hash value, the rest is buffered. */
  ghost predicate Absorbed(state: array<bv32>, buffer: array<bv8>, bufferSize: nat, m: seq<bv8>)
    reads state, buffer
  {
    && state.Length == 8 && buffer.Length == 64
    && bufferSize <= 64 && bufferSize <= |m|
    && (|m| - bufferSize) % 64 == 0
    && Value(state) == HashBlocks(INITIAL, m[..|m| - bufferSize])
    && buffer[..bufferSize] == m[|m| - bufferSize..]
  }

  /** An unsigned 64-bit counter of `n` bytes. */
  function Counter(n: nat): nat {
    n % 0x1_0000_0000_0000_0000
  }

  /** The multiplication by eight, in 64 bits. */
  function BitCount(bytes: nat): nat {
    bytes * 8 % 0x1_0000_0000_0000_0000
  }

  /** The zero bytes Final writes, over one or two blocks. */
  function PaddingZeros(buffered: nat): nat
    requires buffered < 64
  {
    if buffered + 1 > 56 then 64 - (buffered + 1) + 56 else 56 - (buffered + 1)
  }

  /** Counting on from a wrapped counter. */
  lemma {:induction false} CounterAdds(n: nat, k: nat)
    ensures Counter(Counter(n) + k) == Counter(n + k)
  {
    var whole: nat := 0x1_0000_0000_0000_0000;
    var sum := Counter(n) + k;
    assert n == whole * (n / whole) + Counter(n);
    assert sum == whole * (sum / whole) + Counter(sum);
    assert n + k == whole * ((n + k) / whole) + Counter(n + k);
    SameQuotient(whole, n / whole + sum / whole, Counter(sum), (n + k) / whole, Counter(n + k));
  }

  // ---------- The length field ----------

  /** A logical right shift by `count` bytes. */
  function ShiftBytes(v: nat, count: nat): nat {
    if count == 0 then v else ShiftBytes(v / 256, count - 1)
  }

  lemma {:induction false} BigEndianByte(v: nat, width: nat, k: nat)
    requires k < width
    ensures BigEndian(v, width)[k] == (ShiftBytes(v, width - 1 - k) % 256) as bv8
  {
    if k < width - 1 {
      BigEndianByte(v / 256, width - 1, k);
    }
  }

  lemma DropHighBytes(v: nat, p: nat)
    requires p > 0
    ensures (v % (256 * p)) / 256 == v / 256 % p && (v % (256 * p)) % 256 == v % 256
  {
    var q, r := v / (256 * p), v % (256 * p);
    assert v == 256 * (p * q) + r;
    assert v / 256 == p * q + r / 256;
    SameQuotient(p, q, r / 256, v / 256 / p, v / 256 % p);
  }

  /** A field of `width` bytes only sees the value modulo 256^width. */
  lemma {:induction false} BigEndianTruncates(v: nat, width: nat)
    ensures BigEndian(v % Wire.Pow256(width), width) == BigEndian(v, width)
  {
    if width > 0 {
      DropHighBytes(v, Wire.Pow256(width - 1));
      BigEndianTruncates(v / 256, width - 1);
    }
  }

  lemma LongerTail(m: seq<bv8>, whole: nat, bytes: seq<bv8>)
    requires whole <= |m|
    ensures (m + bytes)[..whole] == m[..whole] && (m + bytes)[whole..] == m[whole..] + bytes
  {
  }

  lemma {:induction false} BlockTakenIn(m: seq<bv8>, block: seq<bv8>)
    requires |m| % 64 == 0 && |m| >= 64 && block == m[|m| - 64..]
    ensures |block| == 64 && (|m| - 64) % 64 == 0
    ensures HashBlocks(INITIAL, m) == Compress(HashBlocks(INITIAL, m[..|m| - 64]), block)
  {
    hide Compress;
  }

  class Context {
    var state: array<bv32>
    var totalBytes: nat // an unsigned 64-bit counter
    var buffer: array<bv8>
    var bufferSize: nat
    ghost var message: seq<bv8>

    ghost predicate Valid()
      reads this, state, buffer
    {
      && Absorbed(state, buffer, bufferSize, message)
      && bufferSize < 64
      && totalBytes == Counter(|message|)
    }

    constructor Init()
      ensures Valid() && message == []
      ensures fresh(state) && fresh(buffer)
    {
      state := new bv32[8];
      buffer := new bv8[64](_ => 0);
      totalBytes := 0;
      bufferSize := 0;
      message := [];
      new;
      state[0], state[1], state[2], state[3] := 0x6a09e667, 0xbb67ae85, 0x3c6ef372, 0xa54ff53a;
      state[4], state[5], state[6], state[7] := 0x510e527f, 0x9b05688c, 0x1f83d9ab, 0x5be0cd19;
    }

    /** Hashes the full buffer and empties it. */
    method FlushBuffer(ghost m: seq<bv8>)
      requires Absorbed(state, buffer, bufferSize, m) && bufferSize == 64
      modifies state, this`bufferSize
      ensures Absorbed(state, buffer, bufferSize, m) && bufferSize == 0
    {
      hide HashBlocks, Compress, Value;
      assert buffer[..] == buffer[..bufferSize];
      BlockTakenIn(m, buffer[..]);
      assert m[..|m|] == m;
      ProcessBlock(state, buffer[..]);
      bufferSize := 0;
    }

    method Update(data: seq<bv8>)
      requires Valid()
      modifies this, state, buffer
      ensures Valid() && state == old(state) && buffer == old(buffer)
      ensures message == old(message) + data
    {
      hide Absorbed, HashBlocks, Value, Counter;
      if |data| == 0 {
        return;
      }
      CounterAdds(|message|, |data|);
      totalBytes := Counter(totalBytes + |data|);
      var consumed := 0;
      while consumed < |data|
        invariant 0 <= consumed <= |data|
        invariant state == old(state) && buffer == old(buffer)
        invariant totalBytes == Counter(|old(message) + data|)
        invariant message == old(message) + data[..consumed]
        invariant Absorbed(state, buffer, bufferSize, message) && bufferSize < 64
      {
        var remaining := |data| - consumed;
        var copyBytes := if 64 - bufferSize < remaining then 64 - bufferSize else remaining;
        Append(data[consumed..consumed + copyBytes]);
        assert data[..consumed] + data[consumed..consumed + copyBytes] == data[..consumed + copyBytes];
        consumed := consumed + copyBytes;
        if bufferSize == 64 {
          FlushBuffer(message);
        }
      }
    }

    /** Copies bytes that fit behind the buffered ones. */
    method Append(bytes: seq<bv8>)
      requires Absorbed(state, buffer, bufferSize, message) && bufferSize + |bytes| <= 64
      modifies this`bufferSize, this`message, buffer
      ensures Absorbed(state, buffer, bufferSize, message)
      ensures bufferSize == old(bufferSize) + |bytes| && message == old(message) + bytes
    {
      hide HashBlocks, Value;
      forall k | 0 <= k < |bytes| {
        buffer[bufferSize + k] := bytes[k];
      }
      LongerTail(message, |message| - bufferSize, bytes);
      assert buffer[..bufferSize + |bytes|] == old(buffer[..bufferSize]) + bytes;
      message := message + bytes;
      bufferSize := bufferSize + |bytes|;
      assert |message| - bufferSize == old(|message| - bufferSize);
    }

    /** Appends zero bytes until `size` bytes are buffered. */
    method FillTo(size: nat)
      requires Absorbed(state, buffer, bufferSize, message) && bufferSize <= size <= 64
      modifies this`bufferSize, this`message, buffer
      ensures Absorbed(state, buffer, bufferSize, message)
      ensures bufferSize == size && message == old(message) + Zeros(size - old(bufferSize))
    {
      hide Absorbed;
      while bufferSize < size
        invariant old(bufferSize) <= bufferSize <= size
        invariant Absorbed(state, buffer, bufferSize, message)
        invariant message == old(message) + Zeros(bufferSize - old(bufferSize))
      {
        assert Zeros(bufferSize - old(bufferSize)) + [0] == Zeros(bufferSize + 1 - old(bufferSize));
        Append([0]);
      }
    }

    /** Appends the 64-bit length, most significant byte first. */
    method AppendLength(totalBits: nat)
      requires Absorbed(state, buffer, bufferSize, message) && bufferSize == 56
      modifies this`bufferSize, this`message, buffer
      ensures Absorbed(state, buffer, bufferSize, message)
      ensures bufferSize == 64 && message == old(message) + BigEndian(totalBits, 8)
    {
      hide Absorbed, ShiftBytes, BigEndian;
      var i := 7;
      while i >= 0
        invariant -1 <= i <= 7 && bufferSize == 63 - i
        invariant Absorbed(state, buffer, bufferSize, message)
        invariant message == old(message) + BigEndian(totalBits, 8)[..7 - i]
      {
        BigEndianByte(totalBits, 8, 7 - i);
        Append([(ShiftBytes(totalBits, i) % 256) as bv8]);
        i := i - 1;
      }
    }

    /** The 0x80 byte and the zeros: an extra block when fewer than eight bytes are left. */
    method PadBeforeLength()
      requires Absorbed(state, buffer, bufferSize, message) && bufferSize < 64
      modifies this`bufferSize, this`message, state, buffer
      ensures Absorbed(state, buffer, bufferSize, message) && bufferSize == 56
      ensures message == old(message) + [0x80] + Zeros(PaddingZeros(old(bufferSize)))
    {
      hide Absorbed, Zeros;
      ghost var b := bufferSize;
      Append([0x80]);
      ghost var marked := message;
      if bufferSize > 56 {
        FillTo(64);
        FlushBuffer(message);
        ZerosConcat(marked, 63 - b, 56);
      }
      FillTo(56);
    }

    /** Padding and length, each full buffer hashed. */
    method AbsorbPadding()
      requires Valid()
      modifies this, state, buffer
      ensures state == old(state) && buffer == old(buffer)
      ensures Absorbed(state, buffer, 0, Pad(old(message)))
    {
      PadShape(message, bufferSize);
      hide Absorbed, BigEndian, Zeros, Pad, BitCount, Counter, PaddingZeros;
      ghost var padded := Pad(message);
      var totalBits := BitCount(totalBytes);
      PadBeforeLength();
      AppendLength(totalBits);
      assert message == padded;
      FlushBuffer(message);
    }

    /** The digest of everything taken in; the context is spent afterwards. */
    method Final(digest: array<bv8>)
      requires Valid() && digest.Length == 32 && digest != buffer
      modifies this, state, buffer, digest
      ensures digest[..] == Digest(old(message))
    {
      hide Absorbed, HashBlocks, Bytes, Value, Pad;
      ghost var padded := Pad(message);
      AbsorbPadding();
      AbsorbedWhole(state, buffer, padded);
      WriteState(state, digest);
    }
  }

  lemma LengthField(n: nat)
    ensures BigEndian(BitCount(Counter(n)), 8) == BigEndian(8 * n, 8)
  {
    hide BigEndian;
    assert Wire.Pow256(8) == 0x1_0000_0000_0000_0000 by {
      assert Wire.Pow256(2) == 0x1_0000;
      assert Wire.Pow256(4) == 0x1_0000_0000;
      assert Wire.Pow256(6) == 0x1_0000_0000_0000;
    }
    assert n % 0x1_0000_0000_0000_0000 * 8 % 0x1_0000_0000_0000_0000 == 8 * n % 0x1_0000_0000_0000_0000;
    BigEndianTruncates(8 * n, 8);
  }

  lemma {:induction false} PaddingFits(n: nat, buffered: nat)
    requires buffered < 64 && buffered <= n && (n - buffered) % 64 == 0
    ensures ZeroBytes(n) == PaddingZeros(buffered)
  {
    var blocks := (n - buffered) / 64;
    assert n == 64 * blocks + buffered;
    assert n % 64 == buffered;
  }

  lemma PadShape(m: seq<bv8>, buffered: nat)
    requires buffered < 64 && buffered <= |m| && (|m| - buffered) % 64 == 0
    ensures m + [0x80] + Zeros(PaddingZeros(buffered)) + BigEndian(BitCount(Counter(|m|)), 8) == Pad(m)
  {
    hide ZeroBytes, BigEndian, Zeros, BitCount, Counter, PaddingZeros;
    PaddingFits(|m|, buffered);
    LengthField(|m|);
  }

  lemma ZerosConcat(m: seq<bv8>, a: nat, b: nat)
    ensures m + Zeros(a) + Zeros(b) == m + Zeros(a + b)
  {
  }

  lemma AbsorbedWhole(state: array<bv32>, buffer: array<bv8>, m: seq<bv8>)
    requires Absorbed(state, buffer, 0, m)
    ensures |m| % 64 == 0 && state.Length == 8 && Value(state) == HashBlocks(INITIAL, m)
  {
    hide HashBlocks, Value;
    assert m[..|m|] == m;
  }

  method WriteWord(digest: array<bv8>, at: nat, w: bv32)
    requires at + 4 <= digest.Length
    modifies digest
    ensures digest[at..at + 4] == WordBytes(w)
    ensures forall k :: 0 <= k < digest.Length && !(at <= k < at + 4) ==> digest[k] == old(digest[k])
  {
    digest[at] := ((w >> 24) & 0xFF) as bv8;
    digest[at + 1] := ((w >> 16) & 0xFF) as bv8;
    digest[at + 2] := ((w >> 8) & 0xFF) as bv8;
    digest[at + 3] := (w & 0xFF) as bv8;
  }

  method WriteState(state: array<bv32>, digest: array<bv8>)
    requires state.Length == 8 && digest.Length == 32
    modifies digest
    ensures digest[..] == Bytes(Value(state))
  {
    hide WordBytes;
    for i := 0 to 8
      invariant forall k :: 0 <= k < i ==> digest[4 * k..4 * k + 4] == WordBytes(state[k])
    {
      WriteWord(digest, i * 4, state[i]);
    }
    JoinWords(digest[..], Value(state));
  }

  lemma JoinWords(d: seq<bv8>, h: Vars)
    requires |d| == 32
    requires d[0..4] == WordBytes(h.a) && d[4..8] == WordBytes(h.b) && d[8..12] == WordBytes(h.c)
    requires d[12..16] == WordBytes(h.d) && d[16..20] == WordBytes(h.e) && d[20..24] == WordBytes(h.f)
    requires d[24..28] == WordBytes(h.g) && d[28..32] == WordBytes(h.h)
    ensures d == Bytes(h)
  {
    hide WordBytes;
    EightPieces(d);
  }

  lemma EightPieces(d: seq<bv8>)
    requires |d| == 32
    ensures d == d[0..4] + d[4..8] + d[8..12] + d[12..16] + d[16..20] + d[20..24] + d[24..28] + d[28..32]
  {
    var half, rest := d[..16], d[16..];
    assert d == half + rest;
    assert half == d[0..4] + d[4..8] + d[8..12] + d[12..16];
    assert rest == d[16..20] + d[20..24] + d[24..28] + d[28..32];
  }
}
