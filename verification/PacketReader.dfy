/** The bounds-checked reads that every packet parser of the proxy makes. */
module PacketReader {
  import opened Wire

  /** A payload length is a 32-bit number. */
  type Payload = s: seq<byte> | |s| < 0x1_0000_0000

  function ReadU32(s: seq<byte>, at: nat): Option<uint32> {
    if at + 4 <= |s| then Some(LoadU32(s, at)) else None
  }

  /** A string read from a packet, and where the read stopped. */
  datatype Text = Text(bytes: seq<byte>, next: nat)

  predicate NoNul(bytes: seq<byte>) {
    forall k {:trigger bytes[k]} :: 0 <= k < |bytes| ==> bytes[k] != 0
  }

  /** Position of the first NUL at or after `from`; the length when there is none. */
  function NulFrom(s: seq<byte>, from: nat): (e: nat)
    requires from <= |s|
    ensures from <= e <= |s|
    ensures e < |s| ==> s[e] == 0
    ensures NoNul(s[from..e])
    decreases |s| - from
  {
    if from == |s| || s[from] == 0 then from
    else
      var e := NulFrom(s, from + 1);
      assert s[from..e] == [s[from]] + s[from + 1..e];
      e
  }

  function ReadCString(s: seq<byte>, at: nat): Option<Text> {
    if at >= |s| || NulFrom(s, at) == |s| then None
    else Some(Text(s[at..NulFrom(s, at)], NulFrom(s, at) + 1))
  }

  method TryReadCString(s: Payload, at: nat) returns (r: Option<Text>)
    ensures r == ReadCString(s, at)
  {
    if at >= |s| {
      return None;
    }
    var cursor := at;
    while cursor < |s| && s[cursor] != 0
      invariant at <= cursor <= |s|
      invariant NulFrom(s, at) == NulFrom(s, cursor)
    {
      cursor := cursor + 1;
    }
    if cursor >= |s| {
      return None;
    }
    r := Some(Text(s[at..cursor], cursor + 1));
  }

  /** A string read is exact: it succeeds with `text` if and only if the payload holds `text`,
      free of NUL and followed by one, at that position. */
  lemma {:induction false} CStringIsExact(s: seq<byte>, at: nat, text: seq<byte>)
    requires at <= |s|
    ensures ReadCString(s, at) == Some(Text(text, at + |text| + 1)) <==> NoNul(text) && text + [0] <= s[at..]
  {
    if NoNul(text) && text + [0] <= s[at..] {
      var e := at + |text|;
      assert s[at..][|text|] == (text + [0])[|text|] == 0;
      assert s[at..e] == text by {
        forall k | 0 <= k < |text| ensures s[at + k] == text[k] {
          assert s[at..][k] == (text + [0])[k];
        }
      }
      NulFromIs(s, at, e);
    }
    if ReadCString(s, at) == Some(Text(text, at + |text| + 1)) {
      var e := NulFrom(s, at);
      assert s[at..][..|text| + 1] == text + [0];
    }
  }

  /** What was read lies where it was read, with its NUL. */
  lemma {:induction false} ReadTextFits(s: seq<byte>, at: nat)
    requires ReadCString(s, at).Some?
    ensures var t := ReadCString(s, at).value;
            at < t.next == at + |t.bytes| + 1 <= |s| && NoNul(t.bytes) && t.bytes + [0] <= s[at..]
  {
    CStringIsExact(s, at, ReadCString(s, at).value.bytes);
  }

  lemma {:induction false} NulFromIs(s: seq<byte>, from: nat, e: nat)
    requires from <= e < |s| && s[e] == 0 && NoNul(s[from..e])
    ensures NulFrom(s, from) == e
    decreases e - from
  {
    if from < e {
      assert s[from..e][0] == s[from];
      assert s[from..e][1..] == s[from + 1..e];
      NulFromIs(s, from + 1, e);
    }
  }

  /** A word read is exact too. */
  lemma {:induction false} U32IsExact(s: seq<byte>, at: nat, v: uint32)
    requires at <= |s|
    ensures ReadU32(s, at) == Some(v) <==> U32Bytes(v) <= s[at..]
  {
    if at + 4 <= |s| {
      var pre, post := s[..at], s[at + 4..];
      if U32Bytes(v) <= s[at..] {
        assert s[at..at + 4] == U32Bytes(v);
        assert s == pre + U32Bytes(v) + post;
        LoadU32OfU32Bytes(pre, v, post);
      }
      if LoadU32(s, at) == v {
        var t := pre + U32Bytes(v) + post;
        LoadU32OfU32Bytes(pre, v, post);
        SameLoadSameBytes(s, t, at);
        assert s[at..at + 4] == U32Bytes(v) by {
          forall k | 0 <= k < 4 ensures s[at + k] == U32Bytes(v)[k] {
            assert s[at + k] == t[at + k];
          }
        }
        assert s[at..][..4] == U32Bytes(v);
      }
    }
  }

  /** A concatenation is what follows a position exactly when its parts are, one after the other. */
  lemma {:induction false} PrefixSplits(a: seq<byte>, b: seq<byte>, s: seq<byte>, at: nat)
    requires at <= |s|
    ensures a + b <= s[at..] <==> a <= s[at..] && at + |a| <= |s| && b <= s[at + |a|..]
  {
    if a <= s[at..] && at + |a| <= |s| {
      assert s[at..] == a + s[at + |a|..];
      assert forall k :: 0 <= k < |b| ==> (a + b)[|a| + k] == b[k];
    }
  }
}
