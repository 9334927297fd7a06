/** The hash of the client executable as the fingerprint check compares it: a file read piece by
    piece, hashed, and written as text. */
module FileHash {
  import opened Wire
  import CacheText
  import opened Sha256
  import Sha256Spec

  datatype Read = Data(bytes: seq<bv8>) | Failed

  /** What a file's reads deliver up to its end, an empty read; None when a read fails before. */
  function Contents(parts: seq<Read>): Option<seq<bv8>> {
    if parts == [] then Some([])
    else match parts[0]
      case Failed => None
      case Data(bytes) =>
        if bytes == [] then Some([])
        else match Contents(parts[1..])
          case None => None
          case Some(rest) => Some(bytes + rest)
  }

  /** The contents are what every successful nonempty read delivered, one after the other. */
  lemma {:induction false} ContentsOfChunks(chunks: seq<seq<bv8>>)
    requires forall k :: 0 <= k < |chunks| ==> chunks[k] != []
    ensures Contents(seq(|chunks|, k requires 0 <= k < |chunks| => Data(chunks[k]))) == Some(Concat(chunks))
  {
    if chunks == [] {
    } else {
      ContentsOfChunks(chunks[1..]);
      var parts := seq(|chunks|, k requires 0 <= k < |chunks| => Data(chunks[k]));
      assert parts[1..] == seq(|chunks[1..]|, k requires 0 <= k < |chunks[1..]| => Data(chunks[1..][k]));
    }
  }

  predicate Delivers(read: Read) {
    read.Data? && read.bytes != []
  }

  /** A file has no contents exactly when a read fails before the end, after reads that delivered. */
  lemma {:induction false} NoContentsIffFailed(parts: seq<Read>)
    ensures Contents(parts).None? <==>
              exists k: nat {:trigger parts[k]} ::
                k < |parts| && parts[k].Failed? && forall j :: 0 <= j < k ==> Delivers(parts[j])
  {
    if parts != [] && Delivers(parts[0]) {
      var rest := parts[1..];
      NoContentsIffFailed(rest);
      if k: nat :| k < |rest| && rest[k].Failed? && forall j :: 0 <= j < k ==> Delivers(rest[j]) {
        assert parts[k + 1].Failed?;
        forall j | 0 <= j < k + 1 ensures Delivers(parts[j]) {
          assert j > 0 ==> parts[j] == rest[j - 1];
        }
      }
      if k: nat :| k < |parts| && parts[k].Failed? && forall j :: 0 <= j < k ==> Delivers(parts[j]) {
        assert k > 0 && rest[k - 1].Failed?;
        forall j | 0 <= j < k - 1 ensures Delivers(rest[j]) {
          assert rest[j] == parts[j + 1];
        }
      }
    } else if parts != [] && parts[0].Failed? {
      assert parts[0].Failed?;
    }
  }

  /** What follows an empty read does not count. */
  lemma {:induction false} ContentsEndAtEmptyRead(parts: seq<Read>, more: seq<Read>)
    requires forall j :: 0 <= j < |parts| ==> Delivers(parts[j])
    ensures Contents(parts + [Data([])] + more) == Contents(parts)
  {
    if parts != [] {
      ContentsEndAtEmptyRead(parts[1..], more);
      assert (parts + [Data([])] + more)[1..] == parts[1..] + [Data([])] + more;
    }
  }

  function Concat(chunks: seq<seq<bv8>>): seq<bv8> {
    if chunks == [] then [] else chunks[0] + Concat(chunks[1..])
  }

  const HEX_DIGITS := "0123456789abcdef"

  function HexDigit(nibble: bv8): char
    requires nibble < 16
  {
    HEX_DIGITS[nibble]
  }

  /** Two lower-case digits a byte, high half first. */
  function HexText(bytes: seq<bv8>): (s: string)
    ensures |s| == 2 * |bytes|
  {
    if bytes == [] then ""
    else
      var last := bytes[|bytes| - 1];
      HexText(bytes[..|bytes| - 1]) + [HexDigit((last >> 4) & 0x0f), HexDigit(last & 0x0f)]
  }

  /** The file hash: every successful nonempty read goes through Update, then Final, then the text.
      A failed read gives no hash. */
  method ComputeFileSha256(parts: seq<Read>) returns (hex: Option<string>)
    ensures hex == match Contents(parts) case None => None case Some(m) => Some(HexText(Sha256Spec.Digest(m)))
  {
    hide Absorbed, Sha256Spec.HashBlocks, Value, Sha256Spec.Digest, HexDigit;
    var context := new Context.Init();
    var i := 0;
    assert parts[0..] == parts;
    assert Contents(parts).Some? ==> [] + Contents(parts).value == Contents(parts).value;
    while i < |parts|
      invariant 0 <= i <= |parts|
      invariant context.Valid() && fresh(context) && fresh(context.state) && fresh(context.buffer)
      invariant Contents(parts) ==
                match Contents(parts[i..]) case None => None case Some(rest) => Some(context.message + rest)
    {
      if parts[i] == Failed {
        return None;
      }
      if parts[i].bytes == [] {
        break;
      }
      ghost var rest := Contents(parts[i + 1..]);
      assert parts[i..][1..] == parts[i + 1..];
      assert rest.Some? ==> context.message + (parts[i].bytes + rest.value) == context.message + parts[i].bytes + rest.value;
      context.Update(parts[i].bytes);
      i := i + 1;
    }
    assert Contents(parts) == Some(context.message) by {
      assert context.message + [] == context.message;
    }
    var digest := new bv8[32];
    context.Final(digest);
    var text := "";
    for k := 0 to 32
      invariant text == HexText(digest[..k])
    {
      assert digest[..k + 1][..k] == digest[..k];
      text := text + [HexDigit((digest[k] >> 4) & 0x0f), HexDigit(digest[k] & 0x0f)];
    }
    assert digest[..32] == digest[..];
    hex := Some(text);
  }

  lemma HexDigitsAreDistinct(a: bv8, b: bv8)
    requires a < 16 && b < 16 && HexDigit(a) == HexDigit(b)
    ensures a == b
  {
  }

  lemma HalvesMakeTheByte(a: bv8, b: bv8)
    requires (a >> 4) & 0x0f == (b >> 4) & 0x0f && a & 0x0f == b & 0x0f
    ensures a == b
  {
  }

  lemma {:induction false} LastDigits(a: seq<bv8>)
    requires a != []
    ensures var n, s := |a| - 1, HexText(a);
            && s[..2 * n] == HexText(a[..n])
            && s[2 * n] == HexDigit((a[n] >> 4) & 0x0f) && s[2 * n + 1] == HexDigit(a[n] & 0x0f)
  {
    hide HexDigit;
  }

  /** The text tells the bytes: comparing it with the text of a pinned digest compares digests. */
  lemma {:induction false} HexTextIsInjective(a: seq<bv8>, b: seq<bv8>)
    ensures HexText(a) == HexText(b) <==> a == b
  {
    hide HexText, HexDigit;
    if HexText(a) == HexText(b) && a != [] {
      var n := |a| - 1;
      LastDigits(a);
      LastDigits(b);
      HexTextIsInjective(a[..n], b[..n]);
      SameByte(a[n], b[n]);
      assert a == a[..n] + [a[n]] && b == b[..n] + [b[n]];
    }
  }

  lemma {:induction false} SameByte(x: bv8, y: bv8)
    requires HexDigit((x >> 4) & 0x0f) == HexDigit((y >> 4) & 0x0f) && HexDigit(x & 0x0f) == HexDigit(y & 0x0f)
    ensures x == y
  {
    hide HexDigit;
    HexDigitsAreDistinct((x >> 4) & 0x0f, (y >> 4) & 0x0f);
    HexDigitsAreDistinct(x & 0x0f, y & 0x0f);
    HalvesMakeTheByte(x, y);
  }

  lemma {:induction false} DigitOfNibble(nibble: bv8)
    requires nibble < 16
    ensures CacheText.HexDigitValue(HexDigit(nibble)) == Some(nibble as nat)
    ensures !(65 <= HexDigit(nibble) as int <= 90)
  {
  }

  lemma {:induction false} ByteOfNibbles(b: bv8)
    ensures b as nat == 16 * ((b >> 4) & 0x0f) as nat + (b & 0x0f) as nat
  {
  }

  /** Two hexadecimal digits, letters in lower case, that read as the byte. */
  predicate Spells(high: char, low: char, b: bv8) {
    var h, l := CacheText.HexDigitValue(high), CacheText.HexDigitValue(low);
    && h.Some? && l.Some? && b as nat == 16 * h.value + l.value
    && !(65 <= high as int <= 90) && !(65 <= low as int <= 90)
  }

  lemma {:induction false} DigitsSpell(b: bv8)
    ensures Spells(HexDigit((b >> 4) & 0x0f), HexDigit(b & 0x0f), b)
  {
    hide HexDigit, CacheText.HexDigitValue;
    DigitOfNibble((b >> 4) & 0x0f);
    DigitOfNibble(b & 0x0f);
    ByteOfNibbles(b);
  }

  /** The text spells each byte in turn, the high half first. */
  lemma {:induction false} HexTextSpells(bytes: seq<bv8>, i: nat)
    requires i < |bytes|
    ensures Spells(HexText(bytes)[2 * i], HexText(bytes)[2 * i + 1], bytes[i])
  {
    LastDigits(bytes);
    hide HexText, HexDigit, Spells;
    var n := |bytes| - 1;
    if i < n {
      HexTextSpells(bytes[..n], i);
    } else {
      DigitsSpell(bytes[n]);
    }
  }

  /** The fingerprint matches the text of a pinned digest if and only if the digest is that one. */
  lemma {:induction false} FingerprintMatchesIff(m: seq<bv8>, pinned: seq<bv8>)
    ensures HexText(Sha256Spec.Digest(m)) == HexText(pinned) <==> Sha256Spec.Digest(m) == pinned
  {
    HexTextIsInjective(Sha256Spec.Digest(m), pinned);
  }
}
