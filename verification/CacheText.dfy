/** The text pieces of the class-mask cache file: names, lines, hexadecimal masks, decimal ids. */
module CacheText {
  import opened Wire

  /** A C string: what a `const char*` argument can hold. A null pointer is treated by every
      function of the cache like the empty string. */
  type CString = s: string | '\0' !in s

  function ToLower(c: char): char {
    if 'A' <= c <= 'Z' then c - 'A' + 'a' else c
  }

  /** Lower case, cut at the first NUL. */
  function NormalizeName(s: string): (n: string)
    ensures n == "" <==> s == "" || s[0] == '\0'
  {
    if s == "" || s[0] == '\0' then "" else [ToLower(s[0])] + NormalizeName(s[1..])
  }

  /** The same character, or one ASCII letter in its two cases. */
  predicate SameLetter(x: char, y: char) {
    || x == y
    || (65 <= x as int <= 90 && y as int == x as int + 32)
    || (65 <= y as int <= 90 && x as int == y as int + 32)
  }

  /** Equal without regard to case. */
  predicate SameName(a: string, b: string) {
    |a| == |b| && forall k :: 0 <= k < |a| ==> SameLetter(a[k], b[k])
  }

  /** Two names have one key exactly when they are equal without regard to case. */
  lemma {:induction false} OneKeyIffSameName(a: CString, b: CString)
    ensures NormalizeName(a) == NormalizeName(b) <==> SameName(a, b)
  {
    if a != "" && b != "" {
      assert a[0] in a && b[0] in b;
      OneKeyIffSameName(a[1..], b[1..]);
      OneLetter(a[0], b[0]);
      hide ToLower, SameLetter;
      SameNameSplits(a, b);
      var x, y := NormalizeName(a), NormalizeName(b);
      assert x == y <==> x[0] == y[0] && x[1..] == y[1..];
    }
  }

  lemma {:induction false} OneLetter(x: char, y: char)
    ensures ToLower(x) == ToLower(y) <==> SameLetter(x, y)
  {
  }

  lemma {:induction false} SameNameSplits(a: string, b: string)
    requires a != "" && b != ""
    ensures SameName(a, b) <==> SameLetter(a[0], b[0]) && SameName(a[1..], b[1..])
  {
    hide SameLetter;
    if SameLetter(a[0], b[0]) && SameName(a[1..], b[1..]) {
      forall k | 0 <= k < |a| ensures SameLetter(a[k], b[k]) {
        assert k > 0 ==> a[k] == a[1..][k - 1] && b[k] == b[1..][k - 1];
      }
    }
  }

  /** The key of a name is the name in lower case, its own key. */
  lemma {:induction false} KeyOfKey(a: CString)
    ensures '\0' !in NormalizeName(a) && NormalizeName(NormalizeName(a)) == NormalizeName(a)
    ensures SameName(a, NormalizeName(a))
    ensures forall c :: c in NormalizeName(a) ==> !(65 <= c as int <= 90)
  {
    if a != "" {
      assert a[0] in a;
      KeyOfKey(a[1..]);
      SameNameSplits(a, NormalizeName(a));
    }
  }

  /** What follows a NUL does not count. */
  lemma {:induction false} KeyEndsAtNul(a: CString, rest: string)
    ensures NormalizeName(a + "\0" + rest) == NormalizeName(a)
  {
    if a == "" {
      assert (a + "\0" + rest)[0] == '\0';
    } else {
      assert a[0] in a;
      KeyEndsAtNul(a[1..], rest);
      assert (a + "\0" + rest)[1..] == a[1..] + "\0" + rest;
    }
  }

  /** Position of the first `c` at or after `from`; the length when there is none. */
  function Find(s: string, c: char, from: nat): (i: nat)
    requires from <= |s|
    ensures from <= i <= |s|
    ensures i < |s| ==> s[i] == c
    ensures forall k :: from <= k < i ==> s[k] != c
    decreases |s| - from
  {
    if from == |s| || s[from] == c then from else Find(s, c, from + 1)
  }

  lemma {:induction false} FindSeparator(before: string, c: char, after: string, from: nat)
    requires from <= |before| && forall k :: from <= k < |before| ==> before[k] != c
    ensures Find(before + [c] + after, c, from) == |before|
  {
    var s := before + [c] + after;
    assert s[|before|] == c && forall k :: from <= k < |before| ==> s[k] == before[k];
  }

  // ---------- Lines ----------

  /** The newline-separated pieces; a last piece without newline counts when it is not empty. */
  function Lines(s: string): seq<string>
    decreases |s|
  {
    if s == "" then []
    else
      var e := Find(s, '\n', 0);
      if e == |s| then [s] else [s[..e]] + Lines(s[e + 1..])
  }

  function StripCr(line: string): string {
    if line != "" && line[|line| - 1] == '\r' then line[..|line| - 1] else line
  }

  lemma {:induction false} LinesCons(line: string, rest: string)
    requires '\n' !in line
    ensures Lines(line + ['\n'] + rest) == [line] + Lines(rest)
  {
    var s := line + ['\n'] + rest;
    FindSeparator(line, '\n', rest, 0);
    assert s[..|line|] == line && s[|line| + 1..] == rest;
  }

  lemma {:induction false} LinesSingle(line: string)
    requires line != "" && '\n' !in line
    ensures Lines(line) == [line]
  {
    assert Find(line, '\n', 0) == |line|;
  }

  lemma {:induction false} LinesHaveNoNewline(s: string)
    ensures forall k :: 0 <= k < |Lines(s)| ==> '\n' !in Lines(s)[k]
    decreases |s|
  {
    if s != "" {
      var e := Find(s, '\n', 0);
      assert s[..e] == s[0..e];
      if e < |s| {
        LinesHaveNoNewline(s[e + 1..]);
      }
    }
  }

  // ---------- Hexadecimal ----------

  function HexDigit(d: nat): char
    requires d < 16
  {
    if d < 10 then '0' + d as char else 'a' + (d - 10) as char
  }

  function HexDigitValue(c: char): Option<nat> {
    if '0' <= c <= '9' then Some((c - '0') as nat)
    else if 'a' <= c <= 'f' then Some(10 + (c - 'a') as nat)
    else if 'A' <= c <= 'F' then Some(10 + (c - 'A') as nat)
    else None
  }

  const LOWER_DIGITS := "0123456789abcdef"
  const UPPER_DIGITS := "0123456789ABCDEF"

  /** The sixteen digits in order, in either case and no other character. */
  lemma {:induction false} SixteenDigits(c: char, d: nat)
    requires d < 16
    ensures HexDigit(d) == LOWER_DIGITS[d]
    ensures HexDigitValue(c) == Some(d) <==> c == LOWER_DIGITS[d] || c == UPPER_DIGITS[d]
    ensures HexDigitValue(c).Some? ==> HexDigitValue(c).value < 16
  {
  }

  /** The last `width` hexadecimal digits of `n`, zero-filled. */
  function HexDigits(n: nat, width: nat): (s: string)
    ensures |s| == width
    ensures forall k :: 0 <= k < |s| ==> HexDigitValue(s[k]).Some?
  {
    if width == 0 then "" else HexDigits(n / 16, width - 1) + [HexDigit(n % 16)]
  }

  /** The number a string of hexadecimal digits stands for. */
  function HexValue(s: string): Option<nat> {
    if s == "" then Some(0)
    else match HexValue(s[..|s| - 1])
      case None => None
      case Some(high) =>
        match HexDigitValue(s[|s| - 1])
        case None => None
        case Some(d) => Some(16 * high + d)
  }

  function Pow16(n: nat): nat {
    if n == 0 then 1 else 16 * Pow16(n - 1)
  }

  lemma {:induction false} HexValueOfDigits(n: nat, width: nat)
    requires n < Pow16(width)
    ensures HexValue(HexDigits(n, width)) == Some(n)
  {
    if width > 0 {
      HexValueOfDigits(n / 16, width - 1);
      DigitValue(n % 16);
      hide HexDigits, HexDigit, HexDigitValue;
      LastHexDigit(n, width);
      assert n == 16 * (n / 16) + n % 16;
    }
  }

  lemma {:induction false} DigitValue(d: nat)
    requires d < 16
    ensures HexDigitValue(HexDigit(d)) == Some(d)
  {
  }

  lemma {:induction false} LastHexDigit(n: nat, width: nat)
    requires width > 0
    ensures var s := HexDigits(n, width);
            s[..|s| - 1] == HexDigits(n / 16, width - 1) && s[|s| - 1] == HexDigit(n % 16)
  {
    hide HexDigit;
  }

  /** Eight digits behind 0x hold every 32-bit mask. */
  lemma {:induction false} HexFieldOfMask(mask: uint32)
    ensures HexField("0x" + HexDigits(mask, 8)) == Some(mask)
  {
    assert Pow16(4) == 0x1_0000;
    assert Pow16(8) == 0x1_0000_0000;
    HexValueOfDigits(mask, 8);
    assert ("0x" + HexDigits(mask, 8))[2..] == HexDigits(mask, 8);
  }

  lemma {:induction false} HexValueGrows(s: string, k: nat)
    requires k <= |s| && HexValue(s).Some?
    ensures HexValue(s[..k]).Some? && HexValue(s[..k]).value <= HexValue(s).value
  {
    if k < |s| {
      HexValueGrows(s[..|s| - 1], k);
      assert s[..|s| - 1][..k] == s[..k];
    } else {
      assert s[..k] == s;
    }
  }

  lemma {:induction false} OneDigit(c: char, d: nat)
    requires d < 16
    ensures HexDigitValue(c) == Some(d) <==> SameLetter(c, HexDigit(d))
    ensures HexDigitValue(c).Some? ==> HexDigitValue(c).value < 16
  {
  }

  /** A string of digits has a value if and only if it spells that number, in either case. */
  lemma {:induction false} HexValueIff(s: string, n: nat)
    ensures HexValue(s) == Some(n) <==> n < Pow16(|s|) && SameName(s, HexDigits(n, |s|))
  {
    if s != "" {
      var front, last := s[..|s| - 1], s[|s| - 1];
      HexValueIff(front, n / 16);
      OneDigit(last, n % 16);
      LastHexDigit(n, |s|);
      hide HexDigits, HexDigit, HexDigitValue, SameLetter;
      SameNameEnds(s, HexDigits(n, |s|));
      if HexValue(s) == Some(n) {
        NumberSplits(n, HexValue(front).value, HexDigitValue(last).value);
      }
    }
  }

  lemma {:induction false} NumberSplits(n: nat, high: nat, d: nat)
    requires n == 16 * high + d && d < 16
    ensures n / 16 == high && n % 16 == d
  {
  }

  lemma {:induction false} SameNameEnds(a: string, b: string)
    requires |a| == |b| > 0
    ensures SameName(a, b) <==> SameName(a[..|a| - 1], b[..|b| - 1]) && SameLetter(a[|a| - 1], b[|b| - 1])
  {
    hide SameLetter;
    var n := |a| - 1;
    if SameName(a[..n], b[..n]) && SameLetter(a[n], b[n]) {
      forall k | 0 <= k < |a| ensures SameLetter(a[k], b[k]) {
        assert k < n ==> a[k] == a[..n][k] && b[k] == b[..n][k];
      }
    }
  }

  /** What a mask field stands for: a 0x prefix, at least one digit, nothing but digits and no
      more than 32 bits. */
  function HexField(value: string): Option<uint32> {
    if |value| >= 3 && value[0] == '0' && (value[1] == 'x' || value[1] == 'X') then
      FitU32(HexValue(value[2..]))
    else None
  }

  function FitU32(v: Option<nat>): Option<uint32> {
    if v.Some? && v.value < 0x1_0000_0000 then Some(v.value) else None
  }

  /** The fields that are accepted as a mask: 0x or 0X and the mask in one or more hexadecimal digits
      of either case, with any number of leading zeros. */
  lemma {:induction false} HexFieldIff(value: string, mask: uint32)
    ensures HexField(value) == Some(mask) <==>
              && |value| >= 3 && value[0] == '0' && (value[1] == 'x' || value[1] == 'X')
              && mask < Pow16(|value| - 2) && SameName(value[2..], HexDigits(mask, |value| - 2))
  {
    if |value| >= 3 {
      HexValueIff(value[2..], mask);
      hide HexValue, HexDigits, SameName;
    }
  }

  /** The digits before position `i` make `result`. */
  ghost predicate HexSoFar(value: string, i: nat, result: nat) {
    && 2 <= i <= |value| && |value| >= 3 && value[0] == '0' && (value[1] == 'x' || value[1] == 'X')
    && result < 0x1_0000_0000 && HexValue(value[2..][..i - 2]) == Some(result)
  }

  method ParseHexU32(value: string) returns (parsed: Option<uint32>)
    ensures parsed == HexField(value)
  {
    if |value| < 3 || value[0] != '0' || (value[1] != 'x' && value[1] != 'X') {
      return None;
    }
    hide HexValue, HexField, HexSoFar;
    HexStart(value);
    var result: nat := 0;
    var i: nat := 2;
    while i < |value|
      invariant i <= |value| && HexSoFar(value, i, result)
    {
      var ch := value[i];
      var digit := 0;
      HexNext(value, i, result);
      if '0' <= ch <= '9' {
        digit := (ch - '0') as nat;
      } else if 'a' <= ch <= 'f' {
        digit := 10 + (ch - 'a') as nat;
      } else if 'A' <= ch <= 'F' {
        digit := 10 + (ch - 'A') as nat;
      } else {
        return None;
      }
      result := 16 * result + digit;
      if result > 0xFFFF_FFFF {
        return None;
      }
      i := i + 1;
    }
    HexEnd(value, result);
    return Some(result);
  }

  lemma {:induction false} HexStart(value: string)
    requires |value| >= 3 && value[0] == '0' && (value[1] == 'x' || value[1] == 'X')
    ensures HexSoFar(value, 2, 0)
  {
    assert value[2..][..0] == "";
  }

  lemma {:induction false} HexEnd(value: string, result: nat)
    requires HexSoFar(value, |value|, result)
    ensures HexField(value) == Some(result)
  {
    hide HexValue;
    assert value[2..][..|value| - 2] == value[2..];
  }

  /** One more character: it ends the field, or takes it beyond 32 bits, or is one more digit. */
  lemma {:induction false} HexNext(value: string, i: nat, result: nat)
    requires i < |value| && HexSoFar(value, i, result)
    ensures match HexDigitValue(value[i])
            case None => HexField(value) == None
            case Some(d) =>
              if 16 * result + d >= 0x1_0000_0000 then HexField(value) == None
              else HexSoFar(value, i + 1, 16 * result + d)
  {
    hide HexValue, HexDigitValue;
    HexValueNext(value[2..], i - 2);
  }

  /** One more digit: the value so far, and what it means for the whole string. */
  lemma {:induction false} HexValueNext(s: string, k: nat)
    requires k < |s| && HexValue(s[..k]).Some?
    ensures HexDigitValue(s[k]).None? ==> HexValue(s).None?
    ensures HexDigitValue(s[k]).Some? ==>
              var v := 16 * HexValue(s[..k]).value + HexDigitValue(s[k]).value;
              HexValue(s[..k + 1]) == Some(v) && (HexValue(s).None? || HexValue(s).value >= v)
  {
    hide HexDigitValue;
    assert s[..k + 1][..k] == s[..k];
    if HexValue(s).Some? {
      HexValueGrows(s, k + 1);
    }
  }

  // ---------- Decimal ----------

  predicate IsDigit(c: char) {
    '0' <= c <= '9'
  }

  function Decimal(n: nat): (s: string)
    ensures |s| > 0 && forall k :: 0 <= k < |s| ==> IsDigit(s[k])
  {
    if n < 10 then ['0' + n as char] else Decimal(n / 10) + ['0' + (n % 10) as char]
  }

  /** The value of the leading decimal digits, continuing from `acc`. */
  function LeadingDigits(s: string, acc: nat): nat {
    if s == "" || !IsDigit(s[0]) then acc
    else LeadingDigits(s[1..], 10 * acc + (s[0] - '0') as nat)
  }

  predicate IsSpace(c: char) {
    c == ' ' || '\t' <= c <= '\r'
  }

  /** The C library's `atoi`, without its undefined overflow: leading space, an optional sign,
      the digits that follow. */
  function Atoi(s: string): int {
    if s == "" then 0
    else if IsSpace(s[0]) then Atoi(s[1..])
    else if s[0] == '-' then 0 - LeadingDigits(s[1..], 0)
    else if s[0] == '+' then LeadingDigits(s[1..], 0)
    else LeadingDigits(s, 0)
  }

  lemma {:induction false} LeadingDigitsSnoc(s: string, d: char, acc: nat)
    requires IsDigit(d) && forall k :: 0 <= k < |s| ==> IsDigit(s[k])
    ensures LeadingDigits(s + [d], acc) == 10 * LeadingDigits(s, acc) + (d - '0') as nat
  {
    if s == "" {
      assert (s + [d])[1..] == "";
    } else {
      assert (s + [d])[1..] == s[1..] + [d];
      LeadingDigitsSnoc(s[1..], d, 10 * acc + (s[0] - '0') as nat);
    }
  }

  lemma {:induction false} AtoiOfDecimal(n: nat)
    ensures Atoi(Decimal(n)) == n
  {
    LeadingDigitsOfDecimal(n);
    assert IsDigit(Decimal(n)[0]);
  }

  lemma {:induction false} LeadingDigitsOfDecimal(n: nat)
    ensures LeadingDigits(Decimal(n), 0) == n
  {
    if n < 10 {
      assert Decimal(n)[1..] == "";
    } else {
      LeadingDigitsOfDecimal(n / 10);
      LeadingDigitsSnoc(Decimal(n / 10), '0' + (n % 10) as char, 0);
    }
  }
}
