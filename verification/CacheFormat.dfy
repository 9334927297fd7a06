/** The format of the class-mask cache file: the parser of its three versions and the printer. */
module CacheFormat {
  import opened Wire
  import opened CacheText

  const HEADER_V1 := "MONOMYTH_MULTICLASS_CACHE_V1"
  const HEADER_V2 := "MONOMYTH_MULTICLASS_CACHE_V2"
  const HEADER_V3 := "MONOMYTH_MULTICLASS_CACHE_V3"

  datatype Version = V1 | V2 | V3

  datatype CacheEntry = CacheEntry(
    name: string,
    normalizedName: string,
    mask: uint32,
    classId: nat,
    server: string,
    normalizedServer: string)

  // ---------- Reading ----------

  function HeaderVersion(header: string): Option<Version> {
    if header == HEADER_V1 then Some(V1)
    else if header == HEADER_V2 then Some(V2)
    else if header == HEADER_V3 then Some(V3)
    else None
  }

  /** The fields after the first separator; `a` is its position. */
  function ParseFields(v: Version, line: string, a: nat): Option<CacheEntry>
    requires 0 < a < |line| - 1
  {
    var b := if v == V1 then |line| else Find(line, '|', a + 1);
    var c := if v == V3 && b < |line| then Find(line, '|', b + 1) else |line|;
    var name := line[..a];
    var normalizedName := NormalizeName(name);
    var maskField := HexField(line[a + 1..b]);
    if normalizedName == "" || maskField.None? then None
    else if v == V1 then Some(CacheEntry(name, normalizedName, maskField.value, 0, "", ""))
    else if b == |line| || b + 1 >= |line| then None
    else
      var classId := Atoi(line[b + 1..c]);
      if classId <= 0 || classId > 255 then None
      else if v == V2 then Some(CacheEntry(name, normalizedName, maskField.value, classId, "", ""))
      else if c == |line| || c + 1 >= |line| then None
      else
        var server := line[c + 1..];
        var normalizedServer := NormalizeName(server);
        if normalizedServer == "" then None
        else Some(CacheEntry(name, normalizedName, maskField.value, classId, server, normalizedServer))
  }

  function ParseLine(v: Version, line: string): Option<CacheEntry> {
    var a := Find(line, '|', 0);
    if a == |line| || a == 0 || a + 1 >= |line| then None else ParseFields(v, line, a)
  }

  /** The entry takes the place of the one with its name, or goes to the end. */
  function Upsert(entries: seq<CacheEntry>, e: CacheEntry): seq<CacheEntry> {
    if |entries| == 0 then [e]
    else if entries[0].normalizedName == e.normalizedName then [e] + entries[1..]
    else [entries[0]] + Upsert(entries[1..], e)
  }

  function UpsertAll(entries: seq<CacheEntry>, more: seq<CacheEntry>): seq<CacheEntry>
    decreases |more|
  {
    if |more| == 0 then entries else UpsertAll(Upsert(entries, more[0]), more[1..])
  }

  /** The entries on the lines that are accepted, in file order. */
  function Accepted(v: Version, lines: seq<string>): seq<CacheEntry> {
    if |lines| == 0 then []
    else
      var rest := Accepted(v, lines[1..]);
      match ParseLine(v, StripCr(lines[0]))
      case Some(e) => [e] + rest
      case None => rest
  }

  function Parse(bytes: string): Option<seq<CacheEntry>> {
    var lines := Lines(bytes);
    if bytes == "" || |lines| == 0 then None
    else match HeaderVersion(StripCr(lines[0]))
      case None => None
      case Some(v) => Some(UpsertAll([], Accepted(v, lines[1..])))
  }

  lemma {:induction false} UpsertAt(entries: seq<CacheEntry>, e: CacheEntry, k: nat)
    requires k <= |entries|
    requires forall i :: 0 <= i < k ==> entries[i].normalizedName != e.normalizedName
    requires k < |entries| ==> entries[k].normalizedName == e.normalizedName
    ensures Upsert(entries, e) == if k < |entries| then entries[k := e] else entries + [e]
  {
    if k > 0 {
      UpsertAt(entries[1..], e, k - 1);
      assert entries == [entries[0]] + entries[1..];
    }
  }

  method UpsertInPlace(entries: seq<CacheEntry>, e: CacheEntry) returns (updated: seq<CacheEntry>)
    ensures updated == Upsert(entries, e)
  {
    updated := entries;
    var k := 0;
    while k < |updated|
      invariant 0 <= k <= |updated| && updated == entries
      invariant forall i :: 0 <= i < k ==> entries[i].normalizedName != e.normalizedName
    {
      if updated[k].normalizedName == e.normalizedName {
        UpsertAt(entries, e, k);
        updated := updated[k := e];
        return;
      }
      k := k + 1;
    }
    UpsertAt(entries, e, k);
    updated := updated + [e];
  }

  method ParseCacheEntries(bytes: string) returns (ok: bool, entries: seq<CacheEntry>)
    ensures ok <==> Parse(bytes).Some?
    ensures entries == if ok then Parse(bytes).value else []
  {
    hide ParseLine;
    entries := [];
    if bytes == "" {
      return false, [];
    }
    var lineStart := 0;
    var lineEnd := Find(bytes, '\n', 0);
    LinesAt(bytes, 0);
    assert bytes[0..] == bytes;
    var version := HeaderVersion(StripCr(bytes[0..lineEnd]));
    if version.None? {
      return false, [];
    }
    lineStart := LineAfter(bytes, lineEnd);
    ghost var result := UpsertAll([], Accepted(version.value, Lines(bytes[lineStart..])));
    while lineStart < |bytes|
      invariant lineStart <= |bytes|
      invariant Remaining(version.value, bytes, lineStart, entries) == result
      decreases |bytes| - lineStart
    {
      lineEnd := Find(bytes, '\n', lineStart);
      RemainingStep(version.value, bytes, lineStart, entries);
      var parsed := ParseLine(version.value, StripCr(bytes[lineStart..lineEnd]));
      if parsed.Some? {
        entries := UpsertInPlace(entries, parsed.value);
      }
      lineStart := LineAfter(bytes, lineEnd);
    }
    return true, entries;
  }

  function LineAfter(bytes: string, lineEnd: nat): (start: nat)
    requires lineEnd <= |bytes|
    ensures lineEnd <= start <= |bytes| && (lineEnd < |bytes| ==> start == lineEnd + 1)
  {
    if lineEnd == |bytes| then |bytes| else lineEnd + 1
  }

  /** What the entries become once the lines from `start` on are taken in. */
  function Remaining(v: Version, bytes: string, start: nat, entries: seq<CacheEntry>): seq<CacheEntry>
    requires start <= |bytes|
  {
    UpsertAll(entries, Accepted(v, Lines(bytes[start..])))
  }

  lemma {:induction false} RemainingStep(v: Version, bytes: string, start: nat, entries: seq<CacheEntry>)
    requires start < |bytes|
    ensures var lineEnd := Find(bytes, '\n', start);
            var parsed := ParseLine(v, StripCr(bytes[start..lineEnd]));
            Remaining(v, bytes, start, entries) ==
            Remaining(v, bytes, LineAfter(bytes, lineEnd), if parsed.Some? then Upsert(entries, parsed.value) else entries)
  {
    hide ParseLine, Upsert;
    LinesAt(bytes, start);
    var lineEnd := Find(bytes, '\n', start);
    var lines := Lines(bytes[start..]);
    assert lines[1..] == Lines(bytes[LineAfter(bytes, lineEnd)..]);
  }

  /** The next line of a text that is read from `start` on. */
  lemma {:induction false} LinesAt(s: string, start: nat)
    requires start < |s|
    ensures var e := Find(s, '\n', start);
            Lines(s[start..]) == [s[start..e]] + Lines(s[LineAfter(s, e)..])
  {
    hide Lines;
    var e := Find(s, '\n', start);
    var line := s[start..e];
    assert '\n' !in line by {
      assert forall k :: 0 <= k < |line| ==> line[k] == s[start + k];
    }
    if e < |s| {
      assert s[start..] == line + ['\n'] + s[e + 1..];
      LinesCons(line, s[e + 1..]);
    } else {
      assert s[start..] == line;
      LinesSingle(line);
      LinesOfNothing(s[e..]);
    }
  }

  lemma LinesOfNothing(s: string)
    requires s == ""
    ensures Lines(s) == []
  {
  }

  // ---------- What a parse result is: an ordered map ----------

  function FirstIndex(a: seq<CacheEntry>, n: string): (i: nat)
    ensures i <= |a|
    ensures i < |a| ==> a[i].normalizedName == n
    ensures forall k :: 0 <= k < i ==> a[k].normalizedName != n
  {
    if |a| == 0 || a[0].normalizedName == n then 0 else 1 + FirstIndex(a[1..], n)
  }

  /** `r` holds each name of `a` once, at the rank of its first occurrence, with the contents of
      its last. */
  ghost predicate OrderedMapOf(a: seq<CacheEntry>, r: seq<CacheEntry>) {
    && (forall i :: 0 <= i < |r| ==> IsLastNamed(a, r[i]))
    && (forall k :: 0 <= k < |a| ==> HasName(r, a[k].normalizedName))
    && (forall i, j :: 0 <= i < j < |r| ==>
          FirstIndex(a, r[i].normalizedName) < FirstIndex(a, r[j].normalizedName))
  }

  ghost predicate IsLastNamed(a: seq<CacheEntry>, e: CacheEntry) {
    exists j :: 0 <= j < |a| && a[j] == e && LastOfItsName(a, j)
  }

  ghost predicate LastOfItsName(a: seq<CacheEntry>, j: nat)
    requires j < |a|
  {
    forall k :: j < k < |a| ==> a[k].normalizedName != a[j].normalizedName
  }

  ghost predicate HasName(r: seq<CacheEntry>, n: string) {
    exists i :: 0 <= i < |r| && r[i].normalizedName == n
  }

  ghost predicate UniqueNames(entries: seq<CacheEntry>) {
    forall i, j :: 0 <= i < j < |entries| ==> entries[i].normalizedName != entries[j].normalizedName
  }

  lemma {:induction false} FirstIndexSnoc(a: seq<CacheEntry>, e: CacheEntry, n: string)
    ensures FirstIndex(a + [e], n) ==
            if FirstIndex(a, n) < |a| then FirstIndex(a, n)
            else if e.normalizedName == n then |a| else |a| + 1
  {
    var b := a + [e];
    var i := FirstIndex(b, n);
    assert forall k :: 0 <= k < |a| ==> b[k] == a[k];
    assert b[|a|] == e;
  }

  lemma {:induction false} UpsertAllSnoc(entries: seq<CacheEntry>, more: seq<CacheEntry>, e: CacheEntry)
    ensures UpsertAll(entries, more + [e]) == Upsert(UpsertAll(entries, more), e)
    decreases |more|
  {
    if |more| == 0 {
      assert (more + [e])[1..] == [];
    } else {
      assert (more + [e])[1..] == more[1..] + [e];
      UpsertAllSnoc(Upsert(entries, more[0]), more[1..], e);
    }
  }

  lemma OrderedMapHasUniqueNames(a: seq<CacheEntry>, r: seq<CacheEntry>)
    requires OrderedMapOf(a, r)
    ensures UniqueNames(r)
  {
  }

  lemma {:induction false} LastNamedSnoc(a: seq<CacheEntry>, e: CacheEntry, x: CacheEntry)
    requires IsLastNamed(a, x) && x.normalizedName != e.normalizedName
    ensures IsLastNamed(a + [e], x)
  {
    var b := a + [e];
    var j :| 0 <= j < |a| && a[j] == x && LastOfItsName(a, j);
    assert b[j] == x && LastOfItsName(b, j);
  }

  lemma {:induction false} FirstIndexOfNamed(a: seq<CacheEntry>, x: CacheEntry)
    requires IsLastNamed(a, x)
    ensures FirstIndex(a, x.normalizedName) < |a|
  {
  }

  lemma {:induction false} LastNamedAfter(a: seq<CacheEntry>, r: seq<CacheEntry>, e: CacheEntry, i: nat)
    requires OrderedMapOf(a, r) && i < |Upsert(r, e)|
    ensures IsLastNamed(a + [e], Upsert(r, e)[i])
  {
    hide FirstIndex;
    var k := FirstIndex(r, e.normalizedName);
    UpsertAt(r, e, k);
    OrderedMapHasUniqueNames(a, r);
    var b := a + [e];
    assert b[|a|] == e && LastOfItsName(b, |a|);
    if i != k {
      LastNamedSnoc(a, e, r[i]);
    }
  }

  lemma {:induction false} NamedAfter(a: seq<CacheEntry>, r: seq<CacheEntry>, e: CacheEntry, m: nat)
    requires OrderedMapOf(a, r) && m <= |a|
    ensures HasName(Upsert(r, e), (a + [e])[m].normalizedName)
  {
    hide FirstIndex;
    var k := FirstIndex(r, e.normalizedName);
    UpsertAt(r, e, k);
    var b, q := a + [e], Upsert(r, e);
    if b[m].normalizedName == e.normalizedName {
      assert q[k].normalizedName == b[m].normalizedName;
    } else {
      var i :| 0 <= i < |r| && r[i].normalizedName == a[m].normalizedName;
      assert q[i].normalizedName == b[m].normalizedName;
    }
  }

  lemma {:induction false} OrderedMapSnoc(a: seq<CacheEntry>, r: seq<CacheEntry>, e: CacheEntry)
    requires OrderedMapOf(a, r)
    ensures OrderedMapOf(a + [e], Upsert(r, e))
  {
    RanksSnoc(a, r, e);
    var b, q := a + [e], Upsert(r, e);
    forall i | 0 <= i < |q| ensures IsLastNamed(b, q[i]) {
      LastNamedAfter(a, r, e, i);
    }
    forall m | 0 <= m < |b| ensures HasName(q, b[m].normalizedName) {
      NamedAfter(a, r, e, m);
    }
    hide FirstIndex, Upsert, IsLastNamed, HasName;
  }

  lemma {:induction false} RankSnoc(a: seq<CacheEntry>, r: seq<CacheEntry>, e: CacheEntry, i: nat)
    requires OrderedMapOf(a, r) && i < |Upsert(r, e)|
    ensures |r| <= |Upsert(r, e)| <= |r| + 1
    ensures FirstIndex(a + [e], Upsert(r, e)[i].normalizedName) ==
            if i < |r| then FirstIndex(a, r[i].normalizedName) else |a|
    ensures i < |r| ==> FirstIndex(a, r[i].normalizedName) < |a|
  {
    hide FirstIndex;
    UpsertAt(r, e, FirstIndex(r, e.normalizedName));
    FirstIndexSnoc(a, e, Upsert(r, e)[i].normalizedName);
    if i < |r| {
      FirstIndexOfNamed(a, r[i]);
    } else {
      AbsentNameIsNew(a, r, e.normalizedName);
    }
  }

  lemma {:induction false} RanksSnoc(a: seq<CacheEntry>, r: seq<CacheEntry>, e: CacheEntry)
    requires OrderedMapOf(a, r)
    ensures var q := Upsert(r, e);
            forall i, j :: 0 <= i < j < |q| ==>
              FirstIndex(a + [e], q[i].normalizedName) < FirstIndex(a + [e], q[j].normalizedName)
  {
    hide FirstIndex, Upsert;
    var q := Upsert(r, e);
    forall i, j | 0 <= i < j < |q|
      ensures FirstIndex(a + [e], q[i].normalizedName) < FirstIndex(a + [e], q[j].normalizedName)
    {
      RankSnoc(a, r, e, i);
      RankSnoc(a, r, e, j);
    }
  }

  lemma AbsentNameIsNew(a: seq<CacheEntry>, r: seq<CacheEntry>, n: string)
    requires OrderedMapOf(a, r) && FirstIndex(r, n) == |r|
    ensures FirstIndex(a, n) == |a|
  {
  }

  /** Whatever the lines are, the entries built from them are the accepted entries as an ordered
      map: first rank, last contents. */
  lemma {:induction false} EntriesAreAnOrderedMap(a: seq<CacheEntry>)
    ensures OrderedMapOf(a, UpsertAll([], a))
  {
    if |a| > 0 {
      var init, last := a[..|a| - 1], a[|a| - 1];
      assert a == init + [last];
      EntriesAreAnOrderedMap(init);
      UpsertAllSnoc([], init, last);
      OrderedMapSnoc(init, UpsertAll([], init), last);
    }
  }

  /** The same for a whole file: a parse result is the ordered map of its accepted lines. */
  lemma ParseIsAnOrderedMap(bytes: string)
    requires Parse(bytes).Some?
    ensures exists v, lines :: HeaderVersion(StripCr(Lines(bytes)[0])) == Some(v) && lines == Lines(bytes)[1..] &&
                               OrderedMapOf(Accepted(v, lines), Parse(bytes).value)
    ensures UniqueNames(Parse(bytes).value)
  {
    var v := HeaderVersion(StripCr(Lines(bytes)[0])).value;
    EntriesAreAnOrderedMap(Accepted(v, Lines(bytes)[1..]));
    OrderedMapHasUniqueNames(Accepted(v, Lines(bytes)[1..]), Parse(bytes).value);
  }

  lemma {:induction false} AcceptedConcat(v: Version, xs: seq<string>, ys: seq<string>)
    ensures Accepted(v, xs + ys) == Accepted(v, xs) + Accepted(v, ys)
  {
    hide ParseLine;
    if |xs| == 0 {
      assert xs + ys == ys;
    } else {
      assert (xs + ys)[1..] == xs[1..] + ys;
      AcceptedConcat(v, xs[1..], ys);
    }
  }

  predicate EndsLine(s: string) {
    s != "" && s[|s| - 1] == '\n'
  }

  lemma {:induction false} FirstLine(s: string) returns (line: string, tail: string)
    requires EndsLine(s)
    ensures s == line + ['\n'] + tail && '\n' !in line && (tail == "" || EndsLine(tail))
  {
    var e := Find(s, '\n', 0);
    line, tail := s[..e], s[e + 1..];
  }

  lemma {:induction false} LinesConcatStep(line: string, tail: string, rest: string)
    requires '\n' !in line && Lines(tail + rest) == Lines(tail) + Lines(rest)
    ensures Lines(line + ['\n'] + tail + rest) == Lines(line + ['\n'] + tail) + Lines(rest)
    ensures Lines(line + ['\n'] + tail) != []
  {
    hide Lines;
    LinesCons(line, tail);
    LinesCons(line, tail + rest);
    assert line + ['\n'] + tail + rest == line + ['\n'] + (tail + rest);
  }

  lemma {:induction false} LinesConcat(head: string, rest: string)
    requires EndsLine(head)
    ensures Lines(head + rest) == Lines(head) + Lines(rest) && Lines(head) != []
    decreases |head|
  {
    hide Lines, EndsLine;
    var line, tail := FirstLine(head);
    if tail == "" {
      LinesOfNothing(tail);
      assert tail + rest == rest;
    } else {
      LinesConcat(tail, rest);
    }
    LinesConcatStep(line, tail, rest);
  }

  lemma {:induction false} ParseOfLines(v: Version, bytes: string, first: string, more: seq<string>)
    requires bytes != "" && Lines(bytes) == [first] + more && HeaderVersion(StripCr(first)) == Some(v)
    ensures Parse(bytes) == Some(UpsertAll([], Accepted(v, more)))
  {
    hide Lines, Accepted, UpsertAll, HeaderVersion, StripCr;
    assert ([first] + more)[1..] == more;
  }

  lemma {:induction false} ParseBehind(v: Version, head: string, rest: string)
    requires EndsLine(head) && Lines(head) != [] && HeaderVersion(StripCr(Lines(head)[0])) == Some(v)
    ensures Parse(head + rest) ==
            Some(UpsertAll([], Accepted(v, Lines(head)[1..]) + Accepted(v, Lines(rest))))
  {
    hide Lines, Accepted, UpsertAll, HeaderVersion, StripCr, Parse;
    LinesConcat(head, rest);
    var first, front, back := Lines(head)[0], Lines(head)[1..], Lines(rest);
    AcceptedConcat(v, front, back);
    assert Lines(head) + back == [first] + (front + back);
    ParseOfLines(v, head + rest, first, front + back);
  }

  lemma {:induction false} RejectedLineIsSkipped(v: Version, line: string, rest: string)
    requires '\n' !in line && ParseLine(v, StripCr(line)).None?
    ensures Accepted(v, Lines(line + ['\n'] + rest)) == Accepted(v, Lines(rest))
    ensures Accepted(v, Lines(line)) == Accepted(v, Lines(""))
  {
    LinesCons(line, rest);
    LinesOfNothing("");
    if line != "" {
      LinesSingle(line);
    }
    hide Lines, ParseLine;
    assert ([line] + Lines(rest))[1..] == Lines(rest);
  }

  /** A rejected line can be deleted from a file, with its newline or as the last line without one,
      and the file parses to the same entries. */
  lemma {:induction false} RejectedLineIsInert(v: Version, head: string, line: string, rest: string)
    requires EndsLine(head) && Lines(head) != [] && HeaderVersion(StripCr(Lines(head)[0])) == Some(v)
    requires '\n' !in line && ParseLine(v, StripCr(line)).None?
    ensures Parse(head + (line + ['\n'] + rest)) == Parse(head + rest)
    ensures Parse(head + line) == Parse(head)
  {
    hide Parse, Lines, Accepted, HeaderVersion, ParseLine, UpsertAll, StripCr;
    RejectedLineIsSkipped(v, line, rest);
    ParseBehind(v, head, line + ['\n'] + rest);
    ParseBehind(v, head, rest);
    ParseBehind(v, head, line);
    ParseBehind(v, head, "");
    assert head + "" == head;
  }

  // ---------- Printing ----------

  /** A printed entry without its line ending. */
  function LineText(e: CacheEntry): string {
    e.name + "|" + ("0x" + HexDigits(e.mask, 8)) + "|" + Decimal(e.classId) + "|" + e.server
  }

  function PrintEntries(entries: seq<CacheEntry>): string {
    if |entries| == 0 then ""
    else if entries[0].name == "" || entries[0].normalizedName == "" then PrintEntries(entries[1..])
    else LineText(entries[0]) + "\r" + ['\n'] + PrintEntries(entries[1..])
  }

  /** The contents written for entries that are already in order. */
  function Print(entries: seq<CacheEntry>): string {
    HEADER_V3 + "\r" + ['\n'] + PrintEntries(entries)
  }

  predicate NoneOf(s: string, c: char) {
    forall k :: 0 <= k < |s| ==> s[k] != c
  }

  /** What the printer can put on one line without changing what the line means. */
  predicate Printable(e: CacheEntry) {
    && e.name != "" && NoneOf(e.name, '|') && NoneOf(e.name, '\n')
    && e.normalizedName == NormalizeName(e.name) && e.normalizedName != ""
    && e.classId < 256
    && NoneOf(e.server, '\n')
    && e.normalizedServer == NormalizeName(e.server)
  }

  /** Entries that lack a class id or a server, as versions 1 and 2 do, do not survive printing. */
  predicate Complete(e: CacheEntry) {
    e.classId != 0 && e.normalizedServer != ""
  }

  lemma {:induction false} MaskTextIsPlain(mask: uint32)
    ensures NoneOf("0x" + HexDigits(mask, 8), '|') && NoneOf("0x" + HexDigits(mask, 8), '\n')
  {
    var s := "0x" + HexDigits(mask, 8);
    forall k | 0 <= k < |s| ensures s[k] != '|' && s[k] != '\n' {
      if k >= 2 {
        assert s[k] == HexDigits(mask, 8)[k - 2];
      }
    }
  }

  /** The separators of a line are at these places, and these fields lie between them. */
  ghost predicate Fields(line: string, name: string, mask: string, id: string, server: string) {
    var a := Find(line, '|', 0);
    var b := a + 1 + |mask|;
    var c := b + 1 + |id|;
    && |line| == c + 1 + |server| && a == |name|
    && Find(line, '|', a + 1) == b && Find(line, '|', b + 1) == c
    && line[..a] == name && line[a + 1..b] == mask && line[b + 1..c] == id && line[c + 1..] == server
  }

  /** Where the parser finds the separators of four fields joined by them. */
  lemma {:induction false} JoinedFields(name: string, mask: string, id: string, server: string)
    requires NoneOf(name, '|') && NoneOf(mask, '|') && NoneOf(id, '|')
    ensures Fields(name + "|" + mask + "|" + id + "|" + server, name, mask, id, server)
  {
    hide Find, NoneOf;
    var line := name + "|" + mask + "|" + id + "|" + server;
    FieldTails(name, mask, id, server, "|");
    FirstField(line, name, mask + "|" + id + "|" + server);
    MiddleField(line, name, mask, id + "|" + server);
    MiddleField(line, name + "|" + mask, id, server);
  }

  lemma FieldTails(name: string, mask: string, id: string, server: string, bar: string)
    ensures var line := name + bar + mask + bar + id + bar + server;
            && line == name + bar + (mask + bar + id + bar + server)
            && line == name + bar + mask + bar + (id + bar + server)
  {
    var front, back := name + bar, id + bar + server;
    assert front + mask + bar + id + bar + server == front + mask + bar + back;
    assert mask + bar + id + bar + server == mask + bar + back;
    assert front + mask + bar + back == front + (mask + bar + back);
  }

  lemma {:induction false} FirstField(line: string, field: string, rest: string)
    requires line == field + "|" + rest && NoneOf(field, '|')
    ensures Find(line, '|', 0) == |field| && line[..|field|] == field
  {
    SeparatorAt(line, "", field, rest);
  }

  lemma {:induction false} MiddleField(line: string, front: string, field: string, rest: string)
    requires line == front + "|" + field + "|" + rest && NoneOf(field, '|')
    ensures Find(line, '|', |front| + 1) == |front| + 1 + |field|
    ensures line[|front| + 1..|front| + 1 + |field|] == field && line[|front| + 1 + |field| + 1..] == rest
  {
    SeparatorAt(line, front + "|", field, rest);
  }

  /** The separator behind a field that starts at the end of `front`. */
  lemma {:induction false} SeparatorAt(line: string, front: string, field: string, rest: string)
    requires line == front + field + "|" + rest && NoneOf(field, '|')
    ensures Find(line, '|', |front|) == |front| + |field|
    ensures line[|front|..|front| + |field|] == field && line[|front| + |field| + 1..] == rest
  {
    var before := front + field;
    forall k | |front| <= k < |before| ensures before[k] != '|' {
      assert before[k] == field[k - |front|];
    }
    FindSeparator(before, '|', rest, |front|);
    assert line == before + ['|'] + rest;
  }

  /** Four fields in order parse to an entry made of what each field parses to. */
  lemma {:induction false} FieldsParse(line: string, name: string, mask: string, id: string, server: string)
    requires Fields(line, name, mask, id, server)
    requires NormalizeName(name) != "" && HexField(mask).Some? && 0 <= Atoi(id) <= 255
    ensures ParseLine(V3, line) ==
            if Atoi(id) == 0 || NormalizeName(server) == "" then None
            else Some(CacheEntry(name, NormalizeName(name), HexField(mask).value, Atoi(id), server, NormalizeName(server)))
  {
    hide Atoi, HexField, Find, NormalizeName;
    EmptyFields(name, mask, id, server);
  }

  lemma {:induction false} EmptyFields(name: string, mask: string, id: string, server: string)
    ensures NormalizeName("") == "" && HexField("").None? && Atoi("") == 0
    ensures name == "" ==> NormalizeName(name) == ""
    ensures mask == "" ==> HexField(mask).None?
    ensures id == "" ==> Atoi(id) == 0
    ensures server == "" ==> NormalizeName(server) == ""
  {
  }

  /** A printed line parses back to its entry, or is rejected when the entry is incomplete. */
  lemma {:induction false} PrintedLineParses(e: CacheEntry)
    requires Printable(e)
    ensures ParseLine(V3, LineText(e)) == if Complete(e) then Some(e) else None
  {
    var maskText, idText := "0x" + HexDigits(e.mask, 8), Decimal(e.classId);
    MaskTextIsPlain(e.mask);
    HexFieldOfMask(e.mask);
    AtoiOfDecimal(e.classId);
    hide Atoi, Decimal, HexDigits, HexField, ParseLine, NormalizeName, Fields;
    JoinedFields(e.name, maskText, idText, e.server);
    FieldsParse(LineText(e), e.name, maskText, idText, e.server);
  }

  lemma {:induction false} PrintedLineIsOneLine(e: CacheEntry)
    requires Printable(e)
    ensures '\n' !in LineText(e) + "\r" && StripCr(LineText(e) + "\r") == LineText(e)
  {
    hide HexDigits, Decimal;
    MaskTextIsPlain(e.mask);
    var maskText, idText := "0x" + HexDigits(e.mask, 8), Decimal(e.classId);
    assert NoneOf(idText, '\n');
    assert '\n' !in e.name && '\n' !in maskText && '\n' !in idText && '\n' !in e.server;
  }

  function CompleteOnes(entries: seq<CacheEntry>): seq<CacheEntry> {
    if |entries| == 0 then []
    else if Complete(entries[0]) then [entries[0]] + CompleteOnes(entries[1..])
    else CompleteOnes(entries[1..])
  }

  lemma {:induction false} PrintedEntriesAreAccepted(entries: seq<CacheEntry>)
    requires forall k :: 0 <= k < |entries| ==> Printable(entries[k])
    ensures Accepted(V3, Lines(PrintEntries(entries))) == CompleteOnes(entries)
  {
    if |entries| > 0 {
      hide LineText, ParseLine;
      var e := entries[0];
      PrintedEntriesAreAccepted(entries[1..]);
      PrintedLineIsOneLine(e);
      LinesCons(LineText(e) + "\r", PrintEntries(entries[1..]));
      PrintedLineParses(e);
    }
  }

  /** A file that starts with a header line. */
  lemma {:induction false} ParseWithHeader(v: Version, header: string, rest: string)
    requires HeaderVersion(header) == Some(v) && '\n' !in header
    ensures var bytes := header + "\r" + ['\n'] + rest;
            && Lines(bytes) == [header + "\r"] + Lines(rest) && StripCr(header + "\r") == header
            && Parse(bytes) == Some(UpsertAll([], Accepted(v, Lines(rest))))
  {
    hide HeaderVersion, Accepted, UpsertAll, Lines;
    LinesCons(header + "\r", rest);
    assert (header + "\r")[..|header|] == header;
    var lines := Lines(header + "\r" + ['\n'] + rest);
    assert lines[1..] == Lines(rest);
  }

  /** Printing and parsing: exactly the complete entries come back, merged by name. */
  lemma {:induction false} ParseOfPrint(entries: seq<CacheEntry>)
    requires forall k :: 0 <= k < |entries| ==> Printable(entries[k])
    ensures Parse(Print(entries)) == Some(UpsertAll([], CompleteOnes(entries)))
  {
    hide PrintEntries, Accepted, Lines, Parse, UpsertAll, Printable;
    PrintedEntriesAreAccepted(entries);
    ParseWithHeader(V3, HEADER_V3, PrintEntries(entries));
  }

  lemma {:induction false} ParsedEntryIsPrintable(v: Version, line: string)
    requires '\n' !in line && ParseLine(v, line).Some?
    ensures Printable(ParseLine(v, line).value)
  {
    hide Find, HexField, Atoi;
    var a := Find(line, '|', 0);
    assert line[..a][0] == line[0];
  }

  lemma {:induction false} AcceptedArePrintable(v: Version, lines: seq<string>)
    requires forall k :: 0 <= k < |lines| ==> '\n' !in lines[k]
    ensures forall k :: 0 <= k < |Accepted(v, lines)| ==> Printable(Accepted(v, lines)[k])
  {
    hide ParseLine, Printable;
    if |lines| > 0 {
      AcceptedArePrintable(v, lines[1..]);
      if ParseLine(v, StripCr(lines[0])).Some? {
        ParsedEntryIsPrintable(v, StripCr(lines[0]));
      }
    }
  }

  /** Everything read from a file can be written again. */
  lemma {:induction false} ParsedEntriesArePrintable(bytes: string)
    requires Parse(bytes).Some?
    ensures forall k :: 0 <= k < |Parse(bytes).value| ==> Printable(Parse(bytes).value[k])
  {
    hide Printable, ParseLine, Accepted;
    var v := HeaderVersion(StripCr(Lines(bytes)[0])).value;
    LinesHaveNoNewline(bytes);
    AcceptedArePrintable(v, Lines(bytes)[1..]);
    EntriesAreAnOrderedMap(Accepted(v, Lines(bytes)[1..]));
    var r := Parse(bytes).value;
    forall k | 0 <= k < |r| ensures Printable(r[k]) {
      assert IsLastNamed(Accepted(v, Lines(bytes)[1..]), r[k]);
    }
  }
}
