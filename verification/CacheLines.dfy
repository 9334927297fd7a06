/** What a line of a cache file says: exactly which lines are accepted, in each version, and as
    which entries. */
module CacheLines {
  import opened Wire
  import opened CacheText
  import opened CacheFormat

  datatype Parts = Parts(name: string, mask: string, classId: string, server: string)

  /** The parts a version has, with their separators. */
  function Joined(v: Version, f: Parts): string {
    match v
    case V1 => f.name + "|" + f.mask
    case V2 => f.name + "|" + f.mask + "|" + f.classId
    case V3 => f.name + "|" + f.mask + "|" + f.classId + "|" + f.server
  }

  /** All parts but the last are free of separators. */
  predicate Separated(v: Version, f: Parts) {
    NoneOf(f.name, '|') && (v != V1 ==> NoneOf(f.mask, '|')) && (v == V3 ==> NoneOf(f.classId, '|'))
  }

  /** The name and the server are not empty, the mask is a 32-bit hexadecimal number and the class
      id is 1 to 255. */
  predicate Sensible(v: Version, f: Parts) {
    && NormalizeName(f.name) != "" && HexField(f.mask).Some?
    && (v != V1 ==> 1 <= Atoi(f.classId) <= 255)
    && (v == V3 ==> NormalizeName(f.server) != "")
  }

  function EntryOf(v: Version, f: Parts): CacheEntry
    requires Sensible(v, f)
  {
    var name, mask := NormalizeName(f.name), HexField(f.mask).value;
    match v
    case V1 => CacheEntry(f.name, name, mask, 0, "", "")
    case V2 => CacheEntry(f.name, name, mask, Atoi(f.classId), "", "")
    case V3 => CacheEntry(f.name, name, mask, Atoi(f.classId), f.server, NormalizeName(f.server))
  }

  /** The parser finds the separators between the parts. */
  ghost predicate FoundIn(v: Version, line: string, f: Parts) {
    var a := Find(line, '|', 0);
    var b := a + 1 + |f.mask|;
    && a == |f.name| < |line| && line[..a] == f.name && b <= |line| && line[a + 1..b] == f.mask
    && match v
       case V1 => b == |line|
       case V2 => Find(line, '|', a + 1) == b < |line| && line[b + 1..] == f.classId
       case V3 => Fields(line, f.name, f.mask, f.classId, f.server)
  }

  lemma {:induction false} JoinedIsFound(v: Version, f: Parts)
    requires Separated(v, f)
    ensures FoundIn(v, Joined(v, f), f)
  {
    hide Find, NoneOf;
    var line := Joined(v, f);
    match v
    case V1 => FirstField(line, f.name, f.mask);
    case V2 =>
      assert line == f.name + "|" + (f.mask + "|" + f.classId);
      FirstField(line, f.name, f.mask + "|" + f.classId);
      MiddleField(line, f.name, f.mask, f.classId);
    case V3 => JoinedFields(f.name, f.mask, f.classId, f.server);
  }

  lemma {:induction false} FirstVersionParses(line: string, f: Parts)
    requires FoundIn(V1, line, f)
    ensures ParseLine(V1, line) == if Sensible(V1, f) then Some(EntryOf(V1, f)) else None
  {
    hide Atoi, HexField, Find, NormalizeName;
    EmptyFields(f.name, f.mask, f.classId, f.server);
  }

  lemma {:induction false} SecondVersionParses(line: string, f: Parts)
    requires FoundIn(V2, line, f)
    ensures ParseLine(V2, line) == if Sensible(V2, f) then Some(EntryOf(V2, f)) else None
  {
    hide Atoi, HexField, Find, NormalizeName;
    EmptyFields(f.name, f.mask, f.classId, f.server);
    assert line[|f.name| + 1 + |f.mask| + 1..|line|] == f.classId;
  }

  lemma {:induction false} ThirdVersionParses(line: string, f: Parts)
    requires FoundIn(V3, line, f)
    ensures ParseLine(V3, line) == if Sensible(V3, f) then Some(EntryOf(V3, f)) else None
  {
    hide Atoi, HexField, Find, NormalizeName;
    EmptyFields(f.name, f.mask, f.classId, f.server);
  }

  lemma {:induction false} FoundPartsParse(v: Version, line: string, f: Parts)
    requires FoundIn(v, line, f)
    ensures ParseLine(v, line) == if Sensible(v, f) then Some(EntryOf(v, f)) else None
  {
    hide ParseLine, Sensible, EntryOf, FoundIn;
    match v
    case V1 => FirstVersionParses(line, f);
    case V2 => SecondVersionParses(line, f);
    case V3 => ThirdVersionParses(line, f);
  }

  lemma {:induction false} PartEnds(line: string, a: nat, b: nat)
    requires a < b <= |line| && line[a] == '|'
    ensures line[..b] == line[..a] + "|" + line[a + 1..b]
  {
  }

  lemma {:induction false} PartIsPlain(line: string, start: nat, part: string)
    requires start + |part| <= |line| && line[start..start + |part|] == part
    requires Find(line, '|', start) >= start + |part|
    ensures NoneOf(part, '|')
  {
    forall k | 0 <= k < |part| ensures part[k] != '|' {
      assert part[k] == line[start + k];
    }
  }

  lemma {:induction false} NameEnds(v: Version, line: string, f: Parts)
    requires FoundIn(v, line, f)
    ensures NoneOf(f.name, '|') && line[..|f.name| + 1 + |f.mask|] == f.name + "|" + f.mask
  {
    hide Find, NoneOf;
    assert line[0..0 + |f.name|] == line[..|f.name|];
    PartIsPlain(line, 0, f.name);
    PartEnds(line, |f.name|, |f.name| + 1 + |f.mask|);
  }

  lemma {:induction false} MaskEnds(v: Version, line: string, f: Parts)
    requires FoundIn(v, line, f) && v != V1
    ensures NoneOf(f.mask, '|') && |f.name| + 1 + |f.mask| < |line| && line[|f.name| + 1 + |f.mask|] == '|'
  {
    hide Find, NoneOf;
    PartIsPlain(line, |f.name| + 1, f.mask);
  }

  lemma {:induction false} ClassIdEnds(line: string, f: Parts)
    requires FoundIn(V3, line, f)
    ensures var b := |f.name| + 1 + |f.mask|;
            var c := b + 1 + |f.classId|;
            && NoneOf(f.classId, '|') && c < |line| && line[c] == '|'
            && line[b + 1..c] == f.classId && line[c + 1..|line|] == f.server
  {
    hide Find, NoneOf;
    PartIsPlain(line, |f.name| + 1 + |f.mask| + 1, f.classId);
  }

  lemma {:induction false} FoundPartsJoin(v: Version, line: string, f: Parts)
    requires FoundIn(v, line, f)
    ensures Separated(v, f) && line == Joined(v, f)
  {
    NameEnds(v, line, f);
    var b := |f.name| + 1 + |f.mask|;
    assert line[..|line|] == line;
    if v != V1 {
      MaskEnds(v, line, f);
      if v == V3 {
        ClassIdEnds(line, f);
      }
      hide Fields, Find, NoneOf, FoundIn;
      if v == V3 {
        PartEnds(line, b, b + 1 + |f.classId|);
        PartEnds(line, b + 1 + |f.classId|, |line|);
      } else {
        SecondIsLast(line, f);
        PartEnds(line, b, |line|);
      }
    }
  }

  lemma {:induction false} SecondIsLast(line: string, f: Parts)
    requires FoundIn(V2, line, f)
    ensures line[|f.name| + 1 + |f.mask| + 1..|line|] == f.classId
  {
    hide Find;
  }

  /** The parts of a line that the parser accepts. */
  lemma {:induction false} AcceptedHasParts(v: Version, line: string) returns (f: Parts)
    requires ParseLine(v, line).Some?
    ensures FoundIn(v, line, f)
  {
    hide Atoi, HexField, NormalizeName, Find;
    var a := Find(line, '|', 0);
    var rest := line[a + 1..];
    match v
    case V1 =>
      f := Parts(line[..a], rest, "", "");
      assert line[a + 1..|line|] == rest;
    case V2 =>
      var b := Find(line, '|', a + 1);
      f := Parts(line[..a], line[a + 1..b], line[b + 1..], "");
    case V3 =>
      f := AcceptedThirdVersion(line);
  }

  lemma {:induction false} AcceptedThirdVersion(line: string) returns (f: Parts)
    requires ParseLine(V3, line).Some?
    ensures FoundIn(V3, line, f)
  {
    hide Atoi, HexField, NormalizeName, Find;
    var a := Find(line, '|', 0);
    var b := Find(line, '|', a + 1);
    var c := Find(line, '|', b + 1);
    f := Parts(line[..a], line[a + 1..b], line[b + 1..c], line[c + 1..]);
  }

  /** A line is accepted as an entry if and only if it is the joined parts of a sensible one: name
      and mask in version 1, a class id behind them in version 2, a server behind it in version 3. */
  lemma {:induction false} ParseLineIff(v: Version, line: string, e: CacheEntry)
    ensures ParseLine(v, line) == Some(e) <==>
              exists f :: line == Joined(v, f) && Separated(v, f) && Sensible(v, f) && e == EntryOf(v, f)
  {
    hide ParseLine, FoundIn, Separated, Sensible, Joined;
    if ParseLine(v, line) == Some(e) {
      var f := AcceptedHasParts(v, line);
      FoundPartsParse(v, line, f);
      FoundPartsJoin(v, line, f);
    }
    if f :| line == Joined(v, f) && Separated(v, f) && Sensible(v, f) && e == EntryOf(v, f) {
      JoinedIsFound(v, f);
      FoundPartsParse(v, line, f);
    }
  }

  /** The three headers, told apart by their last character. */
  lemma {:induction false} ThreeHeaders(header: string)
    ensures HeaderVersion(header).Some? <==>
              exists c :: c in ['1', '2', '3'] && header == "MONOMYTH_MULTICLASS_CACHE_V" + [c]
    ensures HeaderVersion(header) == Some(V1) ==> header[|header| - 1] == '1'
    ensures HeaderVersion(header) == Some(V2) ==> header[|header| - 1] == '2'
    ensures HeaderVersion(header) == Some(V3) ==> header[|header| - 1] == '3'
  {
    var stem := "MONOMYTH_MULTICLASS_CACHE_V";
    assert HEADER_V1 == stem + ['1'] && HEADER_V2 == stem + ['2'] && HEADER_V3 == stem + ['3'];
    assert forall c: char :: c in ['1', '2', '3'] <==> c == '1' || c == '2' || c == '3';
  }
}
