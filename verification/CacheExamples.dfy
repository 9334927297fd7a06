/** Two files that show what stores can lose: one with a name used on two servers, one of version 1. */
module CacheExamples {
  import opened Wire
  import opened CacheText
  import opened CacheFormat
  import opened MulticlassCache
  import opened CacheRuns

  lemma {:induction false} ShortNames()
    ensures NormalizeName("a") == "a" && NormalizeName("b") == "b"
    ensures NormalizeName("x") == "x" && NormalizeName("y") == "y"
    ensures Decimal(0) == "0" && Decimal(1) == "1"
  {
  }

  predicate Short(e: CacheEntry) {
    |e.name| <= 1 && |e.server| <= 1 && e.classId <= 1
  }

  lemma {:induction false} ShortFile(entries: seq<CacheEntry>)
    requires forall k {:trigger entries[k]} :: 0 <= k < |entries| ==> Short(entries[k])
    ensures |PrintEntries(entries)| <= 100 * |entries|
  {
    if |entries| > 0 {
      ShortLine(entries[0]);
      hide LineText;
      ShortFile(entries[1..]);
    }
  }

  lemma {:induction false} ShortLine(e: CacheEntry)
    requires Short(e)
    ensures |LineText(e)| <= 98
  {
    ShortNames();
    assert e.classId == 0 || e.classId == 1;
    hide Decimal, HexDigits;
  }

  lemma {:induction false} SmallPrint(entries: seq<CacheEntry>)
    requires |entries| <= 2 && forall k {:trigger entries[k]} :: 0 <= k < |entries| ==> Short(entries[k])
    ensures |Print(entries)| <= MAX_FILE_BYTES
  {
    ShortFile(entries);
    hide PrintEntries;
  }

  /** Two stores of one name on two servers, each small enough. */
  predicate TwoServers(first: StoreCall, second: StoreCall) {
    && Writable(first) && Writable(second) && Complete(NewEntry(first))
    && NormalizeName(first.name) == NormalizeName(second.name)
    && NormalizeName(first.server) != NormalizeName(second.server)
    && Short(NewEntry(first)) && Short(NewEntry(second))
  }

  /** The file holds the first store. The second goes through, and the name is still found on the
      first server only. */
  lemma {:induction false} SecondServerLost(first: StoreCall, second: StoreCall)
      returns (before: Option<string>, after: Option<string>)
    requires TwoServers(first, second)
    ensures before == Some(Print([NewEntry(first)])) && Effective(second) && StoreStep(before, second, after)
    ensures EntryFor(Entries(before), NormalizeName(first.name)) == Some(NewEntry(first))
    ensures EntryFor(Entries(after), NormalizeName(first.name)) == Some(NewEntry(first))
    ensures LookupMask(Entries(after), NormalizeName(second.name), 0, NormalizeName(second.server)).None?
  {
    var was, e := NewEntry(first), NewEntry(second);
    before := Some(Print([was]));
    NewEntryIsPrintable(first);
    RoundTrip([was]);
    SmallPrint([was]);
    SmallPrint([was, e]);
    ReadBack([was]);
    UpdatedAt([was], e, 1);
    OnlyEntry(was);
    OtherServerIs(before, second, was);
    hide Print, Entries, Updated, PrintEntries, EntryFor, StoreStep, NormalizeName, Short, OtherServer;
    assert Updated([was], e) == [was, e];
    after := OldLineMayWin(before, second);
    ServerNamed(first, second);
  }

  lemma {:induction false} OtherServerIs(before: Option<string>, call: StoreCall, was: CacheEntry)
    requires EntryFor(Entries(before), NormalizeName(call.name)) == Some(was) && Complete(was)
    ensures OtherServer(before, call) <==> was.normalizedServer != NormalizeName(call.server)
    ensures Kept(EntryFor(Entries(before), NormalizeName(call.name))) == Some(was)
  {
  }

  lemma {:induction false} ServerNamed(first: StoreCall, second: StoreCall)
    requires TwoServers(first, second)
    ensures NormalizeName(second.server) != "" && Effective(second)
  {
  }

  /** Character "a" on server "x", then on server "y". */
  lemma {:induction false} TwoServersExample() returns (first: StoreCall, second: StoreCall)
    ensures first == StoreCall("a", 1, 1, "x") && second == StoreCall("a", 2, 1, "y") && TwoServers(first, second)
  {
    ShortNames();
    first, second := StoreCall("a", 1, 1, "x"), StoreCall("a", 2, 1, "y");
    hide NormalizeName;
  }

  lemma {:induction false} OnlyEntry(e: CacheEntry)
    ensures EntryFor([e], e.normalizedName) == Some(e)
    ensures forall n :: n != e.normalizedName ==> EntryFor([e], n) == None
  {
    assert [e][0] == e;
  }

  // ---------- A version 1 file ----------

  function VersionOneLine(name: string, mask: uint32): string {
    name + "|" + ("0x" + HexDigits(mask, 8))
  }

  function VersionOneFile(name: string, mask: uint32): string {
    HEADER_V1 + "\r" + ['\n'] + (VersionOneLine(name, mask) + "\r" + ['\n'] + "")
  }

  lemma {:induction false} VersionOneLineParses(name: string, mask: uint32)
    requires NormalizeName(name) != "" && NoneOf(name, '|')
    ensures ParseLine(V1, VersionOneLine(name, mask)) == Some(CacheEntry(name, NormalizeName(name), mask, 0, "", ""))
  {
    var text, line := "0x" + HexDigits(mask, 8), VersionOneLine(name, mask);
    FindSeparator(name, '|', text, 0);
    HexFieldOfMask(mask);
    hide HexDigits, HexField, Find, NormalizeName;
    assert line == name + ['|'] + text;
    assert line[..|name|] == name && line[|name| + 1..|line|] == text;
  }

  lemma {:induction false} VersionOneFileParses(name: string, mask: uint32)
    requires NormalizeName(name) != "" && NoneOf(name, '|') && NoneOf(name, '\n')
    ensures var bytes := VersionOneFile(name, mask);
            && Lines(bytes) != [] && HeaderVersion(StripCr(Lines(bytes)[0])) == Some(V1)
            && Parse(bytes) == Some([CacheEntry(name, NormalizeName(name), mask, 0, "", "")])
  {
    hide Lines, Accepted, VersionOneLine, HexDigits, UpsertAll, NormalizeName, Parse, HeaderVersion, StripCr, ParseLine;
    var line, e := VersionOneLine(name, mask), CacheEntry(name, NormalizeName(name), mask, 0, "", "");
    VersionOneLineParses(name, mask);
    VersionOneLineIsOneLine(name, mask);
    OneEntry(e);
    OneLineAccepted(line, e);
    HeaderOne();
    ParseWithHeader(V1, HEADER_V1, line + "\r" + ['\n'] + "");
  }

  lemma {:induction false} HeaderOne()
    ensures HeaderVersion(HEADER_V1) == Some(V1) && '\n' !in HEADER_V1
  {
  }

  lemma {:induction false} VersionOneLineIsOneLine(name: string, mask: uint32)
    requires NoneOf(name, '\n')
    ensures '\n' !in VersionOneLine(name, mask)
  {
    MaskTextIsPlain(mask);
    hide HexDigits;
    assert '\n' !in name && '\n' !in "0x" + HexDigits(mask, 8);
  }

  lemma {:induction false} OneEntry(e: CacheEntry)
    ensures UpsertAll([], [e]) == [e]
  {
    UniqueUpsertAppends([], [e]);
    assert [] + [e] == [e];
  }

  lemma {:induction false} OneLineAccepted(line: string, e: CacheEntry)
    requires '\n' !in line && ParseLine(V1, line) == Some(e)
    ensures Accepted(V1, Lines(line + "\r" + ['\n'] + "")) == [e]
  {
    LinesOfNothing("");
    LinesCons(line + "\r", "");
    hide ParseLine, Lines;
    assert (line + "\r")[..|line|] == line;
  }

  /** A version 1 file with one character and a store of another one. */
  predicate AnotherName(name: string, mask: uint32, call: StoreCall) {
    && NormalizeName(name) != "" && NoneOf(name, '|') && NoneOf(name, '\n')
    && Writable(call) && Effective(call) && Complete(NewEntry(call))
    && NormalizeName(call.name) != NormalizeName(name)
    && Short(VersionOneEntry(name, mask)) && Short(NewEntry(call))
  }

  function VersionOneEntry(name: string, mask: uint32): CacheEntry {
    CacheEntry(name, NormalizeName(name), mask, 0, "", "")
  }

  /** The file answers for its character; the store goes through; then the stored name is found and
      the other one is not. */
  lemma {:induction false} UpgradeLosesIt(name: string, mask: uint32, call: StoreCall)
      returns (before: Option<string>, after: Option<string>)
    requires AnotherName(name, mask, call)
    ensures before == Some(VersionOneFile(name, mask)) && StoreStep(before, call, after)
    ensures EntryFor(Entries(before), NormalizeName(name)) == Some(VersionOneEntry(name, mask))
    ensures EntryFor(Entries(after), NormalizeName(name)) == None
    ensures EntryFor(Entries(after), NormalizeName(call.name)) == Some(NewEntry(call))
  {
    hide VersionOneFile, Parse, Print, Updated, EntryFor, Entries, StoreStep, Lines, NormalizeName, Short, OtherServer,
         ReadFile, HeaderVersion, StripCr, Fits, Writable, Complete;
    before := Some(VersionOneFile(name, mask));
    VersionOneHolds(name, mask, call);
    after := StoreHasOutcome(before, call);
    OutcomeSize(before, call, after);
    UpgradeLosesOtherNames(before, call, after, NormalizeName(name));
    StoredNameIsReplaced(before, call, after);
  }

  /** All there is to know of the file and the call. */
  lemma {:induction false} VersionOneHolds(name: string, mask: uint32, call: StoreCall)
    requires AnotherName(name, mask, call)
    ensures var before := Some(VersionOneFile(name, mask));
            && ReadFile(before).Some? && Lines(before.value) != []
            && HeaderVersion(StripCr(Lines(before.value)[0])) == Some(V1)
            && EntryFor(Entries(before), NormalizeName(name)) == Some(VersionOneEntry(name, mask))
            && !OtherServer(before, call) && Fits(before, call) && Writable(call) && Effective(call)
            && Complete(NewEntry(call)) && NormalizeName(call.name) != NormalizeName(name)
  {
    hide VersionOneFile, Parse, Print, Updated, EntryFor, Entries, Lines, NormalizeName, Short, OtherServer, ReadFile,
         HeaderVersion, StripCr, NoneOf, Writable, Fits;
    var before, was := Some(VersionOneFile(name, mask)), VersionOneEntry(name, mask);
    VersionOneFileParses(name, mask);
    SmallVersionOneFile(name, mask);
    VersionOneReads(before, was);
    OnlyEntry(was);
    NoOtherServer(before, call, was);
    SmallStoreFits(before, call, was);
  }

  lemma {:induction false} SmallStoreFits(before: Option<string>, call: StoreCall, was: CacheEntry)
    requires Entries(before) == [was] && was.normalizedName != NormalizeName(call.name)
    requires Short(was) && Short(NewEntry(call))
    ensures Fits(before, call)
  {
    hide Print, Entries, NormalizeName, Short;
    var e := NewEntry(call);
    assert Updated([was], e) == [was, e] by {
      UpdatedAt([was], e, 1);
    }
    hide Updated;
    SmallPrint([was, e]);
  }

  lemma {:induction false} SmallVersionOneFile(name: string, mask: uint32)
    requires Short(VersionOneEntry(name, mask))
    ensures |VersionOneFile(name, mask)| <= MAX_FILE_BYTES
  {
    hide HexDigits;
  }

  lemma {:induction false} VersionOneReads(before: Option<string>, was: CacheEntry)
    requires before.Some? && |before.value| <= MAX_FILE_BYTES && Parse(before.value) == Some([was])
    ensures ReadFile(before) == Some([was]) && Entries(before) == [was]
  {
  }

  lemma {:induction false} NoOtherServer(before: Option<string>, call: StoreCall, was: CacheEntry)
    requires Entries(before) == [was] && was.normalizedName != NormalizeName(call.name)
    ensures !OtherServer(before, call)
  {
    OnlyEntry(was);
  }

  /** Character "a" in a version 1 file, and a store of "b". */
  lemma {:induction false} AnotherNameExample() returns (call: StoreCall)
    ensures call == StoreCall("b", 2, 1, "x") && AnotherName("a", 1, call)
  {
    ShortNames();
    call := StoreCall("b", 2, 1, "x");
    hide NormalizeName;
  }

  /** A version 1 file answers for its character, in any case, whatever class is expected, as long as
      no server is; and for nobody else. */
  lemma {:induction false} VersionOneAnswers(name: CString, mask: uint32, asked: CString, classId: uint32, server: CString)
    requires name != "" && NoneOf(name, '|') && NoneOf(name, '\n') && |VersionOneFile(name, mask)| <= 0x1_0000
    ensures LookupMask(Entries(Some(VersionOneFile(name, mask))), NormalizeName(asked), classId, NormalizeName(server)) ==
            if SameName(asked, name) && server == "" then Some(mask) else None
  {
    assert name[0] in name;
    assert server != "" ==> server[0] in server;
    OneKeyIffSameName(asked, name);
    VersionOneFileParses(name, mask);
    VersionOneReads(Some(VersionOneFile(name, mask)), VersionOneEntry(name, mask));
    OnlyEntry(VersionOneEntry(name, mask));
    hide VersionOneFile, Entries, NormalizeName, SameName, EntryFor;
  }

  // ---------- A printed file, byte for byte ----------

  /** A file with one entry. */
  lemma {:induction false} PrintedFile(e: CacheEntry)
    requires e.name != "" && e.normalizedName != ""
    ensures Print([e]) ==
            "MONOMYTH_MULTICLASS_CACHE_V3\r\n" +
            e.name + "|0x" + HexDigits(e.mask, 8) + "|" + Decimal(e.classId) + "|" + e.server + "\r\n"
  {
    hide HexDigits, Decimal;
    assert PrintEntries([e]) == LineText(e) + "\r" + ['\n'] + "";
  }

  lemma {:induction false} DecimalTexts()
    ensures Decimal(7) == "7" && Decimal(16) == "16" && Decimal(255) == "255"
  {
  }
}
