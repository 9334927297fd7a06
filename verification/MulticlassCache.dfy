/**
 The store and lookup operations on the class-mask cache file. The file is a string of bytes or
 absent; replacing it is one atomic assignment that may fail. The lock that serialises the
 operations makes each of them one step.
*/
module MulticlassCache {
  import opened Wire
  import opened CacheText
  import opened CacheFormat
  import opened ClassMask
  import opened Sorting

  const MAX_FILE_BYTES := 0x1_0000

  // ---------- The order of the written file ----------

  /** Byte-wise lexicographic order. */
  predicate Before(a: string, b: string) {
    if b == "" then false
    else if a == "" then true
    else a[0] < b[0] || (a[0] == b[0] && Before(a[1..], b[1..]))
  }

  lemma {:induction false} BeforeIsTransitive(a: string, b: string, c: string)
    requires !Before(b, a) && !Before(c, b)
    ensures !Before(c, a)
  {
    if a != "" && b != "" && c != "" && a[0] == b[0] == c[0] {
      BeforeIsTransitive(a[1..], b[1..], c[1..]);
    }
  }

  lemma {:induction false} BeforeIsTotal(a: string, b: string)
    ensures Before(a, b) || Before(b, a) || a == b
    ensures !(Before(a, b) && Before(b, a))
  {
    if a != "" && b != "" && a[0] == b[0] {
      BeforeIsTotal(a[1..], b[1..]);
      assert a == [a[0]] + a[1..] && b == [b[0]] + b[1..];
    }
  }

  /** The first difference decides; a proper prefix comes first. */
  lemma {:induction false} BeforeIsLexicographic(a: string, b: string)
    ensures Before(a, b) <==>
              exists k: nat :: k <= |a| && k < |b| && a[..k] == b[..k] && (k == |a| || a[k] < b[k])
  {
    if a != "" && b != "" && a[0] == b[0] {
      BeforeIsLexicographic(a[1..], b[1..]);
      if Before(a, b) {
        var j: nat :| j <= |a| - 1 && j < |b| - 1 && a[1..][..j] == b[1..][..j] && (j == |a| - 1 || a[1..][j] < b[1..][j]);
        assert a[..j + 1] == [a[0]] + a[1..][..j] && b[..j + 1] == [b[0]] + b[1..][..j];
      }
      if k: nat :| k <= |a| && k < |b| && a[..k] == b[..k] && (k == |a| || a[k] < b[k]) {
        assert k > 0;
        assert a[1..][..k - 1] == a[..k][1..] && b[1..][..k - 1] == b[..k][1..];
      }
    } else if b != "" && Before(a, b) {
      assert a[..0] == b[..0];
    }
  }

  predicate NameBefore(x: CacheEntry, y: CacheEntry) {
    Before(x.normalizedName, y.normalizedName)
  }

  lemma {:induction false} NamesAreOrdered()
    ensures IsOrder(NameBefore)
  {
    forall a: CacheEntry, b: CacheEntry ensures NameBefore(a, b) ==> !NameBefore(b, a) {
      BeforeIsTotal(a.normalizedName, b.normalizedName);
    }
    forall a: CacheEntry, b: CacheEntry, c: CacheEntry | !NameBefore(b, a) && !NameBefore(c, b)
      ensures !NameBefore(c, a)
    {
      BeforeIsTransitive(a.normalizedName, b.normalizedName, c.normalizedName);
    }
  }

  // ---------- The operations ----------

  /** A file that is absent, too long or not a cache file reads as nothing. */
  function ReadFile(file: Option<string>): Option<seq<CacheEntry>> {
    match file
    case None => None
    case Some(bytes) => if |bytes| > MAX_FILE_BYTES then None else Parse(bytes)
  }

  function Entries(file: Option<string>): seq<CacheEntry> {
    match ReadFile(file)
    case Some(entries) => entries
    case None => []
  }

  function EntryFor(entries: seq<CacheEntry>, n: string): (e: Option<CacheEntry>)
    ensures e.Some? ==> e.value in entries && e.value.normalizedName == n
    ensures e.None? ==> forall x :: x in entries ==> x.normalizedName != n
  {
    var k := FirstIndex(entries, n);
    if k < |entries| then Some(entries[k]) else None
  }

  datatype StoreCall = StoreCall(name: CString, mask: uint32, classId: uint32, server: CString)

  /** The entry a store call writes; the class id is narrowed to eight bits. */
  function NewEntry(call: StoreCall): CacheEntry {
    CacheEntry(call.name, NormalizeName(call.name), call.mask, call.classId % 0x100,
               call.server, NormalizeName(call.server))
  }

  predicate SameKey(x: CacheEntry, y: CacheEntry) {
    x.normalizedName == y.normalizedName && x.normalizedServer == y.normalizedServer
  }

  /** `e` in place of the first entry with its name and server, or at the end. */
  function Updated(entries: seq<CacheEntry>, e: CacheEntry): seq<CacheEntry> {
    if |entries| == 0 then [e]
    else if SameKey(entries[0], e) then [e] + entries[1..]
    else [entries[0]] + Updated(entries[1..], e)
  }

  lemma {:induction false} UpdatedAt(entries: seq<CacheEntry>, e: CacheEntry, k: nat)
    requires k <= |entries|
    requires forall i :: 0 <= i < k ==> !SameKey(entries[i], e)
    requires k < |entries| ==> SameKey(entries[k], e)
    ensures Updated(entries, e) == if k < |entries| then entries[k := e] else entries + [e]
  {
    if k > 0 {
      UpdatedAt(entries[1..], e, k - 1);
      assert entries == [entries[0]] + entries[1..];
    }
  }

  predicate Effective(call: StoreCall) {
    call.name != "" && call.server != ""
  }

  /** What one store may do to the file. A call without name or server does nothing. */
  ghost predicate StoreStep(before: Option<string>, call: StoreCall, after: Option<string>) {
    if !Effective(call) then after == before
    else exists sorted ::
      SortOf(sorted, Updated(Entries(before), NewEntry(call)), NameBefore) && after == Some(Print(sorted))
  }

  /** A written file lists the entries it is made of in increasing order of their names in lower case. */
  lemma {:induction false} WrittenInOrder(before: Option<string>, call: StoreCall, after: Option<string>)
      returns (sorted: seq<CacheEntry>)
    requires StoreStep(before, call, after) && Effective(call)
    ensures after == Some(Print(sorted)) && multiset(sorted) == multiset(Updated(Entries(before), NewEntry(call)))
    ensures forall i, j :: 0 <= i < j < |sorted| ==>
              sorted[i].normalizedName == sorted[j].normalizedName || Before(sorted[i].normalizedName, sorted[j].normalizedName)
  {
    sorted :| SortOf(sorted, Updated(Entries(before), NewEntry(call)), NameBefore) && after == Some(Print(sorted));
    hide Before, Print, Updated, Entries, NewEntry;
    forall i, j | 0 <= i < j < |sorted|
      ensures sorted[i].normalizedName == sorted[j].normalizedName ||
              Before(sorted[i].normalizedName, sorted[j].normalizedName)
    {
      BeforeIsTotal(sorted[i].normalizedName, sorted[j].normalizedName);
      assert !NameBefore(sorted[j], sorted[i]);
    }
  }

  method Replace(entries: seq<CacheEntry>, e: CacheEntry) returns (updated: seq<CacheEntry>)
    ensures updated == Updated(entries, e)
  {
    for k := 0 to |entries|
      invariant forall i :: 0 <= i < k ==> !SameKey(entries[i], e)
    {
      if SameKey(entries[k], e) {
        UpdatedAt(entries, e, k);
        return entries[k := e];
      }
    }
    UpdatedAt(entries, e, |entries|);
    updated := entries + [e];
  }

  class CacheFile {
    var contents: Option<string>

    constructor ()
      ensures contents == None
    {
      contents := None;
    }

    method StoreCharacterClassMask(call: StoreCall, writeSucceeds: bool) returns (stored: bool)
      modifies this
      ensures stored ==> StoreStep(old(contents), call, contents)
      ensures !stored ==> contents == old(contents)
      ensures stored <==> Effective(call) && writeSucceeds
    {
      hide SortOf, Updated;
      var e := NewEntry(call);
      if e.normalizedName == "" || e.normalizedServer == "" {
        return false;
      }
      var entries := ReadCacheEntries();
      var updated := Replace(entries, e);
      NamesAreOrdered();
      var sorted := Sort(updated, NameBefore);
      if !writeSucceeds {
        return false;
      }
      contents := Some(Print(sorted));
      return true;
    }

    method ReadCacheEntries() returns (entries: seq<CacheEntry>)
      ensures entries == Entries(contents)
    {
      entries := [];
      if contents.Some? && |contents.value| <= MAX_FILE_BYTES {
        var ok;
        ok, entries := ParseCacheEntries(contents.value);
      }
    }

    /** The mask of a character: the entry with its name, unless the expected server or class
        contradicts it. */
    method TryLookupCharacterClassMask(name: CString, expectedClassId: uint32, expectedServer: CString)
      returns (mask: Option<uint32>)
      ensures mask == LookupMask(Entries(contents), NormalizeName(name), expectedClassId, NormalizeName(expectedServer))
    {
      hide Entries, NormalizeName;
      var normalizedName := NormalizeName(name);
      if normalizedName == "" {
        NoEntryWithoutName(contents);
        return None;
      }
      var normalizedServer := NormalizeName(expectedServer);
      var entries := ReadCacheEntries();
      var k := 0;
      while k < |entries|
        invariant 0 <= k <= |entries|
        invariant forall i :: 0 <= i < k ==> entries[i].normalizedName != normalizedName
      {
        var entry := entries[k];
        if entry.normalizedName == normalizedName {
          assert FirstIndex(entries, normalizedName) == k;
          if normalizedServer != "" {
            if entry.normalizedServer == "" || entry.normalizedServer != normalizedServer {
              return None;
            }
          }
          if expectedClassId != 0 && entry.classId != 0 && entry.classId != expectedClassId {
            return None;
          }
          return Some(entry.mask);
        }
        k := k + 1;
      }
      return None;
    }
  }

  function LookupMask(entries: seq<CacheEntry>, n: string, classId: nat, server: string): Option<uint32> {
    match EntryFor(entries, n)
    case None => None
    case Some(e) =>
      if (server == "" || e.normalizedServer == server) &&
         (classId == 0 || e.classId == 0 || e.classId == classId)
      then Some(e.mask) else None
  }

  lemma NoEntryWithoutName(file: Option<string>)
    ensures EntryFor(Entries(file), "") == None
  {
    if ReadFile(file).Some? {
      ParsedEntriesArePrintable(file.value);
    }
  }

  // ---------- One store, exactly ----------

  /** What can be written on one line without breaking it. */
  predicate Writable(call: StoreCall) {
    && call.name != "" && NoneOf(call.name, '|') && NoneOf(call.name, '\n')
    && call.server != "" && NoneOf(call.server, '\n')
  }

  /** What an entry turns into when the file is rewritten: entries of the older versions, which
      have no server, are lost. */
  function Kept(e: Option<CacheEntry>): Option<CacheEntry> {
    if e.Some? && Complete(e.value) then e else None
  }

  ghost predicate AllPrintable(entries: seq<CacheEntry>) {
    forall k :: 0 <= k < |entries| ==> Printable(entries[k])
  }

  lemma EntriesAreGood(file: Option<string>)
    ensures AllPrintable(Entries(file)) && UniqueNames(Entries(file))
  {
    if ReadFile(file).Some? {
      ParsedEntriesArePrintable(file.value);
      ParseIsAnOrderedMap(file.value);
    }
  }

  lemma {:induction false} NewEntryIsPrintable(call: StoreCall)
    requires Writable(call)
    ensures Printable(NewEntry(call))
  {
  }

  lemma {:induction false} InCompleteOnes(entries: seq<CacheEntry>, e: CacheEntry)
    ensures e in CompleteOnes(entries) <==> e in entries && Complete(e)
  {
    if |entries| > 0 {
      InCompleteOnes(entries[1..], e);
      assert entries == [entries[0]] + entries[1..];
    }
  }

  lemma {:induction false} LastNamedIsUnique(a: seq<CacheEntry>, x: CacheEntry, y: CacheEntry)
    requires IsLastNamed(a, x) && IsLastNamed(a, y) && x.normalizedName == y.normalizedName
    ensures x == y
  {
    var i :| 0 <= i < |a| && a[i] == x && LastOfItsName(a, i);
    var j :| 0 <= j < |a| && a[j] == y && LastOfItsName(a, j);
  }

  /** Merging keeps the last entry of each name. */
  lemma {:induction false} InMerged(a: seq<CacheEntry>, n: string)
    ensures var found := EntryFor(UpsertAll([], a), n);
            && (found.Some? ==> IsLastNamed(a, found.value) && found.value in a)
            && (found.None? ==> forall x :: x in a ==> x.normalizedName != n)
  {
    var r := UpsertAll([], a);
    EntriesAreAnOrderedMap(a);
    var found := EntryFor(r, n);
    if found.Some? {
      var k := FirstIndex(r, n);
      assert IsLastNamed(a, r[k]);
    } else {
      forall x | x in a ensures x.normalizedName != n {
        var k :| 0 <= k < |a| && a[k] == x;
        assert HasName(r, a[k].normalizedName);
      }
    }
  }

  /** What a rewritten file reads as. */
  lemma {:induction false} ReadOfPrint(updated: seq<CacheEntry>, sorted: seq<CacheEntry>)
    requires AllPrintable(updated) && SortOf(sorted, updated, NameBefore) && |Print(sorted)| <= MAX_FILE_BYTES
    ensures AllPrintable(sorted)
    ensures ReadFile(Some(Print(sorted))) == Some(UpsertAll([], CompleteOnes(sorted)))
  {
    hide Printable, SortedBy, Complete, Print, UpsertAll, CompleteOnes;
    forall k | 0 <= k < |sorted| ensures Printable(sorted[k]) {
      SameMembers(sorted, updated, sorted[k]);
    }
    ParseOfPrint(sorted);
  }

  /** What is found in a rewritten file: the complete entries among those written. */
  lemma {:induction false} FoundAfterWriting(updated: seq<CacheEntry>, sorted: seq<CacheEntry>, n: string)
    requires AllPrintable(updated) && SortOf(sorted, updated, NameBefore) && |Print(sorted)| <= MAX_FILE_BYTES
    ensures ReadFile(Some(Print(sorted))).Some?
    ensures var found := EntryFor(Entries(Some(Print(sorted))), n);
            && (found.Some? ==> found.value in updated && Complete(found.value))
            && (found.None? ==> forall x :: x in updated && Complete(x) ==> x.normalizedName != n)
  {
    ReadOfPrint(updated, sorted);
    hide Printable, SortedBy, Complete, Print, ReadFile, FirstIndex;
    InMerged(CompleteOnes(sorted), n);
    var found := EntryFor(Entries(Some(Print(sorted))), n);
    if found.Some? {
      InCompleteOnes(sorted, found.value);
      SameMembers(sorted, updated, found.value);
    } else {
      forall x | x in updated && Complete(x) ensures x.normalizedName != n {
        SameMembers(sorted, updated, x);
        InCompleteOnes(sorted, x);
      }
    }
  }

  lemma {:induction false} UpdatedMembers(entries: seq<CacheEntry>, e: CacheEntry)
    requires UniqueNames(entries)
    ensures forall x :: x in Updated(entries, e) <==> x == e || (x in entries && !SameKey(x, e))
  {
    if |entries| > 0 {
      var rest := entries[1..];
      UpdatedMembers(rest, e);
      assert entries == [entries[0]] + rest;
      assert forall x :: x in rest ==> x.normalizedName != entries[0].normalizedName;
    }
  }

  /** The candidates for an answer after a store, whatever the name. */
  lemma {:induction false} OutcomeOfStore(before: Option<string>, call: StoreCall, after: Option<string>, n: string)
    requires StoreStep(before, call, after) && Writable(call)
    requires after.Some? && |after.value| <= MAX_FILE_BYTES
    ensures ReadFile(after).Some?
    ensures var e, entries, found := NewEntry(call), Entries(before), EntryFor(Entries(after), n);
            && (found.Some? ==>
                  && found.value.normalizedName == n && Complete(found.value)
                  && (found.value == e || (found.value in entries && !SameKey(found.value, e))))
            && (found.None? ==> forall x :: Complete(x) && (x == e || (x in entries && !SameKey(x, e))) ==>
                  x.normalizedName != n)
  {
    var e, entries := NewEntry(call), Entries(before);
    EntriesAreGood(before);
    NewEntryIsPrintable(call);
    UpdatedMembers(entries, e);
    hide Printable, Complete, Updated, Entries, NewEntry;
    var updated := Updated(entries, e);
    forall k | 0 <= k < |updated| ensures Printable(updated[k]) {
      assert updated[k] in updated;
    }
    var sorted :| SortOf(sorted, updated, NameBefore) && after == Some(Print(sorted));
    FoundAfterWriting(updated, sorted, n);
  }

  lemma {:induction false} EntryForIs(entries: seq<CacheEntry>, x: CacheEntry)
    requires UniqueNames(entries) && x in entries
    ensures EntryFor(entries, x.normalizedName) == Some(x)
  {
  }

  /** A store under another name keeps an entry if it was complete. */
  lemma {:induction false} OtherNamesAreKept(before: Option<string>, call: StoreCall, after: Option<string>, n: string)
    requires StoreStep(before, call, after) && Writable(call)
    requires after.Some? && |after.value| <= MAX_FILE_BYTES
    requires n != NormalizeName(call.name)
    ensures EntryFor(Entries(after), n) == Kept(EntryFor(Entries(before), n))
  {
    OutcomeOfStore(before, call, after, n);
    EntriesAreGood(before);
    hide StoreStep, Entries, FirstIndex, Complete, Printable;
    var found, was := EntryFor(Entries(after), n), EntryFor(Entries(before), n);
    if found.Some? {
      EntryForIs(Entries(before), found.value);
    }
  }

  /** The name is complete on another server than the call's. */
  predicate OtherServer(before: Option<string>, call: StoreCall) {
    var was := Kept(EntryFor(Entries(before), NormalizeName(call.name)));
    was.Some? && was.value.normalizedServer != NormalizeName(call.server)
  }

  /** On one server, the stored name gets the new entry, if that is complete. */
  lemma {:induction false} StoredNameIsReplaced(before: Option<string>, call: StoreCall, after: Option<string>)
    requires StoreStep(before, call, after) && Writable(call)
    requires after.Some? && |after.value| <= MAX_FILE_BYTES
    requires !OtherServer(before, call)
    ensures EntryFor(Entries(after), NormalizeName(call.name)) == Kept(Some(NewEntry(call)))
  {
    var n := NormalizeName(call.name);
    OutcomeOfStore(before, call, after, n);
    EntriesAreGood(before);
    hide StoreStep, Entries, FirstIndex, Complete, Printable;
    var found := EntryFor(Entries(after), n);
    if found.Some? && found.value != NewEntry(call) {
      EntryForIs(Entries(before), found.value);
    }
  }

  /** With the name complete on another server, one of the two lines is the answer. */
  lemma {:induction false} OneOfTwoLines(before: Option<string>, call: StoreCall, after: Option<string>)
    requires StoreStep(before, call, after) && Writable(call)
    requires after.Some? && |after.value| <= MAX_FILE_BYTES
    requires OtherServer(before, call)
    ensures var was, new', found := Kept(EntryFor(Entries(before), NormalizeName(call.name))),
              Kept(Some(NewEntry(call))), EntryFor(Entries(after), NormalizeName(call.name));
            found == was || (found == new' && new'.Some?)
  {
    var n := NormalizeName(call.name);
    OutcomeOfStore(before, call, after, n);
    EntriesAreGood(before);
    hide StoreStep, Entries, FirstIndex, Complete, Printable;
    var found := EntryFor(Entries(after), n);
    if found.Some? && found.value != NewEntry(call) {
      EntryForIs(Entries(before), found.value);
    }
  }

  /** A store that the reader can take in, exactly, on whatever the file held before. Every other
      name keeps its entry if that was complete and loses it otherwise; the stored name gets the
      new entry, unless the class id narrows to zero or the name was complete on another server:
      then either of the two lines may win. */
  lemma {:induction false} StoreStepExact(before: Option<string>, call: StoreCall, after: Option<string>, n: string)
    requires StoreStep(before, call, after) && Writable(call)
    requires after.Some? && |after.value| <= MAX_FILE_BYTES
    ensures var was := Kept(EntryFor(Entries(before), n));
            var new' := Kept(Some(NewEntry(call)));
            var found := EntryFor(Entries(after), n);
            if n != NormalizeName(call.name) then found == was
            else if !OtherServer(before, call) then found == new'
            else found == was || (found == new' && new'.Some?)
  {
    hide StoreStep, Entries, EntryFor, NewEntry, Kept, OtherServer;
    if n != NormalizeName(call.name) {
      OtherNamesAreKept(before, call, after, n);
    } else if !OtherServer(before, call) {
      StoredNameIsReplaced(before, call, after);
    } else {
      OneOfTwoLines(before, call, after);
    }
  }

  /** The store keeps servers apart, the reader does not: no file answers one name for two
      servers, so storing a name on a second server ends the first server's answer or never
      takes effect. */
  lemma OneServerPerName(file: Option<string>, n: string, classId1: nat, server1: string, classId2: nat, server2: string)
    requires server1 != "" && server2 != "" && server1 != server2
    ensures LookupMask(Entries(file), n, classId1, server1).None? || LookupMask(Entries(file), n, classId2, server2).None?
  {
    hide Entries;
  }

  // ---------- Round trip ----------

  lemma {:induction false} UniqueUpsertAppends(entries: seq<CacheEntry>, more: seq<CacheEntry>)
    requires UniqueNames(entries + more)
    ensures UpsertAll(entries, more) == entries + more
    decreases |more|
  {
    if |more| > 0 {
      var both := entries + more;
      assert forall i :: 0 <= i < |entries| ==> entries[i] == both[i];
      assert both[|entries|] == more[0];
      UpsertAt(entries, more[0], |entries|);
      assert entries + [more[0]] + more[1..] == both;
      UniqueUpsertAppends(entries + [more[0]], more[1..]);
    } else {
      assert entries + more == entries;
    }
  }

  lemma {:induction false} AllComplete(entries: seq<CacheEntry>)
    requires forall k :: 0 <= k < |entries| ==> Complete(entries[k])
    ensures CompleteOnes(entries) == entries
  {
    if |entries| > 0 {
      AllComplete(entries[1..]);
    }
  }

  /** Printing and parsing undo each other on entries a file can hold: every field, in order. */
  lemma RoundTrip(entries: seq<CacheEntry>)
    requires AllPrintable(entries) && UniqueNames(entries)
    requires forall k :: 0 <= k < |entries| ==> Complete(entries[k])
    ensures Parse(Print(entries)) == Some(entries)
  {
    hide Printable, Complete, Parse;
    ParseOfPrint(entries);
    AllComplete(entries);
    assert [] + entries == entries;
    UniqueUpsertAppends([], entries);
  }

  /** Distinct names have one order. */
  lemma {:induction false} UniqueNamesSortOneWay(p: seq<CacheEntry>, q: seq<CacheEntry>)
    requires SortedBy(p, NameBefore) && UniqueNames(p) && SortOf(q, p, NameBefore)
    ensures q == p
  {
    hide Before;
    forall i, j | 0 <= i < j < |p| ensures NameBefore(p[i], p[j]) {
      BeforeIsTotal(p[i].normalizedName, p[j].normalizedName);
    }
    SortIsDetermined(p, q, NameBefore);
  }

  /** Reading a written file and writing it again gives the same bytes. */
  lemma RewritingIsStable(entries: seq<CacheEntry>, p: seq<CacheEntry>, q: seq<CacheEntry>)
    requires AllPrintable(entries) && UniqueNames(entries) && SortOf(p, entries, NameBefore)
    requires forall k :: 0 <= k < |entries| ==> Complete(entries[k])
    requires Parse(Print(p)).Some? && SortOf(q, Parse(Print(p)).value, NameBefore)
    ensures Print(q) == Print(p)
  {
    hide Printable, Complete, Parse, Print;
    forall k | 0 <= k < |p| ensures Printable(p[k]) && Complete(p[k]) {
      SameMembers(p, entries, p[k]);
    }
    PermutationKeepsUniqueNames(entries, p);
    RoundTrip(p);
    UniqueNamesSortOneWay(p, q);
  }

  lemma {:induction false} PermutationKeepsUniqueNames(entries: seq<CacheEntry>, p: seq<CacheEntry>)
    requires UniqueNames(entries) && multiset(p) == multiset(entries)
    ensures UniqueNames(p)
  {
    forall i, j | 0 <= i < j < |p| ensures p[i].normalizedName != p[j].normalizedName {
      if p[i].normalizedName == p[j].normalizedName {
        SameMembers(p, entries, p[i]);
        SameMembers(p, entries, p[j]);
        assert p[i] == p[j];
        TwiceInSequence(p, i, j);
        var k :| 0 <= k < |entries| && entries[k] == p[i];
        OnceInSequence(entries, k);
      }
    }
  }

  lemma TwiceInSequence(p: seq<CacheEntry>, i: nat, j: nat)
    requires i < j < |p| && p[i] == p[j]
    ensures multiset(p)[p[i]] >= 2
  {
    assert p == p[..i] + [p[i]] + p[i + 1..j] + [p[j]] + p[j + 1..];
  }

  lemma OnceInSequence(p: seq<CacheEntry>, k: nat)
    requires UniqueNames(p) && k < |p|
    ensures multiset(p)[p[k]] == 1
  {
    assert p == p[..k] + [p[k]] + p[k + 1..];
    assert p[k] !in p[..k] && p[k] !in p[k + 1..];
  }

  // ---------- Files of the older versions ----------

  lemma {:induction false} OldVersionsHaveNoServer(v: Version, lines: seq<string>)
    requires v != V3
    ensures forall k :: 0 <= k < |Accepted(v, lines)| ==> Accepted(v, lines)[k].normalizedServer == ""
  {
    hide Find, HexField, Atoi;
    if |lines| > 0 {
      OldVersionsHaveNoServer(v, lines[1..]);
    }
  }

  /** The first store into a version 1 or 2 file loses every other character. */
  lemma {:induction false} UpgradeLosesOtherNames(before: Option<string>, call: StoreCall, after: Option<string>, n: string)
    requires ReadFile(before).Some? && HeaderVersion(StripCr(Lines(before.value)[0])) != Some(V3)
    requires StoreStep(before, call, after) && Writable(call)
    requires after.Some? && |after.value| <= MAX_FILE_BYTES
    requires n != NormalizeName(call.name)
    ensures EntryFor(Entries(after), n) == None
  {
    hide StoreStep, Accepted;
    OtherNamesAreKept(before, call, after, n);
    var bytes := before.value;
    var v := HeaderVersion(StripCr(Lines(bytes)[0])).value;
    var was := EntryFor(Entries(before), n);
    if was.Some? {
      InMerged(Accepted(v, Lines(bytes)[1..]), n);
      OldVersionsHaveNoServer(v, Lines(bytes)[1..]);
    }
  }

  // ---------- Lookup by class ----------

  predicate ClassMatches(e: CacheEntry, classId: nat, server: string)
    requires 1 <= classId <= 32
  {
    && (server == "" || e.normalizedServer == server)
    && (e.classId == 0 || e.classId == classId)
    && HasBit(e.mask, classId)
  }

  ghost predicate MatchesAgree(entries: seq<CacheEntry>, classId: nat, server: string)
    requires 1 <= classId <= 32
  {
    forall x, y | x in entries && y in entries && ClassMatches(x, classId, server) && ClassMatches(y, classId, server) ::
      x.mask == y.mask
  }

  /** A class id names a mask when some entry matches and all that match agree. */
  ghost predicate IsUniqueMask(entries: seq<CacheEntry>, classId: nat, server: string, mask: Option<uint32>) {
    && (mask.Some? <==>
          && 1 <= classId <= 32
          && (exists x :: x in entries && ClassMatches(x, classId, server))
          && MatchesAgree(entries, classId, server))
    && (mask.Some? ==> forall x :: x in entries && ClassMatches(x, classId, server) ==> x.mask == mask.value)
  }

  method TryLookupUniqueClassMask(file: Option<string>, classId: uint32, expectedServer: CString)
    returns (mask: Option<uint32>)
    ensures IsUniqueMask(Entries(file), classId, NormalizeName(expectedServer), mask)
  {
    hide NormalizeName, HasBit, Entries;
    if classId == 0 || classId > 32 {
      return None;
    }
    var server := NormalizeName(expectedServer);
    var entries := Entries(file);
    mask := None;
    for k := 0 to |entries|
      invariant mask.Some? ==> exists x :: x in entries && ClassMatches(x, classId, server) && x.mask == mask.value
      invariant forall i :: 0 <= i < k && ClassMatches(entries[i], classId, server) ==>
                  mask == Some(entries[i].mask)
    {
      var entry := entries[k];
      if server != "" {
        if entry.normalizedServer == "" || entry.normalizedServer != server {
          continue;
        }
      }
      if entry.classId != 0 && entry.classId != classId {
        continue;
      }
      if !HasBit(entry.mask, classId) {
        continue;
      }
      if mask.Some? && mask.value != entry.mask {
        assert ClassMatches(entry, classId, server);
        return None;
      }
      mask := Some(entry.mask);
    }
  }
}
