/**
 What a store can come to, over every order the library sort may leave equal names in: when the
 new entry is sure to be found, when it can be lost, and which runs of stores keep the file a map.
*/
module CacheRuns {
  import opened Wire
  import opened CacheText
  import opened CacheFormat
  import opened MulticlassCache
  import opened Sorting

  // ---------- The size of the written file ----------

  lemma {:induction false} PrintEntriesConcat(a: seq<CacheEntry>, b: seq<CacheEntry>)
    ensures PrintEntries(a + b) == PrintEntries(a) + PrintEntries(b)
    decreases |a|
  {
    hide LineText;
    if |a| == 0 {
      assert a + b == b;
    } else {
      assert (a + b)[1..] == a[1..] + b;
      PrintEntriesConcat(a[1..], b);
    }
  }

  /** The order of the lines does not change the size. */
  lemma {:induction false} SizeOfArrangement(xs: seq<CacheEntry>, ys: seq<CacheEntry>)
    requires multiset(xs) == multiset(ys)
    ensures |PrintEntries(xs)| == |PrintEntries(ys)|
    decreases |xs|
  {
    hide LineText;
    SameLength(xs, ys);
    if |xs| > 0 {
      SameMembers(xs, ys, xs[0]);
      var j: nat :| j < |ys| && ys[j] == xs[0];
      SameWithout(xs, ys, 0, j);
      assert xs[..0] + xs[1..] == xs[1..];
      SizeOfArrangement(xs[1..], ys[..j] + ys[j + 1..]);
      hide PrintEntries;
      SizeWithout(xs, 0);
      SizeWithout(ys, j);
    }
  }

  lemma {:induction false} SizeWithout(xs: seq<CacheEntry>, i: nat)
    requires i < |xs|
    ensures |PrintEntries(xs)| == |PrintEntries([xs[i]])| + |PrintEntries(xs[..i] + xs[i + 1..])|
  {
    hide PrintEntries;
    assert xs == xs[..i] + ([xs[i]] + xs[i + 1..]);
    PrintEntriesConcat(xs[..i], [xs[i]] + xs[i + 1..]);
    PrintEntriesConcat([xs[i]], xs[i + 1..]);
    PrintEntriesConcat(xs[..i], xs[i + 1..]);
  }

  /** The store leaves a file the reader takes in: its size does not depend on the sort. */
  predicate Fits(before: Option<string>, call: StoreCall) {
    |Print(Updated(Entries(before), NewEntry(call)))| <= 0x1_0000
  }

  lemma {:induction false} OutcomeSize(before: Option<string>, call: StoreCall, after: Option<string>)
    requires Effective(call) && StoreStep(before, call, after)
    ensures after.Some? && (|after.value| <= MAX_FILE_BYTES <==> Fits(before, call))
  {
    hide Updated, Entries, PrintEntries;
    var updated := Updated(Entries(before), NewEntry(call));
    var sorted :| SortOf(sorted, updated, NameBefore) && after == Some(Print(sorted));
    SizeOfArrangement(sorted, updated);
  }

  lemma {:induction false} StoreHasOutcome(before: Option<string>, call: StoreCall) returns (after: Option<string>)
    ensures StoreStep(before, call, after)
  {
    hide Updated, Entries, Print;
    if Effective(call) {
      NamesAreOrdered();
      var sorted := Arrangement(Updated(Entries(before), NewEntry(call)), NameBefore);
      after := Some(Print(sorted));
    } else {
      after := before;
    }
  }

  // ---------- Which of two lines wins ----------

  lemma {:induction false} CompleteOnesConcat(a: seq<CacheEntry>, b: seq<CacheEntry>)
    ensures CompleteOnes(a + b) == CompleteOnes(a) + CompleteOnes(b)
    decreases |a|
  {
    hide Complete;
    if |a| == 0 {
      assert a + b == b;
    } else {
      assert (a + b)[1..] == a[1..] + b;
      CompleteOnesConcat(a[1..], b);
    }
  }

  /** A complete entry is found when no entry of its name is written behind it. */
  lemma {:induction false} LastLineWins(updated: seq<CacheEntry>, sorted: seq<CacheEntry>, j: nat)
    requires AllPrintable(updated) && SortOf(sorted, updated, NameBefore) && |Print(sorted)| <= MAX_FILE_BYTES
    requires j < |sorted| && Complete(sorted[j]) && LastOfItsName(sorted, j)
    ensures EntryFor(Entries(Some(Print(sorted))), sorted[j].normalizedName) == Some(sorted[j])
  {
    ReadOfPrint(updated, sorted);
    var x, a := sorted[j], CompleteOnes(sorted);
    LastAmongComplete(sorted, j);
    InMerged(a, x.normalizedName);
    hide CompleteOnes, UpsertAll, Print, Complete, FirstIndex, IsLastNamed;
    var found := EntryFor(UpsertAll([], a), x.normalizedName);
    LastNamedIsThere(a, x);
    LastNamedIsUnique(a, x, found.value);
  }

  lemma {:induction false} LastNamedIsThere(a: seq<CacheEntry>, x: CacheEntry)
    requires IsLastNamed(a, x)
    ensures x in a
  {
  }

  lemma {:induction false} LastAmongComplete(sorted: seq<CacheEntry>, j: nat)
    requires j < |sorted| && Complete(sorted[j]) && LastOfItsName(sorted, j)
    ensures IsLastNamed(CompleteOnes(sorted), sorted[j])
  {
    var x, front, back := sorted[j], sorted[..j], sorted[j + 1..];
    assert sorted == front + ([x] + back);
    assert CompleteOnes([x]) == [x];
    hide Complete, CompleteOnes;
    CompleteOnesConcat(front, [x] + back);
    CompleteOnesConcat([x], back);
    forall y | y in CompleteOnes(back) ensures y.normalizedName != x.normalizedName {
      InCompleteOnes(back, y);
    }
    LastBeforeOthers(CompleteOnes(front), x, CompleteOnes(back));
  }

  lemma {:induction false} LastBeforeOthers(front: seq<CacheEntry>, x: CacheEntry, back: seq<CacheEntry>)
    requires forall y :: y in back ==> y.normalizedName != x.normalizedName
    ensures IsLastNamed(front + ([x] + back), x)
  {
    var a := front + ([x] + back);
    forall k | |front| < k < |a| ensures a[k].normalizedName != x.normalizedName {
      assert a[k] == back[k - |front| - 1];
    }
    assert a[|front|] == x && LastOfItsName(a, |front|);
  }

  lemma {:induction false} NewEntryIsAppended(before: Option<string>, call: StoreCall)
    requires Writable(call) && OtherServer(before, call)
    ensures Updated(Entries(before), NewEntry(call)) == Entries(before) + [NewEntry(call)]
    ensures AllPrintable(Entries(before) + [NewEntry(call)])
  {
    var entries, e := Entries(before), NewEntry(call);
    EntriesAreGood(before);
    NewEntryIsPrintable(call);
    hide Entries, Printable;
    forall x | x in entries ensures !SameKey(x, e) {
      if x.normalizedName == e.normalizedName {
        EntryForIs(entries, x);
      }
    }
    UpdatedAt(entries, e, |entries|);
  }

  lemma {:induction false} NamesDoNotPrecedeThemselves(x: CacheEntry, y: CacheEntry)
    requires NameBefore(x, y)
    ensures x.normalizedName != y.normalizedName
  {
    BeforeIsTotal(x.normalizedName, y.normalizedName);
  }

  /** An order of the lines in which the new one is not the last of its name. */
  lemma {:induction false} OldLineLast(entries: seq<CacheEntry>, e: CacheEntry, was: CacheEntry)
      returns (sorted: seq<CacheEntry>, j: nat)
    requires UniqueNames(entries) && was in entries && was.normalizedName == e.normalizedName
    ensures SortOf(sorted, entries + [e], NameBefore)
    ensures j < |sorted| && sorted[j] == was && LastOfItsName(sorted, j)
  {
    NamesAreOrdered();
    hide NameBefore, IsOrder, SortedBy;
    var rest := Arrangement(entries, NameBefore);
    var k := FrontPlace(rest, e, NameBefore);
    sorted := rest[..k] + [e] + rest[k..];
    InsertionAddsOne(rest, e, k);
    PermutationKeepsUniqueNames(entries, rest);
    SameMembers(rest, entries, was);
    var i: nat :| i < |rest| && rest[i] == was;
    if i < k {
      NamesDoNotPrecedeThemselves(rest[i], e);
    }
    j := i + 1;
    OnlyOneLater(rest, e, k, j);
  }

  lemma {:induction false} OnlyOneLater(rest: seq<CacheEntry>, e: CacheEntry, k: nat, j: nat)
    requires UniqueNames(rest) && k < j <= |rest|
    ensures var sorted := rest[..k] + [e] + rest[k..]; sorted[j] == rest[j - 1] && LastOfItsName(sorted, j)
  {
    var sorted := rest[..k] + [e] + rest[k..];
    assert forall m :: j <= m < |sorted| ==> sorted[m] == rest[m - 1];
  }

  /** An order of the lines in which the new one is the last of its name. */
  lemma {:induction false} NewLineLast(entries: seq<CacheEntry>, e: CacheEntry)
      returns (sorted: seq<CacheEntry>, j: nat)
    ensures SortOf(sorted, entries + [e], NameBefore)
    ensures j < |sorted| && sorted[j] == e && LastOfItsName(sorted, j)
  {
    NamesAreOrdered();
    hide NameBefore, IsOrder, SortedBy;
    var rest := Arrangement(entries, NameBefore);
    j := BackPlace(rest, e, NameBefore);
    sorted := rest[..j] + [e] + rest[j..];
    InsertionAddsOne(rest, e, j);
    forall m | j < m < |sorted| ensures sorted[m].normalizedName != e.normalizedName {
      assert sorted[m] == rest[m - 1];
      NamesDoNotPrecedeThemselves(e, sorted[m]);
    }
  }

  /** A name that is complete on another server: the sort may write the new line first, and the
      reader then takes the old one. The store reports success and is lost. */
  lemma {:induction false} OldLineMayWin(before: Option<string>, call: StoreCall) returns (after: Option<string>)
    requires Writable(call) && OtherServer(before, call) && Fits(before, call)
    ensures StoreStep(before, call, after)
    ensures EntryFor(Entries(after), NormalizeName(call.name)) == Kept(EntryFor(Entries(before), NormalizeName(call.name)))
  {
    NewEntryIsAppended(before, call);
    EntriesAreGood(before);
    var entries, e := Entries(before), NewEntry(call);
    var was := EntryFor(entries, NormalizeName(call.name)).value;
    hide Entries, Printable, FirstIndex, NameBefore, Print, Complete, SortedBy, Updated;
    var sorted, j := OldLineLast(entries, e, was);
    after := Some(Print(sorted));
    OutcomeSize(before, call, after);
    LastLineWins(entries + [e], sorted, j);
  }

  /** It may also write the new line last, and then the old answer is lost. */
  lemma {:induction false} NewLineMayWin(before: Option<string>, call: StoreCall) returns (after: Option<string>)
    requires Writable(call) && OtherServer(before, call) && Fits(before, call) && Complete(NewEntry(call))
    ensures StoreStep(before, call, after)
    ensures EntryFor(Entries(after), NormalizeName(call.name)) == Some(NewEntry(call))
  {
    NewEntryIsAppended(before, call);
    var entries, e := Entries(before), NewEntry(call);
    hide Entries, Printable, FirstIndex, NameBefore, Print, Complete, SortedBy, Updated;
    var sorted, j := NewLineLast(entries, e);
    after := Some(Print(sorted));
    OutcomeSize(before, call, after);
    LastLineWins(entries + [e], sorted, j);
  }

  // ---------- When a store is sure to take effect ----------

  predicate TakesEffect(call: StoreCall, after: Option<string>) {
    EntryFor(Entries(after), NormalizeName(call.name)) == Some(NewEntry(call))
  }

  ghost predicate AlwaysTakesEffect(before: Option<string>, call: StoreCall) {
    forall after {:trigger StoreStep(before, call, after)} :: StoreStep(before, call, after) ==> TakesEffect(call, after)
  }

  /** What a caller can check: the names fit on a line, the class id does not narrow to zero, the
      name is not in use on another server, and the file stays within 64 KiB. */
  predicate Safe(before: Option<string>, call: StoreCall) {
    Writable(call) && Complete(NewEntry(call)) && !OtherServer(before, call) && Fits(before, call)
  }

  /** Whatever is read from a file could have been written. */
  lemma {:induction false} FoundIsWritable(call: StoreCall, after: Option<string>)
    requires Effective(call) && TakesEffect(call, after)
    ensures Writable(call)
  {
    var n, entries, e := NormalizeName(call.name), Entries(after), NewEntry(call);
    EntriesAreGood(after);
    hide Entries;
    assert e in entries;
    var k: nat :| k < |entries| && entries[k] == e;
  }

  /** A store that goes through is found afterwards, whatever the sort does with equal names, if
      and only if it is safe. */
  lemma {:induction false} TakesEffectIffSafe(before: Option<string>, call: StoreCall)
    requires Effective(call)
    ensures AlwaysTakesEffect(before, call) <==> Safe(before, call)
  {
    hide Entries, NewEntry, Printable, Complete, Fits, StoreStep;
    if Safe(before, call) {
      forall after | StoreStep(before, call, after) ensures TakesEffect(call, after) {
        OutcomeSize(before, call, after);
        StoredNameIsReplaced(before, call, after);
      }
    } else {
      var after := UnsafeOutcome(before, call);
      assert !TakesEffect(call, after);
    }
  }

  lemma {:induction false} UnsafeOutcome(before: Option<string>, call: StoreCall) returns (after: Option<string>)
    requires Effective(call) && !Safe(before, call)
    ensures StoreStep(before, call, after) && !TakesEffect(call, after)
  {
    after := StoreHasOutcome(before, call);
    if !Writable(call) {
      if TakesEffect(call, after) {
        FoundIsWritable(call, after);
      }
    } else if !Fits(before, call) {
      OutcomeSize(before, call, after);
    } else if OtherServer(before, call) {
      after := OldLineMayWin(before, call);
    } else {
      OutcomeSize(before, call, after);
      StoredNameIsReplaced(before, call, after);
    }
  }

  // ---------- A file that grows too long ----------

  /** A store that takes the file past 64 KiB makes every name unreadable, and the next store
      writes a file with its own entry only. */
  lemma {:induction false} OversizedFileIsForgotten(
      before: Option<string>, call: StoreCall, after: Option<string>, next: StoreCall, last: Option<string>, n: string)
    requires Effective(call) && !Fits(before, call) && StoreStep(before, call, after)
    requires Effective(next) && StoreStep(after, next, last)
    ensures EntryFor(Entries(after), n) == None
    ensures last == Some(Print([NewEntry(next)]))
  {
    OutcomeSize(before, call, after);
    assert Entries(after) == [];
    hide Print, Entries, NewEntry;
    var sorted :| SortOf(sorted, Updated([], NewEntry(next)), NameBefore) && last == Some(Print(sorted));
    SameLength(sorted, [NewEntry(next)]);
    SameMembers(sorted, [NewEntry(next)], sorted[0]);
    assert sorted == [sorted[0]];
  }

  // ---------- Whole runs ----------

  /** The files a sequence of stores that reach the disk may produce, from an absent file. */
  ghost predicate Run(calls: seq<StoreCall>, files: seq<Option<string>>) {
    && |files| == |calls| + 1
    && files[0] == None
    && (forall i :: 0 <= i < |calls| ==> StoreStep(files[i], calls[i], files[i + 1]))
  }

  /** The entry of the last store under a name. */
  function LastStored(calls: seq<StoreCall>, n: string): Option<CacheEntry> {
    if |calls| == 0 then None
    else
      var call := calls[|calls| - 1];
      if Effective(call) && NormalizeName(call.name) == n then Some(NewEntry(call))
      else LastStored(calls[..|calls| - 1], n)
  }

  /** The entries a run of stores holds, from the calls alone. */
  function Held(calls: seq<StoreCall>): seq<CacheEntry> {
    if |calls| == 0 then []
    else
      var call, before := calls[|calls| - 1], Held(calls[..|calls| - 1]);
      if Effective(call) then Updated(before, NewEntry(call)) else before
  }

  /** No earlier call used the name on another server. */
  predicate SameServer(calls: seq<StoreCall>, call: StoreCall) {
    forall i {:trigger calls[i]} ::
      0 <= i < |calls| && Effective(calls[i]) && NormalizeName(calls[i].name) == NormalizeName(call.name) ==>
        NormalizeName(calls[i].server) == NormalizeName(call.server)
  }

  /** What a caller can check of its next call, knowing the earlier ones. */
  predicate SafeNext(calls: seq<StoreCall>, call: StoreCall) {
    Effective(call) ==>
      && Writable(call) && Complete(NewEntry(call)) && SameServer(calls, call)
      && |Print(Updated(Held(calls), NewEntry(call)))| <= 0x1_0000
  }

  ghost predicate WellBehaved(calls: seq<StoreCall>) {
    forall m {:trigger calls[m]} :: 0 <= m < |calls| ==> SafeNext(calls[..m], calls[m])
  }

  /** The file reads as the map from each name to its last store. */
  ghost predicate ReadsAs(file: Option<string>, calls: seq<StoreCall>) {
    forall n {:trigger LastStored(calls, n)} :: EntryFor(Entries(file), n) == LastStored(calls, n)
  }

  /** In every run the calls allow, after every call, the file reads as the map. */
  ghost predicate KeepsMap(calls: seq<StoreCall>) {
    forall files {:trigger Run(calls, files)} :: Run(calls, files) ==>
      forall m {:trigger files[m]} :: 0 <= m < |files| ==> ReadsAs(files[m], calls[..m])
  }

  lemma {:induction false} WellBehavedFront(calls: seq<StoreCall>)
    requires |calls| > 0
    ensures WellBehaved(calls) <==>
            WellBehaved(calls[..|calls| - 1]) && SafeNext(calls[..|calls| - 1], calls[|calls| - 1])
  {
    hide SafeNext;
    var front := calls[..|calls| - 1];
    assert forall m :: 0 <= m < |front| ==> front[m] == calls[m] && front[..m] == calls[..m];
    if WellBehaved(calls) {
      forall m | 0 <= m < |front| ensures SafeNext(front[..m], front[m]) {
        assert SafeNext(calls[..m], calls[m]);
      }
    }
  }

  lemma {:induction false} LastStoredIsOneOf(calls: seq<StoreCall>, n: string) returns (i: nat)
    requires LastStored(calls, n).Some?
    ensures i < |calls| && Effective(calls[i]) && NormalizeName(calls[i].name) == n
    ensures LastStored(calls, n) == Some(NewEntry(calls[i]))
  {
    i := |calls| - 1;
    if !Effective(calls[i]) || NormalizeName(calls[i].name) != n {
      i := LastStoredIsOneOf(calls[..|calls| - 1], n);
    }
  }

  lemma {:induction false} LastStoredExists(calls: seq<StoreCall>, i: nat)
    requires i < |calls| && Effective(calls[i])
    ensures LastStored(calls, NormalizeName(calls[i].name)).Some?
  {
    if i < |calls| - 1 {
      LastStoredExists(calls[..|calls| - 1], i);
    }
  }

  // ---------- What a well-behaved run holds ----------

  lemma {:induction false} UpdatedBag(xs: seq<CacheEntry>, e: CacheEntry, k: nat)
    requires UniqueNames(xs) && k < |xs| && SameKey(xs[k], e)
    ensures Updated(xs, e) == xs[k := e]
    ensures multiset(Updated(xs, e)) == multiset(xs) - multiset{xs[k]} + multiset{e}
  {
    hide Updated;
    forall i | 0 <= i < k ensures !SameKey(xs[i], e) {
      assert xs[i].normalizedName != xs[k].normalizedName;
    }
    UpdatedAt(xs, e, k);
    Overwritten(xs, k, e);
  }

  lemma {:induction false} UpdatedSameBag(xs: seq<CacheEntry>, ys: seq<CacheEntry>, e: CacheEntry)
    requires UniqueNames(xs) && multiset(xs) == multiset(ys)
    ensures multiset(Updated(xs, e)) == multiset(Updated(ys, e))
  {
    PermutationKeepsUniqueNames(xs, ys);
    hide Updated;
    if k: nat :| k < |xs| && SameKey(xs[k], e) {
      SameMembers(xs, ys, xs[k]);
      var j: nat :| j < |ys| && ys[j] == xs[k];
      UpdatedBag(xs, e, k);
      UpdatedBag(ys, e, j);
    } else {
      forall j | 0 <= j < |ys| ensures !SameKey(ys[j], e) {
        SameMembers(xs, ys, ys[j]);
      }
      UpdatedAt(xs, e, |xs|);
      UpdatedAt(ys, e, |ys|);
    }
  }

  lemma {:induction false} UpdatedKeepsUniqueNames(xs: seq<CacheEntry>, e: CacheEntry)
    requires UniqueNames(xs)
    requires forall x :: x in xs && x.normalizedName == e.normalizedName ==> SameKey(x, e)
    ensures UniqueNames(Updated(xs, e))
  {
    hide Updated;
    if k: nat :| k < |xs| && SameKey(xs[k], e) {
      UpdatedBag(xs, e, k);
    } else {
      UpdatedAt(xs, e, |xs|);
    }
  }

  /** The file is a printing of the held entries, complete and under distinct names. */
  ghost predicate Holds(file: Option<string>, calls: seq<StoreCall>) {
    && multiset(Entries(file)) == multiset(Held(calls))
    && (forall x :: x in Entries(file) ==> Complete(x))
  }

  lemma {:induction false} SafeNextIsSafe(file: Option<string>, calls: seq<StoreCall>, call: StoreCall)
    requires WellBehaved(calls) && Holds(file, calls) && ReadsAs(file, calls) && Effective(call)
    ensures SafeNext(calls, call) <==> Safe(file, call)
  {
    EntriesAreGood(file);
    var n, entries, e := NormalizeName(call.name), Entries(file), NewEntry(call);
    UpdatedSameBag(entries, Held(calls), e);
    SizeOfArrangement(Updated(entries, e), Updated(Held(calls), e));
    hide Entries, Updated, Held, PrintEntries, SafeNext, Complete;
    var was := LastStored(calls, n);
    assert EntryFor(entries, n) == was;
    assert |Print(Updated(Held(calls), e))| <= MAX_FILE_BYTES <==> Fits(file, call);
    assert SameServer(calls, call) <==> !OtherServer(file, call) by {
      if was.Some? {
        var j := LastStoredIsOneOf(calls, n);
        ServersAgree(calls, call, j);
      } else {
        forall i | 0 <= i < |calls| && Effective(calls[i]) ensures NormalizeName(calls[i].name) != n {
          if NormalizeName(calls[i].name) == n {
            LastStoredExists(calls, i);
          }
        }
      }
    }
    SafeNextMeans(calls, call);
  }

  lemma {:induction false} SafeNextMeans(calls: seq<StoreCall>, call: StoreCall)
    requires Effective(call)
    ensures SafeNext(calls, call) <==>
      && Writable(call) && Complete(NewEntry(call)) && SameServer(calls, call)
      && |Print(Updated(Held(calls), NewEntry(call)))| <= 0x1_0000
  {
  }

  /** In a well-behaved run, one earlier call under the name tells the server of all. */
  lemma {:induction false} ServersAgree(calls: seq<StoreCall>, call: StoreCall, j: nat)
    requires WellBehaved(calls) && j < |calls| && Effective(calls[j])
    requires NormalizeName(calls[j].name) == NormalizeName(call.name)
    ensures SameServer(calls, call) <==> NormalizeName(calls[j].server) == NormalizeName(call.server)
  {
    forall i | 0 <= i < |calls| && Effective(calls[i]) && NormalizeName(calls[i].name) == NormalizeName(call.name)
      ensures NormalizeName(calls[i].server) == NormalizeName(calls[j].server)
    {
      if i < j {
        SafeNextMeans(calls[..j], calls[j]);
        assert calls[..j][i] == calls[i];
      } else if j < i {
        SafeNextMeans(calls[..i], calls[i]);
        assert calls[..i][j] == calls[j];
      }
    }
  }

  /** A safe store writes the held entries with the new one in place, and they read back as they
      are. */
  lemma {:induction false} SafeStoreHolds(file: Option<string>, calls: seq<StoreCall>, call: StoreCall, after: Option<string>)
    requires Holds(file, calls) && Effective(call) && Safe(file, call) && StoreStep(file, call, after)
    ensures Holds(after, calls + [call])
  {
    var entries, e := Entries(file), NewEntry(call);
    var updated := Updated(entries, e);
    EntriesAreGood(file);
    NewEntryIsPrintable(call);
    UpdatedMembers(entries, e);
    UpdatedSameBag(entries, Held(calls), e);
    OutcomeSize(file, call, after);
    var sorted :| SortOf(sorted, updated, NameBefore) && after == Some(Print(sorted));
    HeldSnoc(calls, call);
    hide Entries, Updated, Held, Print, Printable, Complete, SortedBy, FirstIndex;
    forall x | x in entries && x.normalizedName == e.normalizedName ensures SameKey(x, e) {
      EntryForIs(entries, x);
    }
    UpdatedKeepsUniqueNames(entries, e);
    SortedReadsBack(updated, sorted);
  }

  lemma {:induction false} SortedReadsBack(updated: seq<CacheEntry>, sorted: seq<CacheEntry>)
    requires UniqueNames(updated) && forall x :: x in updated ==> Complete(x) && Printable(x)
    requires SortOf(sorted, updated, NameBefore) && |Print(sorted)| <= MAX_FILE_BYTES
    ensures Entries(Some(Print(sorted))) == sorted
    ensures forall x :: x in sorted ==> Complete(x)
  {
    hide Entries, Print, Printable, Complete, SortedBy;
    forall x | x in sorted ensures Complete(x) && Printable(x) {
      SameMembers(sorted, updated, x);
    }
    PermutationKeepsUniqueNames(updated, sorted);
    RoundTrip(sorted);
    ReadBack(sorted);
  }

  lemma {:induction false} HeldSnoc(calls: seq<StoreCall>, call: StoreCall)
    requires Effective(call)
    ensures Held(calls + [call]) == Updated(Held(calls), NewEntry(call))
  {
    assert (calls + [call])[..|calls|] == calls;
  }

  lemma {:induction false} ReadBack(sorted: seq<CacheEntry>)
    requires Parse(Print(sorted)) == Some(sorted) && |Print(sorted)| <= MAX_FILE_BYTES
    ensures Entries(Some(Print(sorted))) == sorted
  {
  }

  lemma {:induction false} SafeStoreReadsAs(file: Option<string>, calls: seq<StoreCall>, call: StoreCall, after: Option<string>)
    requires Holds(file, calls) && ReadsAs(file, calls)
    requires Effective(call) && Safe(file, call) && StoreStep(file, call, after)
    ensures ReadsAs(after, calls + [call])
  {
    OutcomeSize(file, call, after);
    forall n ensures EntryFor(Entries(after), n) == LastStored(calls + [call], n) {
      assert (calls + [call])[..|calls|] == calls;
      StoreStepExact(file, call, after, n);
      hide StoreStep, Entries, FirstIndex, Complete, Held;
      assert EntryFor(Entries(file), n) == LastStored(calls, n);
    }
  }

  /** Every well-behaved run keeps the map, whatever the sort does. */
  lemma {:induction false} WellBehavedRunHolds(calls: seq<StoreCall>, files: seq<Option<string>>)
    requires Run(calls, files) && WellBehaved(calls)
    ensures Holds(files[|calls|], calls) && ReadsAs(files[|calls|], calls)
  {
    if |calls| == 0 {
      NothingHeld();
    } else {
      var m := |calls| - 1;
      var front, call := calls[..m], calls[m];
      assert calls == front + [call];
      WellBehavedFront(calls);
      WellBehavedRunHolds(front, files[..m + 1]);
      assert StoreStep(files[m], call, files[m + 1]);
      hide Holds, ReadsAs, WellBehaved, SafeNext, Safe, StoreStep;
      if Effective(call) {
        SafeNextIsSafe(files[m], front, call);
        SafeStoreHolds(files[m], front, call, files[m + 1]);
        SafeStoreReadsAs(files[m], front, call, files[m + 1]);
      } else {
        RefusedStore(files[m], front, call, files[m + 1]);
      }
    }
  }

  lemma {:induction false} NothingHeld()
    ensures Holds(None, []) && ReadsAs(None, [])
  {
  }

  lemma {:induction false} RefusedStore(file: Option<string>, calls: seq<StoreCall>, call: StoreCall, after: Option<string>)
    requires Holds(file, calls) && ReadsAs(file, calls) && !Effective(call) && StoreStep(file, call, after)
    ensures Holds(after, calls + [call]) && ReadsAs(after, calls + [call])
  {
    hide Entries, FirstIndex;
    assert (calls + [call])[..|calls|] == calls;
    forall n ensures EntryFor(Entries(after), n) == LastStored(calls + [call], n) {
      assert EntryFor(Entries(file), n) == LastStored(calls, n);
    }
  }

  // ---------- The exact condition ----------

  lemma {:induction false} RunExists(calls: seq<StoreCall>) returns (files: seq<Option<string>>)
    ensures Run(calls, files)
  {
    if |calls| == 0 {
      files := [None];
    } else {
      var front := RunExists(calls[..|calls| - 1]);
      var after := StoreHasOutcome(front[|calls| - 1], calls[|calls| - 1]);
      files := RunLonger(calls, front, after);
    }
  }

  lemma {:induction false} RunLonger(calls: seq<StoreCall>, files: seq<Option<string>>, after: Option<string>)
      returns (longer: seq<Option<string>>)
    requires |calls| > 0 && Run(calls[..|calls| - 1], files)
    requires StoreStep(files[|calls| - 1], calls[|calls| - 1], after)
    ensures longer == files + [after] && Run(calls, longer)
  {
    hide StoreStep;
    longer := files + [after];
    forall i | 0 <= i < |calls| ensures StoreStep(longer[i], calls[i], longer[i + 1]) {
      if i < |calls| - 1 {
        assert StoreStep(files[i], calls[..|calls| - 1][i], files[i + 1]);
      }
    }
  }

  lemma {:induction false} RunFront(calls: seq<StoreCall>, files: seq<Option<string>>, m: nat)
    requires Run(calls, files) && m <= |calls|
    ensures Run(calls[..m], files[..m + 1])
  {
    hide StoreStep;
  }

  lemma {:induction false} WellBehavedPrefix(calls: seq<StoreCall>, m: nat)
    requires WellBehaved(calls) && m <= |calls|
    ensures WellBehaved(calls[..m])
  {
    hide SafeNext;
    forall i | 0 <= i < m ensures SafeNext(calls[..m][..i], calls[..m][i]) {
      assert calls[..m][..i] == calls[..i] && SafeNext(calls[..i], calls[i]);
    }
  }

  lemma {:induction false} OnlyEffectiveCallsAreUnsafe(calls: seq<StoreCall>, call: StoreCall)
    ensures !SafeNext(calls, call) ==> Effective(call)
  {
  }

  /** The first call that is not safe has an outcome that breaks the map. */
  lemma {:induction false} FirstUnsafeCall(calls: seq<StoreCall>, call: StoreCall) returns (files: seq<Option<string>>)
    requires WellBehaved(calls) && !SafeNext(calls, call)
    ensures Run(calls + [call], files) && !ReadsAs(files[|calls| + 1], calls + [call])
  {
    hide WellBehaved, SafeNext, Safe, Holds, StoreStep, Entries, NewEntry, ReadsAs;
    var longer := calls + [call];
    assert longer[..|calls|] == calls;
    OnlyEffectiveCallsAreUnsafe(calls, call);
    var shorter := RunExists(calls);
    WellBehavedRunHolds(calls, shorter);
    var file := shorter[|calls|];
    SafeNextIsSafe(file, calls, call);
    var after := UnsafeOutcome(file, call);
    files := RunLonger(longer, shorter, after);
    NotTheLast(longer, after);
  }

  /** A call that is not safe has a run that breaks the map. */
  lemma {:induction false} UnsafeRun(calls: seq<StoreCall>) returns (files: seq<Option<string>>, m: nat)
    requires |calls| > 0 && !WellBehaved(calls)
    ensures Run(calls, files) && m < |files| && m <= |calls| && !ReadsAs(files[m], calls[..m])
    decreases |calls|
  {
    hide WellBehaved, SafeNext, StoreStep, ReadsAs;
    WellBehavedFront(calls);
    var k := |calls| - 1;
    var front, call := calls[..k], calls[k];
    assert calls == front + [call] && calls[..k + 1] == calls;
    if !WellBehaved(front) {
      SomeCall(front);
      var shorter;
      shorter, m := UnsafeRun(front);
      assert front[..m] == calls[..m];
      var after := StoreHasOutcome(shorter[k], call);
      files := RunLonger(calls, shorter, after);
    } else {
      files := FirstUnsafeCall(front, call);
      m := k + 1;
    }
  }

  lemma {:induction false} SomeCall(calls: seq<StoreCall>)
    requires !WellBehaved(calls)
    ensures |calls| > 0
  {
  }

  lemma {:induction false} NotTheLast(calls: seq<StoreCall>, after: Option<string>)
    requires |calls| > 0 && Effective(calls[|calls| - 1]) && !TakesEffect(calls[|calls| - 1], after)
    ensures !ReadsAs(after, calls)
  {
    hide Entries, FirstIndex;
    var n := NormalizeName(calls[|calls| - 1].name);
    assert LastStored(calls, n) == Some(NewEntry(calls[|calls| - 1]));
  }

  /** The file refines a map from names to the last entry stored under them, after every call and
      whatever the sort does with equal names, if and only if every call is safe: its names fit on
      a line, its class id does not narrow to zero, it uses the server that earlier calls under
      the name used, and the held entries print within 64 KiB. */
  lemma {:induction false} KeepsMapIffWellBehaved(calls: seq<StoreCall>)
    ensures KeepsMap(calls) <==> WellBehaved(calls)
  {
    hide ReadsAs;
    if WellBehaved(calls) {
      forall files, m | Run(calls, files) && 0 <= m < |files| ensures ReadsAs(files[m], calls[..m]) {
        RunFront(calls, files, m);
        WellBehavedPrefix(calls, m);
        WellBehavedRunHolds(calls[..m], files[..m + 1]);
      }
    } else {
      SomeCall(calls);
      var files, m := UnsafeRun(calls);
    }
  }
}
