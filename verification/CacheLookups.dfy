/** What the lookups answer after a run of stores, in terms of the calls alone. */
module CacheLookups {
  import opened Wire
  import opened CacheText
  import opened CacheFormat
  import opened ClassMask
  import opened MulticlassCache
  import opened CacheRuns

  /** The last call that stored something under this name. */
  ghost predicate IsLastStore(calls: seq<StoreCall>, i: nat, name: CString) {
    && i < |calls| && StoresUnder(calls[i], name)
    && forall j {:trigger calls[j]} :: i < j < |calls| ==> !StoresUnder(calls[j], name)
  }

  predicate StoresUnder(call: StoreCall, name: CString) {
    call.name != "" && call.server != "" && SameName(call.name, name)
  }

  lemma {:induction false} NeverStored(calls: seq<StoreCall>, name: CString)
    ensures LastStored(calls, NormalizeName(name)).None? <==>
              forall j {:trigger calls[j]} :: 0 <= j < |calls| ==> !StoresUnder(calls[j], name)
  {
    hide NormalizeName, SameName, NewEntry;
    if |calls| > 0 {
      var k := |calls| - 1;
      OneKeyIffSameName(calls[k].name, name);
      NeverStored(calls[..k], name);
      assert forall j :: 0 <= j < k ==> calls[..k][j] == calls[j];
    }
  }

  lemma {:induction false} LastStoredIs(calls: seq<StoreCall>, i: nat, name: CString)
    requires IsLastStore(calls, i, name)
    ensures LastStored(calls, NormalizeName(name)) == Some(NewEntry(calls[i]))
  {
    hide NormalizeName, SameName, NewEntry;
    var k := |calls| - 1;
    OneKeyIffSameName(calls[k].name, name);
    if i < k {
      assert !StoresUnder(calls[k], name);
      LastStoredIs(calls[..k], i, name);
    }
  }

  lemma {:induction false} SomeLastStore(calls: seq<StoreCall>, name: CString) returns (i: nat)
    requires LastStored(calls, NormalizeName(name)).Some?
    ensures IsLastStore(calls, i, name)
  {
    hide NormalizeName, SameName, NewEntry;
    i := |calls| - 1;
    OneKeyIffSameName(calls[i].name, name);
    if !StoresUnder(calls[i], name) {
      i := SomeLastStore(calls[..i], name);
    }
  }

  /** No server is asked for, or the call's. */
  predicate AskedServer(call: StoreCall, server: CString) {
    server == "" || SameName(call.server, server)
  }

  lemma {:induction false} ServerAsked(call: StoreCall, server: CString)
    ensures AskedServer(call, server) <==>
              NormalizeName(server) == "" || NormalizeName(call.server) == NormalizeName(server)
  {
    OneKeyIffSameName(call.server, server);
    assert server != "" ==> server[0] in server;
  }

  lemma {:induction false} SafeCallHasClass(calls: seq<StoreCall>, i: nat)
    requires WellBehaved(calls) && i < |calls| && Effective(calls[i])
    ensures calls[i].classId % 0x100 != 0
  {
    SafeNextMeans(calls[..i], calls[i]);
    hide SafeNext;
    assert SafeNext(calls[..i], calls[i]);
  }

  /** After every well-behaved run, whatever the sort did, a lookup of a name answers `mask` if and
      only if the last store under that name, in any case, had that mask, its class id (of which
      eight bits are kept) is the one asked for or none is, and its server is the one asked for or
      none is. */
  lemma {:induction false} LookupIsLastStore(
      calls: seq<StoreCall>, files: seq<Option<string>>, name: CString, classId: uint32, server: CString, mask: uint32)
    requires Run(calls, files) && WellBehaved(calls)
    ensures LookupMask(Entries(files[|calls|]), NormalizeName(name), classId, NormalizeName(server)) == Some(mask) <==>
            exists i: nat :: && IsLastStore(calls, i, name) && calls[i].mask == mask
                             && (classId == 0 || calls[i].classId % 0x100 == classId)
                             && (server == "" || SameName(calls[i].server, server))
  {
    WellBehavedRunHolds(calls, files);
    var n := NormalizeName(name);
    hide Run, Holds, WellBehaved, Entries, EntryFor, LastStored, NormalizeName, SameName;
    assert EntryFor(Entries(files[|calls|]), n) == LastStored(calls, n);
    if LastStored(calls, n).Some? {
      var i := SomeLastStore(calls, name);
      LastStoredIs(calls, i, name);
      ServerAsked(calls[i], server);
      SafeCallHasClass(calls, i);
      forall j: nat | IsLastStore(calls, j, name) ensures j == i {
        OnlyOneLast(calls, i, j, name);
      }
    } else {
      NeverStored(calls, name);
    }
  }

  lemma {:induction false} OnlyOneLast(calls: seq<StoreCall>, i: nat, j: nat, name: CString)
    requires IsLastStore(calls, i, name) && IsLastStore(calls, j, name)
    ensures i == j
  {
    hide SameName;
  }

  // ---------- Lookup by class ----------

  /** The last store under its own name, on the server asked for, of this class, with a mask that
      holds the class. */
  ghost predicate IsMatch(calls: seq<StoreCall>, i: nat, classId: nat, server: CString)
    requires 1 <= classId <= 32
  {
    && i < |calls| && IsLastStore(calls, i, calls[i].name)
    && (server == "" || SameName(calls[i].server, server))
    && calls[i].classId % 0x100 == classId && HasBit(calls[i].mask, classId)
  }

  lemma {:induction false} LastStoreIsEntry(calls: seq<StoreCall>, files: seq<Option<string>>, i: nat)
    requires Run(calls, files) && WellBehaved(calls)
    requires i < |calls| && IsLastStore(calls, i, calls[i].name)
    ensures NewEntry(calls[i]) in Entries(files[|calls|])
  {
    WellBehavedRunHolds(calls, files);
    var n := NormalizeName(calls[i].name);
    LastStoredIs(calls, i, calls[i].name);
    hide Run, Holds, WellBehaved, Entries, FirstIndex, LastStored, NormalizeName, SameName, NewEntry;
    assert EntryFor(Entries(files[|calls|]), n) == LastStored(calls, n);
  }

  lemma {:induction false} EntryIsLastStore(calls: seq<StoreCall>, files: seq<Option<string>>, x: CacheEntry)
      returns (i: nat)
    requires Run(calls, files) && WellBehaved(calls) && x in Entries(files[|calls|])
    ensures i < |calls| && IsLastStore(calls, i, calls[i].name) && x == NewEntry(calls[i])
  {
    WellBehavedRunHolds(calls, files);
    EntriesAreGood(files[|calls|]);
    EntryForIs(Entries(files[|calls|]), x);
    hide Run, Holds, WellBehaved, Entries, FirstIndex, SameName;
    assert EntryFor(Entries(files[|calls|]), x.normalizedName) == LastStored(calls, x.normalizedName);
    var j := LastStoredIsOneOf(calls, x.normalizedName);
    hide LastStored, NormalizeName;
    i := SomeLastStore(calls, calls[j].name);
    LastStoredIs(calls, i, calls[j].name);
    SameNameAgain(calls, i, calls[j].name);
  }

  lemma {:induction false} SameNameAgain(calls: seq<StoreCall>, i: nat, name: CString)
    requires IsLastStore(calls, i, name)
    ensures IsLastStore(calls, i, calls[i].name)
  {
    forall j | i < j < |calls| ensures !StoresUnder(calls[j], calls[i].name) {
      assert !StoresUnder(calls[j], name);
      OneKeyIffSameName(calls[j].name, calls[i].name);
      OneKeyIffSameName(calls[j].name, name);
      OneKeyIffSameName(calls[i].name, name);
    }
    OneKeyIffSameName(calls[i].name, calls[i].name);
  }

  lemma {:induction false} MatchIs(calls: seq<StoreCall>, i: nat, classId: nat, server: CString)
    requires WellBehaved(calls) && 1 <= classId <= 32
    requires i < |calls| && IsLastStore(calls, i, calls[i].name)
    ensures ClassMatches(NewEntry(calls[i]), classId, NormalizeName(server)) <==> IsMatch(calls, i, classId, server)
  {
    hide WellBehaved, NormalizeName, SameName, HasBit, IsLastStore;
    ServerAsked(calls[i], server);
    assert Effective(calls[i]) by {
      StoresItself(calls, i);
    }
    SafeCallHasClass(calls, i);
  }

  lemma {:induction false} StoresItself(calls: seq<StoreCall>, i: nat)
    requires i < |calls| && IsLastStore(calls, i, calls[i].name)
    ensures Effective(calls[i])
  {
  }

  ghost predicate EntryHasMask(entries: seq<CacheEntry>, classId: nat, server: string, mask: uint32)
    requires 1 <= classId <= 32
  {
    exists x :: x in entries && ClassMatches(x, classId, server) && x.mask == mask
  }

  ghost predicate StoreHasMask(calls: seq<StoreCall>, classId: nat, server: CString, mask: uint32)
    requires 1 <= classId <= 32
  {
    exists i: nat :: IsMatch(calls, i, classId, server) && calls[i].mask == mask
  }

  /** After every well-behaved run the lookup by class has a match with some mask if and only if a
      name's last store had that mask, this class and the server asked for. */
  lemma {:induction false} MatchesAreLastStores(
      calls: seq<StoreCall>, files: seq<Option<string>>, classId: nat, server: CString, mask: uint32)
    requires Run(calls, files) && WellBehaved(calls) && 1 <= classId <= 32
    ensures EntryHasMask(Entries(files[|calls|]), classId, NormalizeName(server), mask) <==>
              StoreHasMask(calls, classId, server, mask)
  {
    assert |files| == |calls| + 1;
    hide Run, WellBehaved, Entries, NormalizeName, SameName, ClassMatches, IsLastStore;
    if x :| x in Entries(files[|calls|]) && ClassMatches(x, classId, NormalizeName(server)) && x.mask == mask {
      var i := EntryIsLastStore(calls, files, x);
      MatchIs(calls, i, classId, server);
      assert IsMatch(calls, i, classId, server) && calls[i].mask == mask;
    }
    if i: nat :| IsMatch(calls, i, classId, server) && calls[i].mask == mask {
      LastStoreIsEntry(calls, files, i);
      MatchIs(calls, i, classId, server);
      var x := NewEntry(calls[i]);
      assert x in Entries(files[|calls|]) && ClassMatches(x, classId, NormalizeName(server)) && x.mask == mask;
    }
  }

  lemma {:induction false} UniqueMaskMeans(
      entries: seq<CacheEntry>, classId: nat, server: string, mask: Option<uint32>, m: uint32)
    requires IsUniqueMask(entries, classId, server, mask)
    ensures mask == Some(m) <==>
              && 1 <= classId <= 32 && EntryHasMask(entries, classId, server, m)
              && (forall x {:trigger ClassMatches(x, classId, server)} ::
                    x in entries && ClassMatches(x, classId, server) ==> x.mask == m)
  {
    hide ClassMatches;
  }

  /** So what the lookup by class answers then is the mask on which all matching last stores agree,
      if there is one. */
  lemma {:induction false} UniqueMaskIsOfLastStores(
      calls: seq<StoreCall>, files: seq<Option<string>>, classId: nat, server: CString, mask: Option<uint32>, m: uint32)
    requires Run(calls, files) && WellBehaved(calls)
    requires IsUniqueMask(Entries(files[|calls|]), classId, NormalizeName(server), mask)
    ensures mask == Some(m) <==>
              && 1 <= classId <= 32
              && (exists i: nat :: IsMatch(calls, i, classId, server) && calls[i].mask == m)
              && (forall i: nat :: IsMatch(calls, i, classId, server) ==> calls[i].mask == m)
  {
    var entries, s := Entries(files[|calls|]), NormalizeName(server);
    UniqueMaskMeans(entries, classId, s, mask, m);
    hide Run, WellBehaved, Entries, NormalizeName, ClassMatches, IsMatch, IsUniqueMask;
    if 1 <= classId <= 32 {
      MatchesAreLastStores(calls, files, classId, server, m);
      if forall i: nat :: IsMatch(calls, i, classId, server) ==> calls[i].mask == m {
        forall x | x in entries && ClassMatches(x, classId, s) ensures x.mask == m {
          MatchesAreLastStores(calls, files, classId, server, x.mask);
        }
      }
      if forall x :: x in entries && ClassMatches(x, classId, s) ==> x.mask == m {
        forall i: nat | IsMatch(calls, i, classId, server) ensures calls[i].mask == m {
          MatchesAreLastStores(calls, files, classId, server, calls[i].mask);
        }
      }
    }
  }
}
