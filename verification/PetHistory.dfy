/** What the packets, the roster and the snapshot say in terms of the packets received. */
module PetHistory {
  import opened Wire
  import opened PacketReader
  import opened PetRoster
  import SpawnPacket

  // ---------- Packets ----------

  /** A spawn packet is seen as a pet if and only if the payload starts with an encoded spawn that has
      a name and an owner; the pet has its id, owner and name. */
  lemma {:induction false} SpawnEventIff(payload: Option<Payload>, id: uint32, owner: uint32, name: seq<byte>)
    ensures SpawnEvent(payload) == Seen(id, owner, name) <==>
              payload.Some? && owner != 0 &&
              exists p :: && SpawnPacket.WellFormed(p) && SpawnPacket.Encode(p) <= payload.value
                          && p.spawnId == id && p.ownerId == owner && p.name == name
    ensures SpawnEvent(payload).Seen? || SpawnEvent(payload).Ignored?
  {
    if payload.Some? {
      SpawnPacket.DecodeIsExact(payload.value, SpawnPacket.Spawn(name, id, owner));
    }
    hide SpawnPacket.Decode, SpawnPacket.Encode;
  }

  /** A delete packet takes away the pet whose id its payload starts with. */
  lemma {:induction false} DeleteEventIff(payload: Option<Payload>, id: uint32)
    ensures DeleteEvent(payload) == Gone(id) <==> payload.Some? && U32Bytes(id) <= payload.value
    ensures DeleteEvent(payload).Ignored? <==> payload.None? || |payload.value| < 4
  {
    if payload.Some? {
      U32IsExact(payload.value, 0, id);
      assert payload.value[0..] == payload.value;
    }
    hide LoadU32;
  }

  // ---------- Names ----------

  /** A name in front of the suffix "000" is shown without it. */
  lemma {:induction false} SuffixIsCut(base: seq<byte>)
    requires base != []
    ensures DisplayName(base + [48, 48, 48]) == base
  {
    var raw := base + [48, 48, 48];
    assert raw[|raw| - 3..] == [48, 48, 48] && raw[..|raw| - 3] == base;
  }

  /** Every other name is shown as it is. */
  lemma {:induction false} OtherNamesAreShown(raw: seq<byte>)
    requires forall base :: base != [] ==> raw != base + [48, 48, 48]
    ensures DisplayName(raw) == raw
  {
    if |raw| > 3 && raw[|raw| - 3..] == ZEROS {
      assert raw == raw[..|raw| - 3] + [48, 48, 48];
    }
  }

  // ---------- What the history says ----------

  /** The pet was last seen with event `k` and has not gone since. */
  ghost predicate LastSeen(events: seq<Event>, k: nat, id: uint32) {
    && k < |events| && events[k].Seen? && events[k].spawnId == id
    && forall j {:trigger events[j]} :: k < j < |events| ==>
         !events[j].Cleared? && events[j] != Gone(id) && !(events[j].Seen? && events[j].spawnId == id)
  }

  lemma {:induction false} PetNowIff(events: seq<Event>, id: uint32, owner: uint32, name: seq<byte>)
    ensures PetNow(events, id) == Some(Pet(owner, name)) <==>
              exists k: nat :: LastSeen(events, k, id) && events[k].ownerId == owner && events[k].name == name
  {
    if events != [] {
      var n := |events| - 1;
      var front, e := events[..n], events[n];
      PetNowIff(front, id, owner, name);
      hide PetNow;
      if e.Seen? && e.spawnId == id {
        assert LastSeen(events, n, id);
      }
      if k: nat :| LastSeen(front, k, id) && front[k].ownerId == owner && front[k].name == name {
        if !e.Cleared? && e != Gone(id) && !(e.Seen? && e.spawnId == id) {
          assert LastSeen(events, k, id);
        }
      }
      if k: nat :| LastSeen(events, k, id) && events[k].ownerId == owner && events[k].name == name {
        if k < n {
          assert LastSeen(front, k, id);
        }
      }
      NextPet(events, id);
    }
  }

  lemma NextPet(events: seq<Event>, id: uint32)
    requires events != []
    ensures PetNow(events, id) == PetNext(PetNow(events[..|events| - 1], id), events[|events| - 1], id)
  {
  }

  /** Event `k` is the first sight of the pet since the last clear. */
  ghost predicate FirstSight(events: seq<Event>, k: nat, id: uint32) {
    && k < |events| && events[k].Seen? && events[k].spawnId == id
    && (forall j {:trigger events[j]} :: k <= j < |events| ==> !events[j].Cleared?)
    && (forall j {:trigger events[j]} :: 0 <= j < k && events[j].Seen? && events[j].spawnId == id ==>
          ClearBetween(events, j, k))
  }

  ghost predicate ClearBetween(events: seq<Event>, j: nat, k: nat) {
    exists c :: j < c < k && c < |events| && events[c].Cleared?
  }

  lemma {:induction false} FirstSightEarlier(events: seq<Event>, k: nat, id: uint32)
    requires events != [] && k < |events| - 1
    ensures FirstSight(events, k, id) <==>
              FirstSight(events[..|events| - 1], k, id) && !events[|events| - 1].Cleared?
  {
    var n := |events| - 1;
    var front := events[..n];
    forall j: nat | j < k ensures ClearBetween(front, j, k) <==> ClearBetween(events, j, k) {
      if c :| j < c < k && events[c].Cleared? {
        assert front[c].Cleared?;
      }
      if c :| j < c < k && front[c].Cleared? {
        assert events[c].Cleared?;
      }
    }
    assert forall j :: 0 <= j < n ==> front[j] == events[j];
  }

  /** The pets of the vector are those with a first sight, in the order of their first sights. */
  lemma {:induction false} FirstSeenIff(events: seq<Event>, id: uint32)
    ensures id in FirstSeen(events) <==> exists k: nat :: FirstSight(events, k, id)
  {
    if events != [] {
      var n := |events| - 1;
      var front, e := events[..n], events[n];
      FirstSeenIff(front, id);
      NextFirstSeen(events);
      hide FirstSeen;
      if k: nat :| FirstSight(events, k, id) && k < n {
        FirstSightEarlier(events, k, id);
      }
      if k: nat :| FirstSight(front, k, id) && !e.Cleared? {
        FirstSightEarlier(events, k, id);
      }
      if e.Seen? && e.spawnId == id && id !in FirstSeen(front) {
        NewSight(events, front, id);
      }
    }
  }

  lemma NextFirstSeen(events: seq<Event>)
    requires events != []
    ensures var before, e := FirstSeen(events[..|events| - 1]), events[|events| - 1];
            FirstSeen(events) ==
            if e.Cleared? then [] else if e.Seen? && e.spawnId !in before then before + [e.spawnId] else before
  {
  }

  /** A pet with no first sight so far has one in a packet that shows it. */
  lemma {:induction false} NewSight(events: seq<Event>, front: seq<Event>, id: uint32)
    requires events != [] && events[|events| - 1].Seen? && events[|events| - 1].spawnId == id
    requires front == events[..|events| - 1] && forall k: nat :: !FirstSight(front, k, id)
    ensures FirstSight(events, |events| - 1, id)
  {
    var n := |front|;
    forall j | 0 <= j < n && events[j].Seen? && events[j].spawnId == id ensures ClearBetween(events, j, n) {
      assert front[j] == events[j];
      SightOrClear(front, j, id);
      var c :| j < c < n && front[c].Cleared?;
      assert events[c].Cleared?;
    }
  }

  /** After a sight there is a first sight, or a clear came since. */
  lemma {:induction false} SightOrClear(events: seq<Event>, j: nat, id: uint32)
    requires j < |events| && events[j].Seen? && events[j].spawnId == id
    ensures (exists k: nat :: FirstSight(events, k, id)) || ClearBetween(events, j, |events|)
  {
    if !ClearBetween(events, j, |events|) {
      if i: nat :| i < j && events[i].Seen? && events[i].spawnId == id && !ClearBetween(events, i, j) {
        SightOrClear(events, i, id);
      } else {
        assert FirstSight(events, j, id);
      }
    }
  }

  lemma {:induction false} OneFirstSight(events: seq<Event>, k: nat, m: nat, id: uint32)
    requires FirstSight(events, k, id) && FirstSight(events, m, id)
    ensures k == m
  {
  }

  lemma {:induction false} FirstSeenInOrder(events: seq<Event>, i: nat, j: nat, k: nat, m: nat)
    requires i < j < |FirstSeen(events)|
    requires FirstSight(events, k, FirstSeen(events)[i]) && FirstSight(events, m, FirstSeen(events)[j])
    ensures k < m
  {
    var n := |events| - 1;
    var front, e := events[..n], events[n];
    NextFirstSeen(events);
    hide FirstSeen, FirstSight;
    var x, y := FirstSeen(events)[i], FirstSeen(events)[j];
    FirstSeenIff(front, x);
    var k': nat :| FirstSight(front, k', x);
    SightStays(events, front, k', x);
    OneFirstSight(events, k, k', x);
    if j < |FirstSeen(front)| {
      FirstSeenIff(front, y);
      var m': nat :| FirstSight(front, m', y);
      SightStays(events, front, m', y);
      OneFirstSight(events, m, m', y);
      FirstSeenInOrder(front, i, j, k, m);
    } else {
      FirstSeenIff(front, y);
      SightIsNew(events, front, m, y);
    }
  }

  lemma {:induction false} SightStays(events: seq<Event>, front: seq<Event>, k: nat, id: uint32)
    requires events != [] && front == events[..|events| - 1] && !events[|events| - 1].Cleared?
    requires FirstSight(front, k, id)
    ensures k < |front| && FirstSight(events, k, id)
  {
    FirstSightEarlier(events, k, id);
  }

  lemma {:induction false} SightIsNew(events: seq<Event>, front: seq<Event>, k: nat, id: uint32)
    requires events != [] && front == events[..|events| - 1]
    requires FirstSight(events, k, id) && !FirstSight(front, k, id)
    ensures k == |front|
  {
    if k < |front| {
      FirstSightEarlier(events, k, id);
    }
  }

  // ---------- The two slots ----------

  /** The pet is there, under this owner, and is not the focused one. */
  predicate IsCompanion(events: seq<Event>, id: uint32, owner: uint32, focused: uint32) {
    PetNow(events, id).Some? && PetNow(events, id).value.ownerId == owner && id != focused
  }

  /** How a pet that is there is shown. */
  function ShownAs(events: seq<Event>, id: uint32): OtherPet
    requires PetNow(events, id).Some?
  {
    OtherPet(DisplayName(PetNow(events, id).value.name), id)
  }

  lemma {:induction false} CompanionsCut(events: seq<Event>, ids: seq<uint32>, owner: uint32, focused: uint32, n: nat)
    requires n <= |ids|
    ensures Companions(events, ids[..n], owner, focused) <= Companions(events, ids, owner, focused)
    decreases |ids|
  {
    hide PetNow, DisplayName;
    if n == |ids| {
      assert ids[..n] == ids;
    } else {
      assert ids[..|ids| - 1][..n] == ids[..n];
      CompanionsCut(events, ids[..|ids| - 1], owner, focused, n);
    }
  }

  lemma {:induction false} NextCompanion(events: seq<Event>, ids: seq<uint32>, owner: uint32, focused: uint32, i: nat)
    requires i < |ids|
    ensures Companions(events, ids[..i + 1], owner, focused) ==
            Companions(events, ids[..i], owner, focused) +
            if IsCompanion(events, ids[i], owner, focused) then [ShownAs(events, ids[i])] else []
  {
    hide PetNow, DisplayName;
    assert ids[..i + 1][..i] == ids[..i];
  }

  lemma {:induction false} NoCompanion(events: seq<Event>, ids: seq<uint32>, owner: uint32, focused: uint32)
    ensures Companions(events, ids, owner, focused) == [] <==>
              forall j {:trigger ids[j]} :: 0 <= j < |ids| ==> !IsCompanion(events, ids[j], owner, focused)
  {
    if ids != [] {
      var n := |ids| - 1;
      NoCompanion(events, ids[..n], owner, focused);
      assert ids[..n + 1] == ids;
      NextCompanion(events, ids, owner, focused, n);
      hide IsCompanion, Companions;
      assert forall j :: 0 <= j < n ==> ids[..n][j] == ids[j];
    }
  }

  /** The first companion is the first one shown. */
  lemma {:induction false} FirstCompanion(events: seq<Event>, ids: seq<uint32>, owner: uint32, focused: uint32, i: nat)
    requires i < |ids| && IsCompanion(events, ids[i], owner, focused)
    requires forall j {:trigger ids[j]} :: 0 <= j < i ==> !IsCompanion(events, ids[j], owner, focused)
    ensures var shown := Companions(events, ids[..i + 1], owner, focused);
            shown == [ShownAs(events, ids[i])] && shown <= Companions(events, ids, owner, focused)
  {
    hide IsCompanion, Companions;
    NoCompanion(events, ids[..i], owner, focused);
    NextCompanion(events, ids, owner, focused, i);
    CompanionsCut(events, ids, owner, focused, i + 1);
  }

  /** The companions between two places of the list are none. */
  lemma {:induction false} GapHasNone(
      events: seq<Event>, ids: seq<uint32>, owner: uint32, focused: uint32, h: nat, i: nat)
    requires h <= i <= |ids|
    requires forall j {:trigger ids[j]} :: h <= j < i ==> !IsCompanion(events, ids[j], owner, focused)
    ensures Companions(events, ids[..i], owner, focused) == Companions(events, ids[..h], owner, focused)
  {
    hide IsCompanion, Companions;
    if h < i {
      GapHasNone(events, ids, owner, focused, h, i - 1);
      NextCompanion(events, ids, owner, focused, i - 1);
    }
  }

  /** The second companion is the second one shown. */
  lemma {:induction false} SecondCompanion(
      events: seq<Event>, ids: seq<uint32>, owner: uint32, focused: uint32, h: nat, i: nat)
    requires h < i < |ids|
    requires IsCompanion(events, ids[h], owner, focused) && IsCompanion(events, ids[i], owner, focused)
    requires forall j {:trigger ids[j]} :: 0 <= j < i && j != h ==> !IsCompanion(events, ids[j], owner, focused)
    ensures [ShownAs(events, ids[h]), ShownAs(events, ids[i])] <= Companions(events, ids, owner, focused)
  {
    hide IsCompanion, Companions;
    FirstCompanion(events, ids, owner, focused, h);
    GapHasNone(events, ids, owner, focused, h + 1, i);
    NextCompanion(events, ids, owner, focused, i);
    CompanionsCut(events, ids, owner, focused, i + 1);
  }

  /** The companions in the order of their first sights. */
  ghost predicate IsFirst(events: seq<Event>, i: nat, owner: uint32, focused: uint32) {
    && i < |FirstSeen(events)| && IsCompanion(events, FirstSeen(events)[i], owner, focused)
    && forall j :: 0 <= j < i ==> !IsCompanion(events, FirstSeen(events)[j], owner, focused)
  }

  ghost predicate IsSecond(events: seq<Event>, h: nat, i: nat, owner: uint32, focused: uint32) {
    && h < i < |FirstSeen(events)| && IsFirst(events, h, owner, focused)
    && IsCompanion(events, FirstSeen(events)[i], owner, focused)
    && forall j :: h < j < i ==> !IsCompanion(events, FirstSeen(events)[j], owner, focused)
  }

  /** With a focused pet that is there, the first slot shows the companion first seen, the second the
      one seen next; a slot without such a pet is empty. */
  lemma {:induction false} SlotsFromHistory(events: seq<Event>, focused: uint32, h: nat, i: nat)
    requires AllGenuine(events) && focused != 0 && PetNow(events, focused).Some?
    ensures var owner := PetNow(events, focused).value.ownerId;
            var slots := SnapshotOf(After(events).entries, true, focused).slots;
            && |slots| == 2
            && (IsFirst(events, h, owner, focused) ==> slots[0] == Some(ShownAs(events, FirstSeen(events)[h])))
            && (IsSecond(events, h, i, owner, focused) ==> slots[1] == Some(ShownAs(events, FirstSeen(events)[i])))
            && (slots[0].Some? ==> exists k: nat :: IsFirst(events, k, owner, focused))
            && (slots[1].Some? ==> exists k: nat, m: nat :: IsSecond(events, k, m, owner, focused))
  {
    SnapshotFromHistory(events, true, focused);
    var owner, ids := PetNow(events, focused).value.ownerId, FirstSeen(events);
    hide FirstSeen, PetNow, After, Companions, IsCompanion, ShownAs, SnapshotOf;
    if IsFirst(events, h, owner, focused) {
      FirstCompanion(events, ids, owner, focused, h);
    }
    if IsSecond(events, h, i, owner, focused) {
      SecondCompanion(events, ids, owner, focused, h, i);
    }
    CompanionsExist(events, owner, focused);
  }

  lemma {:induction false} CompanionsExist(events: seq<Event>, owner: uint32, focused: uint32)
    ensures var shown := Companions(events, FirstSeen(events), owner, focused);
            && (|shown| > 0 ==> exists k: nat :: IsFirst(events, k, owner, focused))
            && (|shown| > 1 ==> exists k: nat, m: nat :: IsSecond(events, k, m, owner, focused))
  {
    var ids := FirstSeen(events);
    hide FirstSeen, IsCompanion, Companions;
    assert ids[..|ids|] == ids;
    if |Companions(events, ids, owner, focused)| > 0 {
      NoCompanion(events, ids, owner, focused);
      var some: nat :| some < |ids| && IsCompanion(events, ids[some], owner, focused);
      var h := FirstFrom(events, ids, owner, focused, 0, some);
      assert IsFirst(events, h, owner, focused);
      FirstCompanion(events, ids, owner, focused, h);
      if |Companions(events, ids, owner, focused)| > 1 {
        if forall j {:trigger ids[j]} :: h < j < |ids| ==> !IsCompanion(events, ids[j], owner, focused) {
          GapHasNone(events, ids, owner, focused, h + 1, |ids|);
        } else {
          var other: nat :| h < other < |ids| && IsCompanion(events, ids[other], owner, focused);
          var i := FirstFrom(events, ids, owner, focused, h + 1, other);
          assert IsSecond(events, h, i, owner, focused);
        }
      }
    }
  }

  lemma {:induction false} FirstFrom(
      events: seq<Event>, ids: seq<uint32>, owner: uint32, focused: uint32, start: nat, some: nat) returns (i: nat)
    requires start <= some < |ids| && IsCompanion(events, ids[some], owner, focused)
    ensures start <= i < |ids| && IsCompanion(events, ids[i], owner, focused)
    ensures forall j {:trigger ids[j]} :: start <= j < i ==> !IsCompanion(events, ids[j], owner, focused)
    decreases some - start
  {
    hide IsCompanion;
    if IsCompanion(events, ids[start], owner, focused) {
      i := start;
    } else {
      i := FirstFrom(events, ids, owner, focused, start + 1, some);
    }
  }

  /** Without a focused pet that is there, both slots are empty. */
  lemma {:induction false} NoSlotsWithoutFocus(events: seq<Event>, hasFocused: bool, focused: uint32)
    requires AllGenuine(events) && (!hasFocused || focused == 0 || PetNow(events, focused).None?)
    ensures SnapshotOf(After(events).entries, hasFocused, focused) == Snapshot(focused, [None, None])
  {
    SnapshotFromHistory(events, hasFocused, focused);
  }
}
