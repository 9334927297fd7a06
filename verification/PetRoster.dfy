/** The roster of pets the proxy has seen spawn, and the names it shows for the pets beside the
    focused one. */
module PetRoster {
  import opened Wire
  import opened PacketReader
  import opened Sorting
  import SpawnPacket

  datatype PetEntry = PetEntry(spawnId: uint32, ownerId: uint32, order: nat, active: bool, name: seq<byte>)

  datatype State = State(entries: seq<PetEntry>, next: nat)

  // ---------- Events ----------

  /** What a packet means to the roster; most packets mean nothing. */
  datatype Event =
    | Seen(spawnId: uint32, ownerId: uint32, name: seq<byte>)
    | Gone(spawnId: uint32)
    | Cleared
    | Ignored

  /** A spawn packet counts when it decodes and its pet has an owner. */
  function SpawnEvent(payload: Option<Payload>): Event {
    match SpawnPacket.DecodePayload(payload)
    case None => Ignored
    case Some(spawn) =>
      if spawn.ownerId == 0 || spawn.name == [] then Ignored else Seen(spawn.spawnId, spawn.ownerId, spawn.name)
  }

  function DeleteEvent(payload: Option<Payload>): Event {
    if payload.None? || |payload.value| < 4 then Ignored else Gone(LoadU32(payload.value, 0))
  }

  predicate Genuine(e: Event) {
    e.Seen? ==> e.ownerId != 0 && e.name != []
  }

  lemma {:induction false} SpawnEventIsGenuine(payload: Option<Payload>)
    ensures Genuine(SpawnEvent(payload))
  {
  }

  // ---------- The roster, step by step ----------

  /** Index of the entry with this id; the number of entries when there is none. */
  function IndexOf(entries: seq<PetEntry>, spawnId: uint32): (k: nat)
    ensures k <= |entries|
    ensures k < |entries| ==> entries[k].spawnId == spawnId
    ensures forall i :: 0 <= i < k ==> entries[i].spawnId != spawnId
  {
    if entries == [] || entries[0].spawnId == spawnId then 0 else 1 + IndexOf(entries[1..], spawnId)
  }

  function Step(s: State, e: Event): State {
    match e
    case Seen(id, owner, name) =>
      var k := IndexOf(s.entries, id);
      if k < |s.entries| then s.(entries := s.entries[k := s.entries[k].(ownerId := owner, name := name, active := true)])
      else State(s.entries + [PetEntry(id, owner, s.next, true, name)], s.next + 1)
    case Gone(id) =>
      var k := IndexOf(s.entries, id);
      if k < |s.entries| then s.(entries := s.entries[k := s.entries[k].(active := false)]) else s
    case Cleared => State([], 1)
    case Ignored => s
  }

  function After(events: seq<Event>): State {
    if events == [] then State([], 1) else Step(After(events[..|events| - 1]), events[|events| - 1])
  }

  /** Ids are unique, and the orders along the vector are 1, 2, 3, ... */
  ghost predicate WellKept(s: State) {
    && (forall i, j :: 0 <= i < j < |s.entries| ==> s.entries[i].spawnId != s.entries[j].spawnId)
    && (forall i {:trigger s.entries[i]} :: 0 <= i < |s.entries| ==>
          s.entries[i].order == i + 1 && s.entries[i].ownerId != 0 && s.entries[i].name != [])
    && s.next == |s.entries| + 1
  }

  lemma {:induction false} StepKeeps(s: State, e: Event)
    requires WellKept(s) && Genuine(e)
    ensures WellKept(Step(s, e))
  {
  }

  // ---------- The roster as a function of its history ----------

  /** The pets seen since the last clear, in the order they were first seen. */
  function FirstSeen(events: seq<Event>): seq<uint32> {
    if events == [] then []
    else
      var before, e := FirstSeen(events[..|events| - 1]), events[|events| - 1];
      if e.Cleared? then [] else if e.Seen? && e.spawnId !in before then before + [e.spawnId] else before
  }

  datatype Pet = Pet(ownerId: uint32, name: seq<byte>)

  /** The pet as it was last seen, unless it has gone since. */
  function PetNow(events: seq<Event>, id: uint32): Option<Pet> {
    if events == [] then None else PetNext(PetNow(events[..|events| - 1], id), events[|events| - 1], id)
  }

  function PetNext(before: Option<Pet>, e: Event, id: uint32): Option<Pet> {
    match e
    case Cleared => None
    case Seen(seen, owner, name) => if seen == id then Some(Pet(owner, name)) else before
    case Gone(gone) => if gone == id then None else before
    case Ignored => before
  }

  predicate Shows(events: seq<Event>, p: PetEntry) {
    PetNow(events, p.spawnId) == if p.active then Some(Pet(p.ownerId, p.name)) else None
  }

  ghost predicate AllGenuine(events: seq<Event>) {
    forall k {:trigger events[k]} :: 0 <= k < |events| ==> Genuine(events[k])
  }

  function Ids(entries: seq<PetEntry>): (ids: seq<uint32>)
    ensures |ids| == |entries|
    ensures forall i :: 0 <= i < |ids| ==> ids[i] == entries[i].spawnId
  {
    seq(|entries|, i requires 0 <= i < |entries| => entries[i].spawnId)
  }

  /** The vector holds the pets in the order they were first seen, one entry each, and an entry is
      active with an owner and a name exactly when the history says so. */
  ghost predicate Reflects(s: State, events: seq<Event>) {
    && WellKept(s) && Ids(s.entries) == FirstSeen(events)
    && (forall i {:trigger s.entries[i]} :: 0 <= i < |s.entries| ==> Shows(events, s.entries[i]))
    && (forall id {:trigger PetNow(events, id)} :: id !in FirstSeen(events) ==> PetNow(events, id).None?)
  }

  lemma {:induction false} HistoryStep(events: seq<Event>, e: Event)
    ensures FirstSeen(events + [e]) ==
            if e.Cleared? then []
            else if e.Seen? && e.spawnId !in FirstSeen(events) then FirstSeen(events) + [e.spawnId]
            else FirstSeen(events)
    ensures forall id: uint32 {:trigger PetNow(events + [e], id)} ::
              PetNow(events + [e], id) == PetNext(PetNow(events, id), e, id)
  {
    assert (events + [e])[..|events|] == events;
  }

  lemma {:induction false} IdsStep(s: State, events: seq<Event>, e: Event)
    requires Ids(s.entries) == FirstSeen(events)
    ensures Ids(Step(s, e).entries) == FirstSeen(events + [e])
  {
    HistoryStep(events, e);
    hide FirstSeen, PetNow;
    assert forall i :: 0 <= i < |s.entries| ==> s.entries[i].spawnId == Ids(s.entries)[i];
    if e.Seen? {
      var k := IndexOf(s.entries, e.spawnId);
      if k < |s.entries| {
        assert Ids(s.entries)[k] == e.spawnId;
      }
    }
  }

  lemma {:induction false} ShowsStep(s: State, events: seq<Event>, e: Event, i: nat)
    requires Reflects(s, events) && i < |Step(s, e).entries|
    ensures Shows(events + [e], Step(s, e).entries[i])
  {
    HistoryStep(events, e);
    hide FirstSeen, PetNow;
    if i < |s.entries| {
      assert Shows(events, s.entries[i]);
    }
  }

  lemma {:induction false} AbsentStep(events: seq<Event>, e: Event, id: uint32)
    requires id !in FirstSeen(events) ==> PetNow(events, id).None?
    ensures id !in FirstSeen(events + [e]) ==> PetNow(events + [e], id).None?
  {
    HistoryStep(events, e);
  }

  lemma {:induction false} ReflectionStep(s: State, events: seq<Event>, e: Event)
    requires Reflects(s, events) && Genuine(e)
    ensures Reflects(Step(s, e), events + [e])
  {
    StepKeeps(s, e);
    IdsStep(s, events, e);
    var s' := Step(s, e);
    forall i: nat | i < |s'.entries| ensures Shows(events + [e], s'.entries[i]) {
      ShowsStep(s, events, e, i);
    }
    hide Step, WellKept, FirstSeen, PetNow, Ids, Shows;
    forall id: uint32 | id !in FirstSeen(events + [e]) ensures PetNow(events + [e], id).None? {
      AbsentStep(events, e, id);
    }
  }

  lemma {:induction false} RosterReflectsHistory(events: seq<Event>)
    requires AllGenuine(events)
    ensures Reflects(After(events), events)
  {
    if events == [] {
    } else {
      hide Reflects;
      var front, e := events[..|events| - 1], events[|events| - 1];
      assert front + [e] == events;
      RosterReflectsHistory(front);
      ReflectionStep(After(front), front, e);
    }
  }

  // ---------- The snapshot ----------

  datatype OtherPet = OtherPet(name: seq<byte>, spawnId: uint32)

  /** The focused pet as the statistics packet gave it, and two slots for the others. */
  datatype Snapshot = Snapshot(focusedPetId: uint32, slots: seq<Option<OtherPet>>)

  const ZEROS: seq<byte> := [0x30, 0x30, 0x30]

  /** A name without the spawn suffix "000". */
  function DisplayName(raw: seq<byte>): seq<byte> {
    if |raw| > 3 && raw[|raw| - 3..] == ZEROS then raw[..|raw| - 3] else raw
  }

  function FocusedOwner(entries: seq<PetEntry>, focused: uint32): (owner: Option<uint32>)
    ensures owner.Some? ==> exists i :: 0 <= i < |entries| && entries[i].active && entries[i].spawnId == focused
                                        && entries[i].ownerId == owner.value
    ensures owner.None? ==> forall i :: 0 <= i < |entries| ==> !(entries[i].active && entries[i].spawnId == focused)
  {
    if entries == [] then None
    else if FocusedOwner(entries[..|entries| - 1], focused).Some? then FocusedOwner(entries[..|entries| - 1], focused)
    else
      var last := entries[|entries| - 1];
      if last.active && last.spawnId == focused then Some(last.ownerId) else None
  }

  predicate IsCandidate(p: PetEntry, owner: uint32, focused: uint32) {
    p.active && p.ownerId == owner && p.spawnId != focused && p.name != []
  }

  function Candidates(entries: seq<PetEntry>, owner: uint32, focused: uint32): seq<PetEntry> {
    if entries == [] then []
    else Candidates(entries[..|entries| - 1], owner, focused) +
         (if IsCandidate(entries[|entries| - 1], owner, focused) then [entries[|entries| - 1]] else [])
  }

  function Shown(pets: seq<PetEntry>): (r: seq<OtherPet>)
    ensures |r| == |pets|
    ensures forall i :: 0 <= i < |r| ==> r[i] == OtherPet(DisplayName(pets[i].name), pets[i].spawnId)
  {
    seq(|pets|, i requires 0 <= i < |pets| => OtherPet(DisplayName(pets[i].name), pets[i].spawnId))
  }

  function FirstTwo(pets: seq<OtherPet>): seq<Option<OtherPet>> {
    [if |pets| > 0 then Some(pets[0]) else None, if |pets| > 1 then Some(pets[1]) else None]
  }

  function SnapshotOf(entries: seq<PetEntry>, hasFocused: bool, focused: uint32): Snapshot {
    if !hasFocused || focused == 0 || FocusedOwner(entries, focused).None? then Snapshot(focused, [None, None])
    else Snapshot(focused, FirstTwo(Shown(Candidates(entries, FocusedOwner(entries, focused).value, focused))))
  }

  /** The other pets of an owner, straight from the history. */
  function Companions(events: seq<Event>, ids: seq<uint32>, owner: uint32, focused: uint32): seq<OtherPet> {
    if ids == [] then []
    else
      var id := ids[|ids| - 1];
      Companions(events, ids[..|ids| - 1], owner, focused) +
      match PetNow(events, id)
      case None => []
      case Some(pet) => if pet.ownerId == owner && id != focused then [OtherPet(DisplayName(pet.name), id)] else []
  }

  function SnapshotOfHistory(events: seq<Event>, hasFocused: bool, focused: uint32): Snapshot {
    match PetNow(events, focused)
    case None => Snapshot(focused, [None, None])
    case Some(pet) =>
      if !hasFocused || focused == 0 then Snapshot(focused, [None, None])
      else Snapshot(focused, FirstTwo(Companions(events, FirstSeen(events), pet.ownerId, focused)))
  }

  lemma {:induction false} FocusedFromHistory(s: State, events: seq<Event>, focused: uint32)
    requires Reflects(s, events)
    ensures FocusedOwner(s.entries, focused) ==
            match PetNow(events, focused) case None => None case Some(pet) => Some(pet.ownerId)
  {
    hide FirstSeen, PetNow, WellKept, FocusedOwner;
    assert forall i {:trigger s.entries[i]} :: 0 <= i < |s.entries| ==> Ids(s.entries)[i] == s.entries[i].spawnId;
    if focused in FirstSeen(events) {
      var i: nat :| i < |s.entries| && Ids(s.entries)[i] == focused;
      assert Shows(events, s.entries[i]);
    }
  }

  lemma {:induction false} CandidatesSnoc(entries: seq<PetEntry>, p: PetEntry, owner: uint32, focused: uint32)
    ensures Shown(Candidates(entries + [p], owner, focused)) ==
            Shown(Candidates(entries, owner, focused)) +
            if IsCandidate(p, owner, focused) then [OtherPet(DisplayName(p.name), p.spawnId)] else []
  {
    hide DisplayName, IsCandidate;
    assert (entries + [p])[..|entries|] == entries;
  }

  lemma {:induction false} CompanionsSnoc(events: seq<Event>, ids: seq<uint32>, p: PetEntry, owner: uint32, focused: uint32)
    requires Shows(events, p) && p.name != []
    ensures Companions(events, ids + [p.spawnId], owner, focused) ==
            Companions(events, ids, owner, focused) +
            if IsCandidate(p, owner, focused) then [OtherPet(DisplayName(p.name), p.spawnId)] else []
  {
    hide DisplayName, PetNow;
    assert (ids + [p.spawnId])[..|ids|] == ids;
  }

  lemma {:induction false} ReflectedEntry(s: State, events: seq<Event>, i: nat)
    requires Reflects(s, events) && i < |s.entries|
    ensures Shows(events, s.entries[i]) && s.entries[i].name != []
  {
    hide Shows, PetNow, FirstSeen, Ids;
  }

  lemma {:induction false} NoCompanions(events: seq<Event>, owner: uint32, focused: uint32)
    ensures Shown(Candidates([], owner, focused)) == Companions(events, [], owner, focused)
  {
  }

  lemma {:induction false} CompanionsFromHistory(s: State, events: seq<Event>, owner: uint32, focused: uint32, n: nat)
    requires Reflects(s, events) && n <= |s.entries|
    ensures Shown(Candidates(s.entries[..n], owner, focused)) == Companions(events, Ids(s.entries)[..n], owner, focused)
  {
    hide PetNow, Reflects, Shows, Companions, Candidates, Shown, IsCandidate, DisplayName, Ids;
    if n == 0 {
      NoCompanions(events, owner, focused);
      assert s.entries[..0] == [] && Ids(s.entries)[..0] == [];
    } else {
      var p := s.entries[n - 1];
      ReflectedEntry(s, events, n - 1);
      CompanionsFromHistory(s, events, owner, focused, n - 1);
      CandidatesSnoc(s.entries[..n - 1], p, owner, focused);
      CompanionsSnoc(events, Ids(s.entries)[..n - 1], p, owner, focused);
      assert s.entries[..n] == s.entries[..n - 1] + [p];
      assert Ids(s.entries)[..n] == Ids(s.entries)[..n - 1] + [p.spawnId];
    }
  }

  /** The snapshot is a simple function of the history: the first two pets, in the order they were
      first seen since the last clear, that are still there, have the focused pet's owner, and are
      not the focused pet. */
  lemma {:induction false} SnapshotFromHistory(events: seq<Event>, hasFocused: bool, focused: uint32)
    requires AllGenuine(events)
    ensures SnapshotOf(After(events).entries, hasFocused, focused) == SnapshotOfHistory(events, hasFocused, focused)
  {
    RosterReflectsHistory(events);
    var s := After(events);
    FocusedFromHistory(s, events, focused);
    var pet := PetNow(events, focused);
    if pet.Some? {
      CompanionsFromHistory(s, events, pet.value.ownerId, focused, |s.entries|);
      assert s.entries[..|s.entries|] == s.entries && Ids(s.entries)[..|s.entries|] == Ids(s.entries);
      assert Ids(s.entries) == FirstSeen(events);
    }
  }

  lemma {:induction false} AfterSnoc(events: seq<Event>, e: Event)
    ensures After(events + [e]) == Step(After(events), e)
  {
    hide Step;
    assert (events + [e])[..|events|] == events;
  }

  lemma {:induction false} SeenIsKept(s: State, events: seq<Event>, id: uint32)
    requires Reflects(s, events) && id in FirstSeen(events)
    ensures WellKept(s) && exists k :: 0 <= k < |s.entries| && s.entries[k].spawnId == id
  {
    hide FirstSeen, PetNow, Shows;
    var k: nat :| k < |s.entries| && Ids(s.entries)[k] == id;
  }

  /** A pet that goes away and comes back has the rank it had: the roster is as if it had only
      been seen again. */
  lemma {:induction false} RespawnKeepsRank(events: seq<Event>, id: uint32, owner: uint32, name: seq<byte>)
    requires AllGenuine(events) && id in FirstSeen(events)
    ensures After(events + [Gone(id), Seen(id, owner, name)]) == After(events + [Seen(id, owner, name)])
  {
    hide After, Step, Reflects, FirstSeen, WellKept, AllGenuine;
    var seen := Seen(id, owner, name);
    RosterReflectsHistory(events);
    SeenIsKept(After(events), events, id);
    AfterSnoc(events, Gone(id));
    AfterSnoc(events + [Gone(id)], seen);
    AfterSnoc(events, seen);
    assert events + [Gone(id), seen] == events + [Gone(id)] + [seen];
    UpdateThenUpdate(After(events), id, owner, name);
  }

  lemma {:induction false} UpdateThenUpdate(s: State, id: uint32, owner: uint32, name: seq<byte>)
    requires WellKept(s) && exists k :: 0 <= k < |s.entries| && s.entries[k].spawnId == id
    ensures Step(Step(s, Gone(id)), Seen(id, owner, name)) == Step(s, Seen(id, owner, name))
  {
    var k := IndexOf(s.entries, id);
    var gone := s.entries[k := s.entries[k].(active := false)];
    assert gone[k].spawnId == id;
    assert IndexOf(gone, id) == k;
  }

  // ---------- The observer ----------

  predicate SeenBefore(a: PetEntry, b: PetEntry) {
    if a.order != b.order then a.order < b.order else a.spawnId < b.spawnId
  }

  /** Since orders increase along the vector, sorting candidates moves none of them. */
  lemma {:induction false} CandidatesAreSorted(entries: seq<PetEntry>, owner: uint32, focused: uint32, sorted: seq<PetEntry>)
    requires OrdersIncrease(entries) && SortOf(sorted, Candidates(entries, owner, focused), SeenBefore)
    ensures sorted == Candidates(entries, owner, focused)
  {
    CandidatesIncrease(entries, owner, focused);
    SortIsDetermined(Candidates(entries, owner, focused), sorted, SeenBefore);
  }

  ghost predicate OrdersIncrease(pets: seq<PetEntry>) {
    forall i, j :: 0 <= i < j < |pets| ==> pets[i].order < pets[j].order
  }

  lemma {:induction false} CandidatesIncrease(entries: seq<PetEntry>, owner: uint32, focused: uint32)
    requires OrdersIncrease(entries)
    ensures OrdersIncrease(Candidates(entries, owner, focused))
    ensures forall c :: c in Candidates(entries, owner, focused) ==> c in entries
  {
    if entries != [] {
      CandidatesIncrease(entries[..|entries| - 1], owner, focused);
      var front := Candidates(entries[..|entries| - 1], owner, focused);
      forall i | 0 <= i < |front| ensures front[i].order < entries[|entries| - 1].order {
        assert front[i] in entries[..|entries| - 1];
      }
    }
  }

  lemma {:induction false} FocusedOwnerSnoc(entries: seq<PetEntry>, p: PetEntry, focused: uint32)
    ensures FocusedOwner(entries + [p], focused) ==
            if FocusedOwner(entries, focused).Some? then FocusedOwner(entries, focused)
            else if p.active && p.spawnId == focused then Some(p.ownerId) else None
  {
    assert (entries + [p])[..|entries|] == entries;
  }

  lemma {:induction false} FocusedOwnerFound(entries: seq<PetEntry>, k: nat, focused: uint32)
    requires k <= |entries|
    requires FocusedOwner(entries[..k], focused).Some?
    ensures FocusedOwner(entries, focused) == FocusedOwner(entries[..k], focused)
    decreases |entries|
  {
    if k == |entries| {
      assert entries[..k] == entries;
    } else {
      assert entries[..|entries| - 1][..k] == entries[..k];
      FocusedOwnerFound(entries[..|entries| - 1], k, focused);
    }
  }

  lemma NobodyFocused(focused: uint32)
    ensures FocusedOwner([], focused) == None
  {
  }

  class Roster {
    var entries: seq<PetEntry>
    var next: nat

    ghost predicate Valid()
      reads this
    {
      WellKept(Now())
    }

    ghost function Now(): State
      reads this
    {
      State(entries, next)
    }

    constructor ()
      ensures Valid() && Now() == After([])
    {
      entries, next := [], 1;
    }

    method FindEntryBySpawnId(spawnId: uint32) returns (k: nat)
      ensures k == IndexOf(entries, spawnId)
    {
      k := 0;
      while k < |entries| && entries[k].spawnId != spawnId
        invariant k <= |entries|
        invariant IndexOf(entries, spawnId) == k + IndexOf(entries[k..], spawnId)
      {
        assert entries[k..][1..] == entries[k + 1..];
        k := k + 1;
      }
    }

    method ObserveSpawnPayload(payload: Option<Payload>)
      requires Valid()
      modifies this
      ensures Valid() && Now() == Step(old(Now()), SpawnEvent(payload))
    {
      hide SpawnPacket.DecodePayload, WellKept;
      var spawn := SpawnPacket.ParseSingleSpawnPayload(payload);
      if spawn.None? || spawn.value.ownerId == 0 || spawn.value.name == [] {
        return;
      }
      SpawnEventIsGenuine(payload);
      StepKeeps(Now(), SpawnEvent(payload));
      var k := FindEntryBySpawnId(spawn.value.spawnId);
      if k < |entries| {
        entries := entries[k := entries[k].(ownerId := spawn.value.ownerId, name := spawn.value.name, active := true)];
      } else {
        entries := entries + [PetEntry(spawn.value.spawnId, spawn.value.ownerId, next, true, spawn.value.name)];
        next := next + 1;
      }
    }

    method ObserveDeleteSpawnPayload(payload: Option<Payload>)
      requires Valid()
      modifies this
      ensures Valid() && Now() == Step(old(Now()), DeleteEvent(payload))
    {
      hide WellKept, LoadU32;
      if payload.None? || |payload.value| < 4 {
        return;
      }
      StepKeeps(Now(), DeleteEvent(payload));
      var k := FindEntryBySpawnId(LoadU32(payload.value, 0));
      if k < |entries| {
        entries := entries[k := entries[k].(active := false)];
      }
    }

    method Clear()
      modifies this
      ensures Valid() && Now() == Step(old(Now()), Cleared)
    {
      entries, next := [], 1;
    }

    /** The statistics packet's focused pet comes in as a parameter. */
    method GetSnapshot(hasFocused: bool, focused: uint32) returns (snapshot: Snapshot)
      requires Valid()
      ensures snapshot == SnapshotOf(entries, hasFocused, focused)
    {
      hide DisplayName, Candidates, FocusedOwner, SortedBy;
      snapshot := Snapshot(focused, [None, None]);
      if !hasFocused || focused == 0 {
        return;
      }
      var owner := FindFocused(focused);
      if owner.None? || owner.value == 0 {
        return;
      }
      var candidates := CollectCandidates(owner.value, focused);
      var sorted := Sort(candidates, SeenBefore);
      CandidatesAreSorted(entries, owner.value, focused, sorted);
      var i := 0;
      while i < |snapshot.slots| && i < |sorted|
        invariant 0 <= i <= 2 && i <= |sorted|
        invariant snapshot.focusedPetId == focused && |snapshot.slots| == 2
        invariant forall j :: 0 <= j < i ==> snapshot.slots[j] == Some(Shown(sorted)[j])
        invariant forall j :: i <= j < 2 ==> snapshot.slots[j] == None
      {
        snapshot := snapshot.(slots := snapshot.slots[i := Some(OtherPet(DisplayName(sorted[i].name), sorted[i].spawnId))]);
        i := i + 1;
      }
      assert snapshot.slots == FirstTwo(Shown(sorted));
    }

    method CollectCandidates(owner: uint32, focused: uint32) returns (candidates: seq<PetEntry>)
      ensures candidates == Candidates(entries, owner, focused)
    {
      candidates := [];
      for i := 0 to |entries|
        invariant candidates == Candidates(entries[..i], owner, focused)
      {
        assert entries[..i + 1][..i] == entries[..i];
        if !entries[i].active || entries[i].ownerId != owner || entries[i].spawnId == focused || entries[i].name == [] {
          continue;
        }
        candidates := candidates + [entries[i]];
      }
      assert entries[..|entries|] == entries;
    }

    method FindFocused(focused: uint32) returns (owner: Option<uint32>)
      requires Valid()
      ensures owner == FocusedOwner(entries, focused)
      ensures owner != Some(0)
    {
      assert forall i {:trigger entries[i]} :: 0 <= i < |entries| ==> entries[i].ownerId != 0;
      NobodyFocused(focused);
      hide FocusedOwner, WellKept;
      for i := 0 to |entries|
        invariant FocusedOwner(entries[..i], focused).None?
      {
        assert entries[..i + 1] == entries[..i] + [entries[i]];
        FocusedOwnerSnoc(entries[..i], entries[i], focused);
        if entries[i].active && entries[i].spawnId == focused {
          FocusedOwnerFound(entries, i + 1, focused);
          return Some(entries[i].ownerId);
        }
      }
      assert entries[..|entries|] == entries;
      owner := None;
    }
  }
}
