/** What the proxy remembers of the identity packets: a vector of entries, searched from the
    front, that behaves as a map keyed by server and character, both without regard to case. */
module IdentityStore {
  import opened Wire
  import opened PacketReader
  import opened ClassMask
  import opened CacheText
  import Identity = RemoteIdentity

  /** Packets longer than this are not looked at. */
  const PAYLOAD_SAFETY_CEILING: nat := 4096

  datatype Key = Key(server: string, name: string)
  datatype Record = Record(classId: uint32, mask: uint32)
  datatype Stored = Stored(key: Key, record: Record)

  predicate AcceptableRecord(r: Record) {
    Identity.AcceptableIdentity(false, r.classId, r.mask)
  }

  predicate UsableKey(key: Key) {
    key.server != "" && key.name != ""
  }

  /** A null pointer is None. */
  function KeyOf(server: Option<CString>, name: Option<CString>): (k: Option<Key>)
    ensures k.Some? ==> UsableKey(k.value)
  {
    if server.None? || name.None? then None
    else
      var key := Key(NormalizeName(server.value), NormalizeName(name.value));
      if UsableKey(key) then Some(key) else None
  }

  /** The map a vector of entries stands for. */
  function AsMap(entries: seq<Stored>): map<Key, Record> {
    if entries == [] then map[]
    else AsMap(entries[..|entries| - 1])[entries[|entries| - 1].key := entries[|entries| - 1].record]
  }

  ghost predicate WellKept(entries: seq<Stored>) {
    && (forall i, j :: 0 <= i < j < |entries| ==> entries[i].key != entries[j].key)
    && (forall i {:trigger entries[i]} :: 0 <= i < |entries| ==>
          UsableKey(entries[i].key) && AcceptableRecord(entries[i].record))
  }

  lemma {:induction false} WellKeptFront(entries: seq<Stored>)
    requires WellKept(entries) && entries != []
    ensures WellKept(entries[..|entries| - 1])
    ensures forall i :: 0 <= i < |entries| - 1 ==> entries[i].key != entries[|entries| - 1].key
  {
  }

  lemma {:induction false} InAsMap(entries: seq<Stored>, i: nat)
    requires WellKept(entries) && i < |entries|
    ensures entries[i].key in AsMap(entries) && AsMap(entries)[entries[i].key] == entries[i].record
  {
    WellKeptFront(entries);
    hide WellKept;
    if i < |entries| - 1 {
      InAsMap(entries[..|entries| - 1], i);
    }
  }

  lemma {:induction false} AsMapKeyIsStored(entries: seq<Stored>, key: Key) returns (i: nat)
    requires key in AsMap(entries)
    ensures i < |entries| && entries[i].key == key
  {
    i := |entries| - 1;
    if entries[i].key != key {
      i := AsMapKeyIsStored(entries[..i], key);
    }
  }

  lemma {:induction false} AsMapHas(entries: seq<Stored>, key: Key)
    requires WellKept(entries)
    ensures key in AsMap(entries) <==> exists i :: 0 <= i < |entries| && entries[i].key == key
    ensures forall i :: 0 <= i < |entries| && entries[i].key == key ==>
              key in AsMap(entries) && AsMap(entries)[key] == entries[i].record
  {
    hide WellKept, AsMap;
    forall i: nat | i < |entries| && entries[i].key == key
      ensures key in AsMap(entries) && AsMap(entries)[key] == entries[i].record
    {
      InAsMap(entries, i);
    }
    if key in AsMap(entries) {
      var i := AsMapKeyIsStored(entries, key);
    }
  }

  lemma {:induction false} OverwrittenIsWellKept(entries: seq<Stored>, i: nat, record: Record)
    requires WellKept(entries) && i < |entries| && AcceptableRecord(record)
    ensures WellKept(entries[i := Stored(entries[i].key, record)])
  {
  }

  lemma {:induction false} OverwrittenAt(entries: seq<Stored>, i: nat, record: Record, k: Key)
    requires WellKept(entries) && i < |entries| && AcceptableRecord(record)
    ensures var was, now := AsMap(entries), AsMap(entries[i := Stored(entries[i].key, record)]);
            && (k in now <==> k in was)
            && (k in now ==> now[k] == if k == entries[i].key then record else was[k])
  {
    var after := entries[i := Stored(entries[i].key, record)];
    OverwrittenIsWellKept(entries, i, record);
    AsMapHas(entries, k);
    AsMapHas(after, k);
    hide AsMap, WellKept, AcceptableRecord;
    if j :| 0 <= j < |entries| && entries[j].key == k {
      assert after[j].key == k;
    }
    if j :| 0 <= j < |after| && after[j].key == k {
      assert entries[j].key == k;
    }
  }

  lemma {:induction false} AsMapOverwritten(entries: seq<Stored>, i: nat, record: Record)
    requires WellKept(entries) && i < |entries| && AcceptableRecord(record)
    ensures WellKept(entries[i := Stored(entries[i].key, record)])
    ensures AsMap(entries[i := Stored(entries[i].key, record)]) == AsMap(entries)[entries[i].key := record]
  {
    OverwrittenIsWellKept(entries, i, record);
    AsMapHas(entries, entries[i].key);
    hide AsMap, WellKept, AcceptableRecord;
    forall k
      ensures var was, now := AsMap(entries), AsMap(entries[i := Stored(entries[i].key, record)]);
              && (k in now <==> k in was)
              && (k in now ==> now[k] == if k == entries[i].key then record else was[k])
    {
      OverwrittenAt(entries, i, record, k);
    }
  }

  lemma {:induction false} AsMapAppended(entries: seq<Stored>, key: Key, record: Record)
    requires WellKept(entries) && UsableKey(key) && AcceptableRecord(record)
    requires forall i :: 0 <= i < |entries| ==> entries[i].key != key
    ensures WellKept(entries + [Stored(key, record)])
    ensures AsMap(entries + [Stored(key, record)]) == AsMap(entries)[key := record]
  {
    assert (entries + [Stored(key, record)])[..|entries|] == entries;
  }

  // ---------- What stores, packets and runs write ----------

  datatype Write = Put(key: Key, record: Record) | Reset

  function Apply(m: map<Key, Record>, w: Write): map<Key, Record> {
    match w
    case Put(key, record) => m[key := record]
    case Reset => map[]
  }

  function ApplyAll(m: map<Key, Record>, ws: seq<Write>): map<Key, Record> {
    if ws == [] then m else Apply(ApplyAll(m, ws[..|ws| - 1]), ws[|ws| - 1])
  }

  /** A store is refused for a missing or empty name and for an unacceptable record. */
  function StoreWrites(server: Option<CString>, name: Option<CString>, record: Record): seq<Write> {
    if KeyOf(server, name).Some? && AcceptableRecord(record) then [Put(KeyOf(server, name).value, record)] else []
  }

  /** The bytes as a C string sees them: up to the first NUL. */
  function CStr(bytes: seq<byte>): CString {
    if bytes == [] || bytes[0] == 0 then ""
    else
      assert bytes[0] as char != '\0';
      [bytes[0] as char] + CStr(bytes[1..])
  }

  function EntryWrites(server: CString, e: Identity.Entry): (ws: seq<Write>)
    ensures |ws| <= 1
  {
    StoreWrites(Some(server), Some(CStr(e.name)), Record(e.classId, e.mask))
  }

  function Announced(server: CString, entries: seq<Identity.Entry>): seq<Write> {
    if entries == [] then []
    else Announced(server, entries[..|entries| - 1]) + EntryWrites(server, entries[|entries| - 1])
  }

  datatype Event = Packet(server: Option<CString>, payload: Option<Payload>) | Cleared

  predicate Considered(payload: Option<Payload>) {
    payload.Some? && Identity.HEADER_BYTES <= |payload.value| <= PAYLOAD_SAFETY_CEILING
  }

  function Writes(e: Event): seq<Write> {
    match e
    case Cleared => [Reset]
    case Packet(server, payload) =>
      if Considered(payload) && server.Some? && Identity.Parse(payload).valid then
        Announced(server.value, Identity.Parse(payload).entries)
      else []
  }

  function AllWrites(events: seq<Event>): seq<Write> {
    if events == [] then [] else AllWrites(events[..|events| - 1]) + Writes(events[|events| - 1])
  }

  function LookupIn(m: map<Key, Record>, server: Option<CString>, name: Option<CString>, expected: uint32): Option<uint32> {
    match KeyOf(server, name)
    case None => None
    case Some(key) =>
      if key in m && (expected == 0 || expected == m[key].classId) then Some(m[key].mask) else None
  }

  lemma {:induction false} ApplyNone(m: map<Key, Record>)
    ensures ApplyAll(m, []) == m
  {
  }

  lemma {:induction false} ApplyAllAppend(m: map<Key, Record>, a: seq<Write>, b: seq<Write>)
    ensures ApplyAll(m, a + b) == ApplyAll(ApplyAll(m, a), b)
    decreases |b|
  {
    if b == [] {
      assert a + b == a;
    } else {
      assert (a + b)[..|a + b| - 1] == a + b[..|b| - 1];
      ApplyAllAppend(m, a, b[..|b| - 1]);
    }
  }

  lemma {:induction false} AnnouncedNone(server: CString)
    ensures Announced(server, []) == []
  {
  }

  lemma {:induction false} AnnouncedSnoc(server: CString, entries: seq<Identity.Entry>, e: Identity.Entry)
    ensures Announced(server, entries + [e]) == Announced(server, entries) + EntryWrites(server, e)
  {
    assert (entries + [e])[..|entries|] == entries;
  }

  class IdentityStore {
    var entries: seq<Stored>

    ghost predicate Valid()
      reads this
    {
      WellKept(entries)
    }

    ghost function Contents(): map<Key, Record>
      reads this
    {
      AsMap(entries)
    }

    constructor ()
      ensures Valid() && Contents() == map[]
    {
      entries := [];
    }

    method StoreCharacterClassMask(server: Option<CString>, name: Option<CString>, classId: uint32, mask: uint32)
        returns (stored: bool)
      requires Valid()
      modifies this
      ensures Valid()
      ensures Contents() == ApplyAll(old(Contents()), StoreWrites(server, name, Record(classId, mask)))
      ensures stored == (StoreWrites(server, name, Record(classId, mask)) != [])
    {
      hide WellKept, AsMap;
      if server.None? || name.None? {
        return false;
      }
      var key := Key(NormalizeName(server.value), NormalizeName(name.value));
      if key.server == "" || key.name == "" || !Identity.AcceptableIdentity(name.value == "", classId, mask) {
        return false;
      }
      var narrowed := Record(classId % 0x100, mask);
      assert narrowed == Record(classId, mask) by {
        assert 0 < classId <= 16;
      }
      var put := [Put(key, narrowed)];
      assert StoreWrites(server, name, Record(classId, mask)) == put;
      assert ApplyAll(AsMap(entries), put) == AsMap(entries)[key := narrowed] by {
        assert put[..0] == [];
      }
      hide Identity.AcceptableIdentity;

      for i := 0 to |entries|
        invariant entries == old(entries)
        invariant forall k :: 0 <= k < i ==> entries[k].key != key
      {
        if entries[i].key == key {
          AsMapOverwritten(entries, i, narrowed);
          entries := entries[i := Stored(key, narrowed)];
          return true;
        }
      }
      AsMapAppended(entries, key, narrowed);
      entries := entries + [Stored(key, narrowed)];
      stored := true;
    }

    method TryLookupCharacterClassMask(server: Option<CString>, name: Option<CString>, expected: uint32)
        returns (mask: Option<uint32>)
      requires Valid()
      ensures mask == LookupIn(Contents(), server, name, expected)
    {
      if server.None? || name.None? {
        return None;
      }
      var key := Key(NormalizeName(server.value), NormalizeName(name.value));
      if key.server == "" || key.name == "" {
        return None;
      }
      AsMapHas(entries, key);
      for i := 0 to |entries|
        invariant forall k :: 0 <= k < i ==> entries[k].key != key
      {
        var e := entries[i];
        if e.key != key {
          continue;
        }
        if expected != 0 && e.record.classId != 0 && e.record.classId != expected {
          return None;
        }
        if !Identity.AcceptableIdentity(name.value == "", e.record.classId, e.record.mask) {
          return None;
        }
        return Some(e.record.mask);
      }
      mask := None;
    }

    method Clear()
      modifies this
      ensures Valid() && Contents() == map[]
    {
      entries := [];
    }

    /** One identity packet, with the server the proxy believes it is on. */
    method HandlePacket(server: Option<CString>, payload: Option<Payload>) returns (stored: nat)
      requires Valid()
      modifies this
      ensures Valid()
      ensures Contents() == ApplyAll(old(Contents()), Writes(Packet(server, payload)))
      ensures stored == |Writes(Packet(server, payload))|
    {
      hide Announced, StoreWrites, ApplyAll, CStr, AsMap, WellKept, Identity.Parse;
      stored := 0;
      ApplyNone(Contents());
      if payload.None? || |payload.value| < Identity.HEADER_BYTES || |payload.value| > PAYLOAD_SAFETY_CEILING {
        return;
      }
      var parsed := Identity.ParsePayload(payload);
      if !parsed.valid {
        return;
      }
      if server.Some? {
        ghost var was := Contents();
        AnnouncedNone(server.value);
        for i := 0 to |parsed.entries|
          invariant Valid()
          invariant Contents() == ApplyAll(was, Announced(server.value, parsed.entries[..i]))
          invariant stored == |Announced(server.value, parsed.entries[..i])|
        {
          var e := parsed.entries[i];
          assert parsed.entries[..i + 1] == parsed.entries[..i] + [e];
          AnnouncedSnoc(server.value, parsed.entries[..i], e);
          ApplyAllAppend(was, Announced(server.value, parsed.entries[..i]), EntryWrites(server.value, e));
          var ok := StoreCharacterClassMask(server, Some(CStr(e.name)), e.classId, e.mask);
          if ok {
            stored := stored + 1;
          }
        }
        assert parsed.entries[..|parsed.entries|] == parsed.entries;
      }
    }
  }

  // ---------- Every run ----------

  /** Write `k` decides what is known of `key` after the run: it puts it, and nothing later puts
      it again or clears the store. */
  ghost predicate Decides(ws: seq<Write>, k: nat, key: Key) {
    && k < |ws| && ws[k].Put? && ws[k].key == key
    && forall j {:trigger ws[j]} :: k < j < |ws| ==> ws[j].Put? && ws[j].key != key
  }

  lemma {:induction false} RunIsLastWrite(ws: seq<Write>, key: Key)
    ensures key in ApplyAll(map[], ws) <==> exists k: nat :: Decides(ws, k, key)
    ensures forall k: nat :: Decides(ws, k, key) ==>
              key in ApplyAll(map[], ws) && ApplyAll(map[], ws)[key] == ws[k].record
  {
    if ws != [] {
      var front, last := ws[..|ws| - 1], ws[|ws| - 1];
      RunIsLastWrite(front, key);
      if last.Put? && last.key == key {
        assert Decides(ws, |ws| - 1, key);
      } else if last.Put? && key in ApplyAll(map[], front) {
        var k: nat :| Decides(front, k, key);
        assert Decides(ws, k, key);
      }
      forall k: nat | Decides(ws, k, key)
        ensures key in ApplyAll(map[], ws) && ApplyAll(map[], ws)[key] == ws[k].record
      {
        if k < |front| {
          assert ws[|ws| - 1].Put?;
          assert Decides(front, k, key) by {
            forall j | k < j < |front| ensures front[j].Put? && front[j].key != key {
              assert front[j] == ws[j];
            }
          }
        }
      }
    }
  }

  /** After any run of packets, good or malformed, and clears, a lookup answers `mask` if and only
      if that is what the last write to this server and character put there, no clear came after
      it, and its class is the expected one, when one is expected. */
  lemma {:induction false} LookupIsLastAnnouncement(
      events: seq<Event>, server: Option<CString>, name: Option<CString>, expected: uint32, mask: uint32)
    ensures LookupIn(ApplyAll(map[], AllWrites(events)), server, name, expected) == Some(mask) <==>
            && KeyOf(server, name).Some?
            && (exists k: nat ::
                  && Decides(AllWrites(events), k, KeyOf(server, name).value)
                  && AllWrites(events)[k].record.mask == mask
                  && (expected == 0 || AllWrites(events)[k].record.classId == expected))
  {
    hide Decides, KeyOf, ApplyAll, AllWrites;
    if KeyOf(server, name).Some? {
      RunIsLastWrite(AllWrites(events), KeyOf(server, name).value);
    }
  }

  lemma {:induction false} EntryWritesIffAcceptable(server: CString, e: Identity.Entry)
    requires NoNul(e.name)
    ensures EntryWrites(server, e) != [] <==> NormalizeName(server) != "" && Identity.IsAcceptable(e)
  {
    assert CStr(e.name) == "" <==> e.name == [];
  }

  lemma {:induction false} AcceptableSuffices(server: CString, entries: seq<Identity.Entry>)
    requires Identity.AllNoNul(entries)
    ensures Announced(server, Identity.Acceptable(entries)) == Announced(server, entries)
    ensures NormalizeName(server) != "" ==> |Announced(server, entries)| == |Identity.Acceptable(entries)|
  {
    hide NormalizeName, CStr, Identity.IsAcceptable, EntryWrites, NoNul;
    if entries != [] {
      var front, e := entries[..|entries| - 1], entries[|entries| - 1];
      AcceptableSuffices(server, front);
      EntryWritesIffAcceptable(server, e);
      assert front + [e] == entries;
      AnnouncedSnoc(server, front, e);
      AnnouncedSnoc(server, Identity.Acceptable(front), e);
      if !Identity.IsAcceptable(e) {
        assert Identity.Acceptable(entries) == Identity.Acceptable(front);
        assert EntryWrites(server, e) == [];
      }
    }
  }

  /** A packet that carries entries writes each acceptable one, in order, for the current server,
      whatever else it carries; on a server with a name none of them is refused. */
  lemma {:induction false} PacketWritesWhatWasSent(server: CString, s: Payload, entries: seq<Identity.Entry>)
    requires Identity.Carries(s, entries) && |s| <= PAYLOAD_SAFETY_CEILING
    ensures Writes(Packet(Some(server), Some(s))) == Announced(server, entries)
    ensures NormalizeName(server) != "" ==>
              |Writes(Packet(Some(server), Some(s)))| == |Identity.Acceptable(entries)|
  {
    hide Announced, NormalizeName, Identity.Acceptable, Identity.Parse, NoNul;
    Identity.ParseOfCarried(s, entries);
    AcceptableSuffices(server, entries);
  }

  // ---------- What a player sees ----------

  /** Two pairs of server and name have one key if and only if each part is the same without regard
      to case; there is no key exactly when a part is missing or empty. */
  lemma {:induction false} OneKeyIffSameParts(server1: CString, name1: CString, server2: CString, name2: CString)
    ensures KeyOf(Some(server1), Some(name1)).Some? <==> server1 != "" && name1 != ""
    ensures server1 != "" && name1 != "" ==>
              (KeyOf(Some(server1), Some(name1)) == KeyOf(Some(server2), Some(name2)) <==>
                 SameName(server1, server2) && SameName(name1, name2))
    ensures KeyOf(None, Some(name1)).None? && KeyOf(Some(server1), None).None? && KeyOf(None, None).None?
  {
    OneKeyIffSameName(server1, server2);
    OneKeyIffSameName(name1, name2);
    CStringHasNoNul(server1);
    CStringHasNoNul(name1);
    hide NormalizeName, SameName;
  }

  lemma {:induction false} CStringHasNoNul(s: CString)
    ensures NormalizeName(s) == "" <==> s == ""
  {
    assert s != "" ==> s[0] in s;
  }

  /** A NUL-free name becomes the string of the same character codes. */
  lemma {:induction false} CStrOfName(bytes: seq<byte>)
    requires NoNul(bytes)
    ensures |CStr(bytes)| == |bytes| && forall k :: 0 <= k < |bytes| ==> CStr(bytes)[k] as int == bytes[k]
  {
    if bytes != [] {
      assert bytes[0] != 0;
      forall k | 0 <= k < |bytes[1..]| ensures bytes[1..][k] != 0 {
        assert bytes[1..][k] == bytes[k + 1];
      }
      CStrOfName(bytes[1..]);
    }
  }

  /** The last acceptable entry for a name. */
  ghost predicate IsLastFor(entries: seq<Identity.Entry>, i: nat, name: CString) {
    && i < |entries| && Identity.IsAcceptable(entries[i]) && SameName(CStr(entries[i].name), name)
    && forall j {:trigger entries[j]} :: i < j < |entries| ==>
         !(Identity.IsAcceptable(entries[j]) && SameName(CStr(entries[j].name), name))
  }

  ghost predicate NoneFor(entries: seq<Identity.Entry>, name: CString) {
    forall j {:trigger entries[j]} :: 0 <= j < |entries| ==>
      !(Identity.IsAcceptable(entries[j]) && SameName(CStr(entries[j].name), name))
  }

  /** What one entry does to what is known of a server and a name. */
  lemma {:induction false} EntryEffect(
      m: map<Key, Record>, server: CString, e: Identity.Entry, asked: CString, name: CString)
    requires NoNul(e.name) && asked != "" && name != ""
    ensures var key, now := KeyOf(Some(asked), Some(name)).value, ApplyAll(m, EntryWrites(server, e));
            if Identity.IsAcceptable(e) && SameName(server, asked) && SameName(CStr(e.name), name) then
              key in now && now[key] == Record(e.classId, e.mask)
            else (key in now <==> key in m) && (key in m ==> now[key] == m[key])
  {
    CStrOfName(e.name);
    EntryWritesIffAcceptable(server, e);
    OneKeyIffSameParts(server, CStr(e.name), asked, name);
    OneKeyIffSameParts(asked, name, server, CStr(e.name));
    CStringHasNoNul(server);
    hide NormalizeName, Identity.IsAcceptable, CStr, KeyOf;
    var ws := EntryWrites(server, e);
    if ws != [] {
      assert ws[..0] == [];
    }
  }

  lemma {:induction false} LastEntryIsKnown(
      m: map<Key, Record>, server: CString, entries: seq<Identity.Entry>, i: nat, asked: CString, name: CString)
    requires Identity.AllNoNul(entries) && asked != "" && name != "" && SameName(server, asked)
    requires IsLastFor(entries, i, name)
    ensures var key, now := KeyOf(Some(asked), Some(name)).value, ApplyAll(m, Announced(server, entries));
            key in now && now[key] == Record(entries[i].classId, entries[i].mask)
  {
    hide NormalizeName, Identity.IsAcceptable, CStr, KeyOf, ApplyAll, EntryWrites, NoNul, SameName;
    OneKeyIffSameParts(asked, name, asked, name);
    var front, e := entries[..|entries| - 1], entries[|entries| - 1];
    EntryEffect(ApplyAll(m, Announced(server, front)), server, e, asked, name);
    ApplyAllAppend(m, Announced(server, front), EntryWrites(server, e));
    if i < |front| {
      LastEntryIsKnown(m, server, front, i, asked, name);
    }
  }

  lemma {:induction false} OthersAreKept(
      m: map<Key, Record>, server: CString, entries: seq<Identity.Entry>, asked: CString, name: CString)
    requires Identity.AllNoNul(entries) && asked != "" && name != ""
    requires !SameName(server, asked) || NoneFor(entries, name)
    ensures var key, now := KeyOf(Some(asked), Some(name)).value, ApplyAll(m, Announced(server, entries));
            (key in now <==> key in m) && (key in m ==> now[key] == m[key])
  {
    hide NormalizeName, Identity.IsAcceptable, CStr, KeyOf, ApplyAll, EntryWrites, NoNul, SameName;
    OneKeyIffSameParts(asked, name, asked, name);
    if entries == [] {
      ApplyNone(m);
    } else {
      var front, e := entries[..|entries| - 1], entries[|entries| - 1];
      EntryEffect(ApplyAll(m, Announced(server, front)), server, e, asked, name);
      ApplyAllAppend(m, Announced(server, front), EntryWrites(server, e));
      OthersAreKept(m, server, front, asked, name);
    }
  }

  /** The store after one more event. */
  lemma {:induction false} OneMoreEvent(events: seq<Event>, e: Event)
    ensures ApplyAll(map[], AllWrites(events + [e])) == ApplyAll(ApplyAll(map[], AllWrites(events)), Writes(e))
  {
    assert (events + [e])[..|events|] == events;
    hide Writes;
    ApplyAllAppend(map[], AllWrites(events), Writes(e));
  }

  /** Whatever happened before: once a packet of at most 4096 bytes with an acceptable entry for a
      character has come in, a lookup of the server and the character, in any case, answers the mask
      of the last such entry if no class or its class is expected, and nothing otherwise. */
  lemma {:induction false} AnnouncedIsFound(
      events: seq<Event>, server: CString, s: Payload, entries: seq<Identity.Entry>, i: nat,
      asked: CString, name: CString, expected: uint32)
    requires Identity.Carries(s, entries) && |s| <= 4096
    requires asked != "" && name != "" && SameName(server, asked) && IsLastFor(entries, i, name)
    ensures LookupIn(ApplyAll(map[], AllWrites(events + [Packet(Some(server), Some(s))])),
                     Some(asked), Some(name), expected) ==
            if expected == 0 || expected == entries[i].classId then Some(entries[i].mask) else None
  {
    PacketWritesWhatWasSent(server, s, entries);
    hide IsLastFor, KeyOf, ApplyAll, Announced, Writes, AllWrites, SameName;
    OneMoreEvent(events, Packet(Some(server), Some(s)));
    OneKeyIffSameParts(asked, name, asked, name);
    LastEntryIsKnown(ApplyAll(map[], AllWrites(events)), server, entries, i, asked, name);
  }

  /** And it changes no other answer. */
  lemma {:induction false} OtherAnswersAreKept(
      events: seq<Event>, server: CString, s: Payload, entries: seq<Identity.Entry>,
      asked: CString, name: CString, expected: uint32)
    requires Identity.Carries(s, entries) && |s| <= 4096
    requires !SameName(server, asked) || NoneFor(entries, name)
    ensures LookupIn(ApplyAll(map[], AllWrites(events + [Packet(Some(server), Some(s))])), Some(asked), Some(name), expected) ==
            LookupIn(ApplyAll(map[], AllWrites(events)), Some(asked), Some(name), expected)
  {
    PacketWritesWhatWasSent(server, s, entries);
    OneKeyIffSameParts(asked, name, asked, name);
    hide NoneFor, KeyOf, ApplyAll, Announced, Writes, AllWrites, SameName;
    OneMoreEvent(events, Packet(Some(server), Some(s)));
    if asked != "" && name != "" {
      OthersAreKept(ApplyAll(map[], AllWrites(events)), server, entries, asked, name);
    }
  }

  /** Nor does any other packet change an answer: one that carries no list of entries, one of more
      than 4096 bytes, or one that comes while no server is known. */
  lemma {:induction false} OtherPacketsChangeNothing(
      events: seq<Event>, server: Option<CString>, payload: Option<Payload>,
      asked: Option<CString>, name: Option<CString>, expected: uint32)
    requires payload.None? || server.None? || |payload.value| > 4096 ||
             forall entries :: !Identity.Carries(payload.value, entries)
    ensures LookupIn(ApplyAll(map[], AllWrites(events + [Packet(server, payload)])), asked, name, expected) ==
            LookupIn(ApplyAll(map[], AllWrites(events)), asked, name, expected)
  {
    OneMoreEvent(events, Packet(server, payload));
    hide AllWrites, Identity.Parse, Identity.Carries, ApplyAll;
    if payload.Some? {
      Identity.ValidIffCarries(payload.value);
    }
    assert Writes(Packet(server, payload)) == [];
    ApplyNone(ApplyAll(map[], AllWrites(events)));
  }

  lemma {:induction false} NothingAfterClear(
      events: seq<Event>, asked: Option<CString>, name: Option<CString>, expected: uint32)
    ensures LookupIn(ApplyAll(map[], AllWrites(events + [Cleared])), asked, name, expected).None?
  {
    OneMoreEvent(events, Cleared);
    hide AllWrites;
    assert [Reset][..0] == [];
  }
}
