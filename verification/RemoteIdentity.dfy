/** The remote identity packet: which characters have which classes, as the server announces it. */
module RemoteIdentity {
  import opened Wire
  import opened PacketReader
  import opened ClassMask

  const HEADER_BYTES: nat := 4
  const MINIMUM_ENTRY_BYTES: nat := 9

  datatype Entry = Entry(name: seq<byte>, classId: uint32, mask: uint32)

  datatype ParseResult = ParseResult(
    valid: bool, declared: nat, parsed: nat, accepted: nat, rejected: nat, entries: seq<Entry>)

  /** The rule for names, whatever type of text they are, class ids and masks. */
  predicate AcceptableIdentity(nameIsEmpty: bool, classId: uint32, mask: uint32) {
    && !nameIsEmpty
    && IsPlayableClassId(classId)
    && mask != 0
    && IsPlayableClassMask(mask)
    && HasClass(mask, classId)
  }

  /** A named entry is acceptable if and only if its mask is of playable classes only, the native
      one, 1 to 16, among them. */
  lemma {:induction false} AcceptableIffMember(nameIsEmpty: bool, classId: uint32, classes: set<nat>)
    requires forall id :: id in classes ==> 1 <= id <= 32
    ensures AcceptableIdentity(nameIsEmpty, classId, MaskOf(classes)) <==>
              !nameIsEmpty && classId in classes && forall id :: id in classes ==> id <= 16
  {
    hide MaskOf, IsPlayableClassMask, HasBit;
    HasClassOfMask(classes, classId);
    PlayableIffClasses(classes);
    if HasClass(MaskOf(classes), classId) {
      NoBitOfZero(classId);
    }
  }

  lemma {:induction false} NoBitOfZero(id: nat)
    requires 1 <= id <= 32
    ensures !HasBit(0, id)
  {
  }

  predicate IsAcceptable(e: Entry) {
    AcceptableIdentity(e.name == [], e.classId, e.mask)
  }

  /** The acceptable entries, in order. */
  function Acceptable(entries: seq<Entry>): (r: seq<Entry>)
    ensures |r| <= |entries|
  {
    if entries == [] then []
    else Acceptable(entries[..|entries| - 1]) +
         (if IsAcceptable(entries[|entries| - 1]) then [entries[|entries| - 1]] else [])
  }

  // ---------- The sender's side ----------

  function EncodeEntry(e: Entry): (s: seq<byte>)
    ensures |s| == |e.name| + MINIMUM_ENTRY_BYTES
  {
    e.name + [0] + U32Bytes(e.classId) + U32Bytes(e.mask)
  }

  function EncodeAll(entries: seq<Entry>): (s: seq<byte>)
    ensures |s| >= MINIMUM_ENTRY_BYTES * |entries|
  {
    if entries == [] then [] else EncodeEntry(entries[0]) + EncodeAll(entries[1..])
  }

  predicate Sendable(entries: seq<Entry>) {
    |entries| < 0x1_0000_0000 && forall k {:trigger entries[k]} :: 0 <= k < |entries| ==> NoNul(entries[k].name)
  }

  function Encode(entries: seq<Entry>): seq<byte>
    requires Sendable(entries)
  {
    U32Bytes(|entries|) + EncodeAll(entries)
  }

  // ---------- The receiver's side ----------

  datatype Decoded = Decoded(entry: Entry, next: nat)

  function DecodeEntry(s: seq<byte>, at: nat): Option<Decoded> {
    match ReadCString(s, at)
    case None => None
    case Some(name) =>
      match ReadU32(s, name.next)
      case None => None
      case Some(classId) =>
        match ReadU32(s, name.next + 4)
        case None => None
        case Some(mask) => Some(Decoded(Entry(name.bytes, classId, mask), name.next + 8))
  }

  /** `n` entries one after the other. */
  function Decode(s: seq<byte>, at: nat, n: nat): (r: Option<seq<Entry>>)
    ensures r.Some? ==> |r.value| == n
    decreases n
  {
    if n == 0 then Some([])
    else match DecodeEntry(s, at)
      case None => None
      case Some(first) =>
        match Decode(s, first.next, n - 1)
        case None => None
        case Some(rest) => Some([first.entry] + rest)
  }

  /** How many of `n` entries decode before one does not. */
  function DecodedCount(s: seq<byte>, at: nat, n: nat): (c: nat)
    ensures c <= n
    ensures c == n <==> Decode(s, at, n).Some?
    decreases n
  {
    if n == 0 then 0
    else match DecodeEntry(s, at)
      case None => 0
      case Some(first) => 1 + DecodedCount(s, first.next, n - 1)
  }

  function MaxPossibleEntries(length: nat): nat {
    if length <= HEADER_BYTES then 0 else (length - HEADER_BYTES) / MINIMUM_ENTRY_BYTES
  }

  function Declared(s: seq<byte>): nat {
    if |s| < HEADER_BYTES then 0 else LoadU32(s, 0)
  }

  /** What the parser answers. A rejected packet keeps the counts it got to, and no entry. */
  function Parse(payload: Option<Payload>): ParseResult {
    match payload
    case None => ParseResult(false, 0, 0, 0, 0, [])
    case Some(s) =>
      var n := Declared(s);
      if |s| < HEADER_BYTES then ParseResult(false, 0, 0, 0, 0, [])
      else if n > MaxPossibleEntries(|s|) then ParseResult(false, n, 0, 0, 0, [])
      else match Decode(s, HEADER_BYTES, n)
        case None => ParseResult(false, n, DecodedCount(s, HEADER_BYTES, n), 0, 0, [])
        case Some(all) =>
          ParseResult(true, n, n, |Acceptable(all)|, n - |Acceptable(all)|, Acceptable(all))
  }

  lemma {:induction false} AcceptableSnoc(entries: seq<Entry>, e: Entry)
    ensures Acceptable(entries + [e]) == Acceptable(entries) + (if IsAcceptable(e) then [e] else [])
  {
    assert (entries + [e])[..|entries|] == entries;
  }

  /** A decoded entry occupies exactly its encoding. */
  lemma {:induction false} DecodedLength(s: seq<byte>, at: nat)
    requires DecodeEntry(s, at).Some?
    ensures var d := DecodeEntry(s, at).value; at <= |s| && d.next == at + |EncodeEntry(d.entry)| <= |s|
  {
  }

  /** Where the loop is: `done` decoded so far, the rest of the `n` entries from `cursor` on. */
  ghost predicate Progress(s: seq<byte>, n: nat, cursor: nat, done: seq<Entry>) {
    && |done| <= n && cursor <= |s|
    && DecodedCount(s, HEADER_BYTES, n) == |done| + DecodedCount(s, cursor, n - |done|)
    && (Decode(s, cursor, n - |done|).Some? ==>
          Decode(s, HEADER_BYTES, n) == Some(done + Decode(s, cursor, n - |done|).value))
  }

  lemma {:induction false} ProgressStep(s: seq<byte>, n: nat, cursor: nat, done: seq<Entry>)
    requires Progress(s, n, cursor, done) && |done| < n && DecodeEntry(s, cursor).Some?
    ensures Progress(s, n, DecodeEntry(s, cursor).value.next, done + [DecodeEntry(s, cursor).value.entry])
  {
    hide DecodeEntry;
    DecodedLength(s, cursor);
    var d := DecodeEntry(s, cursor).value;
    var rest := Decode(s, d.next, n - |done| - 1);
    if rest.Some? {
      assert done + ([d.entry] + rest.value) == done + [d.entry] + rest.value;
    }
  }

  lemma {:induction false} ProgressStart(s: seq<byte>, n: nat)
    requires |s| >= HEADER_BYTES
    ensures Progress(s, n, HEADER_BYTES, [])
  {
    hide Decode;
    if Decode(s, HEADER_BYTES, n).Some? {
      assert [] + Decode(s, HEADER_BYTES, n).value == Decode(s, HEADER_BYTES, n).value;
    }
  }

  lemma {:induction false} ProgressStops(s: seq<byte>, n: nat, cursor: nat, done: seq<Entry>)
    requires Progress(s, n, cursor, done) && |done| < n && DecodeEntry(s, cursor).None?
    ensures DecodedCount(s, HEADER_BYTES, n) == |done| && Decode(s, HEADER_BYTES, n).None?
  {
  }

  lemma {:induction false} ProgressEnds(s: seq<byte>, n: nat, cursor: nat, done: seq<Entry>)
    requires Progress(s, n, cursor, done) && |done| == n
    ensures Decode(s, HEADER_BYTES, n) == Some(done)
  {
    assert done + [] == done;
  }

  method ParsePayload(payload: Option<Payload>) returns (result: ParseResult)
    ensures result == Parse(payload)
  {
    result := ParseResult(false, 0, 0, 0, 0, []);
    if payload.None? || |payload.value| < HEADER_BYTES {
      return;
    }
    var s := payload.value;
    var entryCount: nat := LoadU32(s, 0);
    result := result.(declared := entryCount);
    if entryCount > MaxPossibleEntries(|s|) {
      return;
    }
    assert result.entries == Acceptable([]);
    hide IsAcceptable, Acceptable, Decode, DecodedCount, ReadCString, ReadU32, LoadU32, Progress;

    var cursor: nat, i: nat := HEADER_BYTES, 0;
    ghost var done: seq<Entry> := [];
    ProgressStart(s, entryCount);
    while i < entryCount
      invariant i <= entryCount && |done| == i && Progress(s, entryCount, cursor, done)
      invariant result == ParseResult(false, entryCount, i, |Acceptable(done)|, i - |Acceptable(done)|, Acceptable(done))
    {
      var name := TryReadCString(s, cursor);
      if name.None? || ReadU32(s, name.value.next).None? || ReadU32(s, name.value.next + 4).None? {
        ProgressStops(s, entryCount, cursor, done);
        result := result.(valid := false, entries := [], accepted := 0, rejected := 0);
        return;
      }
      var entry := Entry(name.value.bytes, ReadU32(s, name.value.next).value, ReadU32(s, name.value.next + 4).value);
      ProgressStep(s, entryCount, cursor, done);
      cursor := name.value.next + 8;
      result := result.(parsed := result.parsed + 1);
      if !IsAcceptable(entry) {
        result := result.(rejected := result.rejected + 1);
      } else {
        result := result.(entries := result.entries + [entry], accepted := result.accepted + 1);
      }
      AcceptableSnoc(done, entry);
      done := done + [entry];
      i := i + 1;
    }
    ProgressEnds(s, entryCount, cursor, done);
    result := result.(valid := true);
  }

  // ---------- The parser accepts exactly what a sender can have sent ----------

  lemma {:induction false} DecodeEntryIsExact(s: seq<byte>, at: nat, e: Entry)
    requires at <= |s|
    ensures DecodeEntry(s, at) == Some(Decoded(e, at + |EncodeEntry(e)|)) <==>
            NoNul(e.name) && EncodeEntry(e) <= s[at..]
  {
    hide NoNul, ReadU32, ReadCString, U32Bytes;
    var name, id, mask := e.name + [0], U32Bytes(e.classId), U32Bytes(e.mask);
    CStringIsExact(s, at, e.name);
    PrefixSplits(name, id, s, at);
    PrefixSplits(name + id, mask, s, at);
    if at + |name| <= |s| {
      U32IsExact(s, at + |name|, e.classId);
    }
    if at + |name| + 4 <= |s| {
      U32IsExact(s, at + |name| + 4, e.mask);
    }
  }

  ghost predicate AllNoNul(entries: seq<Entry>) {
    forall k {:trigger entries[k]} :: 0 <= k < |entries| ==> NoNul(entries[k].name)
  }

  lemma {:induction false} DecodeIsExact(s: seq<byte>, at: nat, entries: seq<Entry>)
    requires at <= |s|
    ensures Decode(s, at, |entries|) == Some(entries) <==> AllNoNul(entries) && EncodeAll(entries) <= s[at..]
    decreases |entries|
  {
    hide DecodeEntry, NoNul, EncodeEntry;
    if entries == [] {
      assert EncodeAll(entries) == [];
    } else {
      var first, rest := entries[0], entries[1..];
      assert AllNoNul(entries) <==> NoNul(first.name) && AllNoNul(rest);
      assert [first] + rest == entries;
      DecodeEntryIsExact(s, at, first);
      PrefixSplits(EncodeEntry(first), EncodeAll(rest), s, at);
      if DecodeEntry(s, at).Some? {
        DecodedLength(s, at);
      }
      if at + |EncodeEntry(first)| <= |s| {
        DecodeIsExact(s, at + |EncodeEntry(first)|, rest);
      }
    }
  }

  /** The packet starts with the encoding of these entries; what follows is ignored. */
  ghost predicate Carries(s: seq<byte>, entries: seq<Entry>) {
    Sendable(entries) && Encode(entries) <= s
  }

  lemma {:induction false} CarriesIffDecodes(s: Payload, entries: seq<Entry>)
    requires |entries| < 0x1_0000_0000
    ensures Carries(s, entries) <==>
            |s| >= HEADER_BYTES && Declared(s) == |entries| && Decode(s, HEADER_BYTES, |entries|) == Some(entries)
  {
    hide EncodeAll, Decode, U32Bytes, LoadU32;
    PrefixSplits(U32Bytes(|entries|), EncodeAll(entries), s, 0);
    assert s[0..] == s;
    U32IsExact(s, 0, |entries|);
    if |s| >= HEADER_BYTES {
      DecodeIsExact(s, HEADER_BYTES, entries);
    }
  }

  /** Every entry takes nine bytes or more, so the early bound on the declared count turns away
      no packet that would decode. */
  lemma {:induction false} BoundIsSafe(s: Payload, entries: seq<Entry>)
    requires Carries(s, entries)
    ensures |entries| <= MaxPossibleEntries(|s|)
  {
    assert |EncodeAll(entries)| >= MINIMUM_ENTRY_BYTES * |entries|;
  }

  /** A packet that carries entries is valid, its counts agree, and what comes out is the
      acceptable entries in order. */
  lemma {:induction false} ParseOfCarried(s: Payload, entries: seq<Entry>)
    requires Carries(s, entries)
    ensures Parse(Some(s)) ==
            ParseResult(true, |entries|, |entries|, |Acceptable(entries)|,
                        |entries| - |Acceptable(entries)|, Acceptable(entries))
  {
    BoundIsSafe(s, entries);
    assert |entries| < 0x1_0000_0000;
    hide Carries, Decode, Declared, Acceptable;
    CarriesIffDecodes(s, entries);
  }

  /** A packet is valid if and only if some list of entries, sent as a packet, is what it starts
      with; there is then only one such list. */
  lemma {:induction false} ValidIffCarries(s: Payload)
    ensures Parse(Some(s)).valid <==> exists entries :: Carries(s, entries)
    ensures forall a, b :: Carries(s, a) && Carries(s, b) ==> a == b
  {
    assert forall a {:trigger Carries(s, a)} :: Carries(s, a) ==> |a| < 0x1_0000_0000;
    hide Carries, Decode, Acceptable, LoadU32;
    if Parse(Some(s)).valid {
      var entries := Decode(s, HEADER_BYTES, Declared(s)).value;
      CarriesIffDecodes(s, entries);
    }
    if entries :| Carries(s, entries) {
      ParseOfCarried(s, entries);
    }
    forall a, b | Carries(s, a) && Carries(s, b) ensures a == b {
      CarriesIffDecodes(s, a);
      CarriesIffDecodes(s, b);
    }
  }

  /** Sending a list and parsing it, with or without bytes after it, gives its acceptable members. */
  lemma {:induction false} ParseOfEncode(entries: seq<Entry>, trailing: seq<byte>)
    requires Sendable(entries) && |Encode(entries) + trailing| < 0x1_0000_0000
    ensures Parse(Some(Encode(entries) + trailing)).valid
    ensures Parse(Some(Encode(entries) + trailing)).entries == Acceptable(entries)
  {
    ParseOfCarried(Encode(entries) + trailing, entries);
  }
}
