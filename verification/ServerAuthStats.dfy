/** The server-auth statistics packet, and what the proxy publishes of it. */
module ServerAuthStats {
  import opened Wire
  import opened PacketReader

  const CLASSES_KEY: uint32 := 1
  const SKILL_MASK_LOW_KEY: uint32 := 2
  const SKILL_MASK_HIGH_KEY: uint32 := 3
  const EXTRA_PET_0_HP_KEY: uint32 := 100
  const EXTRA_PET_1_HP_KEY: uint32 := 101
  const FOCUSED_PET_KEY: uint32 := 102
  const UINT32_MAX: nat := 0xffff_ffff

  datatype Stat = Stat(key: uint32, value: uint64)

  /** One recognised key of a packet. */
  datatype Field = Field(has: bool, value: uint64, duplicate: bool)

  datatype Reason = NullPayload | TooShortForCount | TruncatedEntries | TrailingBytes

  datatype Parsed = Parsed(
    classes: Field, skillLow: Field, skillHigh: Field, petHp0: Field, petHp1: Field, focused: Field,
    invalidClasses: bool, invalidClassesValue: uint64, recognized: nat, unknown: nat)

  datatype ParseResult = Valid(count: nat, parsed: Parsed) | Malformed(count: nat, reason: Reason)

  // ---------- Meaning of a list of statistics ----------

  /** Class masks and pet ids must fit 32 bits. */
  predicate InRange(st: Stat) {
    st.key == CLASSES_KEY || st.key == FOCUSED_PET_KEY ==> st.value <= UINT32_MAX
  }

  predicate IsRecognized(key: uint32) {
    key in {CLASSES_KEY, SKILL_MASK_LOW_KEY, SKILL_MASK_HIGH_KEY, EXTRA_PET_0_HP_KEY, EXTRA_PET_1_HP_KEY, FOCUSED_PET_KEY}
  }

  /** The values given under `key`, in order: those in range, or those out of it. */
  function Values(stats: seq<Stat>, key: uint32, inRange: bool): (vs: seq<uint64>) {
    if stats == [] then []
    else
      var last := stats[|stats| - 1];
      Values(stats[..|stats| - 1], key, inRange) +
      (if last.key == key && InRange(last) == inRange then [last.value] else [])
  }

  function LastOrZero(vs: seq<uint64>): uint64 {
    if vs == [] then 0 else vs[|vs| - 1]
  }

  /** Present when the key occurs in range, with its last value there, and marked duplicate when
      it occurs there twice or more. */
  function FieldOf(stats: seq<Stat>, key: uint32): Field {
    var vs := Values(stats, key, true);
    Field(vs != [], LastOrZero(vs), |vs| >= 2)
  }

  function RecognizedCount(stats: seq<Stat>): nat {
    if stats == [] then 0
    else RecognizedCount(stats[..|stats| - 1]) + (if IsRecognized(stats[|stats| - 1].key) then 1 else 0)
  }

  lemma {:induction false} RecognizedCountBound(stats: seq<Stat>)
    ensures RecognizedCount(stats) <= |stats|
  {
    if stats != [] {
      RecognizedCountBound(stats[..|stats| - 1]);
    }
  }

  /** What a packet says. Recognised and unknown entries add up to the count, and an oversized
      pet id is counted on both sides. */
  function Summary(stats: seq<Stat>): Parsed {
    RecognizedCountBound(stats);
    var invalid := Values(stats, CLASSES_KEY, false);
    Parsed(FieldOf(stats, CLASSES_KEY), FieldOf(stats, SKILL_MASK_LOW_KEY), FieldOf(stats, SKILL_MASK_HIGH_KEY),
           FieldOf(stats, EXTRA_PET_0_HP_KEY), FieldOf(stats, EXTRA_PET_1_HP_KEY), FieldOf(stats, FOCUSED_PET_KEY),
           invalid != [], LastOrZero(invalid),
           RecognizedCount(stats),
           |stats| - RecognizedCount(stats) + |Values(stats, FOCUSED_PET_KEY, false)|)
  }

  // ---------- Reading ----------

  /** Where entry `i` starts, behind the four-byte count; an entry is twelve bytes. */
  function EntryOffset(i: nat): nat {
    4 + 12 * i
  }

  lemma {:induction false} EntryFits(i: nat, count: nat)
    requires i < count
    ensures EntryOffset(i) + 12 == EntryOffset(i + 1) <= EntryOffset(count)
  {
  }

  function LoadU64(s: seq<byte>, at: nat): uint64
    requires at + 8 <= |s|
  {
    LoadU32(s, at) + 0x1_0000_0000 * LoadU32(s, at + 4)
  }

  function StatAt(s: seq<byte>, i: nat): Stat
    requires EntryOffset(i + 1) <= |s|
  {
    Stat(LoadU32(s, EntryOffset(i)), LoadU64(s, EntryOffset(i) + 4))
  }

  function Stats(s: seq<byte>, n: nat): (r: seq<Stat>)
    requires EntryOffset(n) <= |s|
    ensures |r| == n
  {
    if n == 0 then [] else Stats(s, n - 1) + [StatAt(s, n - 1)]
  }

  lemma {:induction false} StatsGrow(s: seq<byte>, i: nat)
    requires EntryOffset(i + 1) <= |s|
    ensures Stats(s, i + 1) == Stats(s, i) + [StatAt(s, i)]
  {
  }

  /** What the receive path is handed: bytes, or a null pointer with any length. */
  datatype Received = Bytes(s: Payload) | Null(length: uint32)

  function Parse(r: Received): ParseResult {
    match r
    case Null(length) => Malformed(0, if length != 0 then NullPayload else TooShortForCount)
    case Bytes(s) =>
      if |s| < 4 then Malformed(0, TooShortForCount)
      else
        var n := LoadU32(s, 0);
        if EntryOffset(n) > |s| then Malformed(n, TruncatedEntries)
        else if EntryOffset(n) < |s| then Malformed(n, TrailingBytes)
        else Valid(n, Summary(Stats(s, n)))
  }

  method ReadU32Le(s: Payload, offset: nat) returns (value: Option<uint32>)
    ensures value == ReadU32(s, offset)
  {
    if offset > |s| || |s| - offset < 4 {
      return None;
    }
    value := Some(Word(s[offset], s[offset + 1], s[offset + 2], s[offset + 3]));
  }

  /** The bytes shifted into place one by one; the bits are disjoint, so `|=` is addition. */
  method ReadU64Le(s: Payload, offset: nat) returns (value: Option<uint64>)
    ensures value == if offset + 8 <= |s| then Some(LoadU64(s, offset)) else None
  {
    if offset > |s| || |s| - offset < 8 {
      return None;
    }
    var bytes := s[offset..offset + 8];
    assert LoadU64(bytes, 0) == LoadU64(s, offset);
    assert LittleEndian(bytes[..0]) == 0;
    hide LittleEndian, Pow256, LoadU64;
    var parsed: int, i: nat := 0, 0;
    while i < 8
      invariant i <= 8 && parsed == LittleEndian(bytes[..i])
    {
      LittleEndianStep(bytes, i);
      parsed := parsed + bytes[i] * Pow256(i);
      i := i + 1;
    }
    assert bytes[..8] == bytes;
    EightBytes(bytes);
    value := Some(parsed);
  }

  function LittleEndian(bytes: seq<byte>): nat {
    if bytes == [] then 0
    else LittleEndian(bytes[..|bytes| - 1]) + bytes[|bytes| - 1] * Pow256(|bytes| - 1)
  }

  lemma {:induction false} LittleEndianStep(b: seq<byte>, k: nat)
    requires k < |b|
    ensures LittleEndian(b[..k + 1]) == LittleEndian(b[..k]) + b[k] * Pow256(k)
  {
    assert b[..k + 1][..k] == b[..k];
  }

  lemma {:induction false} PowersOf256()
    ensures Pow256(0) == 1 && Pow256(1) == 0x100 && Pow256(2) == 0x1_0000 && Pow256(3) == 0x100_0000
    ensures Pow256(4) == 0x1_0000_0000 && Pow256(5) == 0x100_0000_0000
    ensures Pow256(6) == 0x1_0000_0000_0000 && Pow256(7) == 0x100_0000_0000_0000
  {
    assert Pow256(3) == 0x100 * Pow256(2);
    assert Pow256(5) == 0x100 * Pow256(4);
    assert Pow256(7) == 0x100 * Pow256(6);
  }

  lemma {:induction false} EightBytes(b: seq<byte>)
    requires |b| == 8
    ensures LittleEndian(b) == LoadU64(b, 0)
  {
    assert b[..8] == b;
    assert LittleEndian(b[..0]) == 0;
    PowersOf256();
    hide LittleEndian, Pow256;
    LittleEndianStep(b, 0);
    LittleEndianStep(b, 1);
    LittleEndianStep(b, 2);
    LittleEndianStep(b, 3);
    LittleEndianStep(b, 4);
    LittleEndianStep(b, 5);
    LittleEndianStep(b, 6);
    LittleEndianStep(b, 7);
  }

  // ---------- The parser ----------

  /** One more entry changes the field of its own key, if in range, and no other. */
  lemma {:induction false} FieldOfSnoc(stats: seq<Stat>, st: Stat, key: uint32)
    ensures FieldOf(stats + [st], key) ==
            if st.key == key && InRange(st) then Field(true, st.value, FieldOf(stats, key).has)
            else FieldOf(stats, key)
  {
    hide InRange;
    assert (stats + [st])[..|stats|] == stats;
    assert Values(stats + [st], key, true) ==
           Values(stats, key, true) + (if st.key == key && InRange(st) then [st.value] else []);
  }

  lemma {:induction false} OutOfRangeSnoc(stats: seq<Stat>, st: Stat, key: uint32)
    ensures Values(stats + [st], key, false) ==
            Values(stats, key, false) + (if st.key == key && !InRange(st) then [st.value] else [])
  {
    hide InRange;
    assert (stats + [st])[..|stats|] == stats;
  }

  lemma {:induction false} RecognizedSnoc(stats: seq<Stat>, st: Stat)
    ensures RecognizedCount(stats + [st]) == RecognizedCount(stats) + (if IsRecognized(st.key) then 1 else 0)
  {
    hide IsRecognized;
    assert (stats + [st])[..|stats|] == stats;
  }

  lemma {:induction false} NoStats()
    ensures Summary([]) == Parsed(Field(false, 0, false), Field(false, 0, false), Field(false, 0, false),
                                  Field(false, 0, false), Field(false, 0, false), Field(false, 0, false),
                                  false, 0, 0, 0)
  {
  }

  /** The summary after one more entry. */
  lemma {:induction false} SummarySnoc(stats: seq<Stat>, st: Stat)
    ensures
      var p, p' := Summary(stats), Summary(stats + [st]);
      var ok := InRange(st);
      && p'.classes == (if st.key == CLASSES_KEY && ok then Field(true, st.value, p.classes.has) else p.classes)
      && p'.skillLow == (if st.key == SKILL_MASK_LOW_KEY then Field(true, st.value, p.skillLow.has) else p.skillLow)
      && p'.skillHigh == (if st.key == SKILL_MASK_HIGH_KEY then Field(true, st.value, p.skillHigh.has) else p.skillHigh)
      && p'.petHp0 == (if st.key == EXTRA_PET_0_HP_KEY then Field(true, st.value, p.petHp0.has) else p.petHp0)
      && p'.petHp1 == (if st.key == EXTRA_PET_1_HP_KEY then Field(true, st.value, p.petHp1.has) else p.petHp1)
      && p'.focused == (if st.key == FOCUSED_PET_KEY && ok then Field(true, st.value, p.focused.has) else p.focused)
      && p'.invalidClasses == (p.invalidClasses || (st.key == CLASSES_KEY && !ok))
      && p'.invalidClassesValue == (if st.key == CLASSES_KEY && !ok then st.value else p.invalidClassesValue)
      && p'.recognized == p.recognized + (if IsRecognized(st.key) then 1 else 0)
      && p'.unknown == p.unknown + (if !IsRecognized(st.key) || (st.key == FOCUSED_PET_KEY && !ok) then 1 else 0)
  {
    FieldOfSnoc(stats, st, CLASSES_KEY);
    FieldOfSnoc(stats, st, SKILL_MASK_LOW_KEY);
    FieldOfSnoc(stats, st, SKILL_MASK_HIGH_KEY);
    FieldOfSnoc(stats, st, EXTRA_PET_0_HP_KEY);
    FieldOfSnoc(stats, st, EXTRA_PET_1_HP_KEY);
    FieldOfSnoc(stats, st, FOCUSED_PET_KEY);
    OutOfRangeSnoc(stats, st, CLASSES_KEY);
    OutOfRangeSnoc(stats, st, FOCUSED_PET_KEY);
    RecognizedSnoc(stats, st);
    hide Values, FieldOf, RecognizedCount;
  }

  /** The switch over the key of one entry. */
  method Account(before: Parsed, st: Stat, ghost stats: seq<Stat>) returns (r: Parsed)
    requires before == Summary(stats)
    ensures r == Summary(stats + [st])
  {
    SummarySnoc(stats, st);
    hide Summary;
    var value := st.value;
    r := before;
    match st.key {
      case 1 =>
        r := r.(recognized := r.recognized + 1);
        if value > UINT32_MAX {
          r := r.(invalidClasses := true, invalidClassesValue := value);
        } else {
          r := r.(classes := Field(true, value, r.classes.has));
        }
      case 2 =>
        r := r.(recognized := r.recognized + 1, skillLow := Field(true, value, r.skillLow.has));
      case 3 =>
        r := r.(recognized := r.recognized + 1, skillHigh := Field(true, value, r.skillHigh.has));
      case 100 =>
        r := r.(recognized := r.recognized + 1, petHp0 := Field(true, value, r.petHp0.has));
      case 101 =>
        r := r.(recognized := r.recognized + 1, petHp1 := Field(true, value, r.petHp1.has));
      case 102 =>
        r := r.(recognized := r.recognized + 1);
        if value > UINT32_MAX {
          r := r.(unknown := r.unknown + 1);
        } else {
          r := r.(focused := Field(true, value, r.focused.has));
        }
      case _ =>
        r := r.(unknown := r.unknown + 1);
    }
  }

  /** A 32-bit sum. */
  function AddU32(a: uint32, b: uint32): uint32 {
    (a + b) % 0x1_0000_0000
  }

  lemma {:induction false} NoWrap(a: uint32, b: uint32)
    requires a + b <= UINT32_MAX
    ensures AddU32(a, b) == a + b
  {
  }

  /** One entry. The three guards, an offset beyond 32 bits and two failed reads, are dead: the
      length test before the loop is enough. */
  method ReadStat(s: Payload, i: nat) returns (st: Stat)
    requires EntryOffset(i + 1) <= |s|
    ensures st == StatAt(s, i)
  {
    hide LoadU32, LoadU64, AddU32;
    var entryOffset := 4 + i * 12;
    if entryOffset > UINT32_MAX {
      assert false;
    }
    NoWrap(entryOffset, 4);
    var key := ReadU32Le(s, entryOffset);
    var value := ReadU64Le(s, AddU32(entryOffset, 4));
    if key.None? || value.None? {
      assert false;
    }
    st := Stat(key.value, value.value);
  }

  method ParseEntries(s: Payload, count: nat) returns (r: Parsed)
    requires EntryOffset(count) == |s|
    ensures r == Summary(Stats(s, count))
  {
    NoStats();
    assert Stats(s, 0) == [];
    hide Summary, Stats, StatAt;
    r := Parsed(Field(false, 0, false), Field(false, 0, false), Field(false, 0, false),
                Field(false, 0, false), Field(false, 0, false), Field(false, 0, false), false, 0, 0, 0);
    for i := 0 to count
      invariant EntryOffset(i) <= |s| && r == Summary(Stats(s, i))
    {
      EntryFits(i, count);
      var st := ReadStat(s, i);
      StatsGrow(s, i);
      r := Account(r, st, Stats(s, i));
    }
  }

  /** A payload is valid if and only if its length is exactly what its count says; no read fault
      and no offset overflow can happen; and a valid one is summarised exactly. */
  method ParsePayload(r: Received) returns (result: ParseResult)
    ensures result == Parse(r)
  {
    if r.Null? && r.length != 0 {
      return Malformed(0, NullPayload);
    }
    if r.Null? || |r.s| < 4 {
      return Malformed(0, TooShortForCount);
    }
    var s := r.s;
    var header := ReadU32Le(s, 0);
    if header.None? {
      assert false;
    }
    var count: nat := header.value;
    var bodyLength := |s| - 4;
    if count > bodyLength / 12 {
      return Malformed(count, TruncatedEntries);
    }
    if 4 + count * 12 != |s| {
      return Malformed(count, TrailingBytes);
    }
    var parsed := ParseEntries(s, count);
    result := Valid(count, parsed);
  }

  // ---------- The sender's side ----------

  function Low32(v: uint64): uint32 {
    v % 0x1_0000_0000
  }

  function High32(v: uint64): uint32 {
    v / 0x1_0000_0000
  }

  function StatBytes(st: Stat): (b: seq<byte>)
    ensures |b| == 12
  {
    U32Bytes(st.key) + U32Bytes(Low32(st.value)) + U32Bytes(High32(st.value))
  }

  function EncodeStats(stats: seq<Stat>): (b: seq<byte>)
    ensures 4 + |b| == EntryOffset(|stats|)
  {
    if stats == [] then [] else EncodeStats(stats[..|stats| - 1]) + StatBytes(stats[|stats| - 1])
  }

  function Encode(stats: seq<Stat>): seq<byte>
    requires |stats| < 0x1_0000_0000
  {
    U32Bytes(|stats|) + EncodeStats(stats)
  }

  lemma {:induction false} SameU32(s: seq<byte>, at: nat, v: uint32)
    requires at + 4 <= |s|
    ensures LoadU32(s, at) == v <==> s[at..at + 4] == U32Bytes(v)
  {
    hide U32Bytes, LoadU32;
    U32IsExact(s, at, v);
    assert s[at..][..4] == s[at..at + 4];
  }

  lemma {:induction false} SplitU64(low: uint32, high: uint32, v: uint64)
    ensures low + 0x1_0000_0000 * high == v <==> low == Low32(v) && high == High32(v)
  {
  }

  lemma {:induction false} SameThreeWords(a: seq<byte>, b: seq<byte>, c: seq<byte>, x: seq<byte>, y: seq<byte>, z: seq<byte>)
    requires |a| == |b| == |c| == |x| == |y| == |z| == 4
    ensures a + b + c == x + y + z <==> a == x && b == y && c == z
  {
    var l, r := a + b + c, x + y + z;
    assert l[..4] == a && l[4..8] == b && l[8..] == c;
    assert r[..4] == x && r[4..8] == y && r[8..] == z;
  }

  lemma {:induction false} SameU64(s: seq<byte>, at: nat, v: uint64)
    requires at + 8 <= |s|
    ensures LoadU64(s, at) == v <==> s[at..at + 4] == U32Bytes(Low32(v)) && s[at + 4..at + 8] == U32Bytes(High32(v))
  {
    SameU32(s, at, Low32(v));
    SameU32(s, at + 4, High32(v));
    hide U32Bytes, LoadU32, Low32, High32;
    SplitU64(LoadU32(s, at), LoadU32(s, at + 4), v);
  }

  lemma {:induction false} StatIsExact(s: seq<byte>, i: nat, st: Stat)
    requires EntryOffset(i + 1) <= |s|
    ensures StatAt(s, i) == st <==> s[EntryOffset(i)..EntryOffset(i + 1)] == StatBytes(st)
  {
    hide U32Bytes, LoadU32, LoadU64, Low32, High32;
    var at := EntryOffset(i);
    var a, b, c := s[at..at + 4], s[at + 4..at + 8], s[at + 8..at + 12];
    SameU32(s, at, st.key);
    SameU64(s, at + 4, st.value);
    SameThreeWords(a, b, c, U32Bytes(st.key), U32Bytes(Low32(st.value)), U32Bytes(High32(st.value)));
    assert s[at..at + 12] == a + b + c;
  }

  lemma {:induction false} StatsAreExact(s: seq<byte>, stats: seq<Stat>)
    requires EntryOffset(|stats|) <= |s|
    ensures Stats(s, |stats|) == stats <==> s[4..EntryOffset(|stats|)] == EncodeStats(stats)
    decreases |stats|
  {
    if stats == [] {
      assert s[4..4] == [];
    } else {
      var k := |stats| - 1;
      EntryFits(k, |stats|);
      StatsAreExact(s, stats[..k]);
      StatIsExact(s, k, stats[k]);
      hide StatBytes, StatAt;
      var front, last := s[4..EntryOffset(k)], s[EntryOffset(k)..EntryOffset(k + 1)];
      assert s[4..EntryOffset(k + 1)] == front + last;
      assert (front + last)[..|front|] == front && (front + last)[|front|..] == last;
      var e, b := EncodeStats(stats[..k]), StatBytes(stats[k]);
      assert (e + b)[..|e|] == e && (e + b)[|e|..] == b;
      assert stats == stats[..k] + [stats[k]];
      assert Stats(s, k + 1)[..k] == Stats(s, k);
    }
  }

  /** Sending statistics and parsing them gives exactly their summary. */
  lemma {:induction false} ParseOfEncode(stats: seq<Stat>)
    requires |stats| < 0x1_0000_0000 && |Encode(stats)| < 0x1_0000_0000
    ensures Parse(Bytes(Encode(stats))) == Valid(|stats|, Summary(stats))
  {
    var s := Encode(stats);
    assert s[0..4] == U32Bytes(|stats|) && s[4..EntryOffset(|stats|)] == EncodeStats(stats);
    SameU32(s, 0, |stats|);
    StatsAreExact(s, stats);
  }

  /** The valid payloads are exactly the encodings of lists of statistics; which are the payloads
      whose length is 4 + 12 * count. */
  lemma {:induction false} ValidIffEncoding(s: Payload)
    ensures Parse(Bytes(s)).Valid? <==> exists stats: seq<Stat> :: |stats| < 0x1_0000_0000 && s == Encode(stats)
    ensures Parse(Bytes(s)).Valid? <==> |s| >= 4 && |s| == 4 + 12 * LoadU32(s, 0)
  {
    if Parse(Bytes(s)).Valid? {
      var n: nat := LoadU32(s, 0);
      var stats := Stats(s, n);
      StatsAreExact(s, stats);
      SameU32(s, 0, n);
      assert s == s[0..4] + s[4..EntryOffset(n)];
      assert s == Encode(stats);
    }
    if stats: seq<Stat> :| |stats| < 0x1_0000_0000 && s == Encode(stats) {
      ParseOfEncode(stats);
    }
  }

  // ---------- What is published ----------

  datatype Slot = Slot(has: bool, value: uint64)

  datatype Snapshot = Snapshot(
    classes: Slot, skillLow: Slot, skillHigh: Slot, petHp0: Slot, petHp1: Slot, focused: Slot)

  function SlotOf(f: Field): Slot {
    Slot(f.has, f.value)
  }

  function NothingSeen(): Snapshot {
    var none := Slot(false, 0);
    Snapshot(none, none, none, none, none, none)
  }

  function Observed(before: Snapshot, r: Received): Snapshot {
    match Parse(r)
    case Malformed(_, _) => before
    case Valid(_, p) =>
      Snapshot(if p.classes.has then SlotOf(p.classes) else before.classes,
               SlotOf(p.skillLow), SlotOf(p.skillHigh), SlotOf(p.petHp0), SlotOf(p.petHp1), SlotOf(p.focused))
  }

  function After(rs: seq<Received>): Snapshot {
    if rs == [] then NothingSeen() else Observed(After(rs[..|rs| - 1]), rs[|rs| - 1])
  }

  class Observer {
    var hasClasses: bool
    var classes: uint32
    var hasSkillLow: bool
    var skillLow: uint64
    var hasSkillHigh: bool
    var skillHigh: uint64
    var hasPetHp: seq<bool>
    var petHp: seq<uint64>
    var hasFocused: bool
    var focused: uint32

    ghost predicate Valid()
      reads this
    {
      |hasPetHp| == 2 && |petHp| == 2
    }

    ghost function State(): Snapshot
      reads this
      requires Valid()
    {
      Snapshot(Slot(hasClasses, classes), Slot(hasSkillLow, skillLow), Slot(hasSkillHigh, skillHigh),
               Slot(hasPetHp[0], petHp[0]), Slot(hasPetHp[1], petHp[1]), Slot(hasFocused, focused))
    }

    constructor ()
      ensures Valid() && State() == NothingSeen()
    {
      hasClasses, classes := false, 0;
      hasSkillLow, skillLow, hasSkillHigh, skillHigh := false, 0, false, 0;
      hasPetHp, petHp := [false, false], [0, 0];
      hasFocused, focused := false, 0;
    }

    method ObserveReceivePayload(r: Received)
      requires Valid()
      modifies this
      ensures Valid() && State() == Observed(old(State()), r)
    {
      hide Parse;
      var result := ParsePayload(r);
      if result.Malformed? {
        return;
      }
      var p := result.parsed;
      ParsedFits(r);
      if p.classes.has {
        StoreClassesBitmask(p.classes.value);
      }
      StoreActivatedSkillMasks(p);
      StoreExtraPetHp1000(p);
      StoreFocusedPetId(p);
    }

    method StoreClassesBitmask(mask: uint32)
      modifies `classes, `hasClasses
      ensures hasClasses && classes == mask
    {
      classes := mask;
      hasClasses := true;
    }

    method StoreActivatedSkillMasks(p: Parsed)
      modifies `skillLow, `skillHigh, `hasSkillLow, `hasSkillHigh
      ensures Slot(hasSkillLow, skillLow) == SlotOf(p.skillLow) && Slot(hasSkillHigh, skillHigh) == SlotOf(p.skillHigh)
    {
      skillLow := p.skillLow.value;
      skillHigh := p.skillHigh.value;
      hasSkillLow := p.skillLow.has;
      hasSkillHigh := p.skillHigh.has;
    }

    method StoreExtraPetHp1000(p: Parsed)
      requires Valid()
      modifies `petHp, `hasPetHp
      ensures Valid()
      ensures Slot(hasPetHp[0], petHp[0]) == SlotOf(p.petHp0) && Slot(hasPetHp[1], petHp[1]) == SlotOf(p.petHp1)
    {
      petHp, hasPetHp := petHp[0 := p.petHp0.value], hasPetHp[0 := p.petHp0.has];
      petHp, hasPetHp := petHp[1 := p.petHp1.value], hasPetHp[1 := p.petHp1.has];
    }

    method StoreFocusedPetId(p: Parsed)
      requires p.focused.value <= UINT32_MAX
      modifies `focused, `hasFocused
      ensures Slot(hasFocused, focused) == SlotOf(p.focused)
    {
      focused := p.focused.value;
      hasFocused := p.focused.has;
    }

    method GetSnapshot() returns (snapshot: Snapshot)
      requires Valid()
      ensures snapshot == State()
    {
      snapshot := Snapshot(Slot(hasClasses, classes), Slot(hasSkillLow, skillLow), Slot(hasSkillHigh, skillHigh),
                           Slot(hasPetHp[0], petHp[0]), Slot(hasPetHp[1], petHp[1]), Slot(hasFocused, focused));
    }
  }

  lemma {:induction false} LastInRange(stats: seq<Stat>, key: uint32)
    requires key == CLASSES_KEY || key == FOCUSED_PET_KEY
    ensures FieldOf(stats, key).value <= UINT32_MAX
  {
    if stats != [] {
      LastInRange(stats[..|stats| - 1], key);
    }
  }

  /** The two narrowed values fit their 32-bit fields. */
  lemma {:induction false} ParsedFits(r: Received)
    requires Parse(r).Valid?
    ensures Parse(r).parsed.classes.value <= UINT32_MAX && Parse(r).parsed.focused.value <= UINT32_MAX
  {
    var stats := Stats(r.s, LoadU32(r.s, 0));
    hide FieldOf;
    LastInRange(stats, CLASSES_KEY);
    LastInRange(stats, FOCUSED_PET_KEY);
  }

  // ---------- Every run ----------

  ghost predicate IsLastValid(rs: seq<Received>, k: nat) {
    && k < |rs| && Parse(rs[k]).Valid?
    && forall j {:trigger rs[j]} :: k < j < |rs| ==> Parse(rs[j]).Malformed?
  }

  predicate CarriesClasses(r: Received) {
    Parse(r).Valid? && Parse(r).parsed.classes.has
  }

  ghost predicate IsLastClasses(rs: seq<Received>, k: nat) {
    && k < |rs| && CarriesClasses(rs[k])
    && forall j {:trigger rs[j]} :: k < j < |rs| ==> !CarriesClasses(rs[j])
  }

  /** Skill masks, pet hit points and the focused pet mirror the last valid payload, including
      what it did not carry; malformed payloads change nothing. */
  lemma {:induction false} MirrorsLastValid(rs: seq<Received>, k: nat)
    requires IsLastValid(rs, k)
    ensures
      var p, now := Parse(rs[k]).parsed, After(rs);
      && now.skillLow == SlotOf(p.skillLow) && now.skillHigh == SlotOf(p.skillHigh)
      && now.petHp0 == SlotOf(p.petHp0) && now.petHp1 == SlotOf(p.petHp1)
      && now.focused == SlotOf(p.focused)
    decreases |rs|
  {
    hide Parse;
    if k < |rs| - 1 {
      var front := rs[..|rs| - 1];
      assert IsLastValid(front, k) by {
        forall j | k < j < |front| ensures Parse(front[j]).Malformed? {
          assert front[j] == rs[j];
        }
      }
      MirrorsLastValid(front, k);
      assert Parse(rs[|rs| - 1]).Malformed?;
    }
  }

  /** Before the first valid payload nothing has been seen. */
  lemma {:induction false} NothingBeforeFirstValid(rs: seq<Received>)
    requires forall j {:trigger rs[j]} :: 0 <= j < |rs| ==> Parse(rs[j]).Malformed?
    ensures After(rs) == NothingSeen()
  {
    hide Parse;
    if rs != [] {
      NothingBeforeFirstValid(rs[..|rs| - 1]);
      assert Parse(rs[|rs| - 1]).Malformed?;
    }
  }

  lemma {:induction false} LastClassesInFront(rs: seq<Received>, k: nat)
    requires |rs| > 0 && k < |rs| - 1
    ensures IsLastClasses(rs, k) <==> IsLastClasses(rs[..|rs| - 1], k) && !CarriesClasses(rs[|rs| - 1])
  {
    hide Parse, CarriesClasses;
    var front := rs[..|rs| - 1];
    assert forall j :: 0 <= j < |front| ==> front[j] == rs[j];
    if IsLastClasses(rs, k) {
      assert !CarriesClasses(rs[|rs| - 1]);
    }
  }

  lemma {:induction false} LastEvent(rs: seq<Received>)
    ensures |rs| > 0 ==> (IsLastClasses(rs, |rs| - 1) <==> CarriesClasses(rs[|rs| - 1]))
    ensures forall k: nat :: IsLastClasses(rs, k) ==> k < |rs|
  {
  }

  /** The class mask is known as soon as one valid payload carried an in-range mask, is the one
      of the last such payload, and no later payload of any kind loses it. */
  lemma {:induction false} ClassMaskIsNeverLost(rs: seq<Received>)
    ensures (exists j :: 0 <= j < |rs| && CarriesClasses(rs[j])) <==> After(rs).classes.has
    ensures After(rs).classes.has <==> exists k: nat :: IsLastClasses(rs, k)
    ensures forall k: nat :: IsLastClasses(rs, k) ==> After(rs).classes == SlotOf(Parse(rs[k]).parsed.classes)
  {
    LastEvent(rs);
    hide Parse, IsLastClasses;
    if rs != [] {
      var n := |rs| - 1;
      ClassMaskIsNeverLost(rs[..n]);
      forall k: nat | k < n ensures IsLastClasses(rs, k) <==> IsLastClasses(rs[..n], k) && !CarriesClasses(rs[n]) {
        LastClassesInFront(rs, k);
      }
      LastEvent(rs[..n]);
      if k: nat :| IsLastClasses(rs[..n], k) {
        assert CarriesClasses(rs[n]) || IsLastClasses(rs, k);
      }
    }
  }
}
