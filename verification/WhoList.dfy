/** The who-list response: the players it names, captured for display and consumed one by one. */
module WhoList {
  import opened Wire
  import opened PacketReader

  const HEADER_BYTES: nat := 64
  const PLAYER_COUNT_AT: nat := 60
  const FIXED_BLOCK_BYTES: nat := 28
  const CLASS_ID_AT: nat := 16
  const MINIMUM_ENTRY_BYTES: nat := 51
  const PAYLOAD_SAFETY_CEILING: nat := 4096
  const CAPTURE_CAP: nat := 256
  const NAME_BYTES: nat := 64

  datatype Player = Player(name: seq<byte>, classId: uint32)

  // ---------- The receiver's side ----------

  datatype Decoded = Decoded(player: Player, next: nat)

  /** Behind the guild: a fixed block, the account and a last word. */
  function DecodeRest(s: seq<byte>, name: seq<byte>, at: nat): Option<Decoded> {
    if at + FIXED_BLOCK_BYTES > |s| then None
    else match ReadCString(s, at + FIXED_BLOCK_BYTES)
      case None => None
      case Some(account) =>
        if ReadU32(s, account.next).None? then None
        else Some(Decoded(Player(name, LoadU32(s, at + CLASS_ID_AT)), account.next + 4))
  }

  function DecodeEntry(s: seq<byte>, at: nat): Option<Decoded> {
    if ReadU32(s, at).None? || ReadU32(s, at + 4).None? then None
    else match ReadCString(s, at + 12)
      case None => None
      case Some(name) =>
        if ReadU32(s, name.next).None? then None
        else match ReadCString(s, name.next + 4)
          case None => None
          case Some(guild) => DecodeRest(s, name.bytes, guild.next)
  }

  /** Up to `n` entries, up to the first that does not decode. */
  function DecodeAll(s: seq<byte>, at: nat, n: nat): (r: seq<Player>)
    ensures |r| <= n
    decreases n
  {
    if n == 0 || DecodeEntry(s, at).None? then []
    else [DecodeEntry(s, at).value.player] + DecodeAll(s, DecodeEntry(s, at).value.next, n - 1)
  }

  predicate Considered(payload: Option<Payload>) {
    payload.Some? && 64 <= |payload.value| <= 4096
  }

  lemma {:induction false} EntryTakesRoom(s: seq<byte>, at: nat)
    requires DecodeEntry(s, at).Some?
    ensures at + MINIMUM_ENTRY_BYTES <= DecodeEntry(s, at).value.next <= |s|
  {
  }

  lemma {:induction false} EntriesTakeRoom(s: seq<byte>, at: nat, n: nat)
    requires at <= |s|
    ensures at + MINIMUM_ENTRY_BYTES * |DecodeAll(s, at, n)| <= |s|
    decreases n
  {
    hide DecodeEntry;
    if n > 0 && DecodeEntry(s, at).Some? {
      EntryTakesRoom(s, at);
      EntriesTakeRoom(s, DecodeEntry(s, at).value.next, n - 1);
    }
  }

  /** The players of a response. None that is looked at yields more than 79, whatever count it
      declares. */
  function Players(s: Payload): (players: seq<Player>)
    requires Considered(Some(s))
    ensures |players| <= 79
  {
    EntriesTakeRoom(s, HEADER_BYTES, LoadU32(s, PLAYER_COUNT_AT));
    DecodeAll(s, HEADER_BYTES, LoadU32(s, PLAYER_COUNT_AT))
  }

  /** `done` has been read, and `left` more entries may follow at `at`. */
  ghost predicate Reading(s: Payload, done: seq<Player>, at: nat, left: nat)
    requires Considered(Some(s))
  {
    Players(s) == done + DecodeAll(s, at, left)
  }

  lemma {:induction false} ReadingStarts(s: Payload, tags: Tags)
    requires Considered(Some(s))
    ensures Reading(s, [], HEADER_BYTES, LoadU32(s, PLAYER_COUNT_AT)) && EntriesOf([], tags, 0) == []
  {
  }

  lemma {:induction false} ReadingStep(s: Payload, done: seq<Player>, at: nat, left: nat)
    requires Considered(Some(s)) && Reading(s, done, at, left) && left > 0 && DecodeEntry(s, at).Some?
    ensures var d := DecodeEntry(s, at).value; Reading(s, done + [d.player], d.next, left - 1) && |done| < 79
  {
    hide DecodeEntry, Players;
    var d := DecodeEntry(s, at).value;
    var rest := DecodeAll(s, d.next, left - 1);
    assert done + ([d.player] + rest) == done + [d.player] + rest;
  }

  lemma {:induction false} ReadingEnds(s: Payload, done: seq<Player>, at: nat, left: nat)
    requires Considered(Some(s)) && Reading(s, done, at, left)
    requires left == 0 || DecodeEntry(s, at).None?
    ensures Players(s) == done
  {
    assert done + [] == done;
  }

  // ---------- The sender's side ----------

  datatype Row = Row(
    prefix: seq<byte>, name: seq<byte>, rank: seq<byte>, guild: seq<byte>, before: seq<byte>, classId: uint32,
    after: seq<byte>, account: seq<byte>, tail: seq<byte>)

  predicate WellFormed(r: Row) {
    && |r.prefix| == 12 && |r.rank| == 4 && |r.before| == 16 && |r.after| == 8 && |r.tail| == 4
    && NoNul(r.name) && NoNul(r.guild) && NoNul(r.account)
  }

  function FixedPart(r: Row): seq<byte> {
    r.before + (U32Bytes(r.classId) + (r.after + ((r.account + [0]) + r.tail)))
  }

  function EncodeRow(r: Row): seq<byte> {
    r.prefix + ((r.name + [0]) + (r.rank + ((r.guild + [0]) + FixedPart(r))))
  }

  function EncodeRows(rows: seq<Row>): seq<byte> {
    if rows == [] then [] else EncodeRow(rows[0]) + EncodeRows(rows[1..])
  }

  function PlayersOf(rows: seq<Row>): (r: seq<Player>)
    ensures |r| == |rows|
  {
    if rows == [] then [] else [Player(rows[0].name, rows[0].classId)] + PlayersOf(rows[1..])
  }

  lemma {:induction false} RestOfRow(s: seq<byte>, at: nat, r: Row)
    requires at <= |s| && WellFormed(r) && FixedPart(r) <= s[at..]
    ensures DecodeRest(s, r.name, at) == Some(Decoded(Player(r.name, r.classId), at + |FixedPart(r)|))
  {
    hide ReadCString, U32Bytes, LoadU32, NoNul;
    var account := r.account + [0];
    PrefixSplits(r.before, U32Bytes(r.classId) + (r.after + (account + r.tail)), s, at);
    PrefixSplits(U32Bytes(r.classId), r.after + (account + r.tail), s, at + 16);
    PrefixSplits(r.after, account + r.tail, s, at + 20);
    PrefixSplits(account, r.tail, s, at + 28);
    U32IsExact(s, at + 16, r.classId);
    CStringIsExact(s, at + 28, r.account);
  }

  lemma {:induction false} DecodeOfRow(s: seq<byte>, at: nat, r: Row)
    requires at <= |s| && WellFormed(r) && EncodeRow(r) <= s[at..]
    ensures DecodeEntry(s, at) == Some(Decoded(Player(r.name, r.classId), at + |EncodeRow(r)|))
  {
    hide ReadCString, FixedPart, DecodeRest, LoadU32, NoNul;
    var name, guild := r.name + [0], r.guild + [0];
    PrefixSplits(r.prefix, name + (r.rank + (guild + FixedPart(r))), s, at);
    PrefixSplits(name, r.rank + (guild + FixedPart(r)), s, at + 12);
    PrefixSplits(r.rank, guild + FixedPart(r), s, at + 12 + |name|);
    PrefixSplits(guild, FixedPart(r), s, at + 16 + |name|);
    CStringIsExact(s, at + 12, r.name);
    CStringIsExact(s, at + 16 + |name|, r.guild);
    RestOfRow(s, at + 16 + |name| + |guild|, r);
  }

  /** The row a decodable entry is. */
  lemma {:induction false} RowAt(s: seq<byte>, at: nat) returns (r: Row)
    requires at <= |s| && DecodeEntry(s, at).Some?
    ensures WellFormed(r) && EncodeRow(r) <= s[at..]
    ensures DecodeEntry(s, at) == Some(Decoded(Player(r.name, r.classId), at + |EncodeRow(r)|))
  {
    hide ReadCString, LoadU32, NoNul, U32Bytes;
    var name := ReadCString(s, at + 12).value;
    ReadTextFits(s, at + 12);
    var guild := ReadCString(s, name.next + 4).value;
    ReadTextFits(s, name.next + 4);
    var g := guild.next;
    var account := ReadCString(s, g + FIXED_BLOCK_BYTES).value;
    ReadTextFits(s, g + FIXED_BLOCK_BYTES);
    r := Row(s[at..at + 12], name.bytes, s[name.next..name.next + 4], guild.bytes, s[g..g + 16],
             LoadU32(s, g + CLASS_ID_AT), s[g + 20..g + 28], account.bytes, s[account.next..account.next + 4]);
    FixedPartStarts(s, g, r);
    RowStarts(s, at, r);
  }

  lemma {:induction false} FixedPartStarts(s: seq<byte>, g: nat, r: Row)
    requires WellFormed(r) && g + FIXED_BLOCK_BYTES + |r.account| + 5 <= |s|
    requires s[g..g + 16] == r.before && LoadU32(s, g + CLASS_ID_AT) == r.classId && s[g + 20..g + 28] == r.after
    requires r.account + [0] <= s[g + FIXED_BLOCK_BYTES..]
    requires var tail := g + FIXED_BLOCK_BYTES + |r.account| + 1; s[tail..tail + 4] == r.tail
    ensures FixedPart(r) <= s[g..]
  {
    hide NoNul, U32Bytes, LoadU32;
    var account := r.account + [0];
    U32IsExact(s, g + 16, r.classId);
    PrefixSplits(account, r.tail, s, g + 28);
    PrefixSplits(r.after, account + r.tail, s, g + 20);
    PrefixSplits(U32Bytes(r.classId), r.after + (account + r.tail), s, g + 16);
    PrefixSplits(r.before, U32Bytes(r.classId) + (r.after + (account + r.tail)), s, g);
  }

  lemma {:induction false} RowStarts(s: seq<byte>, at: nat, r: Row)
    requires WellFormed(r)
    requires var g := at + 16 + |r.name| + 1 + |r.guild| + 1; g <= |s| && FixedPart(r) <= s[g..]
    requires s[at..at + 12] == r.prefix && r.name + [0] <= s[at + 12..]
    requires var rank := at + 12 + |r.name| + 1; s[rank..rank + 4] == r.rank && r.guild + [0] <= s[rank + 4..]
    ensures EncodeRow(r) <= s[at..]
  {
    hide NoNul, FixedPart;
    var name, guild := r.name + [0], r.guild + [0];
    PrefixSplits(guild, FixedPart(r), s, at + 16 + |name|);
    PrefixSplits(r.rank, guild + FixedPart(r), s, at + 12 + |name|);
    PrefixSplits(name, r.rank + (guild + FixedPart(r)), s, at + 12);
    PrefixSplits(r.prefix, name + (r.rank + (guild + FixedPart(r))), s, at);
  }

  /** A row is read exactly when an encoded row stands there, with its player and its end. */
  lemma {:induction false} DecodeEntryIsExact(s: seq<byte>, at: nat, d: Decoded)
    requires at <= |s|
    ensures DecodeEntry(s, at) == Some(d) <==>
            exists r :: WellFormed(r) && EncodeRow(r) <= s[at..] && d == Decoded(Player(r.name, r.classId), at + |EncodeRow(r)|)
  {
    hide DecodeEntry, WellFormed, EncodeRow;
    if DecodeEntry(s, at) == Some(d) {
      var r := RowAt(s, at);
    }
    if r :| WellFormed(r) && EncodeRow(r) <= s[at..] && d == Decoded(Player(r.name, r.classId), at + |EncodeRow(r)|) {
      DecodeOfRow(s, at, r);
    }
  }

  ghost predicate RowsAt(s: seq<byte>, at: nat, rows: seq<Row>)
    requires at <= |s|
  {
    (forall k {:trigger rows[k]} :: 0 <= k < |rows| ==> WellFormed(rows[k])) && EncodeRows(rows) <= s[at..]
  }

  ghost predicate NoRowAt(s: seq<byte>, at: nat)
    requires at <= |s|
  {
    forall r {:trigger EncodeRow(r)} :: WellFormed(r) ==> !(EncodeRow(r) <= s[at..])
  }

  /** A run of rows from `at` on, as long as it can be, up to `n`. */
  ghost predicate LongestRun(s: seq<byte>, at: nat, n: nat, rows: seq<Row>)
    requires at <= |s|
  {
    && |rows| <= n && RowsAt(s, at, rows)
    && (|rows| < n ==> at + |EncodeRows(rows)| <= |s| && NoRowAt(s, at + |EncodeRows(rows)|))
  }

  lemma {:induction false} LongestRunCons(s: seq<byte>, at: nat, n: nat, rows: seq<Row>)
    requires at <= |s| && n > 0 && rows != []
    ensures LongestRun(s, at, n, rows) <==>
            && WellFormed(rows[0]) && EncodeRow(rows[0]) <= s[at..] && at + |EncodeRow(rows[0])| <= |s|
            && LongestRun(s, at + |EncodeRow(rows[0])|, n - 1, rows[1..])
  {
    hide EncodeRow, WellFormed, NoRowAt;
    PrefixSplits(EncodeRow(rows[0]), EncodeRows(rows[1..]), s, at);
    assert rows == [rows[0]] + rows[1..];
  }

  lemma {:induction false} PlayersOfLongestRun(s: seq<byte>, at: nat, n: nat, rows: seq<Row>)
    requires at <= |s| && LongestRun(s, at, n, rows)
    ensures DecodeAll(s, at, n) == PlayersOf(rows)
    decreases n
  {
    hide EncodeRow, DecodeEntry, WellFormed, LongestRun;
    if rows == [] {
      NothingLongest(s, at, n);
    } else {
      SomeLongest(s, at, n, rows);
      LongestRunCons(s, at, n, rows);
      DecodeOfRow(s, at, rows[0]);
      PlayersOfLongestRun(s, at + |EncodeRow(rows[0])|, n - 1, rows[1..]);
    }
  }

  lemma {:induction false} NothingLongest(s: seq<byte>, at: nat, n: nat)
    requires at <= |s|
    ensures LongestRun(s, at, n, []) <==> n == 0 || DecodeEntry(s, at).None?
  {
    hide EncodeRow, DecodeEntry, WellFormed;
    if DecodeEntry(s, at).Some? {
      var r := RowAt(s, at);
    } else {
      forall r | WellFormed(r) ensures !(EncodeRow(r) <= s[at..]) {
        if EncodeRow(r) <= s[at..] {
          DecodeOfRow(s, at, r);
        }
      }
    }
  }

  lemma {:induction false} SomeLongest(s: seq<byte>, at: nat, n: nat, rows: seq<Row>)
    requires at <= |s| && LongestRun(s, at, n, rows) && rows != []
    ensures n > 0
  {
  }

  lemma {:induction false} LongestRunExists(s: seq<byte>, at: nat, n: nat) returns (rows: seq<Row>)
    requires at <= |s|
    ensures LongestRun(s, at, n, rows)
    decreases n
  {
    hide EncodeRow, DecodeEntry, WellFormed, LongestRun;
    NothingLongest(s, at, n);
    if n == 0 || DecodeEntry(s, at).None? {
      rows := [];
    } else {
      var r := RowAt(s, at);
      var rest := LongestRunExists(s, at + |EncodeRow(r)|, n - 1);
      rows := [r] + rest;
      LongestRunCons(s, at, n, rows);
    }
  }

  /** A response yields exactly the players of the longest run of encoded rows behind its header,
      up to the count it declares, whether it holds them all or is cut short. */
  lemma {:induction false} PlayersAreTheLongestRun(s: Payload, players: seq<Player>)
    requires Considered(Some(s))
    ensures Players(s) == players <==>
            exists rows :: LongestRun(s, 64, LoadU32(s, 60), rows) && players == PlayersOf(rows)
  {
    hide LongestRun, DecodeAll, PlayersOf, LoadU32;
    var n: nat := LoadU32(s, PLAYER_COUNT_AT);
    var longest := LongestRunExists(s, HEADER_BYTES, n);
    PlayersOfLongestRun(s, HEADER_BYTES, n, longest);
    if rows :| LongestRun(s, HEADER_BYTES, n, rows) && players == PlayersOf(rows) {
      PlayersOfLongestRun(s, HEADER_BYTES, n, rows);
    }
  }

  /** In particular, of all declared rows, when it holds them all. */
  lemma {:induction false} PlayersOfResponse(s: Payload, header: seq<byte>, rows: seq<Row>)
    requires Considered(Some(s)) && |header| == 64 && LoadU32(header, 60) == |rows|
    requires forall k {:trigger rows[k]} :: 0 <= k < |rows| ==> WellFormed(rows[k])
    requires header + EncodeRows(rows) <= s
    ensures Players(s) == PlayersOf(rows)
  {
    hide WellFormed, EncodeRows, DecodeAll, PlayersOf, NoRowAt;
    assert s[0..] == s;
    PrefixSplits(header, EncodeRows(rows), s, 0);
    assert forall i :: 0 <= i < HEADER_BYTES ==> s[i] == header[i];
    PlayersOfLongestRun(s, HEADER_BYTES, |rows|, rows);
  }

  // ---------- The capture ----------

  datatype Tags = Tags(activation: uint64, receiveSequence: uint64, responseIndex: uint64)

  datatype WhoEntry = WhoEntry(
    active: bool, truncated: bool, tags: Tags, entryIndex: uint32, classId: uint32, name: seq<byte>)

  const EMPTY: WhoEntry := WhoEntry(false, false, Tags(0, 0, 0), 0, 0, [])

  /** The entry kept of the player at `index`: its name is cut to what fits with a NUL. */
  function EntryOf(p: Player, tags: Tags, index: uint32): WhoEntry {
    var n := if |p.name| < NAME_BYTES - 1 then |p.name| else NAME_BYTES - 1;
    WhoEntry(true, n < |p.name|, tags, index, p.classId, p.name[..n])
  }

  /** Entries of the players from `first` on. */
  function EntriesOf(players: seq<Player>, tags: Tags, first: nat): (es: seq<WhoEntry>)
    requires first + |players| <= 0x1_0000_0000
    ensures |es| == |players|
  {
    if players == [] then []
    else [EntryOf(players[0], tags, first)] + EntriesOf(players[1..], tags, first + 1)
  }

  /** The entries a consumer gets to see. */
  function Named(entries: seq<WhoEntry>): seq<WhoEntry> {
    if entries == [] then []
    else (if entries[0].active && entries[0].name != [] then [entries[0]] else []) + Named(entries[1..])
  }

  /** One entry, read field by field. */
  method TryReadEntry(s: Payload, start: nat) returns (r: Option<Decoded>)
    ensures r == DecodeEntry(s, start)
  {
    hide ReadCString;
    var at := start;
    if ReadU32(s, at).None? || ReadU32(s, at + 4).None? {
      return None;
    }
    at := at + 12;
    var name := TryReadCString(s, at);
    if name.None? || ReadU32(s, name.value.next).None? {
      return None;
    }
    at := name.value.next + 4;
    var guild := TryReadCString(s, at);
    if guild.None? {
      return None;
    }
    at := guild.value.next;
    if at > |s| || |s| - at < FIXED_BLOCK_BYTES {
      return None;
    }
    var classId := LoadU32(s, at + CLASS_ID_AT);
    at := at + FIXED_BLOCK_BYTES;
    var account := TryReadCString(s, at);
    if account.None? || ReadU32(s, account.value.next).None? {
      return None;
    }
    r := Some(Decoded(Player(name.value.bytes, classId), account.value.next + 4));
  }

  class Capture {
    const entries: array<WhoEntry>
    var count: nat
    var cursor: nat

    ghost predicate Valid()
      reads this, entries
    {
      entries.Length == CAPTURE_CAP && cursor <= count <= CAPTURE_CAP
    }

    ghost function Captured(): seq<WhoEntry>
      reads this, entries
      requires Valid()
    {
      entries[..count]
    }

    /** What is still to be consumed. */
    ghost function Pending(): seq<WhoEntry>
      reads this, entries
      requires Valid()
    {
      Named(entries[cursor..count])
    }

    constructor ()
      ensures Valid() && Pending() == [] && fresh(entries)
    {
      entries := new WhoEntry[CAPTURE_CAP](_ => EMPTY);
      count, cursor := 0, 0;
    }

    method Begin()
      requires Valid()
      modifies this, entries
      ensures Valid() && count == cursor == 0 && Captured() == []
      ensures Pending() == Step(old(Pending()), Emptied)
    {
      forall i | 0 <= i < entries.Length {
        entries[i] := EMPTY;
      }
      count, cursor := 0, 0;
    }

    method Append(p: Player, tags: Tags, index: uint32)
      requires Valid()
      modifies this`count, entries
      ensures Valid()
      ensures old(count) >= CAPTURE_CAP ==> count == old(count) && Captured() == old(Captured())
      ensures old(count) < CAPTURE_CAP ==>
                && count == old(count) + 1 && Captured() == old(Captured()) + [EntryOf(p, tags, index)]
                && Pending() == Step(old(Pending()), Appended(EntryOf(p, tags, index)))
    {
      if count >= entries.Length {
        return;
      }
      var copyLength := if |p.name| < NAME_BYTES - 1 then |p.name| else NAME_BYTES - 1;
      var entry := WhoEntry(true, copyLength < |p.name|, tags, index, p.classId, p.name[..copyLength]);
      NamedConcat(entries[cursor..count], [entry]);
      entries[count] := entry;
      count := count + 1;
      assert entries[cursor..count] == old(entries[cursor..count]) + [entry];
    }

    /** One who-list response. A response of acceptable size replaces the capture by all players it
        yields, none dropped by the cap; any other changes nothing. */
    method ObserveResponse(payload: Option<Payload>, tags: Tags)
      requires Valid()
      modifies this, entries
      ensures Valid()
      ensures Considered(payload) ==> Captured() == EntriesOf(Players(payload.value), tags, 0)
      ensures !Considered(payload) ==> Captured() == old(Captured())
      ensures Pending() == if Considered(payload) then Named(EntriesOf(Players(payload.value), tags, 0)) else old(Pending())
    {
      if payload.None? || |payload.value| < HEADER_BYTES || |payload.value| > PAYLOAD_SAFETY_CEILING {
        return;
      }
      var s := payload.value;
      Begin();
      CapturePlayers(s, LoadU32(s, PLAYER_COUNT_AT), tags);
      assert entries[cursor..count] == Captured();
    }

    /** The loop over the rows, stopping at the first that does not decode. */
    method CapturePlayers(s: Payload, playerCount: uint32, tags: Tags)
      requires Valid() && Considered(Some(s)) && playerCount == LoadU32(s, PLAYER_COUNT_AT)
      requires count == cursor == 0 && Captured() == []
      modifies this`count, entries
      ensures Valid() && count == |Players(s)| && Captured() == EntriesOf(Players(s), tags, 0)
    {
      hide DecodeEntry, DecodeAll, Players, Reading, LoadU32, EntriesOf, EntryOf, Considered, Captured, Pending, Named, Step;
      ReadingStarts(s, tags);
      var at: nat, index: nat := HEADER_BYTES, 0;
      ghost var done: seq<Player> := [];
      while index < playerCount
        invariant Valid() && index <= playerCount
        invariant count == index == |done| <= 79
        invariant Captured() == EntriesOf(done, tags, 0)
        invariant Reading(s, done, at, playerCount - index)
      {
        var r := TryReadEntry(s, at);
        if r.None? {
          break;
        }
        ReadingStep(s, done, at, playerCount - index);
        EntriesOfSnoc(done, r.value.player, tags, 0);
        Append(r.value.player, tags, index);
        done := done + [r.value.player];
        at := r.value.next;
        index := index + 1;
      }
      ReadingEnds(s, done, at, playerCount - index);
    }

    /** The next named entry, and the cursor behind it. */
    method TryConsume() returns (entry: Option<WhoEntry>)
      requires Valid()
      modifies this`cursor
      ensures Valid()
      ensures entry == if old(Pending()) == [] then None else Some(old(Pending())[0])
      ensures Pending() == Step(old(Pending()), Consume)
    {
      while cursor < count
        invariant Valid() && old(Pending()) == Pending()
        decreases count - cursor
      {
        var candidate := entries[cursor];
        assert entries[cursor..count][0] == candidate;
        assert entries[cursor..count][1..] == entries[cursor + 1..count];
        cursor := cursor + 1;
        if !candidate.active || candidate.name == [] {
          continue;
        }
        return Some(candidate);
      }
      entry := None;
    }
  }

  // ---------- Every interleaving ----------

  /** The capture's lock is taken for each of these on its own, so a consumer may come in between
      two appends of one response. */
  datatype Event = Emptied | Appended(entry: WhoEntry) | Consume

  /** What is pending after an event, as the methods of the capture say. */
  function Step(pending: seq<WhoEntry>, e: Event): seq<WhoEntry> {
    match e
    case Emptied => []
    case Appended(entry) => pending + Named([entry])
    case Consume => if pending == [] then [] else pending[1..]
  }

  function PendingAfter(events: seq<Event>): seq<WhoEntry> {
    if events == [] then [] else Step(PendingAfter(events[..|events| - 1]), events[|events| - 1])
  }

  /** The entries handed to consumers since the capture was last emptied. */
  function Delivered(events: seq<Event>): seq<WhoEntry> {
    if events == [] then []
    else
      var front, e := events[..|events| - 1], events[|events| - 1];
      if e.Emptied? then []
      else if e.Consume? && PendingAfter(front) != [] then Delivered(front) + [PendingAfter(front)[0]]
      else Delivered(front)
  }

  /** The entries appended since the capture was last emptied. */
  function AppendedIn(events: seq<Event>): seq<WhoEntry> {
    if events == [] then []
    else
      var front, e := events[..|events| - 1], events[|events| - 1];
      if e.Emptied? then [] else if e.Appended? then AppendedIn(front) + [e.entry] else AppendedIn(front)
  }

  lemma {:induction false} NamedConcat(a: seq<WhoEntry>, b: seq<WhoEntry>)
    ensures Named(a + b) == Named(a) + Named(b)
    decreases |a|
  {
    if a == [] {
      assert a + b == b;
    } else {
      assert (a + b)[1..] == a[1..] + b;
      NamedConcat(a[1..], b);
    }
  }

  /** What was delivered, followed by what is still pending, is the named part of what was
      appended: nothing is lost, repeated or reordered, however consumers interleave. */
  lemma {:induction false} NothingLostOrRepeated(events: seq<Event>)
    ensures Delivered(events) + PendingAfter(events) == Named(AppendedIn(events))
  {
    if events == [] {
    } else {
      assert Named([]) == [];
      hide Named;
      var front, e := events[..|events| - 1], events[|events| - 1];
      NothingLostOrRepeated(front);
      var d, q := Delivered(front), PendingAfter(front);
      match e {
        case Emptied =>
        case Appended(entry) =>
          NamedConcat(AppendedIn(front), [entry]);
          assert d + (q + Named([entry])) == d + q + Named([entry]);
        case Consume =>
          if q != [] {
            assert d + [q[0]] + q[1..] == d + q;
          }
      }
    }
  }

  ghost predicate IndexIncreases(es: seq<WhoEntry>) {
    forall i, j :: 0 <= i < j < |es| ==> es[i].entryIndex < es[j].entryIndex
  }

  lemma {:induction false} EntriesOfSnoc(players: seq<Player>, p: Player, tags: Tags, first: nat)
    requires first + |players| < 0x1_0000_0000
    ensures EntriesOf(players + [p], tags, first) == EntriesOf(players, tags, first) + [EntryOf(p, tags, first + |players|)]
    decreases |players|
  {
    if players == [] {
      assert [] + [p] == [p];
    } else {
      assert (players + [p])[1..] == players[1..] + [p];
      EntriesOfSnoc(players[1..], p, tags, first + 1);
    }
  }

  lemma {:induction false} EntryAt(players: seq<Player>, tags: Tags, first: nat, i: nat)
    requires first + |players| <= 0x1_0000_0000 && i < |players|
    ensures EntriesOf(players, tags, first)[i] == EntryOf(players[i], tags, first + i)
    decreases |players|
  {
    if i > 0 {
      EntryAt(players[1..], tags, first + 1, i - 1);
    }
  }

  lemma {:induction false} NamedMembers(es: seq<WhoEntry>)
    ensures forall e :: e in Named(es) <==> e in es && e.active && e.name != []
    decreases |es|
  {
    if es != [] {
      NamedMembers(es[1..]);
      assert forall e :: e in es <==> e == es[0] || e in es[1..];
    }
  }

  lemma {:induction false} NamedKeepsOrder(es: seq<WhoEntry>)
    requires IndexIncreases(es)
    ensures IndexIncreases(Named(es))
    decreases |es|
  {
    if es != [] {
      NamedKeepsOrder(es[1..]);
      NamedMembers(es[1..]);
      forall e | e in es[1..] ensures es[0].entryIndex < e.entryIndex {
        var k :| 0 <= k < |es[1..]| && es[1..][k] == e;
      }
    }
  }

  lemma {:induction false} EntriesAreInOrder(players: seq<Player>, tags: Tags)
    requires |players| <= 79
    ensures IndexIncreases(EntriesOf(players, tags, 0))
  {
    hide EntriesOf;
    forall i: nat | i < |players| ensures EntriesOf(players, tags, 0)[i].entryIndex == i {
      EntryAt(players, tags, 0, i);
    }
  }

  /** The named entries of a response are those of its players with a name, in packet order. */
  lemma {:induction false} NamedPlayers(players: seq<Player>, tags: Tags)
    requires |players| <= 79
    ensures IndexIncreases(Named(EntriesOf(players, tags, 0)))
    ensures forall e :: e in Named(EntriesOf(players, tags, 0)) <==>
              exists i: nat {:trigger players[i]} :: i < |players| && players[i].name != [] && e == EntryOf(players[i], tags, i)
  {
    var entries := EntriesOf(players, tags, 0);
    hide EntriesOf, Named, IndexIncreases;
    EntriesAreInOrder(players, tags);
    NamedKeepsOrder(entries);
    NamedMembers(entries);
    forall e ensures e in Named(entries) <==>
              exists i: nat {:trigger players[i]} :: i < |players| && players[i].name != [] && e == EntryOf(players[i], tags, i)
    {
      EntryOfPlayer(players, tags, e);
    }
  }

  lemma {:induction false} EntryOfPlayer(players: seq<Player>, tags: Tags, e: WhoEntry)
    requires |players| <= 79
    ensures e in EntriesOf(players, tags, 0) && e.active && e.name != [] <==>
              exists i: nat {:trigger players[i]} :: i < |players| && players[i].name != [] && e == EntryOf(players[i], tags, i)
  {
    var entries := EntriesOf(players, tags, 0);
    hide EntriesOf;
    forall i: nat | i < |players| ensures entries[i] == EntryOf(players[i], tags, i) {
      EntryAt(players, tags, 0, i);
    }
    if i: nat :| i < |entries| && entries[i] == e {
      assert players[i].name == [] <==> e.name == [];
    }
  }

  /** While a response is being captured and after, until the next one, consumers are handed the
      named players of the response in packet order, from the first on, each at most once. */
  lemma {:induction false} ConsumersGetPlayersInOrder(s: Payload, tags: Tags, events: seq<Event>)
    requires Considered(Some(s))
    requires AppendedIn(events) <= EntriesOf(Players(s), tags, 0)
    ensures Delivered(events) <= Named(EntriesOf(Players(s), tags, 0))
    ensures IndexIncreases(Delivered(events))
    ensures AppendedIn(events) == EntriesOf(Players(s), tags, 0) && PendingAfter(events) == [] ==>
              Delivered(events) == Named(EntriesOf(Players(s), tags, 0))
  {
    hide Players, EntriesOf, Named, Delivered, PendingAfter, AppendedIn;
    var all, some := EntriesOf(Players(s), tags, 0), AppendedIn(events);
    NothingLostOrRepeated(events);
    NamedConcat(some, all[|some|..]);
    assert some + all[|some|..] == all;
    NamedPlayers(Players(s), tags);
    if PendingAfter(events) == [] {
      assert Delivered(events) + [] == Delivered(events);
    }
  }
}
