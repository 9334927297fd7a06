/** What consumers of the who list see, in terms of the rows the server sent. */
module WhoRows {
  import opened Wire
  import opened PacketReader
  import opened WhoList

  /** The entry kept of a row: its class, its place, and its name up to 63 bytes, marked when cut. */
  predicate Shows(e: WhoEntry, r: Row, tags: Tags, index: nat) {
    && e.active && e.tags == tags && e.entryIndex == index && e.classId == r.classId
    && (if |r.name| <= 63 then e.name == r.name && !e.truncated else e.name == r.name[..63] && e.truncated)
  }

  lemma {:induction false} EntryShowsRow(r: Row, tags: Tags, index: uint32)
    ensures Shows(EntryOf(Player(r.name, r.classId), tags, index), r, tags, index)
  {
    assert r.name[..|r.name|] == r.name;
  }

  lemma {:induction false} OneEntryShowsRow(a: WhoEntry, b: WhoEntry, r: Row, tags: Tags, index: nat)
    requires Shows(a, r, tags, index) && Shows(b, r, tags, index)
    ensures a == b
  {
  }

  lemma {:induction false} ShownName(e: WhoEntry, r: Row, tags: Tags, index: nat)
    requires Shows(e, r, tags, index)
    ensures e.active && (e.name == [] <==> r.name == [])
  {
  }

  lemma {:induction false} PlayerOfRow(rows: seq<Row>, i: nat)
    requires i < |rows|
    ensures PlayersOf(rows)[i] == Player(rows[i].name, rows[i].classId)
  {
    if i > 0 {
      PlayerOfRow(rows[1..], i - 1);
    }
  }

  /** A response of 64 to 4096 bytes is captured as the entries of the rows it holds, up to the count
      at byte 60 and up to the first that is not whole, in order. */
  lemma {:induction false} CapturedRows(s: Payload, tags: Tags, rows: seq<Row>)
    requires 64 <= |s| <= 4096 && LongestRun(s, 64, LoadU32(s, 60), rows)
    ensures Considered(Some(s)) && |EntriesOf(Players(s), tags, 0)| == |rows| <= 79
    ensures forall i: nat {:trigger rows[i]} :: i < |rows| ==> Shows(EntriesOf(Players(s), tags, 0)[i], rows[i], tags, i)
  {
    PlayersOfLongestRun(s, 64, LoadU32(s, 60), rows);
    var players := Players(s);
    assert players == PlayersOf(rows);
    hide LongestRun, Players, EntriesOf, EntryOf, Shows, PlayersOf;
    forall i: nat | i < |rows| ensures Shows(EntriesOf(players, tags, 0)[i], rows[i], tags, i) {
      EntryAt(players, tags, 0, i);
      PlayerOfRow(rows, i);
      EntryShowsRow(rows[i], tags, i);
    }
  }

  /** The row a consumer can be handed as this entry. */
  ghost predicate ComesFrom(e: WhoEntry, rows: seq<Row>, tags: Tags) {
    exists i: nat {:trigger rows[i]} :: i < |rows| && rows[i].name != [] && Shows(e, rows[i], tags, i)
  }

  lemma {:induction false} NamedRows(s: Payload, tags: Tags, rows: seq<Row>, e: WhoEntry)
    requires 64 <= |s| <= 4096 && LongestRun(s, 64, LoadU32(s, 60), rows)
    ensures Considered(Some(s))
    ensures e in Named(EntriesOf(Players(s), tags, 0)) <==> ComesFrom(e, rows, tags)
  {
    CapturedRows(s, tags, rows);
    var entries := EntriesOf(Players(s), tags, 0);
    NamedMembers(entries);
    hide LongestRun, Players, EntriesOf, Named, EntryOf, Shows;
    if e in entries && e.active && e.name != [] {
      var i: nat :| i < |entries| && entries[i] == e;
      ShownName(e, rows[i], tags, i);
    }
    if i: nat :| i < |rows| && rows[i].name != [] && Shows(e, rows[i], tags, i) {
      OneEntryShowsRow(entries[i], e, rows[i], tags, i);
      ShownName(e, rows[i], tags, i);
    }
  }

  /** However appends and consumers interleave, until the next response: what has been handed out comes
      from rows with a name, in the order of the rows and each at most once; when the response is
      captured and nothing is pending, every row with a name has been handed out. */
  lemma {:induction false} ConsumersSeeRows(s: Payload, tags: Tags, rows: seq<Row>, events: seq<Event>)
    requires 64 <= |s| <= 4096 && LongestRun(s, 64, LoadU32(s, 60), rows) && Considered(Some(s))
    requires AppendedIn(events) <= EntriesOf(Players(s), tags, 0)
    ensures forall e :: e in Delivered(events) ==> ComesFrom(e, rows, tags)
    ensures IndexIncreases(Delivered(events))
    ensures AppendedIn(events) == EntriesOf(Players(s), tags, 0) && PendingAfter(events) == [] ==>
              forall e :: ComesFrom(e, rows, tags) ==> e in Delivered(events)
  {
    hide LongestRun, Players, EntriesOf, Named, EntryOf, Delivered, PendingAfter, AppendedIn, ComesFrom, IndexIncreases;
    ConsumersGetPlayersInOrder(s, tags, events);
    var named := Named(EntriesOf(Players(s), tags, 0));
    forall e ensures e in named <==> ComesFrom(e, rows, tags) {
      NamedRows(s, tags, rows, e);
    }
    assert forall e :: e in Delivered(events) ==> e in named;
  }
}
