/** What is published of the statistics, in terms of the entries the server sent. */
module StatsSent {
  import opened Wire
  import opened PacketReader
  import opened ServerAuthStats

  /** A class mask, key 1, and a focused pet, key 102, count only within 32 bits. */
  predicate Counts(st: Stat) {
    st.key == 1 || st.key == 102 ==> st.value < 0x1_0000_0000
  }

  /** Entry `k` is the last one of its key that counts. */
  ghost predicate IsLast(stats: seq<Stat>, k: nat, key: uint32) {
    && k < |stats| && stats[k].key == key && Counts(stats[k])
    && forall j {:trigger stats[j]} :: k < j < |stats| ==> !(stats[j].key == key && Counts(stats[j]))
  }

  /** The slot has the last value under the key, or is empty and zero when there is none. */
  ghost predicate Holds(slot: Slot, stats: seq<Stat>, key: uint32) {
    && (slot.has <==> exists k: nat :: IsLast(stats, k, key))
    && (forall k: nat :: IsLast(stats, k, key) ==> slot.value == stats[k].value)
    && (!slot.has ==> slot.value == 0)
  }

  lemma {:induction false} FieldHolds(stats: seq<Stat>, key: uint32)
    ensures Holds(SlotOf(FieldOf(stats, key)), stats, key)
  {
    if stats == [] {
    } else {
      var n := |stats| - 1;
      var front, last := stats[..n], stats[n];
      FieldHolds(front, key);
      FieldOfSnoc(front, last, key);
      assert stats == front + [last];
      assert InRange(last) <==> Counts(last);
      hide FieldOf, InRange, Counts;
      forall k: nat | k < n ensures IsLast(stats, k, key) <==> IsLast(front, k, key) && !(last.key == key && Counts(last)) {
        LastInFront(stats, front, k, key);
      }
      if last.key == key && Counts(last) {
        assert IsLast(stats, n, key);
      } else if k: nat :| IsLast(front, k, key) {
        assert IsLast(stats, k, key);
      }
    }
  }

  lemma {:induction false} LastInFront(stats: seq<Stat>, front: seq<Stat>, k: nat, key: uint32)
    requires stats != [] && front == stats[..|stats| - 1] && k < |front|
    ensures IsLast(stats, k, key) <==>
              IsLast(front, k, key) && !(stats[|stats| - 1].key == key && Counts(stats[|stats| - 1]))
  {
    hide Counts;
    assert forall j :: 0 <= j < |front| ==> front[j] == stats[j];
  }

  /** Whatever came before, a payload that sends these entries publishes the last skill masks (keys 2
      and 3), pet hit points (100 and 101) and focused pet (102), or their absence, and the last class
      mask (1) if it sends one. */
  lemma {:induction false} PublishedFromSent(rs: seq<Received>, stats: seq<Stat>)
    requires |stats| < 0x1_0000_0000 && |Encode(stats)| < 0x1_0000_0000
    ensures var was, now := After(rs), After(rs + [Bytes(Encode(stats))]);
            && Holds(now.skillLow, stats, 2) && Holds(now.skillHigh, stats, 3)
            && Holds(now.petHp0, stats, 100) && Holds(now.petHp1, stats, 101)
            && Holds(now.focused, stats, 102)
            && (if exists k: nat :: IsLast(stats, k, 1) then Holds(now.classes, stats, 1) else now.classes == was.classes)
  {
    ParseOfEncode(stats);
    assert (rs + [Bytes(Encode(stats))])[..|rs|] == rs;
    FieldHolds(stats, 1);
    FieldHolds(stats, 2);
    FieldHolds(stats, 3);
    FieldHolds(stats, 100);
    FieldHolds(stats, 101);
    FieldHolds(stats, 102);
    hide FieldOf, Parse, Encode, IsLast, Values;
  }

  /** A payload that is no list of entries publishes nothing. */
  lemma {:induction false} OthersPublishNothing(rs: seq<Received>, r: Received)
    requires r.Bytes? ==> forall stats: seq<Stat> :: |stats| < 0x1_0000_0000 ==> r.s != Encode(stats)
    ensures After(rs + [r]) == After(rs)
  {
    assert (rs + [r])[..|rs|] == rs;
    if r.Bytes? {
      ValidIffEncoding(r.s);
    }
    hide Encode;
  }

  /** Why a payload is turned away: fewer than four bytes, fewer than its entries take, or more; the
      declared count is kept where there is one. */
  lemma {:induction false} MalformedReasons(s: Payload)
    ensures Parse(Bytes(s)) == Malformed(0, TooShortForCount) <==> |s| < 4
    ensures |s| >= 4 ==>
              var n := LoadU32(s, 0);
              && (Parse(Bytes(s)) == Malformed(n, TruncatedEntries) <==> |s| < 4 + 12 * n)
              && (Parse(Bytes(s)) == Malformed(n, TrailingBytes) <==> |s| > 4 + 12 * n)
              && (Parse(Bytes(s)).Valid? ==> Parse(Bytes(s)).count == n)
  {
    hide Summary, LoadU32;
  }
}
