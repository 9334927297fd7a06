/**
 The byte scan of the client executable for its two build markers. The file arrives as a
 sequence of reads; the last bytes of each window are carried into the next one.
*/
module MarkerScan {
  const DATE := "May 10 2013"
  const TIME := "23:30:08"
  const CHUNK_BYTES := 64 * 1024
  const CARRY_BYTES := 10 // one less than the longer marker
  const MAX_SCAN_BYTES := 512 * 1024 * 1024

  datatype Presence = Presence(date: bool, time: bool)

  datatype Read = Data(bytes: string) | Failed

  ghost predicate OccursAt(s: string, marker: string, i: int) {
    0 <= i && i + |marker| <= |s| && s[i..i + |marker|] == marker
  }

  ghost predicate Contains(s: string, marker: string) {
    exists i :: OccursAt(s, marker, i)
  }

  method FindMarker(s: string, marker: string) returns (found: bool)
    ensures found <==> Contains(s, marker)
  {
    var i := 0;
    while i + |marker| <= |s|
      invariant 0 <= i
      invariant forall k :: 0 <= k < i ==> !OccursAt(s, marker, k)
    {
      if s[i..i + |marker|] == marker {
        assert OccursAt(s, marker, i);
        return true;
      }
      i := i + 1;
    }
    return false;
  }

  method FindKnownMarkers(bytes: string) returns (presence: Presence)
    ensures presence.date <==> Contains(bytes, DATE)
    ensures presence.time <==> Contains(bytes, TIME)
  {
    var date := FindMarker(bytes, DATE);
    var time := FindMarker(bytes, TIME);
    return Presence(date, time);
  }

  /** What a sequence of reads delivered. */
  function Delivered(chunks: seq<Read>): string {
    if |chunks| == 0 then ""
    else
      var last := chunks[|chunks| - 1];
      Delivered(chunks[..|chunks| - 1]) + (if last.Data? then last.bytes else "")
  }

  predicate Allowed(read: Read, last: bool) {
    match read
    case Data(bytes) => |bytes| <= CHUNK_BYTES && (|bytes| == 0 ==> last)
    case Failed => last
  }

  /** Reads the operating system may return: at most a chunk each, an empty one only at the end
      of the file, and nothing after a failure. */
  ghost predicate FileReads(chunks: seq<Read>) {
    forall k :: 0 <= k < |chunks| ==> Allowed(chunks[k], k == |chunks| - 1)
  }

  lemma {:induction false} ContainsPrefix(s: string, t: string, marker: string)
    requires Contains(s, marker)
    ensures Contains(s + t, marker)
  {
    var i :| OccursAt(s, marker, i);
    assert (s + t)[i..i + |marker|] == s[i..i + |marker|];
    assert OccursAt(s + t, marker, i);
  }

  /** The carry argument: a marker occurs in `seen + bytes` when it occurs in `seen` or in the
      window made of the last `carry` bytes of `seen` and the new bytes. */
  lemma {:induction false} CarryIsEnough(seen: string, bytes: string, carry: nat, marker: string)
    requires carry <= |seen| && (carry == |seen| || |marker| <= carry + 1)
    ensures Contains(seen + bytes, marker) <==>
            Contains(seen, marker) || Contains(seen[|seen| - carry..] + bytes, marker)
  {
    var all, window, start := seen + bytes, seen[|seen| - carry..] + bytes, |seen| - carry;
    assert window == all[start..];
    if Contains(seen, marker) {
      ContainsPrefix(seen, bytes, marker);
    }
    if i :| OccursAt(window, marker, i) {
      OccursInSuffix(all, start, marker, i);
    }
    if i :| OccursAt(all, marker, i) {
      if i + |marker| <= |seen| {
        assert seen[i..i + |marker|] == all[i..i + |marker|];
        assert OccursAt(seen, marker, i);
      } else {
        OccursInSuffix(all, start, marker, i - start);
      }
    }
  }

  lemma OccursInSuffix(s: string, start: nat, marker: string, i: int)
    requires start <= |s| && i >= 0
    ensures OccursAt(s[start..], marker, i) <==> OccursAt(s, marker, start + i)
  {
    if i + |marker| <= |s| - start {
      assert s[start..][i..i + |marker|] == s[start + i..start + i + |marker|];
    }
  }

  ghost predicate HasDate(s: string) {
    Contains(s, "May 10 2013")
  }

  ghost predicate HasTime(s: string) {
    Contains(s, "23:30:08")
  }

  ghost predicate BothIn(s: string) {
    HasDate(s) && HasTime(s)
  }

  /** The last `carry` bytes seen stand at the front of the window. */
  ghost predicate Carried(window: array<char>, seen: string, carry: nat)
    reads window
  {
    && window.Length == CARRY_BYTES + CHUNK_BYTES
    && carry <= |seen| && carry <= CARRY_BYTES && (carry == |seen| || carry == CARRY_BYTES)
    && window[..carry] == seen[|seen| - carry..]
  }

  method CopyBehind(window: array<char>, carry: nat, chunk: string)
    requires carry + |chunk| <= window.Length
    modifies window
    ensures window[..carry + |chunk|] == old(window[..carry]) + chunk
  {
    forall k | 0 <= k < |chunk| {
      window[carry + k] := chunk[k];
    }
  }

  method MoveTail(window: array<char>, size: nat, carry: nat)
    requires carry <= size <= window.Length
    modifies window
    ensures window[..carry] == old(window[size - carry..size])
  {
    forall k | 0 <= k < carry {
      window[k] := window[size - carry + k];
    }
  }

  lemma {:induction false} DeliveredGrows(chunks: seq<Read>, k: nat, marker: string)
    requires k <= |chunks| && Contains(Delivered(chunks[..k]), marker)
    ensures Contains(Delivered(chunks), marker)
  {
    if k == |chunks| {
      assert chunks[..k] == chunks;
    } else {
      var init, last := chunks[..|chunks| - 1], chunks[|chunks| - 1];
      assert init[..k] == chunks[..k];
      DeliveredGrows(init, k, marker);
      ContainsPrefix(Delivered(init), if last.Data? then last.bytes else "", marker);
    }
  }

  /** The flags say what `s` contains. */
  ghost predicate Found(presence: Presence, s: string) {
    (presence.date <==> HasDate(s)) && (presence.time <==> HasTime(s))
  }

  ghost predicate NoneFailed(chunks: seq<Read>, k: nat) {
    k <= |chunks| && forall m {:trigger chunks[m]} :: 0 <= m < k ==> chunks[m].Data?
  }

  /** Stopping at read `k`, which delivers nothing, or after both markers were seen, finds what
      the whole file contains; and only a failed read can be the reason when they were not. */
  lemma {:induction false} StoppingEarly(chunks: seq<Read>, k: nat, presence: Presence)
    requires FileReads(chunks) && NoneFailed(chunks, k) && Found(presence, Delivered(chunks[..k]))
    requires k == |chunks| || chunks[k].Failed? || chunks[k].bytes == "" || (presence.date && presence.time)
    ensures Found(presence, Delivered(chunks))
    ensures Failed !in chunks || BothIn(Delivered(chunks)) <==>
              k == |chunks| || chunks[k].Data? || (presence.date && presence.time)
  {
    if presence.date && presence.time {
      DeliveredGrows(chunks, k, DATE);
      DeliveredGrows(chunks, k, TIME);
    } else if k == |chunks| {
      assert chunks[..k] == chunks;
      assert Failed !in chunks;
    } else {
      assert k == |chunks| - 1;
      assert Delivered(chunks) == Delivered(chunks[..k]);
      assert chunks[k] in chunks;
    }
  }

  /** One round: copy the new bytes behind the carried ones, search the window, carry its tail. */
  method ScanChunk(window: array<char>, carry: nat, chunk: string, ghost seen: string)
    returns (found: Presence, nextCarry: nat)
    requires Carried(window, seen, carry) && |chunk| <= CHUNK_BYTES
    modifies window
    ensures Carried(window, seen + chunk, nextCarry)
    ensures forall p {:trigger Found(p, seen)} :: Found(p, seen) ==>
              Found(Presence(p.date || found.date, p.time || found.time), seen + chunk)
  {
    hide Contains;
    CopyBehind(window, carry, chunk);
    var windowSize := carry + |chunk|;
    CarryIsEnough(seen, chunk, carry, DATE);
    CarryIsEnough(seen, chunk, carry, TIME);
    found := FindKnownMarkers(window[..windowSize]);
    assert window[..windowSize] == (seen + chunk)[|seen| - carry..];
    nextCarry := if windowSize < CARRY_BYTES then windowSize else CARRY_BYTES;
    if nextCarry != 0 {
      MoveTail(window, windowSize, nextCarry);
    }
  }

  lemma StartCarry(chunks: seq<Read>, window: array<char>)
    requires window.Length == CARRY_BYTES + CHUNK_BYTES
    ensures Carried(window, Delivered(chunks[..0]), 0)
  {
  }

  lemma NothingSeenYet(chunks: seq<Read>)
    ensures Found(Presence(false, false), Delivered(chunks[..0])) && NoneFailed(chunks, 0)
  {
  }

  lemma {:induction false} DeliveredNext(chunks: seq<Read>, i: nat)
    requires FileReads(chunks) && NoneFailed(chunks, i) && i < |chunks| && chunks[i].Data?
    ensures Delivered(chunks[..i + 1]) == Delivered(chunks[..i]) + chunks[i].bytes
    ensures |chunks[i].bytes| <= CHUNK_BYTES && NoneFailed(chunks, i + 1)
  {
    assert chunks[..i + 1][..i] == chunks[..i];
  }

  lemma FoundMeans(presence: Presence, s: string)
    requires Found(presence, s)
    ensures (presence.date <==> HasDate(s)) && (presence.time <==> HasTime(s))
  {
  }

  predicate Scannable(size: int) {
    0 < size <= 0x2000_0000
  }

  /** The scan of a file of `size` bytes: each flag says whether the marker occurs anywhere in
      what the file delivered, however it was cut into reads and whether or not the scan stopped
      early; it fails only on a failed read that comes before both markers were seen. */
  method ScanFile(size: int, chunks: seq<Read>) returns (ok: bool, presence: Presence)
    requires FileReads(chunks)
    ensures presence.date <==> Scannable(size) && HasDate(Delivered(chunks))
    ensures presence.time <==> Scannable(size) && HasTime(Delivered(chunks))
    ensures ok <==> Scannable(size) && (Failed !in chunks || BothIn(Delivered(chunks)))
  {
    presence := Presence(false, false);
    if size <= 0 || size > MAX_SCAN_BYTES {
      return false, presence;
    }
    hide Found, Carried, Delivered, BothIn, FileReads, HasDate, HasTime, NoneFailed;
    NothingSeenYet(chunks);
    var window := new char[CARRY_BYTES + CHUNK_BYTES];
    StartCarry(chunks, window);
    var carry: nat := 0;
    for i := 0 to |chunks|
      invariant Carried(window, Delivered(chunks[..i]), carry) && Found(presence, Delivered(chunks[..i]))
      invariant !(presence.date && presence.time) && NoneFailed(chunks, i)
    {
      if chunks[i].Failed? {
        StoppingEarly(chunks, i, presence);
        FoundMeans(presence, Delivered(chunks));
        return false, presence;
      }
      var chunk := chunks[i].bytes;
      if |chunk| == 0 {
        StoppingEarly(chunks, i, presence);
        FoundMeans(presence, Delivered(chunks));
        return true, presence;
      }
      DeliveredNext(chunks, i);
      var found;
      found, carry := ScanChunk(window, carry, chunk, Delivered(chunks[..i]));
      presence := Presence(presence.date || found.date, presence.time || found.time);
      if presence.date && presence.time {
        StoppingEarly(chunks, i + 1, presence);
        FoundMeans(presence, Delivered(chunks));
        return true, presence;
      }
    }
    StoppingEarly(chunks, |chunks|, presence);
    FoundMeans(presence, Delivered(chunks));
    return true, presence;
  }
}
