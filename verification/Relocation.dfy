/**
 The relocation-tolerant comparison of pinned code bytes with loaded code bytes.
 `expected` holds the pinned bytes, `actual` the bytes in memory; both have the same length.
 Pointers that are null are not modelled.
*/
module Relocation {
  import opened Wire

  const EXPECTED_IMAGE_BASE := 0x0040_0000

  // ---------- The instruction forms that carry a 32-bit absolute operand ----------

  predicate IsImmediateOpcode(b: byte) {
    b == 0x68 || b == 0xA1 || b == 0xA3 || 0xB8 <= b <= 0xBF
  }

  predicate IsModRmOpcode(b: byte) {
    b == 0x8B || b == 0x89 || b == 0x8D || b == 0xFF
  }

  predicate IsExtendingMove(b: byte) {
    b == 0xB6 || b == 0xB7 || b == 0xBE || b == 0xBF
  }

  function Masked(b: byte, mask: bv8): bv8 {
    (b as bv8) & mask
  }

  /** Where the operand of the recognised instruction at `i` starts, relative to `i`; 0 when
      no recognised instruction fits there. Every operand is the last four bytes. */
  function OperandOffset(code: seq<byte>, i: nat): (k: nat)
    requires i < |code|
    ensures k <= 3
    ensures k > 0 ==> i + k + 4 <= |code|
  {
    if i + 5 <= |code| && IsImmediateOpcode(code[i]) then 1
    else if i + 6 <= |code| && code[i] == 0x64 && code[i + 1] == 0xA1 then 2
    else if i + 7 <= |code| && code[i] == 0x64 && code[i + 1] == 0x89 && code[i + 2] == 0x25 then 3
    else if i + 6 <= |code| && IsModRmOpcode(code[i]) && Masked(code[i + 1], 0xC7) == 0x05 then 2
    else if i + 7 <= |code| && IsModRmOpcode(code[i]) && Masked(code[i + 1], 0xC7) == 0x04
            && Masked(code[i + 2], 0x07) == 0x05 then 3
    else if i + 7 <= |code| && code[i] == 0x0F && IsExtendingMove(code[i + 1])
            && Masked(code[i + 2], 0xC7) == 0x80 then 3
    else 0
  }

  /** The four bytes at `at` grew by exactly `delta`, without wrapping. */
  predicate GrewBy(actual: seq<byte>, expected: seq<byte>, at: nat, delta: int)
    requires |actual| == |expected| && at + 4 <= |expected|
  {
    LoadU32(actual, at) - LoadU32(expected, at) == delta
  }

  /** The bytes before the operand are the same; there are at most three. */
  predicate SameLead(actual: seq<byte>, expected: seq<byte>, i: nat, k: nat)
    requires |actual| == |expected| && i + k <= |expected| && k <= 3
  {
    && (k > 0 ==> actual[i] == expected[i])
    && (k > 1 ==> actual[i + 1] == expected[i + 1])
    && (k > 2 ==> actual[i + 2] == expected[i + 2])
  }

  /** A recognised instruction stands at `i`, its leading bytes are unchanged and its operand
      grew by `delta`. */
  predicate Relocates(actual: seq<byte>, expected: seq<byte>, i: nat, delta: int)
    requires |actual| == |expected| && i < |expected|
  {
    var k := OperandOffset(expected, i);
    k > 0 && SameLead(actual, expected, i, k) && GrewBy(actual, expected, i + k, delta)
  }

  method TryMatchRelocatableInstruction(
    actual: seq<byte>, expected: seq<byte>, offset: nat, delta: int)
    returns (matched: bool, consumed: nat)
    requires |actual| == |expected|
    ensures matched <==> offset < |expected| && Relocates(actual, expected, offset, delta)
    ensures matched ==> consumed == OperandOffset(expected, offset) + 4
    ensures !matched ==> consumed == 0
  {
    hide GrewBy, Masked;
    var length := |expected|;
    if offset >= length {
      return false, 0;
    }
    if offset + 5 <= length &&
       actual[offset] == expected[offset] &&
       IsImmediateOpcode(expected[offset]) &&
       GrewBy(actual, expected, offset + 1, delta) {
      return true, 5;
    }
    if offset + 6 <= length &&
       actual[offset] == 0x64 && expected[offset] == 0x64 &&
       actual[offset + 1] == 0xA1 && expected[offset + 1] == 0xA1 &&
       GrewBy(actual, expected, offset + 2, delta) {
      return true, 6;
    }
    if offset + 7 <= length &&
       actual[offset] == 0x64 && expected[offset] == 0x64 &&
       actual[offset + 1] == 0x89 && expected[offset + 1] == 0x89 &&
       actual[offset + 2] == 0x25 && expected[offset + 2] == 0x25 &&
       GrewBy(actual, expected, offset + 3, delta) {
      return true, 7;
    }
    if offset + 6 <= length &&
       actual[offset] == expected[offset] &&
       IsModRmOpcode(expected[offset]) &&
       actual[offset + 1] == expected[offset + 1] &&
       Masked(expected[offset + 1], 0xC7) == 0x05 &&
       GrewBy(actual, expected, offset + 2, delta) {
      return true, 6;
    }
    if offset + 7 <= length &&
       actual[offset] == expected[offset] &&
       IsModRmOpcode(expected[offset]) &&
       actual[offset + 1] == expected[offset + 1] &&
       actual[offset + 2] == expected[offset + 2] &&
       Masked(expected[offset + 1], 0xC7) == 0x04 &&
       Masked(expected[offset + 2], 0x07) == 0x05 &&
       GrewBy(actual, expected, offset + 3, delta) {
      return true, 7;
    }
    if offset + 7 <= length &&
       actual[offset] == 0x0F && expected[offset] == 0x0F &&
       actual[offset + 1] == expected[offset + 1] &&
       IsExtendingMove(expected[offset + 1]) &&
       actual[offset + 2] == expected[offset + 2] &&
       Masked(expected[offset + 2], 0xC7) == 0x80 &&
       GrewBy(actual, expected, offset + 3, delta) {
      return true, 7;
    }
    return false, 0;
  }

  // ---------- The greedy scan ----------

  /** The operands the greedy scan accepts from `i` on, or None when it meets a byte that
      differs outside an accepted operand. */
  function Scan(actual: seq<byte>, expected: seq<byte>, delta: int, i: nat): Option<seq<nat>>
    requires |actual| == |expected|
    decreases |expected| - i
  {
    if i >= |expected| then Some([])
    else if Relocates(actual, expected, i, delta) then
      var k := OperandOffset(expected, i);
      match Scan(actual, expected, delta, i + k + 4)
      case None => None
      case Some(rest) => Some([i + k] + rest)
    else if actual[i] != expected[i] then None
    else Scan(actual, expected, delta, i + 1)
  }

  /** The load delta in the client's 32-bit signed pointer arithmetic, which wraps. */
  function LoadDelta(moduleBase: uint32): int {
    var d := moduleBase as int - EXPECTED_IMAGE_BASE;
    if d < 0x8000_0000 then d else d - 0x1_0000_0000
  }

  predicate Accepts(actual: seq<byte>, expected: seq<byte>, delta: int)
    requires |actual| == |expected|
  {
    |expected| > 0 &&
    (actual == expected || (delta != 0 && Scan(actual, expected, delta, 0).Some?))
  }

  method BytesMatchWithModuleRelocation(
    actual: seq<byte>, expected: seq<byte>, moduleBase: uint32)
    returns (matches: bool)
    requires |actual| == |expected|
    ensures matches <==> Accepts(actual, expected, LoadDelta(moduleBase))
  {
    if |expected| == 0 {
      return false;
    }
    if actual == expected {
      return true;
    }
    var delta := LoadDelta(moduleBase);
    if delta == 0 {
      return false;
    }
    var i := 0;
    while i < |expected|
      invariant 0 <= i <= |expected|
      invariant Scan(actual, expected, delta, 0).Some? <==> Scan(actual, expected, delta, i).Some?
    {
      var matched, consumed := TryMatchRelocatableInstruction(actual, expected, i, delta);
      if matched {
        i := i + consumed;
        continue;
      }
      if actual[i] != expected[i] {
        return false;
      }
      i := i + 1;
    }
    return true;
  }

  // ---------- What acceptance means ----------

  predicate Covers(field: nat, x: nat) {
    field <= x < field + 4
  }

  ghost predicate Outside(fields: seq<nat>, x: nat) {
    forall j :: 0 <= j < |fields| ==> !Covers(fields[j], x)
  }

  ghost predicate WithinCode(fields: seq<nat>, length: nat) {
    forall j :: 0 <= j < |fields| ==> fields[j] + 4 <= length
  }

  ghost predicate SameOutside(actual: seq<byte>, expected: seq<byte>, fields: seq<nat>, i: nat)
    requires |actual| == |expected|
  {
    forall x {:trigger Outside(fields, x)} :: i <= x < |expected| && Outside(fields, x) ==> actual[x] == expected[x]
  }

  /** `actual` is `expected` with each listed operand moved by `delta` and nothing else changed. */
  ghost predicate Moved(actual: seq<byte>, expected: seq<byte>, fields: seq<nat>, delta: int) {
    && |actual| == |expected|
    && WithinCode(fields, |expected|)
    && (forall j {:trigger GrewBy(actual, expected, fields[j], delta)} :: 0 <= j < |fields| ==>
          GrewBy(actual, expected, fields[j], delta))
    && SameOutside(actual, expected, fields, 0)
  }

  /** The operands of recognised, pairwise disjoint instructions, left to right. */
  ghost predicate OperandsOf(code: seq<byte>, starts: seq<nat>, fields: seq<nat>) {
    && |starts| == |fields|
    && (forall j :: 0 <= j < |starts| ==>
          starts[j] < |code| && OperandOffset(code, starts[j]) > 0 &&
          fields[j] == starts[j] + OperandOffset(code, starts[j]))
    && (forall j, k :: 0 <= j < k < |starts| ==> fields[j] + 4 <= starts[k])
  }

  lemma OutsideCons(f: nat, rest: seq<nat>, x: nat)
    ensures Outside([f] + rest, x) <==> !Covers(f, x) && Outside(rest, x)
  {
    var fields := [f] + rest;
    if Outside(fields, x) {
      assert !Covers(fields[0], x);
      forall j | 0 <= j < |rest| ensures !Covers(rest[j], x) {
        assert rest[j] == fields[j + 1];
      }
    }
  }

  /** `Moved`, for the part of the code from `i` on. */
  ghost predicate MovedFrom(actual: seq<byte>, expected: seq<byte>, fields: seq<nat>, delta: int, i: nat) {
    && |actual| == |expected|
    && WithinCode(fields, |expected|)
    && (forall j {:trigger GrewBy(actual, expected, fields[j], delta)} :: 0 <= j < |fields| ==>
          GrewBy(actual, expected, fields[j], delta))
    && SameOutside(actual, expected, fields, i)
  }

  lemma MovedFromCons(actual: seq<byte>, expected: seq<byte>, rest: seq<nat>, delta: int, i: nat, k: nat)
    requires i + k + 4 <= |expected| && MovedFrom(actual, expected, rest, delta, i + k + 4)
    requires forall x :: i <= x < i + k ==> actual[x] == expected[x]
    requires GrewBy(actual, expected, i + k, delta)
    ensures MovedFrom(actual, expected, [i + k] + rest, delta, i)
  {
    var fields := [i + k] + rest;
    forall x | i <= x < |expected| && Outside(fields, x)
      ensures actual[x] == expected[x]
    {
      OutsideCons(i + k, rest, x);
    }
  }

  lemma OperandsCons(code: seq<byte>, starts: seq<nat>, fields: seq<nat>, i: nat)
    requires OperandsOf(code, starts, fields)
    requires i < |code| && OperandOffset(code, i) > 0
    requires forall j :: 0 <= j < |starts| ==> i + OperandOffset(code, i) + 4 <= starts[j]
    ensures OperandsOf(code, [i] + starts, [i + OperandOffset(code, i)] + fields)
  {
  }

  /** Soundness of the scan from `i`: whatever it accepts are operands of disjoint recognised
      instructions that grew by `delta`, and everything else from `i` on is unchanged. */
  lemma {:induction false} ScanIsSound(actual: seq<byte>, expected: seq<byte>, delta: int, i: nat)
    returns (starts: seq<nat>)
    requires |actual| == |expected|
    requires Scan(actual, expected, delta, i).Some?
    ensures OperandsOf(expected, starts, Scan(actual, expected, delta, i).value)
    ensures forall j :: 0 <= j < |starts| ==> i <= starts[j]
    ensures MovedFrom(actual, expected, Scan(actual, expected, delta, i).value, delta, i)
    decreases |expected| - i
  {
    hide OperandOffset, GrewBy;
    if i >= |expected| {
      starts := [];
    } else if Relocates(actual, expected, i, delta) {
      var k := OperandOffset(expected, i);
      var rest := Scan(actual, expected, delta, i + k + 4).value;
      var later := ScanIsSound(actual, expected, delta, i + k + 4);
      starts := [i] + later;
      MovedFromCons(actual, expected, rest, delta, i, k);
      OperandsCons(expected, later, rest, i);
    } else {
      starts := ScanIsSound(actual, expected, delta, i + 1);
    }
  }

  /** Soundness: an accepted image differs from the pinned bytes only in operands of disjoint
      recognised instructions, each moved by exactly the load delta. */
  lemma AcceptedImagesAreRelocations(actual: seq<byte>, expected: seq<byte>, delta: int)
    returns (starts: seq<nat>, fields: seq<nat>)
    requires |actual| == |expected|
    requires Accepts(actual, expected, delta)
    ensures OperandsOf(expected, starts, fields)
    ensures Moved(actual, expected, fields, delta)
  {
    if actual == expected {
      starts, fields := [], [];
    } else {
      fields := Scan(actual, expected, delta, 0).value;
      starts := ScanIsSound(actual, expected, delta, 0);
    }
  }

  /** The pinned bytes can be rebuilt: what was accepted, the operands and the delta leave only
      one possible original. */
  lemma OriginalIsDetermined(actual: seq<byte>, e1: seq<byte>, e2: seq<byte>, fields: seq<nat>, delta: int)
    requires Moved(actual, e1, fields, delta) && Moved(actual, e2, fields, delta)
    ensures e1 == e2
  {
    forall x | 0 <= x < |actual| ensures e1[x] == e2[x] {
      if j :| 0 <= j < |fields| && Covers(fields[j], x) {
        assert GrewBy(actual, e1, fields[j], delta) && GrewBy(actual, e2, fields[j], delta);
        SameLoadSameBytes(e1, e2, fields[j]);
      } else {
        assert Outside(fields, x);
      }
    }
  }

  // ---------- Completeness for 64 KiB aligned loads ----------

  /** `after` is `before + delta` modulo 2^32. */
  predicate LoaderAdds(before: uint32, delta: int, after: uint32) {
    after == before + delta || after == before + delta - 0x1_0000_0000 || after == before + delta + 0x1_0000_0000
  }

  predicate LoaderGrew(actual: seq<byte>, expected: seq<byte>, at: nat, delta: int)
    requires |actual| == |expected| && at + 4 <= |expected|
  {
    LoaderAdds(LoadU32(expected, at), delta, LoadU32(actual, at))
  }

  /** The loader added `delta` to every listed operand and changed nothing else. */
  ghost predicate LoaderMoved(actual: seq<byte>, expected: seq<byte>, fields: seq<nat>, delta: int) {
    && |actual| == |expected|
    && WithinCode(fields, |expected|)
    && (forall j {:trigger LoaderGrew(actual, expected, fields[j], delta)} :: 0 <= j < |fields| ==>
          LoaderGrew(actual, expected, fields[j], delta))
    && SameOutside(actual, expected, fields, 0)
  }

  /** How far byte `x` moved. */
  function Step(actual: seq<byte>, expected: seq<byte>, x: nat): (d: int)
    requires |actual| == |expected| && x < |expected|
    ensures -0x100 < d < 0x100
  {
    var a: int, e: int := actual[x], expected[x];
    a - e
  }

  /** A 64 KiB multiple leaves the two low bytes of an operand alone and moves the two high
      bytes, read as one number, by the delta in 64 KiB units, up to one wrap. */
  lemma AlignedMove(a0: byte, a1: byte, a2: byte, a3: byte, e0: byte, e1: byte, e2: byte, e3: byte, units: int)
    requires -0x1_0000 < units < 0x1_0000
    requires LoaderAdds(Word(e0, e1, e2, e3), 0x1_0000 * units, Word(a0, a1, a2, a3))
    ensures a0 == e0 && a1 == e1
    ensures UpToOneWrap(a2 - e2 + 0x100 * (a3 - e3), units)
  {
    var low: int, moved: int := e0 + 0x100 * e1, e2 + 0x100 * e3 + units;
    var wrapped := if Word(a0, a1, a2, a3) == low + 0x1_0000 * moved then moved
                   else if moved >= 0x1_0000 then moved - 0x1_0000 else moved + 0x1_0000;
    SplitHalf(a0 + 0x100 * a1, a2 + 0x100 * a3, low, wrapped);
    SplitByte(a0, a1, e0, e1);
  }

  predicate UpToOneWrap(high: int, units: int) {
    high == units || high == units - 0x1_0000 || high == units + 0x1_0000
  }

  /** The arithmetic heart: a four-byte window laid `s` bytes off an operand whose high bytes
      moved by x and y shows a difference of exactly `units` times 64 KiB only when s == 0 and
      nothing wrapped. */
  lemma OnlyTheOperandItselfShowsTheDelta(x: int, y: int, units: int, s: int)
    requires -0x100 < x < 0x100 && -0x100 < y < 0x100
    requires units != 0 && (x != 0 || y != 0)
    requires UpToOneWrap(x + 0x100 * y, units)
    requires -1 <= s <= 3
    requires (if s == -1 then 0x100_0000 * x
              else if s == 0 then 0x1_0000 * x + 0x100_0000 * y
              else if s == 1 then 0x100 * x + 0x1_0000 * y
              else if s == 2 then x + 0x100 * y
              else y) == 0x1_0000 * units
    ensures s == 0 && x + 0x100 * y == units
  {
  }

  /** Loads at 64 KiB boundaries, as the operating system places modules. */
  predicate Aligned(delta: int) {
    delta != 0 && delta % 0x1_0000 == 0 && -0x1_0000_0000 < delta < 0x1_0000_0000
  }

  ghost predicate NoWrap(expected: seq<byte>, field: nat, delta: int)
    requires field + 4 <= |expected|
  {
    0 <= LoadU32(expected, field) + delta < 0x1_0000_0000
  }

  ghost predicate Spaced(fields: seq<nat>) {
    forall j, k :: 0 <= j < k < |fields| ==> fields[j] + 5 <= fields[k]
  }

  function Units(delta: int): int {
    delta / 0x1_0000
  }

  lemma AlignedUnits(delta: int)
    requires Aligned(delta)
    ensures delta == 0x1_0000 * Units(delta) && Units(delta) != 0 && -0x1_0000 < Units(delta) < 0x1_0000
  {
  }

  /** How the bytes at `f` moved: not in the low half, and in the high half. */
  ghost predicate HighHalfMoved(actual: seq<byte>, expected: seq<byte>, f: nat, units: int) {
    && |actual| == |expected| && f + 4 <= |expected|
    && Step(actual, expected, f) == 0 && Step(actual, expected, f + 1) == 0
    && (Step(actual, expected, f + 2) != 0 || Step(actual, expected, f + 3) != 0)
    && UpToOneWrap(Step(actual, expected, f + 2) + 0x100 * Step(actual, expected, f + 3), units)
  }

  lemma OperandMoves(actual: seq<byte>, expected: seq<byte>, fields: seq<nat>, delta: int, j: nat)
    requires LoaderMoved(actual, expected, fields, delta) && Aligned(delta) && j < |fields|
    ensures HighHalfMoved(actual, expected, fields[j], Units(delta))
  {
    var f := fields[j];
    assert LoaderGrew(actual, expected, f, delta);
    AlignedUnits(delta);
    AlignedMove(actual[f], actual[f + 1], actual[f + 2], actual[f + 3],
                expected[f], expected[f + 1], expected[f + 2], expected[f + 3], Units(delta));
  }

  lemma MovedBytesAreHighBytes(actual: seq<byte>, expected: seq<byte>, fields: seq<nat>, delta: int, x: nat)
    returns (j: nat)
    requires LoaderMoved(actual, expected, fields, delta) && Aligned(delta)
    requires x < |expected| && Step(actual, expected, x) != 0
    ensures j < |fields| && (x == fields[j] + 2 || x == fields[j] + 3)
  {
    assert !Outside(fields, x);
    j :| 0 <= j < |fields| && Covers(fields[j], x);
    OperandMoves(actual, expected, fields, delta, j);
    assert x == fields[j] || x == fields[j] + 1 || x == fields[j] + 2 || x == fields[j] + 3;
  }

  lemma WindowDifference(actual: seq<byte>, expected: seq<byte>, q: nat)
    requires |actual| == |expected| && q + 4 <= |expected|
    ensures LoadU32(actual, q) - LoadU32(expected, q)
         == Word(Step(actual, expected, q), Step(actual, expected, q + 1),
                 Step(actual, expected, q + 2), Step(actual, expected, q + 3))
  {
  }

  /** A window that overlaps one operand's high half and is unchanged elsewhere. */
  lemma WindowNearOperand(actual: seq<byte>, expected: seq<byte>, f: nat, q: nat, units: int)
    requires HighHalfMoved(actual, expected, f, units) && units != 0
    requires q + 4 <= |expected| && f <= q + 1 && q <= f + 3
    requires forall x: nat :: q <= x < q + 4 && x != f + 2 && x != f + 3 ==> Step(actual, expected, x) == 0
    requires Word(Step(actual, expected, q), Step(actual, expected, q + 1),
                  Step(actual, expected, q + 2), Step(actual, expected, q + 3)) == 0x1_0000 * units
    ensures q == f
  {
    OnlyTheOperandItselfShowsTheDelta(Step(actual, expected, f + 2), Step(actual, expected, f + 3), units, q - f);
  }

  /** No four-byte window other than an operand can show the delta. */
  lemma WindowIsOperand(actual: seq<byte>, expected: seq<byte>, fields: seq<nat>, delta: int, q: nat)
    returns (j: nat)
    requires LoaderMoved(actual, expected, fields, delta) && Aligned(delta) && Spaced(fields)
    requires q + 4 <= |expected| && GrewBy(actual, expected, q, delta)
    ensures j < |fields| && q == fields[j] && NoWrap(expected, q, delta)
  {
    AlignedUnits(delta);
    WindowDifference(actual, expected, q);
    var x := MovedByteInWindow(actual, expected, q);
    j := MovedBytesAreHighBytes(actual, expected, fields, delta, x);
    OperandMoves(actual, expected, fields, delta, j);
    OthersUnchangedNearby(actual, expected, fields, delta, q, j);
    WindowNearOperand(actual, expected, fields[j], q, Units(delta));
  }

  lemma MovedByteInWindow(actual: seq<byte>, expected: seq<byte>, q: nat) returns (x: nat)
    requires |actual| == |expected| && q + 4 <= |expected|
    requires Word(Step(actual, expected, q), Step(actual, expected, q + 1),
                  Step(actual, expected, q + 2), Step(actual, expected, q + 3)) != 0
    ensures q <= x < q + 4 && Step(actual, expected, x) != 0
  {
    x := if Step(actual, expected, q) != 0 then q
         else if Step(actual, expected, q + 1) != 0 then q + 1
         else if Step(actual, expected, q + 2) != 0 then q + 2
         else q + 3;
  }

  lemma OthersUnchangedNearby(actual: seq<byte>, expected: seq<byte>, fields: seq<nat>, delta: int, q: nat, j: nat)
    requires LoaderMoved(actual, expected, fields, delta) && Aligned(delta) && Spaced(fields)
    requires q + 4 <= |expected| && j < |fields| && fields[j] <= q + 1 && q <= fields[j] + 3
    ensures forall x: nat :: q <= x < q + 4 && x != fields[j] + 2 && x != fields[j] + 3 ==> Step(actual, expected, x) == 0
  {
    forall x: nat | q <= x < q + 4 && x != fields[j] + 2 && x != fields[j] + 3
      ensures Step(actual, expected, x) == 0
    {
      if Step(actual, expected, x) != 0 {
        var k := MovedBytesAreHighBytes(actual, expected, fields, delta, x);
      }
    }
  }

  lemma OperandsAreSpaced(code: seq<byte>, starts: seq<nat>, fields: seq<nat>)
    requires OperandsOf(code, starts, fields)
    ensures Spaced(fields)
  {
  }

  /** Where a planned instruction starts, the scan recognises it. */
  lemma PlannedInstructionRelocates(
    actual: seq<byte>, expected: seq<byte>, starts: seq<nat>, fields: seq<nat>, delta: int, m: nat)
    requires OperandsOf(expected, starts, fields) && Moved(actual, expected, fields, delta) && m < |starts|
    ensures Relocates(actual, expected, starts[m], delta)
  {
    forall x | starts[m] <= x < fields[m]
      ensures actual[x] == expected[x]
    {
      assert Outside(fields, x) by {
        forall j | 0 <= j < |fields| ensures !Covers(fields[j], x) {
          assert j < m || j == m || m < j;
        }
      }
    }
    assert GrewBy(actual, expected, fields[m], delta);
  }

  /** The scan stands at `i`: the operands before `m` lie behind, the instructions from `m` on
      lie ahead. */
  ghost predicate ScanPosition(code: seq<byte>, starts: seq<nat>, fields: seq<nat>, i: nat, m: nat) {
    && OperandsOf(code, starts, fields)
    && m <= |fields|
    && (forall j :: 0 <= j < m ==> fields[j] + 4 <= i)
    && (forall j :: m <= j < |fields| ==> i <= starts[j])
  }

  lemma MultipleOf24Bits(low: int, high: int)
    requires -0x100_0000 < low < 0x100_0000 && 0xFF * low == 0x100_0000 * high
    ensures low == 0
  {
    var low1 := low - 0x1_0000 * high;
    var low2 := low1 - 0x100 * high;
    var low3 := low2 - high;
    assert low == 0x100 * low1 && low1 == 0x100 * low2 && low2 == 0x100 * low3;
  }

  lemma MultipleOf16Bits(low: int, high: int)
    requires -0x1_0000 < low < 0x1_0000 && 0xFFFF * low == 0x1_0000 * high
    ensures low == 0
  {
    assert low == 0x1_0000 * (low - high);
  }

  lemma MultipleOf8Bits(low: int, high: int)
    requires -0x100 < low < 0x100 && 0xFF_FFFF * low == 0x100 * high
    ensures low == 0
  {
    assert low == 0x100 * (0x1_0000 * low - high);
  }

  /** A window that starts `t` bytes before an operand and shows the operand's whole move in
      the bytes they share: the move was zero. */
  lemma EarlyWindow(s0: int, s1: int, s2: int, s3: int, t: int, delta: int)
    requires -0x100 < s0 < 0x100 && -0x100 < s1 < 0x100 && -0x100 < s2 < 0x100 && -0x100 < s3 < 0x100
    requires 1 <= t <= 3 && Word(s0, s1, s2, s3) == delta
    requires delta == if t == 1 then Word(0, s0, s1, s2) else if t == 2 then Word(0, 0, s0, s1) else Word(0, 0, 0, s0)
    ensures delta == 0
  {
    if t == 1 {
      MultipleOf24Bits(s0 + 0x100 * s1 + 0x1_0000 * s2, s3);
    } else if t == 2 {
      MultipleOf16Bits(s0 + 0x100 * s1, s2 + 0x100 * s3);
    } else {
      MultipleOf8Bits(s0, s1 + 0x100 * s2 + 0x1_0000 * s3);
    }
  }

  /** A window that starts one or two bytes into an operand whose skipped bytes did not move;
      `after` is the byte that can follow two bytes behind the operand. */
  lemma LateWindow(s1: int, s2: int, s3: int, after: int, t: int, delta: int)
    requires -0x100 < s1 < 0x100 && -0x100 < s2 < 0x100 && -0x100 < s3 < 0x100 && -0x100 < after < 0x100
    requires 1 <= t <= 2 && (t == 2 ==> s1 == 0) && Word(0, s1, s2, s3) == delta
    requires delta == if t == 1 then Word(s1, s2, s3, 0) else Word(s2, s3, 0, after)
    ensures delta == 0
  {
    if t == 2 {
      MultipleOf16Bits(s2 + 0x100 * s3, 0x100 * after);
    }
  }

  lemma UnmovedAhead(
    actual: seq<byte>, expected: seq<byte>, starts: seq<nat>, fields: seq<nat>, delta: int, i: nat, m: nat, x: nat)
    requires Moved(actual, expected, fields, delta)
    requires ScanPosition(expected, starts, fields, i, m)
    requires i <= x < |expected|
    requires m < |fields| ==> x < fields[m] || fields[m] + 4 <= x
    requires m + 1 < |fields| ==> x < fields[m + 1]
    ensures Step(actual, expected, x) == 0
  {
    hide OperandOffset;
    assert Outside(fields, x) by {
      forall j | 0 <= j < |fields| ensures !Covers(fields[j], x) {
        assert j < m || j == m || j == m + 1 || fields[m + 1] + 4 <= starts[j];
      }
    }
  }

  /** The key to completeness, for every nonzero delta: an accepted window is the next operand.
      Earlier ones share only its low bytes, later ones would skip bytes that must not move. */
  lemma MatchIsNextOperand(
    actual: seq<byte>, expected: seq<byte>, starts: seq<nat>, fields: seq<nat>, delta: int, i: nat, m: nat)
    requires Moved(actual, expected, fields, delta) && delta != 0
    requires ScanPosition(expected, starts, fields, i, m)
    requires i < |expected| && Relocates(actual, expected, i, delta)
    ensures m < |fields| && fields[m] == i + OperandOffset(expected, i)
    ensures ScanPosition(expected, starts, fields, fields[m] + 4, m + 1)
  {
    hide OperandOffset, GrewBy;
    var q := i + OperandOffset(expected, i);
    if m == |fields| || fields[m] >= q + 4 {
      WindowWithoutOperand(actual, expected, starts, fields, delta, i, m, q);
    } else {
      if q < fields[m] {
        WindowBeforeOperand(actual, expected, starts, fields, delta, i, m, q);
      } else if fields[m] < q {
        WindowAfterOperand(actual, expected, starts, fields, delta, i, m, q);
      }
      PassOperand(expected, starts, fields, i, m);
    }
  }

  lemma UnchangedWindow(actual: seq<byte>, expected: seq<byte>, q: nat)
    requires |actual| == |expected| && q + 4 <= |expected|
    requires Step(actual, expected, q) == 0 && Step(actual, expected, q + 1) == 0
    requires Step(actual, expected, q + 2) == 0 && Step(actual, expected, q + 3) == 0
    ensures LoadU32(actual, q) == LoadU32(expected, q)
  {
  }

  lemma WindowWithoutOperand(
    actual: seq<byte>, expected: seq<byte>, starts: seq<nat>, fields: seq<nat>, delta: int, i: nat, m: nat, q: nat)
    requires |actual| == |expected| && Moved(actual, expected, fields, delta) && delta != 0
    requires ScanPosition(expected, starts, fields, i, m)
    requires i <= q && q + 4 <= |expected| && (m < |fields| ==> q + 4 <= fields[m])
    ensures !GrewBy(actual, expected, q, delta)
  {
    hide Step, LoadU32, OperandOffset;
    UnmovedAhead(actual, expected, starts, fields, delta, i, m, q);
    UnmovedAhead(actual, expected, starts, fields, delta, i, m, q + 1);
    UnmovedAhead(actual, expected, starts, fields, delta, i, m, q + 2);
    UnmovedAhead(actual, expected, starts, fields, delta, i, m, q + 3);
    UnchangedWindow(actual, expected, q);
  }

  lemma WindowBeforeOperand(
    actual: seq<byte>, expected: seq<byte>, starts: seq<nat>, fields: seq<nat>, delta: int, i: nat, m: nat, q: nat)
    requires Moved(actual, expected, fields, delta) && delta != 0
    requires ScanPosition(expected, starts, fields, i, m) && m < |fields|
    requires i <= q && q + 4 <= |expected| && q < fields[m] < q + 4
    ensures !GrewBy(actual, expected, q, delta)
  {
    hide OperandOffset;
    var f := fields[m];
    forall x | q <= x < f ensures Step(actual, expected, x) == 0 {
      UnmovedAhead(actual, expected, starts, fields, delta, i, m, x);
    }
    assert GrewBy(actual, expected, f, delta);
    WindowDifference(actual, expected, f);
    WindowDifference(actual, expected, q);
    if GrewBy(actual, expected, q, delta) {
      EarlyWindow(Step(actual, expected, f), Step(actual, expected, f + 1), Step(actual, expected, f + 2),
                  Step(actual, expected, f + 3), f - q, delta);
    }
  }

  lemma WindowAfterOperand(
    actual: seq<byte>, expected: seq<byte>, starts: seq<nat>, fields: seq<nat>, delta: int, i: nat, m: nat, q: nat)
    requires Moved(actual, expected, fields, delta) && delta != 0
    requires ScanPosition(expected, starts, fields, i, m) && m < |fields|
    requires i < fields[m] < q <= i + 3 && q + 4 <= |expected|
    requires forall x :: i <= x < q ==> Step(actual, expected, x) == 0
    ensures !GrewBy(actual, expected, q, delta)
  {
    hide OperandOffset;
    var f := fields[m];
    forall x | f + 4 <= x < q + 4 && x < f + 5 ensures Step(actual, expected, x) == 0 {
      UnmovedAhead(actual, expected, starts, fields, delta, i, m, x);
    }
    assert GrewBy(actual, expected, f, delta);
    WindowDifference(actual, expected, f);
    WindowDifference(actual, expected, q);
    if GrewBy(actual, expected, q, delta) {
      LateWindow(Step(actual, expected, f + 1), Step(actual, expected, f + 2), Step(actual, expected, f + 3),
                 Step(actual, expected, q + 3), q - f, delta);
    }
  }

  lemma PassOperand(code: seq<byte>, starts: seq<nat>, fields: seq<nat>, i: nat, m: nat)
    requires ScanPosition(code, starts, fields, i, m) && m < |fields|
    ensures ScanPosition(code, starts, fields, fields[m] + 4, m + 1)
  {
    hide OperandOffset;
  }

  lemma UnmatchedIsUnchanged(
    actual: seq<byte>, expected: seq<byte>, starts: seq<nat>, fields: seq<nat>, delta: int, i: nat, m: nat)
    requires Moved(actual, expected, fields, delta)
    requires ScanPosition(expected, starts, fields, i, m)
    requires i < |expected| && !Relocates(actual, expected, i, delta)
    ensures actual[i] == expected[i]
    ensures ScanPosition(expected, starts, fields, i + 1, m)
  {
    if m < |fields| && starts[m] == i {
      PlannedInstructionRelocates(actual, expected, starts, fields, delta, m);
    }
    BetweenInstructions(expected, starts, fields, i, m);
  }

  lemma BetweenInstructions(code: seq<byte>, starts: seq<nat>, fields: seq<nat>, i: nat, m: nat)
    requires ScanPosition(code, starts, fields, i, m)
    requires m < |fields| ==> starts[m] != i
    ensures Outside(fields, i)
    ensures ScanPosition(code, starts, fields, i + 1, m)
  {
    hide OperandOffset;
    forall j | m <= j < |fields| ensures i + 1 <= starts[j] {
      assert j == m || fields[m] + 4 <= starts[j];
    }
  }

  /** Completeness of the scan from `i`: it accepts exactly the operands from `m` on. */
  lemma {:induction false} ScanFindsEveryOperand(
    actual: seq<byte>, expected: seq<byte>, starts: seq<nat>, fields: seq<nat>, delta: int, i: nat, m: nat)
    requires |actual| == |expected| && Moved(actual, expected, fields, delta) && delta != 0
    requires ScanPosition(expected, starts, fields, i, m)
    ensures Scan(actual, expected, delta, i) == Some(fields[m..])
    decreases |expected| - i
  {
    hide OperandOffset, GrewBy;
    if i >= |expected| {
      assert m == |fields|;
    } else if Relocates(actual, expected, i, delta) {
      MatchIsNextOperand(actual, expected, starts, fields, delta, i, m);
      ScanFindsEveryOperand(actual, expected, starts, fields, delta, fields[m] + 4, m + 1);
      assert fields[m..] == [fields[m]] + fields[m + 1..];
    } else {
      UnmatchedIsUnchanged(actual, expected, starts, fields, delta, i, m);
      ScanFindsEveryOperand(actual, expected, starts, fields, delta, i + 1, m);
    }
  }

  /** The loader moved the operands of some disjoint recognised instructions by an aligned
      delta: the comparison accepts the image exactly when no operand wrapped past 2^32, and
      then the operands it accepted are those and no others. */
  lemma LoadedImageAcceptedIffNoWrap(
    actual: seq<byte>, expected: seq<byte>, starts: seq<nat>, fields: seq<nat>, delta: int)
    requires OperandsOf(expected, starts, fields) && |fields| > 0
    requires LoaderMoved(actual, expected, fields, delta) && Aligned(delta)
    ensures Accepts(actual, expected, delta) <==> (forall j :: 0 <= j < |fields| ==> NoWrap(expected, fields[j], delta))
    ensures Accepts(actual, expected, delta) ==> Scan(actual, expected, delta, 0) == Some(fields)
  {
    OperandMoves(actual, expected, fields, delta, 0);
    assert actual != expected;
    if forall j :: 0 <= j < |fields| ==> NoWrap(expected, fields[j], delta) {
      forall j | 0 <= j < |fields| ensures GrewBy(actual, expected, fields[j], delta) {
        assert NoWrap(expected, fields[j], delta) && LoaderGrew(actual, expected, fields[j], delta);
      }
      ScanFindsEveryOperand(actual, expected, starts, fields, delta, 0, 0);
    }
    if Accepts(actual, expected, delta) {
      forall j | 0 <= j < |fields| ensures NoWrap(expected, fields[j], delta) {
        AcceptedOperandsDidNotWrap(actual, expected, starts, fields, delta, j);
      }
    }
  }

  /** Half of the address space shows it: an image loaded at or above 0x8040_0000 is rejected as
      soon as one operand points into it, because the delta is then negative and the operand wraps. */
  lemma {:induction false} HighLoadIsRejected(
    actual: seq<byte>, expected: seq<byte>, starts: seq<nat>, fields: seq<nat>, moduleBase: uint32, j: nat)
    requires OperandsOf(expected, starts, fields) && j < |fields|
    requires LoaderMoved(actual, expected, fields, LoadDelta(moduleBase))
    requires 0x8040_0000 <= moduleBase && moduleBase % 0x1_0000 == 0
    requires EXPECTED_IMAGE_BASE <= LoadU32(expected, fields[j])
    requires moduleBase + (LoadU32(expected, fields[j]) - EXPECTED_IMAGE_BASE) < 0x1_0000_0000
    ensures !Accepts(actual, expected, LoadDelta(moduleBase))
  {
    hide OperandsOf, Accepts, LoadU32, Scan, LoaderGrew, SameOutside;
    assert Aligned(LoadDelta(moduleBase));
    LoadedImageAcceptedIffNoWrap(actual, expected, starts, fields, LoadDelta(moduleBase));
    assert !NoWrap(expected, fields[j], LoadDelta(moduleBase));
  }

  /** One instruction, push 0x0040_1000, loaded at 0x9000_0000: the loader makes the operand
      0x9000_1000, and the comparison rejects the image. */
  lemma {:induction false} RejectedLoad() returns (actual: seq<byte>, expected: seq<byte>, moduleBase: uint32)
    ensures expected == [0x68, 0x00, 0x10, 0x40, 0x00] && actual == [0x68, 0x00, 0x10, 0x00, 0x90]
    ensures moduleBase == 0x9000_0000
    ensures OperandsOf(expected, [0], [1]) && LoaderMoved(actual, expected, [1], LoadDelta(moduleBase))
    ensures !Accepts(actual, expected, LoadDelta(moduleBase))
  {
    expected, actual, moduleBase := [0x68, 0x00, 0x10, 0x40, 0x00], [0x68, 0x00, 0x10, 0x00, 0x90], 0x9000_0000;
    assert LoadU32(expected, 1) == 0x0040_1000 && LoadU32(actual, 1) == 0x9000_1000;
    forall x | 0 <= x < 5 && Outside([1], x) ensures actual[x] == expected[x] {
      assert !Covers([1][0], x);
    }
    HighLoadIsRejected(actual, expected, [0], [1], moduleBase, 0);
  }

  lemma AcceptedOperandsDidNotWrap(
    actual: seq<byte>, expected: seq<byte>, starts: seq<nat>, fields: seq<nat>, delta: int, j: nat)
    requires OperandsOf(expected, starts, fields) && j < |fields|
    requires LoaderMoved(actual, expected, fields, delta) && Aligned(delta)
    requires Scan(actual, expected, delta, 0).Some?
    ensures NoWrap(expected, fields[j], delta)
  {
    OperandMoves(actual, expected, fields, delta, j);
    OperandsAreSpaced(expected, starts, fields);
    var x := if Step(actual, expected, fields[j] + 2) != 0 then fields[j] + 2 else fields[j] + 3;
    var accepted := Scan(actual, expected, delta, 0).value;
    var _ := ScanIsSound(actual, expected, delta, 0);
    assert !Outside(accepted, x);
    var r :| 0 <= r < |accepted| && Covers(accepted[r], x);
    var k := WindowIsOperand(actual, expected, fields, delta, accepted[r]);
    assert k == j || k < j || j < k;
  }

  /** Both directions together, for every load away from the preferred base 0x0040_0000: accepted
      exactly when the differences are operands of disjoint recognised instructions, each moved by
      the load delta, the signed 32-bit distance from that base. */
  lemma AcceptedIffRelocated(actual: seq<byte>, expected: seq<byte>, moduleBase: uint32)
    requires |actual| == |expected| > 0
    requires moduleBase != 0x0040_0000
    ensures var delta: int := LoadDelta(moduleBase);
            -0x8000_0000 <= delta < 0x8000_0000 && (0x0040_0000 + delta) % 0x1_0000_0000 == moduleBase
    ensures Accepts(actual, expected, LoadDelta(moduleBase)) <==>
            (exists starts, fields ::
               OperandsOf(expected, starts, fields) &&
               Moved(actual, expected, fields, LoadDelta(moduleBase)))
  {
    var delta := LoadDelta(moduleBase);
    if Accepts(actual, expected, delta) {
      var starts, fields := AcceptedImagesAreRelocations(actual, expected, delta);
    }
    if starts, fields :| OperandsOf(expected, starts, fields) && Moved(actual, expected, fields, delta) {
      ScanFindsEveryOperand(actual, expected, starts, fields, delta, 0, 0);
    }
  }

  /** At the preferred base nothing may differ. */
  lemma AcceptedAtPreferredBase(actual: seq<byte>, expected: seq<byte>)
    requires |actual| == |expected|
    ensures Accepts(actual, expected, LoadDelta(0x0040_0000)) <==> actual == expected && expected != []
  {
  }
}
