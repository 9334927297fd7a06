/** The packets behind the events of the timed-cast tracker. */
module CastPackets {
  import opened Wire
  import opened PacketReader
  import opened TimedCast

  /** A begin-cast packet as the server writes it: the spell, the caster, the cast time; more may
      follow. */
  function BeginCastBytes(spell: uint32, caster: seq<byte>, castTime: uint32): seq<byte> {
    U32Bytes(spell) + (caster + U32Bytes(castTime))
  }

  ghost predicate Begins(payload: seq<byte>, spell: uint32, castTime: uint32) {
    exists caster: seq<byte> :: |caster| == 2 && BeginCastBytes(spell, caster, castTime) <= payload
  }

  lemma {:induction false} BeginsIffWords(payload: seq<byte>, spell: uint32, castTime: uint32)
    ensures Begins(payload, spell, castTime) <==>
              |payload| >= 10 && LoadU32(payload, 0) == spell && LoadU32(payload, 6) == castTime
  {
    hide LoadU32, U32Bytes;
    assert payload[0..] == payload;
    forall caster: seq<byte> | |caster| == 2
      ensures BeginCastBytes(spell, caster, castTime) <= payload ==>
                |payload| >= 10 && LoadU32(payload, 0) == spell && LoadU32(payload, 6) == castTime
    {
      PartsOfBegin(payload, spell, caster, castTime);
    }
    if |payload| >= 10 && LoadU32(payload, 0) == spell && LoadU32(payload, 6) == castTime {
      var caster := payload[4..6];
      assert caster <= payload[4..];
      PartsOfBegin(payload, spell, caster, castTime);
      assert BeginCastBytes(spell, caster, castTime) <= payload;
    }
  }

  lemma {:induction false} PartsOfBegin(payload: seq<byte>, spell: uint32, caster: seq<byte>, castTime: uint32)
    requires |caster| == 2
    ensures BeginCastBytes(spell, caster, castTime) <= payload <==>
              && |payload| >= 10 && LoadU32(payload, 0) == spell && LoadU32(payload, 6) == castTime
              && caster <= payload[4..]
  {
    hide LoadU32, U32Bytes;
    assert payload[0..] == payload;
    PrefixSplits(U32Bytes(spell), caster + U32Bytes(castTime), payload, 0);
    U32IsExact(payload, 0, spell);
    if |payload| >= 4 {
      PrefixSplits(caster, U32Bytes(castTime), payload, 4);
    }
    if |payload| >= 6 {
      U32IsExact(payload, 6, castTime);
    }
  }

  /** What a received packet means: a begin-cast packet, opcode 0x318F, begins the spell and the cast
      time it starts with; an interrupt, 0x3358, and entering a world, 0x578F, clear, whatever they
      carry; every other opcode and every other payload mean nothing. */
  lemma {:induction false} EventOfIff(
      opcode: uint32, payload: Option<seq<byte>>, spell: uint32, castTime: uint32, consumedAt: nat, startedAt: nat)
    ensures EventOf(opcode, payload, consumedAt, startedAt) == CastBegun(spell, castTime, consumedAt, startedAt) <==>
              opcode == 0x318F && payload.Some? && Begins(payload.value, spell, castTime)
    ensures EventOf(opcode, payload, consumedAt, startedAt) == Cleared <==> opcode == 0x3358 || opcode == 0x578F
    ensures EventOf(opcode, payload, consumedAt, startedAt) == Ignored <==>
              && opcode != 0x3358 && opcode != 0x578F
              && (opcode == 0x318F ==> payload.None? || |payload.value| < 10)
  {
    if payload.Some? {
      BeginsIffWords(payload.value, spell, castTime);
    }
    hide LoadU32, Begins;
  }

  /** Spell 200 with a cast time of three seconds. */
  lemma {:induction false} BeginCastExample(consumedAt: nat, startedAt: nat)
    ensures EventOf(0x318F, Some([0xC8, 0, 0, 0, 7, 0, 0xB8, 0x0B, 0, 0]), consumedAt, startedAt) ==
            CastBegun(200, 3000, consumedAt, startedAt)
  {
  }

  lemma {:induction false} TwoMoreEvents(trace: seq<Event>, d: Event, e: Event)
    ensures RunOf(trace + [d, e]) == Step(Step(RunOf(trace), d), e)
  {
    hide Step;
    assert (trace + [d, e])[..|trace| + 1] == trace + [d];
    assert (trace + [d])[..|trace|] == trace;
  }

  /** Whatever happened before: a successful cast request and then a begin-cast packet with a cast
      time. If the packet is taken in within two seconds, its spell is reported up to a quarter of a
      second past its cast time; if it comes later, nothing is. */
  lemma {:induction false} RequestedCastIsReported(
      trace: seq<Event>, sentAt: nat, payload: seq<byte>, spell: uint32, castTime: uint32,
      consumedAt: nat, startedAt: nat, t: nat)
    requires Begins(payload, spell, castTime) && castTime > 0
    ensures var s := RunOf(trace + [CastSent(sentAt), EventOf(0x318F, Some(payload), consumedAt, startedAt)]);
            if consumedAt <= sentAt + 2000 then
              s.spellId == spell && (Active(s, t) <==> t <= startedAt + castTime + 250)
            else !Active(s, t)
  {
    var e := EventOf(0x318F, Some(payload), consumedAt, startedAt);
    EventOfIff(0x318F, Some(payload), spell, castTime, consumedAt, startedAt);
    TwoMoreEvents(trace, CastSent(sentAt), e);
    hide RunOf, EventOf;
  }
}
