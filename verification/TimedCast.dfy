/**
 The timed-cast tracker of the packet observer: a successful cast request opens a short window,
 a begin-cast packet that falls into it starts a timed cast, which ends by itself, by an
 interrupt, by entering a world or by the next begin-cast packet. Every call reads the
 millisecond clock; each call is one event.
*/
module TimedCast {
  import opened Wire

  const GRACE_MS := 250
  const BEGIN_WINDOW_MS := 2000
  const ENTER_WORLD_OPCODE: uint32 := 0x578F
  const BEGIN_CAST_OPCODE: uint32 := 0x318F
  const INTERRUPT_CAST_OPCODE: uint32 := 0x3358
  const CAST_SPELL_OPCODE: uint32 := 0x1287

  datatype State = State(activeUntil: nat, spellId: uint32, pendingUntil: nat)

  datatype Event =
    | CastSent(now: nat)
    | CastBegun(spellId: uint32, castTime: uint32, consumedAt: nat, startedAt: nat)
    | Cleared
    | Polled(at: nat)
    | Ignored

  // ---------- The state machine as the code runs it ----------

  function BeginCast(s: State, spellId: uint32, castTime: uint32, consumedAt: nat, startedAt: nat): State {
    if castTime == 0 then State(0, 0, s.pendingUntil)
    else if s.pendingUntil == 0 || consumedAt > s.pendingUntil then State(0, 0, 0)
    else State(startedAt + castTime + GRACE_MS, spellId, 0)
  }

  function Step(s: State, e: Event): State {
    match e
    case CastSent(now) => s.(pendingUntil := now + BEGIN_WINDOW_MS)
    case CastBegun(spellId, castTime, consumedAt, startedAt) => BeginCast(s, spellId, castTime, consumedAt, startedAt)
    case Cleared => State(0, 0, s.pendingUntil)
    case Polled(at) => if s.activeUntil != 0 && at > s.activeUntil then State(0, 0, s.pendingUntil) else s
    case Ignored => s
  }

  predicate Active(s: State, at: nat) {
    s.activeUntil != 0 && at <= s.activeUntil
  }

  /** What a received packet means to the tracker. */
  function EventOf(opcode: uint32, payload: Option<seq<byte>>, consumedAt: nat, startedAt: nat): Event {
    if opcode == ENTER_WORLD_OPCODE || opcode == INTERRUPT_CAST_OPCODE then Cleared
    else if opcode == BEGIN_CAST_OPCODE && payload.Some? && |payload.value| >= 10 then
      CastBegun(LoadU32(payload.value, 0), LoadU32(payload.value, 6), consumedAt, startedAt)
    else Ignored
  }

  class Tracker {
    var activeUntil: nat
    var spellId: uint32
    var pendingUntil: nat

    function Current(): State
      reads this
    {
      State(activeUntil, spellId, pendingUntil)
    }

    constructor ()
      ensures Current() == State(0, 0, 0)
    {
      activeUntil, spellId, pendingUntil := 0, 0, 0;
    }

    method ClearTimedCastState()
      modifies this
      ensures Current() == Step(old(Current()), Cleared)
    {
      activeUntil := 0;
      spellId := 0;
    }

    method ObserveSend(opcode: uint32, opcodeDecoded: bool, succeeded: bool, now: nat)
      modifies this
      ensures Current() == Step(old(Current()),
                if opcodeDecoded && opcode == 0x1287 && succeeded then CastSent(now) else Ignored)
    {
      if opcodeDecoded && opcode == CAST_SPELL_OPCODE && succeeded {
        pendingUntil := now + BEGIN_WINDOW_MS;
      }
    }

    method ConsumeLocalBeginCastWindow(now: nat) returns (open: bool)
      modifies this`pendingUntil
      ensures open <==> old(pendingUntil) != 0 && now <= old(pendingUntil)
      ensures pendingUntil == 0
    {
      if pendingUntil == 0 {
        return false;
      }
      if now > pendingUntil {
        pendingUntil := 0;
        return false;
      }
      pendingUntil := 0;
      return true;
    }

    method ObserveReceive(opcode: uint32, payload: Option<seq<byte>>, consumedAt: nat, startedAt: nat)
      modifies this
      ensures Current() == Step(old(Current()), EventOf(opcode, payload, consumedAt, startedAt))
    {
      if opcode == ENTER_WORLD_OPCODE {
        ClearTimedCastState();
      }
      ObserveTimedCastPacket(opcode, payload, consumedAt, startedAt);
    }

    method ObserveTimedCastPacket(opcode: uint32, payload: Option<seq<byte>>, consumedAt: nat, startedAt: nat)
      modifies this
      ensures Current() == Step(old(Current()),
                if opcode == ENTER_WORLD_OPCODE then Ignored else EventOf(opcode, payload, consumedAt, startedAt))
    {
      if opcode == INTERRUPT_CAST_OPCODE {
        ClearTimedCastState();
        return;
      }
      if opcode != BEGIN_CAST_OPCODE || payload.None? || |payload.value| < 10 {
        return;
      }
      var spell := LoadU32(payload.value, 0);
      var castTime := LoadU32(payload.value, 6);
      if castTime == 0 {
        ClearTimedCastState();
        return;
      }
      var open := ConsumeLocalBeginCastWindow(consumedAt);
      if !open {
        ClearTimedCastState();
        return;
      }
      spellId := spell;
      activeUntil := startedAt + castTime + GRACE_MS;
    }

    method IsTimedCastActive(now: nat) returns (active: bool)
      modifies this
      ensures Current() == Step(old(Current()), Polled(now))
      ensures active <==> Active(old(Current()), now)
    {
      if activeUntil == 0 {
        return false;
      }
      if now <= activeUntil {
        return true;
      }
      ClearTimedCastState();
      return false;
    }

    method GetTimedCastSpellId(now: nat) returns (spell: uint32)
      modifies this
      ensures Current() == Step(old(Current()), Polled(now))
      ensures spell == if Active(old(Current()), now) then old(spellId) else 0
    {
      var active := IsTimedCastActive(now);
      spell := if active then spellId else 0;
    }
  }

  // ---------- Runs ----------

  function RunOf(trace: seq<Event>): State {
    if |trace| == 0 then State(0, 0, 0) else Step(RunOf(trace[..|trace| - 1]), trace[|trace| - 1])
  }

  /** The clock never runs backwards, within an event and from one to the next. */
  ghost predicate Monotone(trace: seq<Event>, upTo: nat) {
    && (forall j :: 0 <= j < |trace| ==> InOrder(trace[j]) && NotAfter(trace[j], upTo))
    && (forall i, j :: 0 <= i < j < |trace| ==> Precedes(trace[i], trace[j]))
  }

  predicate InOrder(e: Event) {
    e.CastBegun? ==> e.consumedAt <= e.startedAt
  }

  predicate NotAfter(e: Event, t: nat) {
    match e
    case CastSent(now) => now <= t
    case CastBegun(_, _, _, startedAt) => startedAt <= t
    case Polled(at) => at <= t
    case _ => true
  }

  predicate Precedes(d: Event, e: Event) {
    match e
    case CastSent(now) => NotAfter(d, now)
    case CastBegun(_, _, consumedAt, _) => NotAfter(d, consumedAt)
    case Polled(at) => NotAfter(d, at)
    case _ => true
  }

  /** A begin-cast packet with a cast time uses the window up, whether or not it was open. */
  predicate UsesWindow(e: Event) {
    e.CastBegun? && e.castTime != 0
  }

  /** The send at `i` is the latest one and its window has not been used up. */
  ghost predicate OpenSend(trace: seq<Event>, i: nat) {
    && i < |trace| && trace[i].CastSent?
    && forall k :: i < k < |trace| ==> !trace[k].CastSent? && !UsesWindow(trace[k])
  }

  /** The send at `i` lets the begin-cast packet at `j` start a timed cast. */
  ghost predicate Activates(trace: seq<Event>, i: nat, j: nat) {
    && i < j < |trace| && UsesWindow(trace[j])
    && OpenSend(trace[..j], i)
    && trace[j].consumedAt <= trace[i].now + BEGIN_WINDOW_MS
  }

  /** Nothing after `j` ended the cast or started another. */
  ghost predicate Undisturbed(trace: seq<Event>, j: nat) {
    forall k :: j < k < |trace| ==> !trace[k].Cleared? && !trace[k].CastBegun?
  }

  function EndOf(e: Event): nat
    requires e.CastBegun?
  {
    e.startedAt + e.castTime + GRACE_MS
  }

  /** A timed cast is in progress at time `t` because of the send at `i` and the begin-cast at `j`. */
  ghost predicate Justified(trace: seq<Event>, t: nat, i: nat, j: nat) {
    Activates(trace, i, j) && Undisturbed(trace, j) && t <= EndOf(trace[j])
  }

  /** What the state remembers of the sends. */
  ghost predicate PendingExplained(trace: seq<Event>, s: State) {
    if s.pendingUntil == 0 then forall i: nat :: !OpenSend(trace, i)
    else exists i: nat :: OpenSend(trace, i) && s.pendingUntil == trace[i].now + BEGIN_WINDOW_MS
  }

  /** What the state remembers of the begin-casts: the one in progress, or that none is, or that
      a poll found it over. */
  ghost predicate ActiveExplained(trace: seq<Event>, s: State) {
    if s.activeUntil == 0 then
      forall i: nat, j: nat :: Activates(trace, i, j) && Undisturbed(trace, j) ==> PolledAfter(trace, EndOf(trace[j]))
    else
      exists i: nat, j: nat :: Activates(trace, i, j) && Undisturbed(trace, j) &&
                     s.activeUntil == EndOf(trace[j]) && s.spellId == trace[j].spellId
  }

  ghost predicate PolledAfter(trace: seq<Event>, t: nat) {
    exists k :: 0 <= k < |trace| && trace[k].Polled? && trace[k].at > t
  }

  lemma {:induction false} OpenSendSnoc(trace: seq<Event>, e: Event, i: nat)
    ensures OpenSend(trace + [e], i) <==>
            if e.CastSent? then i == |trace| else OpenSend(trace, i) && !UsesWindow(e)
  {
    var longer := trace + [e];
    assert forall k :: 0 <= k < |trace| ==> longer[k] == trace[k];
    assert longer[|trace|] == e;
  }

  lemma {:induction false} PendingStep(trace: seq<Event>, s: State, e: Event)
    requires PendingExplained(trace, s)
    ensures PendingExplained(trace + [e], Step(s, e))
  {
    var longer, s' := trace + [e], Step(s, e);
    forall i: nat ensures OpenSend(longer, i) <==>
                          if e.CastSent? then i == |trace| else OpenSend(trace, i) && !UsesWindow(e)
    {
      OpenSendSnoc(trace, e, i);
    }
    if e.CastSent? {
      assert OpenSend(longer, |trace|);
    } else if s'.pendingUntil != 0 {
      var i: nat :| OpenSend(trace, i) && s.pendingUntil == trace[i].now + BEGIN_WINDOW_MS;
      assert OpenSend(longer, i);
    }
  }

  lemma {:induction false} ActivatesSnoc(trace: seq<Event>, e: Event, i: nat, j: nat)
    ensures Activates(trace + [e], i, j) <==>
            if j == |trace| then OpenSend(trace, i) && UsesWindow(e) && e.consumedAt <= trace[i].now + BEGIN_WINDOW_MS
            else Activates(trace, i, j)
    ensures j < |trace| ==> (Undisturbed(trace + [e], j) <==> Undisturbed(trace, j) && !e.Cleared? && !e.CastBegun?)
    ensures j == |trace| ==> Undisturbed(trace + [e], j)
  {
    var longer := trace + [e];
    assert longer[|trace|] == e;
    if j < |trace| {
      assert longer[..j] == trace[..j];
      assert forall k :: 0 <= k < |trace| ==> longer[k] == trace[k];
    } else if j == |trace| {
      assert longer[..j] == trace;
    }
  }

  /** At most one send is open, at most one cast is undisturbed. */
  lemma {:induction false} ExplanationsAreUnique(trace: seq<Event>)
    ensures forall i: nat, j: nat :: OpenSend(trace, i) && OpenSend(trace, j) ==> i == j
    ensures forall i: nat, j: nat, k: nat, m: nat ::
              Activates(trace, i, j) && Undisturbed(trace, j) && Activates(trace, k, m) && Undisturbed(trace, m) ==> j == m
  {
  }

  lemma {:induction false} BeginCastStep(trace: seq<Event>, s: State, e: Event)
    requires PendingExplained(trace, s) && e.CastBegun?
    ensures ActiveExplained(trace + [e], Step(s, e))
  {
    var longer, s', n := trace + [e], Step(s, e), |trace|;
    ExplanationsAreUnique(trace);
    if s'.activeUntil == 0 {
      forall i: nat, j: nat | Activates(longer, i, j) ensures !Undisturbed(longer, j) {
        ActivatesSnoc(trace, e, i, j);
      }
    } else {
      var i: nat :| OpenSend(trace, i) && s.pendingUntil == trace[i].now + BEGIN_WINDOW_MS;
      ActivatesSnoc(trace, e, i, n);
    }
  }

  lemma {:induction false} PollStep(trace: seq<Event>, s: State, e: Event)
    requires ActiveExplained(trace, s) && !e.CastBegun? && !e.Cleared?
    ensures ActiveExplained(trace + [e], Step(s, e))
  {
    var longer, s' := trace + [e], Step(s, e);
    assert longer[|trace|] == e && forall k :: 0 <= k < |trace| ==> longer[k] == trace[k];
    if s.activeUntil != 0 {
      var i: nat, j: nat :| Activates(trace, i, j) && Undisturbed(trace, j) &&
                            s.activeUntil == EndOf(trace[j]) && s.spellId == trace[j].spellId;
      ActivatesSnoc(trace, e, i, j);
    }
    if s'.activeUntil == 0 {
      ExplanationsAreUnique(trace);
      forall i: nat, j: nat | Activates(longer, i, j) && Undisturbed(longer, j)
        ensures PolledAfter(longer, EndOf(longer[j]))
      {
        ActivatesSnoc(trace, e, i, j);
        if s.activeUntil == 0 {
          assert PolledAfter(trace, EndOf(trace[j]));
          var k :| 0 <= k < |trace| && trace[k].Polled? && trace[k].at > EndOf(trace[j]);
          assert longer[k].Polled?;
        }
      }
    }
  }

  lemma {:induction false} ActiveStep(trace: seq<Event>, s: State, e: Event)
    requires PendingExplained(trace, s) && ActiveExplained(trace, s)
    ensures ActiveExplained(trace + [e], Step(s, e))
  {
    if e.CastBegun? {
      BeginCastStep(trace, s, e);
    } else if e.Cleared? {
      forall i: nat, j: nat | Activates(trace + [e], i, j) ensures !Undisturbed(trace + [e], j) {
        ActivatesSnoc(trace, e, i, j);
      }
    } else {
      PollStep(trace, s, e);
    }
  }

  lemma {:induction false} RunIsExplained(trace: seq<Event>)
    ensures PendingExplained(trace, RunOf(trace)) && ActiveExplained(trace, RunOf(trace))
  {
    if |trace| > 0 {
      var init, last := trace[..|trace| - 1], trace[|trace| - 1];
      assert trace == init + [last];
      RunIsExplained(init);
      PendingStep(init, RunOf(init), last);
      ActiveStep(init, RunOf(init), last);
    }
  }

  /** After every run, asked at any later time: a timed cast is reported exactly when a
      successful send and a begin-cast packet justify it, and the spell reported is that
      packet's. */
  lemma {:induction false} ActiveIffJustified(trace: seq<Event>, t: nat)
    requires Monotone(trace, t)
    ensures Active(RunOf(trace), t) <==> exists i: nat, j: nat :: Justified(trace, t, i, j)
    ensures forall i: nat, j: nat :: Justified(trace, t, i, j) ==> RunOf(trace).spellId == trace[j].spellId
  {
    RunIsExplained(trace);
    ExplanationsAreUnique(trace);
    var s := RunOf(trace);
    if s.activeUntil == 0 {
      forall i: nat, j: nat | Activates(trace, i, j) && Undisturbed(trace, j) ensures t > EndOf(trace[j]) {
        assert PolledAfter(trace, EndOf(trace[j]));
        var k :| 0 <= k < |trace| && trace[k].Polled? && trace[k].at > EndOf(trace[j]);
        assert NotAfter(trace[k], t);
      }
    } else {
      var i: nat, j: nat :| Activates(trace, i, j) && Undisturbed(trace, j) &&
                            s.activeUntil == EndOf(trace[j]) && s.spellId == trace[j].spellId;
      assert Justified(trace, t, i, j) <==> t <= s.activeUntil;
    }
  }

  /** The times of a justification: request, begin, question. */
  lemma JustifiedTimes(trace: seq<Event>, t: nat, i: nat, j: nat)
    requires Monotone(trace, t) && Justified(trace, t, i, j)
    ensures trace[i].now <= trace[j].consumedAt <= trace[i].now + 2000
    ensures trace[j].startedAt <= t <= trace[j].startedAt + trace[j].castTime + 250
  {
    assert Precedes(trace[i], trace[j]);
    assert InOrder(trace[j]) && NotAfter(trace[j], t);
  }

  /** One send justifies at most one cast, over the whole run. */
  lemma SendJustifiesOneCast(trace: seq<Event>, i: nat, j: nat, k: nat)
    requires Activates(trace, i, j) && Activates(trace, i, k)
    ensures j == k
  {
    if j < k {
      UsedWindowIsClosed(trace, i, j, k);
    } else if k < j {
      UsedWindowIsClosed(trace, i, k, j);
    }
  }

  lemma UsedWindowIsClosed(trace: seq<Event>, i: nat, j: nat, k: nat)
    requires i < j < k <= |trace| && UsesWindow(trace[j])
    ensures !OpenSend(trace[..k], i)
  {
    assert trace[..k][j] == trace[j];
  }
}
