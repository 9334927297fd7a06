/**
 The correlation windows of the packet observer: an armed budget that any number of threads
 consume with a compare-and-swap loop. Three windows work this way, with budgets of 12, 12 and
 48; this is one window with any budget, as a transition system over the atomic operations.
 Initialising the observer stores zero into the budget and into the activation counter, shutting
 it down stores zero into the budget, at any moment.
*/
module CorrelationBudget {
  import opened Wire

  /** Where a thread stands. A consumer holds the value it last saw of the counter; a successful
      one holds the place of its consumption in the log until it has read the activation number.
      An arming thread holds the place of its draw. */
  datatype Thread =
    | Idle
    | Trying(current: nat)
    | Won(consumed: nat)
    | Arming(draw: nat)

  /** What happened, oldest first. `Armed` and `Reported` name the entries they continue. */
  datatype Entry =
    | Drawn(activation: nat)
    | Armed(draw: nat)
    | Emptied
    | CounterReset
    | Consumed(ticket: nat)
    | Refused
    | Reported(consumed: nat, activation: nat)

  datatype State = State(remaining: nat, activation: nat, threads: seq<Thread>, log: seq<Entry>)

  /** One atomic operation of one thread. A weak compare-and-swap may fail without reason. */
  datatype Step =
    | Load(t: nat)
    | CompareExchange(t: nat, spurious: bool)
    | ReadActivation(t: nat)
    | DrawActivation(t: nat)
    | StoreBudget(t: nat)
    | StoreZero(t: nat)
    | ResetActivation(t: nat)

  function Initial(threads: nat): State {
    State(0, 0, seq(threads, _ => Idle), [])
  }

  function Logged(s: State, t: nat, thread: Thread, e: Entry): State
    requires t < |s.threads|
  {
    s.(threads := s.threads[t := thread], log := s.log + [e])
  }

  /** The loop head: a consumer that sees zero gives up, otherwise it tries to swap. */
  function Observe(s: State, t: nat): State
    requires t < |s.threads|
  {
    if s.remaining == 0 then Logged(s, t, Idle, Refused)
    else s.(threads := s.threads[t := Trying(s.remaining)])
  }

  /** An operation that does not fit where the thread stands changes nothing. */
  function Apply(budget: nat, s: State, step: Step): State {
    if step.t >= |s.threads| then s
    else
      var thread := s.threads[step.t];
      match step
      case Load(t) =>
        if thread.Idle? then Observe(s, t) else s
      case CompareExchange(t, spurious) =>
        if !thread.Trying? then s
        else if thread.current == s.remaining && !spurious then
          Logged(s, t, Won(|s.log|), Consumed(thread.current)).(remaining := (thread.current - 1) % 0x1_0000_0000)
        else Observe(s, t)
      case ReadActivation(t) =>
        if thread.Won? then Logged(s, t, Idle, Reported(thread.consumed, s.activation)) else s
      case DrawActivation(t) =>
        if thread.Idle? then
          Logged(s, t, Arming(|s.log|), Drawn(s.activation + 1)).(activation := s.activation + 1)
        else s
      case StoreBudget(t) =>
        if thread.Arming? then Logged(s, t, Idle, Armed(thread.draw)).(remaining := budget) else s
      case StoreZero(t) =>
        if thread.Idle? then Logged(s, t, Idle, Emptied).(remaining := 0) else s
      case ResetActivation(t) =>
        if thread.Idle? then Logged(s, t, Idle, CounterReset).(activation := 0) else s
  }

  function Run(budget: nat, threads: nat, steps: seq<Step>): State {
    if |steps| == 0 then Initial(threads)
    else Apply(budget, Run(budget, threads, steps[..|steps| - 1]), steps[|steps| - 1])
  }

  // ---------- What the log says ----------

  /** What the last store into the budget put there. */
  function Credit(budget: nat, log: seq<Entry>): nat {
    if |log| == 0 || log[|log| - 1].Emptied? then 0
    else if log[|log| - 1].Armed? then budget
    else Credit(budget, log[..|log| - 1])
  }

  /** Successful consumptions since then. */
  function ConsumedSince(log: seq<Entry>): nat {
    if |log| == 0 || log[|log| - 1].Armed? || log[|log| - 1].Emptied? then 0
    else ConsumedSince(log[..|log| - 1]) + (if log[|log| - 1].Consumed? then 1 else 0)
  }

  /** The draw of the last arm. */
  function LastArm(log: seq<Entry>): Option<nat> {
    if |log| == 0 then None
    else if log[|log| - 1].Armed? then Some(log[|log| - 1].draw)
    else LastArm(log[..|log| - 1])
  }

  /** Draws since the activation counter was last reset. */
  function Draws(log: seq<Entry>): nat {
    if |log| == 0 || log[|log| - 1].CounterReset? then 0
    else Draws(log[..|log| - 1]) + (if log[|log| - 1].Drawn? then 1 else 0)
  }

  /** The entry may follow the log: tickets of one arm count down from the budget, a refusal
      means nothing was left, and the activation numbers are those of the counter. */
  ghost predicate MayFollow(budget: nat, log: seq<Entry>, e: Entry) {
    match e
    case Drawn(activation) => activation == Draws(log) + 1
    case Armed(draw) => draw < |log| && log[draw].Drawn?
    case Emptied => true
    case CounterReset => true
    case Consumed(ticket) =>
      ConsumedSince(log) < Credit(budget, log) && ticket == Credit(budget, log) - ConsumedSince(log)
    case Refused => ConsumedSince(log) == Credit(budget, log)
    case Reported(consumed, activation) =>
      consumed < |log| && log[consumed].Consumed? && activation == Draws(log)
  }

  ghost predicate Consistent(budget: nat, log: seq<Entry>) {
    forall k {:trigger log[k]} :: 0 <= k < |log| ==> MayFollow(budget, log[..k], log[k])
  }

  predicate ThreadOk(budget: nat, log: seq<Entry>, thread: Thread) {
    match thread
    case Idle => true
    case Trying(current) => 1 <= current <= budget
    case Won(consumed) => consumed < |log| && log[consumed].Consumed?
    case Arming(draw) => draw < |log| && log[draw].Drawn?
  }

  ghost predicate Invariant(budget: nat, s: State) {
    && Consistent(budget, s.log)
    && s.activation == Draws(s.log)
    && s.remaining + ConsumedSince(s.log) == Credit(budget, s.log) <= budget
    && (forall t {:trigger s.threads[t]} :: 0 <= t < |s.threads| ==> ThreadOk(budget, s.log, s.threads[t]))
  }

  lemma {:induction false} LogSnoc(budget: nat, log: seq<Entry>, e: Entry)
    ensures Credit(budget, log + [e]) == if e.Emptied? then 0 else if e.Armed? then budget else Credit(budget, log)
    ensures ConsumedSince(log + [e]) ==
            if e.Armed? || e.Emptied? then 0 else ConsumedSince(log) + (if e.Consumed? then 1 else 0)
    ensures Draws(log + [e]) == if e.CounterReset? then 0 else Draws(log) + (if e.Drawn? then 1 else 0)
    ensures LastArm(log + [e]) == if e.Armed? then Some(e.draw) else LastArm(log)
  {
    assert (log + [e])[..|log|] == log;
  }

  lemma {:induction false} ConsistentSnoc(budget: nat, log: seq<Entry>, e: Entry)
    requires Consistent(budget, log) && MayFollow(budget, log, e)
    ensures Consistent(budget, log + [e])
  {
    hide MayFollow;
    var longer := log + [e];
    assert longer[..|log|] == log;
    forall k | 0 <= k < |longer| ensures MayFollow(budget, longer[..k], longer[k]) {
      if k < |log| {
        assert longer[..k] == log[..k] && longer[k] == log[k];
      }
    }
  }

  lemma {:induction false} StepKeepsInvariant(budget: nat, s: State, step: Step)
    requires 0 < budget < 0x1_0000_0000 && Invariant(budget, s)
    ensures Invariant(budget, Apply(budget, s, step))
  {
    hide Draws, LastArm, ConsumedSince, Credit, Consistent;
    var s' := Apply(budget, s, step);
    if |s'.log| > |s.log| {
      var e := s'.log[|s.log|];
      assert s'.log == s.log + [e];
      LogSnoc(budget, s.log, e);
      ConsistentSnoc(budget, s.log, e);
    }
  }

  /** In every interleaving of arming and consuming threads, with or without spurious failures,
      with arms that land between a consumer's load and its swap, and with resets at any moment:
      budget left plus successful consumptions since the last store is what that store put there,
      the tickets of each arm are budget, budget - 1, ... without gap or repetition, and the
      counter never wraps. */
  lemma {:induction false} BudgetIsConserved(budget: nat, threads: nat, steps: seq<Step>)
    requires 0 < budget < 0x1_0000_0000
    ensures Invariant(budget, Run(budget, threads, steps))
  {
    if |steps| == 0 {
      assert Initial(threads).log == [];
    } else {
      BudgetIsConserved(budget, threads, steps[..|steps| - 1]);
      StepKeepsInvariant(budget, Run(budget, threads, steps[..|steps| - 1]), steps[|steps| - 1]);
    }
  }

  /** Between two stores no ticket is handed out twice, so at most `budget` consumers succeed. */
  lemma {:induction false} TicketsAreDistinct(budget: nat, log: seq<Entry>, i: nat, j: nat)
    requires Consistent(budget, log) && i < j < |log|
    requires log[i].Consumed? && log[j].Consumed?
    requires forall k {:trigger log[k]} :: i < k < j ==> !log[k].Armed? && !log[k].Emptied?
    ensures log[j].ticket < log[i].ticket <= budget
  {
    hide Credit, ConsumedSince;
    assert MayFollow(budget, log[..i], log[i]) && MayFollow(budget, log[..j], log[j]);
    ConsumptionGrows(budget, log, i, j);
  }

  lemma {:induction false} ConsumptionGrows(budget: nat, log: seq<Entry>, i: nat, j: nat)
    requires i < j <= |log| && log[i].Consumed?
    requires forall k {:trigger log[k]} :: i < k < j ==> !log[k].Armed? && !log[k].Emptied?
    ensures ConsumedSince(log[..j]) > ConsumedSince(log[..i])
    ensures Credit(budget, log[..j]) == Credit(budget, log[..i]) <= budget
    decreases j
  {
    assert log[..j] == log[..j - 1] + [log[j - 1]];
    LogSnoc(budget, log[..j - 1], log[j - 1]);
    CreditBound(budget, log[..i]);
    if j > i + 1 {
      ConsumptionGrows(budget, log, i, j - 1);
    }
  }

  lemma {:induction false} CreditBound(budget: nat, log: seq<Entry>)
    ensures Credit(budget, log) <= budget
  {
    if |log| > 0 {
      CreditBound(budget, log[..|log| - 1]);
    }
  }

  // ---------- When a report is exact ----------

  /** The draw whose arm the consumption at `c` belongs to. */
  lemma {:induction false} ConsumedFromAnArm(budget: nat, log: seq<Entry>, c: nat) returns (draw: nat)
    requires Consistent(budget, log) && c < |log| && log[c].Consumed?
    ensures LastArm(log[..c]) == Some(draw) && draw < c && log[draw].Drawn?
    ensures log[draw].activation == Draws(log[..draw + 1])
  {
    assert MayFollow(budget, log[..c], log[c]);
    draw := CreditedArm(budget, log, c);
    assert MayFollow(budget, log[..draw], log[draw]);
    assert log[..draw + 1] == log[..draw] + [log[draw]];
    LogSnoc(budget, log[..draw], log[draw]);
  }

  lemma {:induction false} CreditedArm(budget: nat, log: seq<Entry>, c: nat) returns (draw: nat)
    requires Consistent(budget, log) && c <= |log| && Credit(budget, log[..c]) > 0
    ensures LastArm(log[..c]) == Some(draw) && draw < c && log[draw].Drawn?
  {
    var e := log[c - 1];
    assert log[..c] == log[..c - 1] + [e];
    LogSnoc(budget, log[..c - 1], e);
    if e.Armed? {
      assert MayFollow(budget, log[..c - 1], e);
      draw := e.draw;
    } else {
      draw := CreditedArm(budget, log, c - 1);
    }
  }

  /** Draws between two places, resets aside. */
  function DrawsBetween(log: seq<Entry>, start: nat, end: nat): nat
    requires start <= end <= |log|
    decreases end
  {
    if end == start then 0 else DrawsBetween(log, start, end - 1) + (if log[end - 1].Drawn? then 1 else 0)
  }

  lemma {:induction false} DrawsSplit(budget: nat, log: seq<Entry>, start: nat, end: nat)
    requires start <= end <= |log|
    requires forall k {:trigger log[k]} :: start <= k < end ==> !log[k].CounterReset?
    ensures Draws(log[..end]) == Draws(log[..start]) + DrawsBetween(log, start, end)
    decreases end
  {
    if end > start {
      assert log[..end] == log[..end - 1] + [log[end - 1]];
      LogSnoc(budget, log[..end - 1], log[end - 1]);
      DrawsSplit(budget, log, start, end - 1);
    }
  }

  lemma {:induction false} NoDrawsBetween(log: seq<Entry>, start: nat, end: nat)
    requires start <= end <= |log|
    ensures DrawsBetween(log, start, end) == 0 <==> forall k {:trigger log[k]} :: start <= k < end ==> !log[k].Drawn?
    decreases end
  {
    if end > start {
      NoDrawsBetween(log, start, end - 1);
    }
  }

  /** The last reset of the activation counter before `r`. */
  ghost predicate IsLastReset(log: seq<Entry>, z: nat, r: nat) {
    && z < r <= |log| && log[z].CounterReset?
    && forall k {:trigger log[k]} :: z < k < r ==> !log[k].CounterReset?
  }

  ghost predicate NoReset(log: seq<Entry>, start: nat, end: nat)
    requires end <= |log|
  {
    forall k {:trigger log[k]} :: start <= k < end ==> !log[k].CounterReset?
  }

  /** The report at `r` belongs to a consumption from the arm that drew its number at `draw`. */
  ghost predicate ReportOf(log: seq<Entry>, draw: nat, r: nat) {
    && r < |log| && log[r].Reported?
    && log[r].consumed < r && log[log[r].consumed].Consumed?
    && draw < log[r].consumed && log[draw].Drawn? && LastArm(log[..log[r].consumed]) == Some(draw)
  }

  lemma {:induction false} ReportBelongsToAnArm(budget: nat, log: seq<Entry>, r: nat) returns (draw: nat)
    requires Consistent(budget, log) && r < |log| && log[r].Reported?
    ensures ReportOf(log, draw, r)
    ensures log[draw].activation == Draws(log[..draw + 1]) && log[r].activation == Draws(log[..r])
  {
    hide Draws, LastArm, Credit, ConsumedSince;
    assert MayFollow(budget, log[..r], log[r]);
    draw := ConsumedFromAnArm(budget, log, log[r].consumed);
  }

  /** As long as the counter is not reset, a report is the number drawn plus the draws since. */
  lemma {:induction false} ReportWithoutReset(budget: nat, log: seq<Entry>, draw: nat, r: nat)
    requires draw < r < |log| && log[draw].Drawn? && log[r].Reported? && NoReset(log, draw + 1, r)
    requires log[draw].activation == Draws(log[..draw + 1]) && log[r].activation == Draws(log[..r])
    ensures log[r].activation == log[draw].activation + DrawsBetween(log, draw + 1, r)
    ensures log[r].activation == log[draw].activation <==>
              forall k {:trigger log[k]} :: draw + 1 <= k < r ==> !log[k].Drawn?
  {
    hide Draws, DrawsBetween;
    DrawsSplit(budget, log, draw + 1, r);
    NoDrawsBetween(log, draw + 1, r);
  }

  /** After a reset it is the number of draws since. */
  lemma {:induction false} ReportAfterReset(budget: nat, log: seq<Entry>, z: nat, r: nat)
    requires r < |log| && log[r].Reported? && IsLastReset(log, z, r)
    requires log[r].activation == Draws(log[..r])
    ensures log[r].activation == DrawsBetween(log, z + 1, r)
  {
    hide Draws, DrawsBetween;
    DrawsSplit(budget, log, z + 1, r);
    assert log[..z + 1] == log[..z] + [log[z]];
    LogSnoc(budget, log[..z], log[z]);
  }

  ghost predicate NoDraw(log: seq<Entry>, first: nat, end: nat)
    requires end <= |log|
  {
    forall k {:trigger log[k]} :: first <= k < end ==> !log[k].Drawn?
  }

  /** Every report of every run belongs to one arm. As long as the counter was not reset since that
      arm drew its number, the report is exact if and only if no draw took effect between the draw
      and the read, and is never older. */
  lemma {:induction false} ReportIsExactIff(budget: nat, threads: nat, steps: seq<Step>, r: nat) returns (draw: nat)
    requires 0 < budget < 0x1_0000_0000
    requires r < |Run(budget, threads, steps).log| && Run(budget, threads, steps).log[r].Reported?
    ensures ReportOf(Run(budget, threads, steps).log, draw, r)
    ensures var log := Run(budget, threads, steps).log;
            NoReset(log, draw + 1, r) ==>
              && (log[r].activation == log[draw].activation <==> NoDraw(log, draw + 1, r))
              && log[r].activation == log[draw].activation + DrawsBetween(log, draw + 1, r)
  {
    BudgetIsConserved(budget, threads, steps);
    var log := Run(budget, threads, steps).log;
    hide Run, Draws, DrawsBetween, Consistent;
    draw := ReportBelongsToAnArm(budget, log, r);
    if NoReset(log, draw + 1, r) {
      ReportWithoutReset(budget, log, draw, r);
    }
  }

  /** If the counter was reset in between, last at `z`, the report is exact if and only if as many
      draws took effect since then as the number drawn, and may be older. */
  lemma {:induction false} ReportIsExactAfterResetIff(
      budget: nat, threads: nat, steps: seq<Step>, r: nat, draw: nat, z: nat)
    requires 0 < budget < 0x1_0000_0000
    requires ReportOf(Run(budget, threads, steps).log, draw, r)
    requires draw < z && IsLastReset(Run(budget, threads, steps).log, z, r)
    ensures var log := Run(budget, threads, steps).log;
            && (log[r].activation == log[draw].activation <==>
                  DrawsBetween(log, z + 1, r) == log[draw].activation)
            && log[r].activation == DrawsBetween(log, z + 1, r)
  {
    BudgetIsConserved(budget, threads, steps);
    var log := Run(budget, threads, steps).log;
    hide Run, Draws, DrawsBetween, Consistent;
    var _ := ReportBelongsToAnArm(budget, log, r);
    ReportAfterReset(budget, log, z, r);
  }

  // ---------- Runs with a report that is not exact ----------

  /** A run, one step longer. */
  lemma {:induction false} Extend(budget: nat, threads: nat, steps: seq<Step>, step: Step)
      returns (longer: seq<Step>, s: State)
    ensures longer == steps + [step]
    ensures s == Run(budget, threads, longer) == Apply(budget, Run(budget, threads, steps), step)
  {
    longer := steps + [step];
    assert longer[..|steps|] == steps;
    s := Run(budget, threads, longer);
  }

  /** Thread 0 arms, thread 1 consumes the first ticket and has not yet read the activation. */
  lemma {:induction false} FirstTicket(budget: nat) returns (steps: seq<Step>)
    requires 0 < budget < 0x1_0000_0000
    ensures Run(budget, 2, steps) == State(budget - 1, 1, [Idle, Won(2)], [Drawn(1), Armed(0), Consumed(budget)])
  {
    steps := [];
    var s := Run(budget, 2, steps);
    hide Run;
    steps, s := Extend(budget, 2, steps, DrawActivation(0));
    steps, s := Extend(budget, 2, steps, StoreBudget(0));
    assert s == State(budget, 1, [Idle, Idle], [Drawn(1), Armed(0)]);
    steps, s := Extend(budget, 2, steps, Load(1));
    steps, s := Extend(budget, 2, steps, CompareExchange(1, false));
    assert s.threads == [Idle, Won(2)] && s.log == [Drawn(1), Armed(0), Consumed(budget)];
  }

  /** A consumer that is overtaken by the next draw reports a newer activation. */
  lemma {:induction false} ReportMayBeNewer(budget: nat) returns (steps: seq<Step>)
    requires 0 < budget < 0x1_0000_0000
    ensures Run(budget, 2, steps).log == [Drawn(1), Armed(0), Consumed(budget), Drawn(2), Reported(2, 2)]
  {
    steps := FirstTicket(budget);
    var s;
    hide Run;
    steps, s := Extend(budget, 2, steps, DrawActivation(0));
    steps, s := Extend(budget, 2, steps, ReadActivation(1));
  }

  /** A consumer that is overtaken by an initialisation reports an older one. */
  lemma {:induction false} ReportMayBeOlder(budget: nat) returns (steps: seq<Step>)
    requires 0 < budget < 0x1_0000_0000
    ensures Run(budget, 2, steps).log ==
            [Drawn(1), Armed(0), Consumed(budget), Emptied, CounterReset, Reported(2, 0)]
  {
    steps := FirstTicket(budget);
    var s;
    hide Run;
    steps, s := Extend(budget, 2, steps, StoreZero(0));
    steps, s := Extend(budget, 2, steps, ResetActivation(0));
    steps, s := Extend(budget, 2, steps, ReadActivation(1));
  }
}
