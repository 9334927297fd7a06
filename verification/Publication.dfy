/**
 How the server-auth observer publishes a parsed field through two separate atomics, a value and
 a flag, and how a snapshot reads them back. A writer stores the value, then the flag; a reader
 loads the flag, then the value. The class mask is only ever set; every other field is cleared
 when a payload lacks it, by storing zero and then false. One field, any number of threads, one
 atomic operation per step.
*/
module Publication {
  import opened Wire

  /** What a payload says about the field. */
  type Content = Option<uint64>

  datatype Thread =
    | Idle
    | Storing(content: Content)        // about to store the value
    | Flagging(content: Content)       // about to store the flag
    | LoadingFlag
    | LoadingValue(flag: bool)

  datatype Snapshot = Snapshot(flag: bool, value: uint64)

  datatype State = State(flag: bool, value: uint64, threads: seq<Thread>, snapshots: seq<Snapshot>)

  datatype Step =
    | Publish(t: nat, content: Content)
    | TakeSnapshot(t: nat)
    | Advance(t: nat)

  function Initial(threads: nat): State {
    State(false, 0, seq(threads, _ => Idle), [])
  }

  function Stored(content: Content): uint64 {
    if content.Some? then content.value else 0
  }

  function Apply(clearable: bool, s: State, step: Step): State {
    if step.t >= |s.threads| then s
    else
      var thread := s.threads[step.t];
      match step
      case Publish(t, content) =>
        if thread.Idle? && (content.Some? || clearable) then s.(threads := s.threads[t := Storing(content)]) else s
      case TakeSnapshot(t) =>
        if thread.Idle? then s.(threads := s.threads[t := LoadingFlag]) else s
      case Advance(t) =>
        match thread
        case Idle => s
        case Storing(content) => s.(value := Stored(content), threads := s.threads[t := Flagging(content)])
        case Flagging(content) => s.(flag := content.Some?, threads := s.threads[t := Idle])
        case LoadingFlag => s.(threads := s.threads[t := LoadingValue(s.flag)])
        case LoadingValue(flag) =>
          s.(threads := s.threads[t := Idle], snapshots := s.snapshots + [Snapshot(flag, s.value)])
  }

  function Run(clearable: bool, threads: nat, steps: seq<Step>): State {
    if |steps| == 0 then Initial(threads)
    else Apply(clearable, Run(clearable, threads, steps[..|steps| - 1]), steps[|steps| - 1])
  }

  /** Only these contents are ever published. */
  ghost predicate Publishes(steps: seq<Step>, contents: set<Content>) {
    forall k :: 0 <= k < |steps| && steps[k].Publish? ==> steps[k].content in contents
  }

  /** A snapshot that reports the field carries a value some payload published. */
  predicate Genuine(snapshot: Snapshot, contents: set<Content>) {
    snapshot.flag ==> Some(snapshot.value) in contents
  }

  ghost predicate AlwaysGenuine(clearable: bool, contents: set<Content>) {
    forall threads: nat, steps: seq<Step>, k: nat ::
      Publishes(steps, contents) && k < |Run(clearable, threads, steps).snapshots| ==>
      Genuine(Run(clearable, threads, steps).snapshots[k], contents)
  }

  predicate ThreadKnows(clearable: bool, s: State, thread: Thread, contents: set<Content>) {
    match thread
    case Idle => true
    case Storing(content) => content in contents && (content.Some? || clearable)
    case Flagging(content) => content.Some? ==> Some(s.value) in contents
    case LoadingFlag => true
    case LoadingValue(flag) => flag ==> Some(s.value) in contents
  }

  /** Whoever has raised, is about to raise or has seen the flag raised finds a published value. */
  ghost predicate Invariant(clearable: bool, s: State, contents: set<Content>) {
    && (s.flag ==> Some(s.value) in contents)
    && (forall t :: 0 <= t < |s.threads| ==> ThreadKnows(clearable, s, s.threads[t], contents))
    && (forall k :: 0 <= k < |s.snapshots| ==> Genuine(s.snapshots[k], contents))
  }

  /** The zero stored for an absent field can never be taken for a published value: no payload
      lacks the field, or every payload lacks it, or zero is itself published. */
  ghost predicate NoStrayZero(contents: set<Content>) {
    None !in contents || (forall c :: c in contents ==> c == None) || Some(0) in contents
  }

  lemma {:induction false} StepKeepsInvariant(clearable: bool, s: State, step: Step, contents: set<Content>)
    requires Invariant(clearable, s, contents) && (clearable ==> NoStrayZero(contents))
    requires step.Publish? ==> step.content in contents
    ensures Invariant(clearable, Apply(clearable, s, step), contents)
  {
  }

  lemma {:induction false} RunKeepsInvariant(clearable: bool, threads: nat, steps: seq<Step>, contents: set<Content>)
    requires Publishes(steps, contents) && (clearable ==> NoStrayZero(contents))
    ensures Invariant(clearable, Run(clearable, threads, steps), contents)
  {
    if |steps| > 0 {
      var init := steps[..|steps| - 1];
      RunKeepsInvariant(clearable, threads, init, contents);
      StepKeepsInvariant(clearable, Run(clearable, threads, init), steps[|steps| - 1], contents);
    }
  }

  /** The class mask: in every interleaving of writers and readers a snapshot that reports it
      carries a mask that some payload published. */
  lemma {:induction false} SetOnlyFieldIsAlwaysGenuine(contents: set<Content>)
    ensures AlwaysGenuine(false, contents)
  {
    forall threads: nat, steps: seq<Step>, k: nat |
      Publishes(steps, contents) && k < |Run(false, threads, steps).snapshots|
      ensures Genuine(Run(false, threads, steps).snapshots[k], contents)
    {
      RunKeepsInvariant(false, threads, steps, contents);
    }
  }

  /** A run with two threads on a clearable field, one step longer. */
  lemma {:induction false} Extend(steps: seq<Step>, step: Step) returns (longer: seq<Step>, s: State)
    ensures longer == steps + [step]
    ensures s == Run(true, 2, longer) == Apply(true, Run(true, 2, steps), step)
  {
    longer := steps + [step];
    assert longer[..|steps|] == steps;
    s := Run(true, 2, longer);
  }

  /** One thread publishes `v`, a reader sees the flag, a payload without the field stores its
      zero, the reader loads it. */
  function StraySteps(v: uint64): seq<Step> {
    [Publish(0, Some(v)), Advance(0), Advance(0)] + [TakeSnapshot(1), Advance(1)] +
    [Publish(0, None), Advance(0)] + [Advance(1)]
  }

  lemma {:induction false} FlagSeen(v: uint64) returns (steps: seq<Step>)
    ensures steps == [Publish(0, Some(v)), Advance(0), Advance(0)] + [TakeSnapshot(1), Advance(1)]
    ensures Run(true, 2, steps) == State(true, v, [Idle, LoadingValue(true)], [])
  {
    steps := [];
    var s := Run(true, 2, steps);
    hide Run;
    steps, s := Extend(steps, Publish(0, Some(v)));
    steps, s := Extend(steps, Advance(0));
    assert s == State(false, v, [Flagging(Some(v)), Idle], []);
    steps, s := Extend(steps, Advance(0));
    steps, s := Extend(steps, TakeSnapshot(1));
    assert s == State(true, v, [Idle, LoadingFlag], []);
    steps, s := Extend(steps, Advance(1));
  }

  lemma {:induction false} StrayRun(v: uint64)
    ensures Snapshot(true, 0) in Run(true, 2, StraySteps(v)).snapshots
  {
    hide Run;
    var steps := FlagSeen(v);
    var s;
    steps, s := Extend(steps, Publish(0, None));
    steps, s := Extend(steps, Advance(0));
    assert s == State(true, 0, [Flagging(None), LoadingValue(true)], []);
    steps, s := Extend(steps, Advance(1));
    assert steps == StraySteps(v);
    assert s.snapshots == [Snapshot(true, 0)];
  }

  /** Every other field: it has the same guarantee exactly when the payloads leave no stray zero. */
  lemma {:induction false} ClearableFieldIsGenuineIff(contents: set<Content>)
    ensures AlwaysGenuine(true, contents) <==> NoStrayZero(contents)
  {
    if NoStrayZero(contents) {
      forall threads: nat, steps: seq<Step>, k: nat |
        Publishes(steps, contents) && k < |Run(true, threads, steps).snapshots|
        ensures Genuine(Run(true, threads, steps).snapshots[k], contents)
      {
        RunKeepsInvariant(true, threads, steps, contents);
      }
    } else {
      var c: Content :| c in contents && c != None;
      var steps := StraySteps(c.value);
      StrayRun(c.value);
      var snapshots := Run(true, 2, steps).snapshots;
      var k: nat :| k < |snapshots| && snapshots[k] == Snapshot(true, 0);
      assert Publishes(steps, contents);
      assert !Genuine(snapshots[k], contents);
    }
  }

  // ---------- What a late snapshot reports ----------

  lemma {:induction false} NextState(clearable: bool, threads: nat, steps: seq<Step>, n: nat)
    requires n < |steps|
    ensures Run(clearable, threads, steps[..n + 1]) == Apply(clearable, Run(clearable, threads, steps[..n]), steps[n])
  {
    hide Apply;
    assert steps[..n + 1][..n] == steps[..n];
  }

  /** A writer finishes with step `p`: it raises the flag of a published value. */
  ghost predicate Completes(threads: nat, steps: seq<Step>, p: nat) {
    && p < |steps| && steps[p].Advance?
    && var s := Run(false, threads, steps[..p]);
       steps[p].t < |s.threads| && s.threads[steps[p].t].Flagging? && s.threads[steps[p].t].content.Some?
  }

  /** Thread `u` finishes a snapshot with step `n`. */
  ghost predicate Reads(clearable: bool, threads: nat, steps: seq<Step>, n: nat, u: nat) {
    && n < |steps| && steps[n] == Advance(u)
    && var s := Run(clearable, threads, steps[..n]);
       u < |s.threads| && s.threads[u].LoadingValue?
  }

  /** Thread `u` has no snapshot under way after `m` steps. */
  ghost predicate NotReading(clearable: bool, threads: nat, steps: seq<Step>, m: nat, u: nat) {
    && m <= |steps|
    && var s := Run(clearable, threads, steps[..m]);
       u < |s.threads| && s.threads[u].Idle?
  }

  /** No writer of a set-only field is about to clear it. */
  ghost predicate OnlySets(s: State) {
    forall t :: 0 <= t < |s.threads| ==> s.threads[t] != Storing(None) && s.threads[t] != Flagging(None)
  }

  lemma {:induction false} SetOnlyRunSets(threads: nat, steps: seq<Step>)
    ensures OnlySets(Run(false, threads, steps))
  {
    if |steps| > 0 {
      SetOnlyRunSets(threads, steps[..|steps| - 1]);
    }
  }

  lemma {:induction false} FlagStep(s: State, step: Step)
    requires OnlySets(s) && s.flag
    ensures Apply(false, s, step).flag
  {
  }

  lemma {:induction false} FlagStays(threads: nat, steps: seq<Step>, m: nat, n: nat)
    requires m <= n <= |steps| && Run(false, threads, steps[..m]).flag
    ensures Run(false, threads, steps[..n]).flag
    decreases n
  {
    hide Run, Apply, OnlySets;
    if m < n {
      FlagStays(threads, steps, m, n - 1);
      SetOnlyRunSets(threads, steps[..n - 1]);
      FlagStep(Run(false, threads, steps[..n - 1]), steps[n - 1]);
      NextState(false, threads, steps, n - 1);
    }
  }

  /** The flag is up and the reader `u` has not seen it down. */
  predicate SeenUp(s: State, u: nat) {
    s.flag && u < |s.threads| && s.threads[u] != LoadingValue(false)
  }

  lemma {:induction false} SeenUpStep(s: State, step: Step, u: nat)
    requires OnlySets(s) && SeenUp(s, u)
    ensures SeenUp(Apply(false, s, step), u)
  {
  }

  lemma {:induction false} SeenUpStays(threads: nat, steps: seq<Step>, m: nat, n: nat, u: nat)
    requires m <= n <= |steps| && SeenUp(Run(false, threads, steps[..m]), u)
    ensures SeenUp(Run(false, threads, steps[..n]), u)
    decreases n
  {
    hide Run, Apply, SeenUp, OnlySets;
    if m < n {
      SeenUpStays(threads, steps, m, n - 1, u);
      SetOnlyRunSets(threads, steps[..n - 1]);
      SeenUpStep(Run(false, threads, steps[..n - 1]), steps[n - 1], u);
      NextState(false, threads, steps, n - 1);
    }
  }

  lemma {:induction false} CompletionRaises(threads: nat, steps: seq<Step>, p: nat)
    requires Completes(threads, steps, p)
    ensures Run(false, threads, steps[..p + 1]).flag
  {
    NextState(false, threads, steps, p);
    hide Run;
  }

  lemma {:induction false} ReadAppends(clearable: bool, threads: nat, steps: seq<Step>, n: nat, u: nat)
    requires Reads(clearable, threads, steps, n, u)
    ensures var s := Run(clearable, threads, steps[..n]);
            u < |s.threads| && s.threads[u].LoadingValue? &&
            Run(clearable, threads, steps[..n + 1]).snapshots ==
            s.snapshots + [Snapshot(s.threads[u].flag, s.value)]
  {
    NextState(clearable, threads, steps, n);
    hide Run;
  }

  /** The class mask: once a publication has been completed, every snapshot begun after it, in every
      interleaving, reports a mask, and one that some payload published. */
  lemma {:induction false} LateSnapshotReports(
      threads: nat, steps: seq<Step>, contents: set<Content>, p: nat, m: nat, n: nat, u: nat)
    requires Publishes(steps, contents) && Completes(threads, steps, p) && p < m <= n
    requires NotReading(false, threads, steps, m, u) && Reads(false, threads, steps, n, u)
    ensures var was, now := Run(false, threads, steps[..n]).snapshots, Run(false, threads, steps[..n + 1]).snapshots;
            exists v: uint64 :: now == was + [Snapshot(true, v)] && Some(v) in contents
  {
    CompletionRaises(threads, steps, p);
    FlagStays(threads, steps, p + 1, m);
    SeenUpStays(threads, steps, m, n, u);
    ReadAppends(false, threads, steps, n, u);
    RunKeepsInvariant(false, threads, steps[..n], contents);
    hide Run;
    var s := Run(false, threads, steps[..n]);
    assert s.threads[u] == LoadingValue(true);
  }

  /** No writer is between its store of the value and its store of the flag, or about to begin. */
  ghost predicate Quiet(s: State) {
    forall t :: 0 <= t < |s.threads| ==> !s.threads[t].Storing? && !s.threads[t].Flagging?
  }

  /** The reader has not yet seen the flag, or has seen it as it is. */
  ghost predicate Settled(s: State, flag: bool, value: uint64, u: nat) {
    && Quiet(s) && s.flag == flag && s.value == value
    && u < |s.threads| && (s.threads[u].LoadingValue? ==> s.threads[u].flag == flag)
  }

  lemma {:induction false} SettledStep(clearable: bool, s: State, step: Step, flag: bool, value: uint64, u: nat)
    requires Settled(s, flag, value, u) && !step.Publish?
    ensures Settled(Apply(clearable, s, step), flag, value, u)
  {
  }

  lemma {:induction false} SettledStays(
      clearable: bool, threads: nat, steps: seq<Step>, m: nat, n: nat, u: nat, flag: bool, value: uint64)
    requires m <= n <= |steps| && Settled(Run(clearable, threads, steps[..m]), flag, value, u)
    requires forall k {:trigger steps[k]} :: m <= k < n ==> !steps[k].Publish?
    ensures Settled(Run(clearable, threads, steps[..n]), flag, value, u)
    decreases n
  {
    hide Run, Apply, Settled;
    if m < n {
      SettledStays(clearable, threads, steps, m, n - 1, u, flag, value);
      SettledStep(clearable, Run(clearable, threads, steps[..n - 1]), steps[n - 1], flag, value, u);
      NextState(clearable, threads, steps, n - 1);
    }
  }

  /** Any field: a snapshot begun when no payload is being published, and finished before the next one,
      reports exactly what the field holds. */
  lemma {:induction false} QuietSnapshotIsExact(
      clearable: bool, threads: nat, steps: seq<Step>, m: nat, n: nat, u: nat)
    requires m <= n && NotReading(clearable, threads, steps, m, u) && Reads(clearable, threads, steps, n, u)
    requires Quiet(Run(clearable, threads, steps[..m]))
    requires forall k {:trigger steps[k]} :: m <= k < n ==> !steps[k].Publish?
    ensures var s := Run(clearable, threads, steps[..m]);
            Run(clearable, threads, steps[..n + 1]).snapshots ==
            Run(clearable, threads, steps[..n]).snapshots + [Snapshot(s.flag, s.value)]
  {
    hide Run, Quiet;
    var s := Run(clearable, threads, steps[..m]);
    SettledStays(clearable, threads, steps, m, n, u, s.flag, s.value);
    ReadAppends(clearable, threads, steps, n, u);
  }

  /** And what it holds, after a writer that nobody overtook, is what that writer published: the value
      and the flag, or zero and no flag when the payload lacked the field. */
  lemma {:induction false} UndisturbedPublication(clearable: bool, s: State, t: nat, content: Content)
    requires t < |s.threads| && s.threads[t].Idle? && (content.Some? || clearable)
    ensures var done := Apply(clearable, Apply(clearable, Apply(clearable, s, Publish(t, content)), Advance(t)), Advance(t));
            && done.flag == content.Some? && done.value == (if content.Some? then content.value else 0)
            && done.threads == s.threads && done.snapshots == s.snapshots
  {
    assert s.threads[t := Storing(content)][t := Flagging(content)][t := Idle] == s.threads;
  }
}
