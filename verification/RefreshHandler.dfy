/** The refresh handler's continuations. Code between two suspension points is one atomic step; the
    steps of several refreshes and of the callbacks interleave freely. A continuation is a number. */
module RefreshHandler {
  import opened Bytes

  // ---------------------------------------------------------------- the state machine

  /** Where a refresh stands. */
  datatype Task = Beginning | AwaitLaunch(id: nat) | AwaitRefresh(id: nat) | Ended

  datatype Resumption = Resumption(id: nat, ok: bool)

  /** `issued` continuations exist, numbered from zero; `log` holds the resumptions so far. */
  datatype State = State(c: Option<nat>, launch: Option<nat>, pid: int, issued: nat, log: seq<Resumption>,
    tasks: seq<Task>)

  const START := State(None, None, 0, 0, [], [])

  /** `alive1` and `alive2` are what the two looks at the process say, `listening` and `located` whether
      a listener and the extension could be had. */
  datatype Step =
    | Start(alive1: bool, alive2: bool, listening: bool, located: bool)
    | Begun(task: nat, pid: int)
    | Launched(task: nat)
    | Timeout
    | Finish(ok: bool)
    | FinishedLaunching
    | Interrupted

  predicate Resumed(log: seq<Resumption>, id: nat) {
    exists i :: 0 <= i < |log| && log[i].id == id
  }

  predicate ResumedWell(log: seq<Resumption>, id: nat) {
    exists i :: 0 <= i < |log| && log[i] == Resumption(id, true)
  }

  predicate Enabled(s: State, step: Step) {
    match step
    case Begun(t, _) => t < |s.tasks| && s.tasks[t] == Beginning
    case Launched(t) => t < |s.tasks| && s.tasks[t].AwaitLaunch? && Resumed(s.log, s.tasks[t].id)
    case _ => true
  }

  function ResumeC(s: State, ok: bool): State {
    if s.c.None? then s else s.(c := None, log := s.log + [Resumption(s.c.value, ok)])
  }

  function ResumeLaunch(s: State, ok: bool): State {
    if s.launch.None? then s else s.(launch := None, log := s.log + [Resumption(s.launch.value, ok)])
  }

  predicate Dead(s: State, alive: bool) {
    s.pid <= 0 || !alive
  }

  function Apply(s: State, step: Step): State
    requires Enabled(s, step)
  {
    match step
    case Start(alive1, alive2, listening, located) =>
      var s1 := if Dead(s, alive1) then ResumeC(s, false) else s;
      if s1.c.Some? || !listening then s1.(tasks := s1.tasks + [Ended])
      else if Dead(s1, alive2) && s1.launch.None? then s1.(tasks := s1.tasks + [if located then Beginning else Ended])
      else s1.(c := Some(s1.issued), issued := s1.issued + 1, tasks := s1.tasks + [AwaitRefresh(s1.issued)])
    case Begun(t, pid) =>
      s.(pid := pid, launch := Some(s.issued), issued := s.issued + 1, tasks := s.tasks[t := AwaitLaunch(s.issued)])
    case Launched(t) =>
      if ResumedWell(s.log, s.tasks[t].id)
      then s.(c := Some(s.issued), issued := s.issued + 1, tasks := s.tasks[t := AwaitRefresh(s.issued)])
      else s.(tasks := s.tasks[t := Ended])
    case Timeout => ResumeLaunch(s, false)
    case Finish(ok) => ResumeC(s, ok)
    case FinishedLaunching => ResumeLaunch(s, true)
    case Interrupted => ResumeC(s, false).(pid := 0, launch := None)
  }

  predicate Possible(s: State, steps: seq<Step>)
    decreases |steps|
  {
    steps == [] || (Enabled(s, steps[0]) && Possible(Apply(s, steps[0]), steps[1..]))
  }

  function Run(s: State, steps: seq<Step>): State
    requires Possible(s, steps)
    decreases |steps|
  {
    if steps == [] then s else Run(Apply(s, steps[0]), steps[1..])
  }

  // ---------------------------------------------------------------- what every run keeps

  predicate Stored(s: State, id: nat) {
    s.c == Some(id) || s.launch == Some(id)
  }

  /** No continuation was resumed twice, and one that sits in a slot not at all. */
  predicate Sound(s: State) {
    && (forall i, j :: 0 <= i < j < |s.log| ==> s.log[i].id != s.log[j].id)
    && (forall i :: 0 <= i < |s.log| ==> s.log[i].id < s.issued && !Stored(s, s.log[i].id))
    && (s.c.Some? ==> s.c.value < s.issued)
    && (s.launch.Some? ==> s.launch.value < s.issued)
    && (s.c.Some? ==> s.c != s.launch)
  }

  lemma StepKeeps(s: State, step: Step)
    requires Sound(s) && Enabled(s, step)
    ensures Sound(Apply(s, step))
  {
    hide ResumedWell, Resumed;
  }

  lemma {:induction false} RunKeeps(s: State, steps: seq<Step>)
    requires Sound(s) && Possible(s, steps)
    ensures Sound(Run(s, steps))
    decreases |steps|
  {
    hide Sound, Apply;
    if steps != [] {
      StepKeeps(s, steps[0]);
      RunKeeps(Apply(s, steps[0]), steps[1..]);
    }
  }

  /** In every interleaving no continuation is resumed twice. */
  lemma ResumedAtMostOnce(steps: seq<Step>)
    requires Possible(START, steps)
    ensures var log := Run(START, steps).log; forall i, j :: 0 <= i < j < |log| ==> log[i].id != log[j].id
  {
    RunKeeps(START, steps);
  }

  /** The three ways a stored continuation is lost: an interruption clears the launch slot, a launch
      that has begun overwrites it, or a launched refresh overwrites the other slot. */
  predicate Loses(s: State, step: Step, id: nat)
    requires Enabled(s, step)
  {
    match step
    case Interrupted => s.launch == Some(id)
    case Begun(_, _) => s.launch == Some(id)
    case Launched(t) => s.c == Some(id) && ResumedWell(s.log, s.tasks[t].id)
    case _ => false
  }

  /** A stored continuation leaves its slot in a step by being resumed in it, or by one of the three
      losses, and never both. */
  lemma LeavesSlot(s: State, step: Step, id: nat)
    requires Sound(s) && Enabled(s, step) && Stored(s, id)
    ensures var next := Apply(s, step);
            && (!Stored(next, id) <==> Resumed(next.log, id) || Loses(s, step, id))
            && !(Resumed(next.log, id) && Loses(s, step, id))
  {
    hide ResumedWell;
    var next := Apply(s, step);
    StepKeeps(s, step);
    assert forall i :: 0 <= i < |s.log| ==> next.log[i] == s.log[i];
    if |next.log| > |s.log| {
      assert next.log[|s.log|].id == id ==> Resumed(next.log, id);
    }
  }

  /** A continuation neither stored nor resumed. */
  predicate Lost(s: State, id: nat) {
    id < s.issued && !Stored(s, id) && !Resumed(s.log, id)
  }

  predicate LosesSome(s: State, step: Step)
    requires Enabled(s, step)
  {
    (s.launch.Some? && Loses(s, step, s.launch.value)) || (s.c.Some? && Loses(s, step, s.c.value))
  }

  /** The run takes none of the three lossy steps. */
  predicate Careful(s: State, steps: seq<Step>)
    requires Possible(s, steps)
    decreases |steps|
  {
    steps == [] || (!LosesSome(s, steps[0]) && Careful(Apply(s, steps[0]), steps[1..]))
  }

  lemma StepAccounts(s: State, step: Step)
    requires Sound(s) && Enabled(s, step)
    ensures var next := Apply(s, step);
            && (forall id: nat :: Lost(s, id) ==> Lost(next, id))
            && (!LosesSome(s, step) ==> forall id: nat :: Lost(next, id) ==> Lost(s, id))
            && (LosesSome(s, step) ==> exists id: nat :: id < s.issued && Lost(next, id) && !Lost(s, id))
  {
    hide ResumedWell, Resumed, Loses;
    var next := Apply(s, step);
    StepKeeps(s, step);
    forall id: nat ensures Stored(s, id) ==> (Lost(next, id) <==> Loses(s, step, id)) {
      if Stored(s, id) {
        LeavesSlot(s, step, id);
        LossIsUnresumed(s, id);
      }
    }
    forall id: nat ensures !Stored(s, id) && id < s.issued ==>
      !Stored(next, id) && (Resumed(next.log, id) <==> Resumed(s.log, id)) {
      if !Stored(s, id) && id < s.issued {
        LogGrows(s, step, id);
      }
    }
    if LosesSome(s, step) {
      var id := if s.launch.Some? && Loses(s, step, s.launch.value) then s.launch.value else s.c.value;
      assert Lost(next, id) && !Lost(s, id);
    }
    FreshIsStored(s, step);
  }

  lemma LossIsUnresumed(s: State, id: nat)
    requires Sound(s) && Stored(s, id)
    ensures id < s.issued && !Lost(s, id)
  {
  }

  lemma LogGrows(s: State, step: Step, id: nat)
    requires Sound(s) && Enabled(s, step) && !Stored(s, id) && id < s.issued
    ensures var next := Apply(s, step);
            !Stored(next, id) && (Resumed(next.log, id) <==> Resumed(s.log, id))
  {
    hide ResumedWell;
    var next := Apply(s, step);
    assert forall i :: 0 <= i < |s.log| ==> next.log[i] == s.log[i];
  }

  lemma FreshIsStored(s: State, step: Step)
    requires Sound(s) && Enabled(s, step)
    ensures var next := Apply(s, step);
            s.issued <= next.issued && forall id: nat :: s.issued <= id < next.issued ==> Stored(next, id)
  {
  }

  /** A run loses a continuation exactly when it takes one of the three steps with the slot filled. */
  lemma {:induction false} LossesExplained(s: State, steps: seq<Step>)
    requires Sound(s) && Possible(s, steps)
    ensures (forall id: nat :: Lost(Run(s, steps), id) ==> Lost(s, id)) <==> Careful(s, steps)
    ensures forall id: nat :: Lost(s, id) ==> Lost(Run(s, steps), id)
    decreases |steps|
  {
    hide Sound, Apply, Lost, LosesSome;
    if steps != [] {
      var next := Apply(s, steps[0]);
      StepKeeps(s, steps[0]);
      StepAccounts(s, steps[0]);
      LossesExplained(next, steps[1..]);
    }
  }

  /** From the start, then: nothing is lost exactly in careful runs, and what is lost is never resumed
      in any continuation of the run. */
  lemma NothingLost(steps: seq<Step>)
    requires Possible(START, steps)
    ensures (forall id: nat :: !Lost(Run(START, steps), id)) <==> Careful(START, steps)
  {
    LossesExplained(START, steps);
  }

  lemma LostForGood(s: State, steps: seq<Step>, id: nat)
    requires Sound(s) && Possible(s, steps) && Lost(s, id)
    ensures !Resumed(Run(s, steps).log, id)
  {
    LossesExplained(s, steps);
  }

  /** Losses happen: while one refresh waits for the launch a second one stores its continuation, which
      the first overwrites when the launch is done. */
  lemma SecondRefreshIsLost()
    ensures var steps := [Start(false, false, true, true), Begun(0, 7), Start(true, true, true, true),
      FinishedLaunching, Launched(0)];
            Possible(START, steps) && Lost(Run(START, steps), 1) && Run(START, steps).tasks[1] == AwaitRefresh(1)
  {
    hide Apply, Enabled;
    var a, b, c, d, e := Start(false, false, true, true), Begun(0, 7), Start(true, true, true, true),
      FinishedLaunching, Launched(0);
    var s1 := State(None, None, 0, 0, [], [Beginning]);
    var s2 := State(None, Some(0), 7, 1, [], [AwaitLaunch(0)]);
    var s3 := State(Some(1), Some(0), 7, 2, [], [AwaitLaunch(0), AwaitRefresh(1)]);
    var s4 := State(Some(1), None, 7, 2, [Resumption(0, true)], [AwaitLaunch(0), AwaitRefresh(1)]);
    var s5 := State(Some(2), None, 7, 3, [Resumption(0, true)], [AwaitRefresh(2), AwaitRefresh(1)]);
    FirstSteps(s1, s2, s3, s4);
    LaunchedWell(s4);
    Then(s5, s4, e, []);
    Then(s5, s3, d, [e]);
    Then(s5, s2, c, [d, e]);
    Then(s5, s1, b, [c, d, e]);
    Then(s5, START, a, [b, c, d, e]);
    assert [a] + [b, c, d, e] == [a, b, c, d, e];
    assert [b] + [c, d, e] == [b, c, d, e] && [c] + [d, e] == [c, d, e] && [d] + [e] == [d, e] && [e] + [] == [e];
  }

  lemma FirstSteps(s1: State, s2: State, s3: State, s4: State)
    requires s1 == State(None, None, 0, 0, [], [Beginning])
    requires s2 == State(None, Some(0), 7, 1, [], [AwaitLaunch(0)])
    requires s3 == State(Some(1), Some(0), 7, 2, [], [AwaitLaunch(0), AwaitRefresh(1)])
    requires s4 == State(Some(1), None, 7, 2, [Resumption(0, true)], [AwaitLaunch(0), AwaitRefresh(1)])
    ensures Enabled(START, Start(false, false, true, true)) && Apply(START, Start(false, false, true, true)) == s1
    ensures Enabled(s1, Begun(0, 7)) && Apply(s1, Begun(0, 7)) == s2
    ensures Enabled(s2, Start(true, true, true, true)) && Apply(s2, Start(true, true, true, true)) == s3
    ensures Enabled(s3, FinishedLaunching) && Apply(s3, FinishedLaunching) == s4
  {
    hide ResumedWell, Resumed;
  }

  lemma LaunchedWell(s: State)
    requires s == State(Some(1), None, 7, 2, [Resumption(0, true)], [AwaitLaunch(0), AwaitRefresh(1)])
    ensures Enabled(s, Launched(0))
    ensures Apply(s, Launched(0))
         == State(Some(2), None, 7, 3, [Resumption(0, true)], [AwaitRefresh(2), AwaitRefresh(1)])
    ensures Resumed(s.log, 0)
  {
    assert s.log[0] == Resumption(0, true);
    assert Resumed(s.log, 0) && ResumedWell(s.log, 0);
  }

  lemma Then(end: State, s: State, step: Step, rest: seq<Step>)
    requires Enabled(s, step) && Possible(Apply(s, step), rest) && Run(Apply(s, step), rest) == end
    ensures Possible(s, [step] + rest) && Run(s, [step] + rest) == end
  {
  }

  // ---------------------------------------------------------------- with what a continuation is resumed

  /** The steps that end a waiting refresh: the call that reports its outcome, and, as failures, an interruption and
      another refresh that finds the process gone. */
  predicate EndsRefresh(s: State, step: Step, ok: bool) {
    match step
    case Finish(well) => ok == well
    case Interrupted => !ok
    case Start(alive, _, _, _) => (s.pid <= 0 || !alive) && !ok
    case _ => false
  }

  /** The steps that end a waiting launch. */
  predicate EndsLaunch(step: Step, ok: bool) {
    match step
    case FinishedLaunching => ok
    case Timeout => !ok
    case _ => false
  }

  /** The run takes such a step while the refresh waits. */
  predicate RefreshEnds(s: State, steps: seq<Step>, id: nat, ok: bool)
    requires Possible(s, steps)
    decreases |steps|
  {
    steps != []
    && ((s.c == Some(id) && EndsRefresh(s, steps[0], ok)) || RefreshEnds(Apply(s, steps[0]), steps[1..], id, ok))
  }

  predicate LaunchEnds(s: State, steps: seq<Step>, id: nat, ok: bool)
    requires Possible(s, steps)
    decreases |steps|
  {
    steps != []
    && ((s.launch == Some(id) && EndsLaunch(steps[0], ok)) || LaunchEnds(Apply(s, steps[0]), steps[1..], id, ok))
  }

  lemma StepOutcome(s: State, step: Step, id: nat, ok: bool)
    requires Enabled(s, step)
    ensures Resumption(id, ok) in Apply(s, step).log <==>
      || Resumption(id, ok) in s.log
      || (s.c == Some(id) && EndsRefresh(s, step, ok))
      || (s.launch == Some(id) && EndsLaunch(step, ok))
  {
    hide Resumed, ResumedWell;
  }

  /** A run resumes a continuation with an outcome exactly when it takes a step that means this outcome while the
      continuation waits. */
  lemma {:induction false} OutcomeExplained(s: State, steps: seq<Step>, id: nat, ok: bool)
    requires Possible(s, steps)
    ensures Resumption(id, ok) in Run(s, steps).log <==>
      Resumption(id, ok) in s.log || RefreshEnds(s, steps, id, ok) || LaunchEnds(s, steps, id, ok)
    decreases |steps|
  {
    hide Apply, Enabled, EndsRefresh, EndsLaunch;
    if steps != [] {
      StepOutcome(s, steps[0], id, ok);
      OutcomeExplained(Apply(s, steps[0]), steps[1..], id, ok);
    }
  }

  /** At some moment of the run the continuation waits for a refresh. */
  predicate EverRefresh(s: State, steps: seq<Step>, id: nat)
    requires Possible(s, steps)
    decreases |steps|
  {
    s.c == Some(id) || (steps != [] && EverRefresh(Apply(s, steps[0]), steps[1..], id))
  }

  predicate EverLaunch(s: State, steps: seq<Step>, id: nat)
    requires Possible(s, steps)
    decreases |steps|
  {
    s.launch == Some(id) || (steps != [] && EverLaunch(Apply(s, steps[0]), steps[1..], id))
  }

  lemma OnlyFreshEnter(s: State, step: Step, id: nat)
    requires Sound(s) && Enabled(s, step) && id < s.issued
    ensures var next := Apply(s, step);
            && id < next.issued
            && (next.c == Some(id) ==> s.c == Some(id)) && (next.launch == Some(id) ==> s.launch == Some(id))
  {
    hide Resumed, ResumedWell;
  }

  lemma {:induction false} SlotForLife(s: State, steps: seq<Step>, id: nat)
    requires Sound(s) && Possible(s, steps) && id < s.issued
    ensures EverRefresh(s, steps, id) ==> s.c == Some(id)
    ensures EverLaunch(s, steps, id) ==> s.launch == Some(id)
    decreases |steps|
  {
    hide Sound, Apply, Enabled;
    if steps != [] {
      StepKeeps(s, steps[0]);
      OnlyFreshEnter(s, steps[0], id);
      SlotForLife(Apply(s, steps[0]), steps[1..], id);
    }
  }

  lemma NotYetIssued(s: State, id: nat)
    requires Sound(s)
    ensures id >= s.issued ==> s.c != Some(id) && s.launch != Some(id)
    ensures !(s.c == Some(id) && s.launch == Some(id))
  {
  }

  /** No continuation waits for a refresh at one moment and for a launch at another. */
  lemma {:induction false} NeverBoth(s: State, steps: seq<Step>, id: nat)
    requires Sound(s) && Possible(s, steps)
    ensures !(EverRefresh(s, steps, id) && EverLaunch(s, steps, id))
    decreases |steps|
  {
    hide Sound, Apply, Enabled;
    NotYetIssued(s, id);
    if id < s.issued {
      SlotForLife(s, steps, id);
    } else if steps != [] {
      StepKeeps(s, steps[0]);
      NeverBoth(Apply(s, steps[0]), steps[1..], id);
    }
  }

  lemma {:induction false} EndsWhereStored(s: State, steps: seq<Step>, id: nat, ok: bool)
    requires Possible(s, steps)
    ensures RefreshEnds(s, steps, id, ok) ==> EverRefresh(s, steps, id)
    ensures LaunchEnds(s, steps, id, ok) ==> EverLaunch(s, steps, id)
    decreases |steps|
  {
    hide Apply, Enabled, EndsRefresh, EndsLaunch;
    if steps != [] {
      EndsWhereStored(Apply(s, steps[0]), steps[1..], id, ok);
    }
  }

  /** A refresh that ever waits is resumed with success exactly when the run reports success while it waits, and
      with an error exactly when it reports one, is interrupted, or starts another refresh with the process gone. */
  lemma RefreshOutcome(steps: seq<Step>, id: nat, ok: bool)
    requires Possible(START, steps) && EverRefresh(START, steps, id)
    ensures Resumption(id, ok) in Run(START, steps).log <==> RefreshEnds(START, steps, id, ok)
  {
    OutcomeExplained(START, steps, id, ok);
    NeverBoth(START, steps, id);
    EndsWhereStored(START, steps, id, ok);
  }

  /** A launch that ever waits is resumed with success exactly when the run reports the launch finished while it
      waits, and with an error exactly when the timer fires while it waits. */
  lemma LaunchOutcome(steps: seq<Step>, id: nat, ok: bool)
    requires Possible(START, steps) && EverLaunch(START, steps, id)
    ensures Resumption(id, ok) in Run(START, steps).log <==> LaunchEnds(START, steps, id, ok)
  {
    OutcomeExplained(START, steps, id, ok);
    NeverBoth(START, steps, id);
    EndsWhereStored(START, steps, id, ok);
  }

  // ---------------------------------------------------------------- who waits

  function Awaited(task: Task): Option<nat> {
    match task
    case AwaitLaunch(id) => Some(id)
    case AwaitRefresh(id) => Some(id)
    case _ => None
  }

  /** Every stored continuation is one that a refresh waits on at this very place, and no two refreshes wait on the
      same. */
  predicate Waiting(s: State) {
    && (s.c.Some? ==> AwaitRefresh(s.c.value) in s.tasks)
    && (s.launch.Some? ==> AwaitLaunch(s.launch.value) in s.tasks)
    && Distinct(s.tasks, s.issued)
  }

  predicate Distinct(tasks: seq<Task>, issued: nat) {
    && (forall i :: 0 <= i < |tasks| && Awaited(tasks[i]).Some? ==> Awaited(tasks[i]).value < issued)
    && (forall i, j :: 0 <= i < j < |tasks| && Awaited(tasks[i]).Some? ==> Awaited(tasks[i]) != Awaited(tasks[j]))
  }

  lemma StepKeepsDistinct(s: State, step: Step)
    requires Distinct(s.tasks, s.issued) && Enabled(s, step)
    ensures Distinct(Apply(s, step).tasks, Apply(s, step).issued)
  {
    hide ResumedWell, Resumed;
  }

  lemma StepKeepsWaiting(s: State, step: Step)
    requires Sound(s) && Waiting(s) && Enabled(s, step)
    ensures Waiting(Apply(s, step))
  {
    hide ResumedWell, Distinct;
    StepKeepsDistinct(s, step);
    var next := Apply(s, step);
    match step
    case Begun(t, pid) =>
      assert next.tasks[t] == AwaitLaunch(s.issued);
      if s.c.Some? {
        StillThere(s.tasks, t, next.tasks[t], AwaitRefresh(s.c.value));
      }
    case Launched(t) =>
      assert next.tasks == s.tasks[t := next.tasks[t]];
      assert next.tasks[t] == if ResumedWell(s.log, s.tasks[t].id) then AwaitRefresh(s.issued) else Ended;
      if s.launch.Some? {
        StillThere(s.tasks, t, next.tasks[t], AwaitLaunch(s.launch.value));
      }
      if s.c.Some? {
        StillThere(s.tasks, t, next.tasks[t], AwaitRefresh(s.c.value));
      }
    case Start(_, _, _, _) =>
      assert next.tasks == s.tasks + [next.tasks[|s.tasks|]];
    case _ =>
  }

  lemma StillThere(tasks: seq<Task>, t: nat, task: Task, x: Task)
    requires t < |tasks| && x in tasks && tasks[t] != x
    ensures x in tasks[t := task]
  {
    var i :| 0 <= i < |tasks| && tasks[i] == x;
    assert tasks[t := task][i] == x;
  }

  /** In every reachable state the continuation in a slot is one that exactly one refresh waits on. */
  lemma {:induction false} SlotsAreAwaited(s: State, steps: seq<Step>)
    requires Sound(s) && Waiting(s) && Possible(s, steps)
    ensures Waiting(Run(s, steps))
    decreases |steps|
  {
    hide Sound, Waiting, Apply, Enabled;
    if steps != [] {
      StepKeeps(s, steps[0]);
      StepKeepsWaiting(s, steps[0]);
      SlotsAreAwaited(Apply(s, steps[0]), steps[1..]);
    }
  }

  lemma {:induction false} RunSnoc(s: State, steps: seq<Step>, step: Step)
    requires Possible(s, steps + [step])
    ensures Possible(s, steps) && Enabled(Run(s, steps), step)
    ensures Run(s, steps + [step]) == Apply(Run(s, steps), step)
    decreases |steps|
  {
    hide Apply, Enabled;
    var all := steps + [step];
    if steps == [] {
      assert all[0] == step && |all[1..]| == 0;
    } else {
      assert all[0] == steps[0] && all[1..] == steps[1..] + [step];
      RunSnoc(Apply(s, steps[0]), steps[1..], step);
    }
  }

  /** A launched refresh goes on to wait for its outcome exactly when the run reported the launch finished while it
      waited for it; otherwise it ends and leaves the slots alone. */
  lemma GoesOnWhenLaunched(steps: seq<Step>, task: nat)
    requires Possible(START, steps + [Launched(task)])
    ensures Possible(START, steps)
    ensures var s, next := Run(START, steps), Run(START, steps + [Launched(task)]);
            && task < |s.tasks| == |next.tasks| && s.tasks[task].AwaitLaunch?
            && next.launch == s.launch && next.pid == s.pid
            && (forall t :: 0 <= t < |s.tasks| && t != task ==> next.tasks[t] == s.tasks[t])
            && if LaunchEnds(START, steps, s.tasks[task].id, true)
               then next.c == Some(s.issued) && next.tasks[task] == AwaitRefresh(s.issued)
               else next.c == s.c && next.tasks[task] == Ended
  {
    hide Possible, Run, Resumed, Sound, Waiting, LaunchEnds, RefreshEnds, EverRefresh, EverLaunch;
    RunSnoc(START, steps, Launched(task));
    var s := Run(START, steps);
    LaunchWasStored(steps, task);
    LaunchOutcome(steps, s.tasks[task].id, true);
    assert ResumedWell(s.log, s.tasks[task].id) <==> Resumption(s.tasks[task].id, true) in s.log;
  }

  /** What a refresh waits on for its launch has been in the launch slot. */
  lemma {:induction false} LaunchWasStored(steps: seq<Step>, task: nat)
    requires Possible(START, steps) && task < |Run(START, steps).tasks| && Run(START, steps).tasks[task].AwaitLaunch?
    ensures EverLaunch(START, steps, Run(START, steps).tasks[task].id)
    decreases |steps|
  {
    hide Resumed, ResumedWell, Possible, Run, EverLaunch;
    if steps == [] {
      NothingRun();
    } else {
      var before, step := steps[..|steps| - 1], steps[|steps| - 1];
      assert before + [step] == steps;
      RunSnoc(START, before, step);
      var s, id := Run(START, before), Run(START, steps).tasks[task].id;
      if task < |s.tasks| && s.tasks[task] == AwaitLaunch(id) {
        LaunchWasStored(before, task);
        EverLonger(START, before, step, id);
      } else {
        EverAtEnd(START, steps, id);
      }
    }
  }

  lemma NothingRun()
    ensures Run(START, []) == START
  {
  }

  lemma {:induction false} EverLonger(s: State, steps: seq<Step>, step: Step, id: nat)
    requires Possible(s, steps + [step])
    ensures Possible(s, steps) && (EverLaunch(s, steps, id) ==> EverLaunch(s, steps + [step], id))
    decreases |steps|
  {
    hide Apply, Enabled;
    if steps != [] {
      assert (steps + [step])[0] == steps[0] && (steps + [step])[1..] == steps[1..] + [step];
      EverLonger(Apply(s, steps[0]), steps[1..], step, id);
    }
  }

  lemma {:induction false} EverAtEnd(s: State, steps: seq<Step>, id: nat)
    requires Possible(s, steps) && Run(s, steps).launch == Some(id)
    ensures EverLaunch(s, steps, id)
    decreases |steps|
  {
    hide Apply, Enabled;
    if steps != [] {
      EverAtEnd(Apply(s, steps[0]), steps[1..], id);
    }
  }

  /** How a refresh starts: it is refused while another one waits and the process is there; it launches the process
      when that is gone and no launch is awaited; and else it waits for its outcome at once. */
  lemma StartMeans(steps: seq<Step>, alive1: bool, alive2: bool, listening: bool, located: bool)
    requires Possible(START, steps + [Start(alive1, alive2, listening, located)])
    ensures Possible(START, steps)
    ensures var s, next := Run(START, steps), Run(START, steps + [Start(alive1, alive2, listening, located)]);
            && next.pid == s.pid && next.launch == s.launch
            && |next.tasks| == |s.tasks| + 1 && next.tasks[..|s.tasks|] == s.tasks
            && var free, running := s.c.None? || s.pid <= 0 || !alive1, s.pid > 0 && alive2;
               match next.tasks[|s.tasks|]
               case Beginning => listening && free && !running && s.launch.None? && located && next.c.None?
               case AwaitRefresh(id) =>
                 listening && free && (running || s.launch.Some?) && id == s.issued && next.c == Some(id)
               case Ended =>
                 && (!listening || !free || (!running && s.launch.None? && !located))
                 && next.c == (if free then None else s.c)
               case AwaitLaunch(_) => false
  {
    hide Possible, Run, Resumed, ResumedWell;
    RunSnoc(START, steps, Start(alive1, alive2, listening, located));
  }

  /** The process a refresh looks at is the one begun last, unless an interruption came since; a launch waits from
      the moment it has begun, and an interruption leaves nothing waiting. */
  lemma ProcessMeans(steps: seq<Step>, step: Step)
    requires Possible(START, steps + [step])
    ensures Possible(START, steps)
    ensures var s, next := Run(START, steps), Run(START, steps + [step]);
            && next.pid == (if step.Begun? then step.pid else if step == Interrupted then 0 else s.pid)
            && (step.Begun? ==>
                  && step.task < |s.tasks| == |next.tasks| && s.tasks[step.task] == Beginning
                  && next.launch == Some(s.issued) && next.tasks[step.task] == AwaitLaunch(s.issued) && next.c == s.c)
            && (step == Interrupted ==> next.c == next.launch == None && next.tasks == s.tasks)
  {
    hide Possible, Run, Resumed, ResumedWell;
    RunSnoc(START, steps, step);
  }

  // ---------------------------------------------------------------- the handler

  class Handler {
    var c: Option<nat>
    var launchContinuation: Option<nat>
    var sideStorePid: int
    ghost var issued: nat
    ghost var log: seq<Resumption>
    ghost var tasks: seq<Task>

    constructor ()
      ensures Shown() == START
    {
      c, launchContinuation, sideStorePid := None, None, 0;
      issued, log, tasks := 0, [], [];
    }

    ghost function Shown(): State
      reads this
    {
      State(c, launchContinuation, sideStorePid, issued, log, tasks)
    }

    /** `startRefresh` up to its first suspension. `suspended` is the continuation it then waits on, if
        it is the refresh itself it waits for. */
    method StartRefresh(alive1: bool, alive2: bool, listening: bool, located: bool, next: nat)
        returns (suspended: Option<nat>)
      requires next == issued
      modifies this
      ensures Shown() == Apply(old(Shown()), Start(alive1, alive2, listening, located))
      ensures suspended.Some? <==> Shown().tasks[|old(tasks)|].AwaitRefresh?
      ensures suspended.Some? ==> suspended == c
    {
      if (sideStorePid <= 0 || !alive1) && c.Some? {
        Resume(c.value, false);
        c := None;
      }
      if c.Some? || !listening {
        tasks := tasks + [Ended];
        return None;
      }
      if (sideStorePid <= 0 || !alive2) && launchContinuation.None? {
        tasks := tasks + [if located then Beginning else Ended];
        return None;
      }
      c := Some(next);
      issued, tasks := issued + 1, tasks + [AwaitRefresh(next)];
      suspended := c;
    }

    /** The resumption itself; only the log shows it. */
    ghost method Resume(id: nat, ok: bool)
      modifies this`log
      ensures log == old(log) + [Resumption(id, ok)]
    {
      log := log + [Resumption(id, ok)];
    }

    /** `startRefresh` between the return of the extension request and the wait for the launch. */
    method LaunchBegun(ghost task: nat, pid: int, next: nat)
      requires Enabled(Shown(), Begun(task, pid)) && next == issued
      modifies this
      ensures Shown() == Apply(old(Shown()), Begun(task, pid))
    {
      sideStorePid := pid;
      launchContinuation := Some(next);
      issued, tasks := issued + 1, tasks[task := AwaitLaunch(next)];
    }

    /** `startRefresh` behind the wait for the launch, which ended well or by throwing. */
    method LaunchDone(ghost task: nat, ok: bool, next: nat)
      requires Enabled(Shown(), Launched(task)) && next == issued
      requires ok == ResumedWell(log, tasks[task].id)
      modifies this
      ensures Shown() == Apply(old(Shown()), Launched(task))
    {
      if !ok {
        tasks := tasks[task := Ended];
        return;
      }
      c := Some(next);
      issued, tasks := issued + 1, tasks[task := AwaitRefresh(next)];
    }

    /** The timer of a launch: it ends whatever launch is being waited for when it fires. */
    method TimerFired() returns (kill: bool)
      modifies this
      ensures Shown() == Apply(old(Shown()), Timeout) && kill == old(launchContinuation).Some?
    {
      kill := launchContinuation.Some?;
      if kill {
        Resume(launchContinuation.value, false);
        launchContinuation := None;
      }
    }

    method FinishRefresh(error: bool)
      modifies this
      ensures Shown() == Apply(old(Shown()), Finish(!error))
    {
      if c.Some? {
        Resume(c.value, !error);
      }
      c := None;
    }

    method LaunchFinished()
      modifies this
      ensures Shown() == Apply(old(Shown()), FinishedLaunching)
    {
      if launchContinuation.Some? {
        Resume(launchContinuation.value, true);
      }
      launchContinuation := None;
    }

    method Interrupt()
      modifies this
      ensures Shown() == Apply(old(Shown()), Interrupted)
    {
      if c.Some? {
        Resume(c.value, false);
      }
      c := None;
      sideStorePid := 0;
      launchContinuation := None;
    }
  }
}
