/** The life of an install job (src/server/pipeline/pipeline.ts): the runner that owns the job object, the row in the
    database it copies that object to, and cancellation, step timeouts, crashes and recovery, which act from outside.
    Every synchronous stretch is one event and events interleave freely. */
module JobRows {
  import opened Wrappers

  datatype JobStatus = Queued | Running | Waiting2FA | Completed | Failed
  datatype StepStatus = StepPending | StepRunning | StepCompleted | StepFailed

  /** The job object and the row share this type; updateJob copies one to the other. */
  datatype Job = Job(status: JobStatus, steps: seq<StepStatus>)

  const STEPS: nat := 6
  const AUTHENTICATE: nat := 1
  const PROVISION: nat := 2
  const LAST: nat := 5

  const FRESH := Job(Queued, [StepPending, StepPending, StepPending, StepPending, StepPending, StepPending])

  /** Where runPipeline is. `TimedOut`: the step's budget is used up, its catch block has not run yet.
      `Throwing`: an error is on its way to the catch block of runPipeline. */
  datatype Pc =
    | AwaitingLock
    | Before(step: nat)
    | Inside(step: nat)
    | TimedOut(step: nat)
    | Ending
    | Throwing
    | Returned
    | Crashed

  /** The function of the current step, or of one whose timeout left it running. */
  datatype Fn = NoFn | Working(paused: bool) | AwaitingCode | Resuming | Doomed

  /** `flag`: the job is in cancelledJobs; `timers`: pending removals from it. `overrun`: a step that can pause for 2FA
      has timed out (a history variable). */
  datatype State = State(row: Job, mem: Job, pc: Pc, fn: Fn, fnStep: nat, flag: bool, timers: nat, overrun: bool)

  const INIT := State(FRESH, FRESH, AwaitingLock, NoFn, 0, false, 0, false)

  datatype Event =
    | Start | BeginStep | FinishStep | FailStep | StepTimeout | CatchError | Complete
    | Pause | CodeArrives | CodeFails | Resume | ResumeFails | FnEnds
    | Cancel | FlagExpires | Crash | Recover

  function CanPause(step: nat): bool { step == AUTHENTICATE || step == PROVISION }

  predicate Terminal(status: JobStatus) { status == Completed || status == Failed }

  predicate Enabled(s: State, e: Event) {
    match e
    case Start => s.pc == AwaitingLock
    case BeginStep => s.pc.Before? && s.pc.step < STEPS
    case FinishStep => s.pc.Inside? && s.pc.step < STEPS && s.fn.Working?
    case FailStep => (s.pc.TimedOut? || (s.pc.Inside? && (s.fn.Working? || s.fn.Doomed?))) && s.pc.step < STEPS
    case StepTimeout => s.pc.Inside?
    case CatchError => s.pc == Throwing
    case Complete => s.pc == Ending
    case Pause => s.fn == Working(false) && CanPause(s.fnStep)
    case CodeArrives => s.fn == AwaitingCode
    case CodeFails => s.fn == AwaitingCode
    case Resume => s.fn == Resuming
    case ResumeFails => s.fn == Resuming
    case FnEnds => !s.pc.Inside? && s.fn != NoFn
    case Cancel => true
    case FlagExpires => s.timers > 0
    case Crash => s.pc != Crashed
    case Recover => s.pc == Crashed
  }

  function Stopped(st: StepStatus): StepStatus {
    if st == StepRunning then StepFailed else st
  }

  /** What cancelJob and recoverStalledJobs make of a row. */
  function Stop(row: Job): Job {
    Job(Failed, seq(|row.steps|, i requires 0 <= i < |row.steps| => Stopped(row.steps[i])))
  }

  predicate Stalled(row: Job) { row.status == Running || row.status == Waiting2FA }

  /** updateJob: the row becomes a copy of the job object. */
  function Write(s: State, mem: Job): State {
    s.(mem := mem, row := mem)
  }

  function SetStep(job: Job, k: nat, st: StepStatus): (r: Job)
    ensures r.status == job.status
  {
    if k < |job.steps| then job.(steps := job.steps[k := st]) else job
  }

  function Step(s: State, e: Event): State
    requires Enabled(s, e)
  {
    match e
    case Start => Write(s, s.mem.(status := Running)).(pc := Before(0))
    case BeginStep =>
      if s.flag then s.(flag := false, pc := Throwing)
      else
        Write(s, SetStep(s.mem, s.pc.step, StepRunning)).(
          pc := Inside(s.pc.step), fn := Working(false), fnStep := s.pc.step)
    case FinishStep =>
      Write(s, SetStep(s.mem, s.pc.step, StepCompleted)).(
        pc := if s.pc.step == LAST then Ending else Before(s.pc.step + 1), fn := NoFn)
    case FailStep =>
      Write(s, SetStep(s.mem, s.pc.step, StepFailed).(status := Failed)).(
        pc := Throwing, fn := if s.pc.TimedOut? then s.fn else NoFn)
    case StepTimeout => s.(pc := TimedOut(s.pc.step), overrun := s.overrun || CanPause(s.fnStep))
    case CatchError =>
      if s.mem.status != Failed then Write(s, s.mem.(status := Failed)).(pc := Returned) else s.(pc := Returned)
    case Complete => Write(s, s.mem.(status := Completed)).(pc := Returned)
    case Pause => Write(s, s.mem.(status := Waiting2FA)).(fn := AwaitingCode)
    case CodeArrives => s.(fn := Resuming)
    case CodeFails => s.(fn := Doomed)
    case Resume => Write(s, s.mem.(status := Running)).(fn := Working(true))
    case ResumeFails => s.(fn := Doomed)
    case FnEnds => s.(fn := NoFn)
    case Cancel =>
      if Terminal(s.row.status) then s
      else
        s.(row := Stop(s.row), flag := true, timers := s.timers + 1,
           fn := if s.row.status == Waiting2FA && s.fn == AwaitingCode then Doomed else s.fn)
    case FlagExpires => s.(flag := false, timers := s.timers - 1)
    case Crash => s.(pc := Crashed, fn := NoFn, flag := false, timers := 0)
    case Recover => if Stalled(s.row) then s.(row := Stop(s.row)) else s
  }

  function From(s: State, es: seq<Event>): Option<State> {
    if es == [] then Some(s)
    else
      match From(s, es[..|es| - 1])
      case None => None
      case Some(t) => if Enabled(t, es[|es| - 1]) then Some(Step(t, es[|es| - 1])) else None
  }

  function After(es: seq<Event>): Option<State> { From(INIT, es) }

  // ---------------------------------------------------------------- the shape of a row

  /** completed*, then at most one running or failed, then pending*: whatever comes before a step that was begun is
      completed. */
  predicate Shape(steps: seq<StepStatus>) {
    forall i, j :: 0 <= i < j < |steps| && steps[j] != StepPending ==> steps[i] == StepCompleted
  }

  predicate RowOk(row: Job) {
    && |row.steps| == STEPS && Shape(row.steps)
    && (row.status == Completed ==> forall i :: 0 <= i < STEPS ==> row.steps[i] == StepCompleted)
    && (row.status == Failed ==> forall i :: 0 <= i < STEPS ==> row.steps[i] != StepRunning)
  }

  /** `k` steps completed, the next one `st`, the rest pending. */
  predicate At(steps: seq<StepStatus>, k: nat, st: StepStatus) {
    && |steps| == STEPS && k < STEPS
    && (forall i :: 0 <= i < k ==> steps[i] == StepCompleted)
    && steps[k] == st
    && (forall i :: k < i < STEPS ==> steps[i] == StepPending)
  }

  predicate AllCompleted(steps: seq<StepStatus>) {
    |steps| == STEPS && forall i :: 0 <= i < STEPS ==> steps[i] == StepCompleted
  }

  /** Stopped short: some steps completed, then one failed or pending, then pending ones. */
  predicate StoppedShort(steps: seq<StepStatus>) {
    exists k :: 0 <= k < STEPS && (At(steps, k, StepFailed) || At(steps, k, StepPending))
  }

  /** What the job object looks like at each place of the runner. */
  predicate MemOk(s: State) {
    match s.pc
    case AwaitingLock => s.mem == FRESH && s.fn == NoFn
    case Before(k) => At(s.mem.steps, k, StepPending) && s.mem.status == Running && s.fn == NoFn
    case Inside(k) =>
      && At(s.mem.steps, k, StepRunning) && s.fnStep == k && s.fn != NoFn && Stalled(s.mem)
      && (s.fn.Working? ==> s.mem.status == Running)
    case TimedOut(k) => At(s.mem.steps, k, StepRunning) && Stalled(s.mem)
    case Ending => AllCompleted(s.mem.steps) && s.mem.status == Running && s.fn == NoFn
    case Throwing => StoppedShort(s.mem.steps) && s.mem.status != Completed
    case Returned =>
      if s.mem.status == Completed then AllCompleted(s.mem.steps) && s.fn == NoFn else StoppedShort(s.mem.steps)
    case Crashed => true
  }

  predicate Inv(s: State) {
    RowOk(s.row) && MemOk(s) && (s.pc == Crashed ==> s.fn == NoFn)
  }

  lemma ShapeOf(job: Job, k: nat, st: StepStatus)
    requires At(job.steps, k, st) && job.status != Completed && (job.status == Failed ==> st != StepRunning)
    ensures RowOk(job)
  {
  }

  lemma StopOk(row: Job)
    requires RowOk(row)
    ensures RowOk(Stop(row))
  {
  }

  lemma StoppedShortOk(job: Job)
    requires StoppedShort(job.steps) && job.status != Completed
    ensures RowOk(job)
  {
    var k :| 0 <= k < STEPS && (At(job.steps, k, StepFailed) || At(job.steps, k, StepPending));
    if At(job.steps, k, StepFailed) { ShapeOf(job, k, StepFailed); } else { ShapeOf(job, k, StepPending); }
  }

  lemma SetStepAt(job: Job, k: nat, st: StepStatus, st': StepStatus)
    requires At(job.steps, k, st)
    ensures At(SetStep(job, k, st').steps, k, st')
  {
  }

  lemma FinishedAt(job: Job, k: nat)
    requires At(job.steps, k, StepRunning)
    ensures k < LAST ==> At(SetStep(job, k, StepCompleted).steps, k + 1, StepPending)
    ensures k == LAST ==> AllCompleted(SetStep(job, k, StepCompleted).steps)
  {
  }

  /** Events of the runner itself. */
  predicate OfRunner(e: Event) {
    e.Start? || e.BeginStep? || e.FinishStep? || e.FailStep? || e.StepTimeout? || e.CatchError? || e.Complete?
  }

  lemma RunnerKeeps(s: State, e: Event)
    requires Inv(s) && Enabled(s, e) && OfRunner(e)
    ensures Inv(Step(s, e))
  {
    hide At, AllCompleted, StoppedShort, RowOk, SetStep;
    var t := Step(s, e);
    match e
    case Start => FreshAt(); ShapeOf(t.mem, 0, StepPending);
    case BeginStep =>
      if s.flag { ThrownAt(s.mem.steps, s.pc.step, StepPending); }
      else { SetStepAt(s.mem, s.pc.step, StepPending, StepRunning); ShapeOf(t.mem, s.pc.step, StepRunning); }
    case FinishStep =>
      FinishedAt(s.mem, s.pc.step);
      if s.pc.step < LAST { ShapeOf(t.mem, s.pc.step + 1, StepPending); } else { CompletedOk(t.mem); }
    case FailStep =>
      SetStepAt(s.mem, s.pc.step, StepRunning, StepFailed);
      ThrownAt(t.mem.steps, s.pc.step, StepFailed);
      ShapeOf(t.mem, s.pc.step, StepFailed);
    case StepTimeout =>
    case CatchError => StoppedShortOk(t.mem);
    case Complete => CompletedOk(t.mem);
  }

  lemma FreshAt()
    ensures At(FRESH.steps, 0, StepPending)
  {
  }

  lemma ThrownAt(steps: seq<StepStatus>, k: nat, st: StepStatus)
    requires At(steps, k, st) && (st == StepFailed || st == StepPending)
    ensures StoppedShort(steps)
  {
  }

  lemma CompletedOk(job: Job)
    requires AllCompleted(job.steps) && job.status != Failed
    ensures RowOk(job)
  {
  }

  lemma OutsideKeeps(s: State, e: Event)
    requires Inv(s) && Enabled(s, e) && !OfRunner(e)
    ensures Inv(Step(s, e))
  {
    hide At, AllCompleted, StoppedShort, RowOk;
    var t := Step(s, e);
    StopOk(s.row);
    match e
    case Pause => PausedOk(s, Waiting2FA);
    case Resume => PausedOk(s, Running);
    case _ =>
  }

  /** A function that writes the job object does so on top of a shape that allows it. */
  lemma PausedOk(s: State, status: JobStatus)
    requires MemOk(s) && s.fn != NoFn && s.pc != Crashed && (status == Waiting2FA || status == Running)
    ensures RowOk(s.mem.(status := status))
  {
    hide At, AllCompleted, StoppedShort, RowOk;
    var mem := s.mem.(status := status);
    match s.pc
    case Inside(k) => ShapeOf(mem, k, StepRunning);
    case TimedOut(k) => ShapeOf(mem, k, StepRunning);
    case Throwing => StoppedShortOk(mem);
    case Returned => StoppedShortOk(mem);
    case _ =>
  }

  lemma InitOk()
    ensures Inv(INIT)
  {
  }

  lemma StepKeeps(s: State, e: Event)
    requires Inv(s) && Enabled(s, e)
    ensures Inv(Step(s, e))
  {
    hide Inv, Step, Enabled;
    if OfRunner(e) { RunnerKeeps(s, e); } else { OutsideKeeps(s, e); }
  }

  lemma {:induction false} InvHolds(es: seq<Event>)
    requires After(es).Some?
    ensures Inv(After(es).value)
  {
    hide Inv, Step, Enabled;
    if es == [] {
      InitOk();
    } else {
      InvHolds(es[..|es| - 1]);
      StepKeeps(After(es[..|es| - 1]).value, es[|es| - 1]);
    }
  }

  /** Every row ever written, under every interleaving with cancellation, timeouts, crashes and recovery, has the shape
      completed*, at most one running or failed, pending*; a completed row has completed every step and a failed one has
      none running. */
  lemma RowsAreOk(es: seq<Event>)
    requires After(es).Some?
    ensures RowOk(After(es).value.row)
  {
    hide After, MemOk, RowOk;
    InvHolds(es);
  }

  // ---------------------------------------------------------------- what the writes leave in the row

  /** The first `k` steps are completed, the next one is `st`, the rest pending. */
  predicate Reads(steps: seq<StepStatus>, k: nat, st: StepStatus) {
    && |steps| == 6
    && forall i :: 0 <= i < 6 ==> steps[i] == if i < k then StepCompleted else if i == k then st else StepPending
  }

  lemma AtReads(steps: seq<StepStatus>, k: nat, st: StepStatus)
    ensures At(steps, k, st) ==> Reads(steps, k, st)
    ensures AllCompleted(steps) ==> Reads(steps, 6, StepPending)
  {
  }

  /** What the row reads after each write of the runner, in any run. */
  lemma RunnerWrites(es: seq<Event>, e: Event)
    requires After(es).Some? && Enabled(After(es).value, e)
    ensures
      var s := After(es).value;
      var row := Step(s, e).row;
      match e
      case Start => row.status == Running && Reads(row.steps, 0, StepPending)
      case BeginStep =>
        if s.flag then row == s.row
        else row.status == Running && Reads(row.steps, s.pc.step, StepRunning)
      case FinishStep => row.status == Running && Reads(row.steps, s.pc.step + 1, StepPending)
      case FailStep => row.status == Failed && Reads(row.steps, s.pc.step, StepFailed)
      case Complete => row.status == Completed && Reads(row.steps, 6, StepPending)
      case CatchError => s.mem.status != Failed ==> row.status == Failed && row.steps == s.mem.steps
      case Pause => row.status == Waiting2FA && row.steps == s.mem.steps
      case Resume => row.status == Running && row.steps == s.mem.steps
      case Cancel => Terminal(s.row.status) ==> row == s.row
      case Recover => s.row.status != Running && s.row.status != Waiting2FA ==> row == s.row
      case _ => row == s.row
  {
    hide At, AllCompleted, StoppedShort, RowOk, SetStep, Reads, Stop, After;
    InvHolds(es);
    var s := After(es).value;
    var t := Step(s, e);
    match e
    case Start => FreshAt(); AtReads(t.row.steps, 0, StepPending);
    case BeginStep =>
      if !s.flag {
        SetStepAt(s.mem, s.pc.step, StepPending, StepRunning);
        AtReads(t.row.steps, s.pc.step, StepRunning);
      }
    case FinishStep =>
      FinishedAt(s.mem, s.pc.step);
      AtReads(t.row.steps, s.pc.step + 1, StepPending);
    case FailStep =>
      SetStepAt(s.mem, s.pc.step, StepRunning, StepFailed);
      AtReads(t.row.steps, s.pc.step, StepFailed);
    case Complete => AtReads(t.row.steps, 6, StepPending);
    case _ =>
  }

  /** In any run, a row with a step in progress that is cancelled, or recovered after a crash, ends failed with exactly
      that step failed. */
  lemma StoppedStepFails(es: seq<Event>, k: nat)
    requires After(es).Some? && !Terminal(After(es).value.row.status)
    requires k < |After(es).value.row.steps| && After(es).value.row.steps[k] == StepRunning
    ensures
      var row := Step(After(es).value, Cancel).row;
      row.status == Failed && Reads(row.steps, k, StepFailed)
    ensures Enabled(After(es).value, Recover) && Stalled(After(es).value.row) ==>
      var row := Step(After(es).value, Recover).row;
      row.status == Failed && Reads(row.steps, k, StepFailed)
  {
    hide After, MemOk;
    InvHolds(es);
    var row := After(es).value.row;
    assert forall i :: 0 <= i < k ==> row.steps[i] == StepCompleted;
    assert forall i :: k < i < 6 && row.steps[i] != StepPending ==> row.steps[k] == StepCompleted;
  }

  // ---------------------------------------------------------------- the row that is left

  /** While no step that can pause has overrun its budget, only the runner's own step function is alive, and once the
      job has failed or returned the row is the job object. */
  predicate Settled(s: State) {
    !s.overrun ==>
      && (s.fn != NoFn && !s.pc.Inside? ==> !CanPause(s.fnStep) && s.fn == Working(false))
      && (s.fn != NoFn && !CanPause(s.fnStep) ==> s.fn == Working(false))
      && (s.pc == Throwing && s.mem.status == Failed ==> s.row == s.mem)
      && (s.pc == Returned ==> s.row == s.mem && Terminal(s.mem.status))
  }

  lemma SettledKeeps(s: State, e: Event)
    requires Inv(s) && Settled(s) && Enabled(s, e)
    ensures Settled(Step(s, e))
  {
    hide At, AllCompleted, StoppedShort, RowOk, SetStep, Stop;
  }

  lemma {:induction false} SettledHolds(es: seq<Event>)
    requires After(es).Some?
    ensures Inv(After(es).value) && Settled(After(es).value)
  {
    hide Inv, Step, Enabled, Settled;
    InvHolds(es);
    if es == [] {
      InitIsSettled();
    } else {
      SettledHolds(es[..|es| - 1]);
      SettledKeeps(After(es[..|es| - 1]).value, es[|es| - 1]);
    }
  }

  lemma InitIsSettled()
    ensures Settled(INIT)
  {
  }

  /** A step function that is still alive can write the job once more: it waits for a code, has got it, or may yet ask
      for one. */
  predicate MayWrite(s: State) {
    s.fn == AwaitingCode || s.fn == Resuming || (s.fn == Working(false) && CanPause(s.fnStep))
  }

  /** Returned for good: nothing that can still happen writes the row. */
  predicate Final(s: State) {
    (s.pc == Returned || s.pc == Crashed) && Terminal(s.row.status) && !MayWrite(s)
  }

  lemma FinalStays(s: State, e: Event)
    requires Final(s) && Enabled(s, e)
    ensures Final(Step(s, e)) && Step(s, e).row == s.row
  {
  }

  lemma {:induction false} FinalForever(s: State, es: seq<Event>)
    requires Final(s) && From(s, es).Some?
    ensures From(s, es).value.row == s.row && Final(From(s, es).value)
  {
    hide Final, Step, Enabled;
    if es != [] {
      FinalForever(s, es[..|es| - 1]);
      FinalStays(From(s, es[..|es| - 1]).value, es[|es| - 1]);
    }
  }

  ghost predicate RowStays(s: State) {
    forall later :: From(s, later).Some? ==> From(s, later).value.row == s.row
  }

  lemma OneEvent(s: State, e: Event)
    requires Enabled(s, e)
    ensures From(s, [e]) == Some(Step(s, e))
  {
    assert [e][..0] == [] && From(s, []) == Some(s);
  }

  lemma TwoEvents(s: State, e: Event, f: Event)
    requires Enabled(s, e) && Enabled(Step(s, e), f)
    ensures From(s, [e, f]) == Some(Step(Step(s, e), f))
  {
    OneEvent(s, e);
    assert [e, f][..1] == [e];
  }

  /** When runPipeline has returned, nothing that can happen changes the row any more if and only if the row is terminal
      and no step function that outlived its timeout can write the job. */
  lemma RowStaysIff(s: State)
    requires s.pc == Returned
    ensures RowStays(s) <==> Final(s)
  {
    hide From;
    if Final(s) {
      forall later | From(s, later).Some? ensures From(s, later).value.row == s.row {
        FinalForever(s, later);
      }
    } else if !Terminal(s.row.status) {
      OneEvent(s, Cancel);
    } else if s.fn == AwaitingCode {
      TwoEvents(s, CodeArrives, Resume);
    } else if s.fn == Resuming {
      OneEvent(s, Resume);
    } else {
      OneEvent(s, Pause);
    }
  }

  /** When runPipeline has returned and no pausing step overran its budget, the row is terminal, a later cancel is
      refused, and nothing that can happen afterwards changes the row. */
  lemma ReturnedIsFinal(es: seq<Event>, later: seq<Event>)
    requires After(es).Some? && After(es).value.pc == Returned && !After(es).value.overrun
    requires From(After(es).value, later).Some?
    ensures Terminal(After(es).value.row.status)
    ensures Step(After(es).value, Cancel) == After(es).value
    ensures From(After(es).value, later).value.row == After(es).value.row
  {
    hide After, From, Inv;
    SettledHolds(es);
    FinalForever(After(es).value, later);
  }

  // ---------------------------------------------------------------- what the code does not provide

  lemma Extend(s: State, es: seq<Event>, e: Event)
    requires From(s, es).Some? && Enabled(From(s, es).value, e)
    ensures From(s, es + [e]) == Some(Step(From(s, es).value, e))
  {
    assert (es + [e])[..|es|] == es;
  }

  /** Cancelling during the last step is undone: the runner writes its own copy over the failed row and completes. */
  lemma CancelInLastStepIsLost(es: seq<Event>)
    requires After(es).Some? && After(es).value.pc == Inside(LAST) && After(es).value.fn.Working?
    requires !Terminal(After(es).value.row.status)
    ensures After(es + [Cancel]).Some? && After(es + [Cancel]).value.row.status == Failed
    ensures After(es + [Cancel] + [FinishStep] + [Complete]).Some?
    ensures After(es + [Cancel] + [FinishStep] + [Complete]).value.row.status == Completed
  {
    hide From;
    Extend(INIT, es, Cancel);
    Extend(INIT, es + [Cancel], FinishStep);
    Extend(INIT, es + [Cancel] + [FinishStep], Complete);
  }

  /** A step function that outlives its timeout can pause for 2FA after the runner has returned: the row is left
      waiting although nobody will resume the job. */
  lemma OverrunLeavesWaiting(es: seq<Event>)
    requires After(es).Some? && After(es).value.pc == Inside(AUTHENTICATE) && After(es).value.fn == Working(false)
    ensures After(es + [StepTimeout] + [FailStep] + [CatchError] + [Pause]).Some?
    ensures After(es + [StepTimeout] + [FailStep] + [CatchError] + [Pause]).value.pc == Returned
    ensures After(es + [StepTimeout] + [FailStep] + [CatchError] + [Pause]).value.row.status == Waiting2FA
  {
    InvHolds(es);
    hide From, RowOk;
    Extend(INIT, es, StepTimeout);
    Extend(INIT, es + [StepTimeout], FailStep);
    Extend(INIT, es + [StepTimeout] + [FailStep], CatchError);
    Extend(INIT, es + [StepTimeout] + [FailStep] + [CatchError], Pause);
  }

  // ---------------------------------------------------------------- cancellation

  /** Nothing that was pending is begun. */
  predicate NothingBegun(before: Job, after: Job) {
    |before.steps| == |after.steps|
    && forall i :: 0 <= i < |before.steps| && before.steps[i] == StepPending ==> after.steps[i] == StepPending
  }

  /** The runner has the flag in front of it, or is past starting steps. */
  predicate Heeded(s: State) {
    || (s.flag && (s.pc.Before? || s.pc.Inside? || s.pc == AwaitingLock))
    || s.pc.TimedOut? || s.pc == Ending || s.pc == Throwing || s.pc == Returned || s.pc == Crashed
  }

  lemma HeededStep(s: State, e: Event)
    requires Inv(s) && Heeded(s) && Enabled(s, e) && e != FlagExpires
    ensures Heeded(Step(s, e)) && NothingBegun(s.mem, Step(s, e).mem)
  {
    hide RowOk, Stop, Shape;
    if e == FailStep || e == FinishStep {
      assert s.mem.steps[s.pc.step] == StepRunning;
    }
  }

  /** As long as the flag has not expired, a cancelled job begins no further step, whatever else happens. */
  lemma {:induction false} CancelStopsNewSteps(es: seq<Event>, later: seq<Event>)
    requires After(es).Some? && After(es).value.flag && From(After(es).value, later).Some?
    requires FlagExpires !in later
    ensures NothingBegun(After(es).value.mem, From(After(es).value, later).value.mem)
    ensures Inv(From(After(es).value, later).value) && Heeded(From(After(es).value, later).value)
    decreases |later|
  {
    hide Inv, Step, Enabled, After, Heeded;
    InvHolds(es);
    FlagIsHeeded(After(es).value);
    if later != [] {
      var t := From(After(es).value, later[..|later| - 1]).value;
      CancelStopsNewSteps(es, later[..|later| - 1]);
      StepKeeps(t, later[|later| - 1]);
      HeededStep(t, later[|later| - 1]);
    }
  }

  lemma FlagIsHeeded(s: State)
    requires s.flag
    ensures Heeded(s)
  {
  }

  // ---------------------------------------------------------------- when a cancel is lost

  /** A row that is not terminal is the job object; a function that waits for a code has made the job wait; a step that
      cannot pause is plainly working. */
  predicate Linked(s: State) {
    && (!Terminal(s.row.status) ==> s.row == s.mem)
    && (s.pc.Inside? && s.fn == AwaitingCode ==> s.mem.status == Waiting2FA)
    && (s.pc.Inside? && !CanPause(s.pc.step) ==> s.fn == Working(false))
  }

  lemma LinkedStep(s: State, e: Event)
    requires Inv(s) && Linked(s) && Enabled(s, e)
    ensures Linked(Step(s, e))
  {
    hide At, AllCompleted, StoppedShort, RowOk, SetStep;
  }

  lemma InitIsLinked()
    ensures Linked(INIT)
  {
  }

  lemma {:induction false} LinkedHolds(es: seq<Event>)
    requires After(es).Some?
    ensures Inv(After(es).value) && Linked(After(es).value)
  {
    hide Inv, Step, Enabled, Linked;
    InvHolds(es);
    if es == [] {
      InitIsLinked();
    } else {
      LinkedHolds(es[..|es| - 1]);
      LinkedStep(After(es[..|es| - 1]).value, es[|es| - 1]);
    }
  }

  /** Some continuation completes the row, with or without the flag expiring. */
  ghost predicate CanComplete(s: State, expiry: bool) {
    exists later :: CompletesBy(s, later) && (expiry || FlagExpires !in later)
  }

  predicate CompletesBy(s: State, later: seq<Event>) {
    From(s, later).Some? && From(s, later).value.row.status == Completed
  }

  lemma {:induction false} EventFirst(s: State, e: Event, later: seq<Event>)
    requires Enabled(s, e)
    ensures From(s, [e] + later) == From(Step(s, e), later)
  {
    hide Step, Enabled;
    if later == [] {
      OneEvent(s, e);
      assert [e] + later == [e];
    } else {
      EventFirst(s, e, later[..|later| - 1]);
      assert ([e] + later)[..|later|] == [e] + later[..|later| - 1];
    }
  }

  lemma CompleteAfter(s: State, e: Event, expiry: bool)
    requires Enabled(s, e) && CanComplete(Step(s, e), expiry) && (expiry || e != FlagExpires)
    ensures CanComplete(s, expiry)
  {
    hide Step, Enabled, From;
    var later :| CompletesBy(Step(s, e), later) && (expiry || FlagExpires !in later);
    EventFirst(s, e, later);
    assert CompletesBy(s, [e] + later);
  }

  lemma CompletesNow(s: State, expiry: bool)
    requires s.row.status == Completed
    ensures CanComplete(s, expiry)
  {
    assert CompletesBy(s, []);
  }

  /** From the end of the last step, or from within it, the runner goes on to complete. */
  lemma EndCompletes(s: State, expiry: bool)
    requires Inv(s) && (s.pc == Ending || (s.pc == Inside(LAST) && s.fn.Working?))
    ensures CanComplete(s, expiry)
    decreases s.pc.Inside?
  {
    hide CanComplete, At, AllCompleted, RowOk;
    if s.pc == Ending {
      CompletesNow(Step(s, Complete), expiry);
      CompleteAfter(s, Complete, expiry);
    } else {
      StepKeeps(s, FinishStep);
      EndCompletes(Step(s, FinishStep), expiry);
      CompleteAfter(s, FinishStep, expiry);
    }
  }

  /** Without a flag in front of it the runner can run to completion. */
  lemma {:induction false} RunCompletes(s: State, expiry: bool)
    requires Inv(s) && !s.flag && (s.pc.Before? || (s.pc.Inside? && s.fn.Working?) || s.pc == Ending)
    ensures CanComplete(s, expiry)
    decreases if s.pc.Before? then 2 * (STEPS - s.pc.step) else if s.pc.Inside? then 2 * (STEPS - s.pc.step) - 1 else 0
  {
    hide CanComplete, RowOk;
    if s.pc == Ending {
      EndCompletes(s, expiry);
    } else {
      var e := if s.pc.Before? then BeginStep else FinishStep;
      StepKeeps(s, e);
      RunCompletes(Step(s, e), expiry);
      CompleteAfter(s, e, expiry);
    }
  }

  /** The flag is in front of a runner that has not begun the last step, or the runner is past starting steps. */
  predicate Sticks(s: State) {
    && s.row.status != Completed && s.mem.status != Completed
    && ((s.flag && (s.pc == AwaitingLock || s.pc.Before? || (s.pc.Inside? && s.pc.step < LAST)))
        || s.pc.TimedOut? || s.pc == Throwing || s.pc == Returned || s.pc == Crashed)
  }

  lemma SticksStep(s: State, e: Event)
    requires Inv(s) && Sticks(s) && Enabled(s, e) && e != FlagExpires
    ensures Sticks(Step(s, e))
  {
    hide At, AllCompleted, StoppedShort, RowOk;
  }

  lemma {:induction false} SticksForever(s: State, later: seq<Event>)
    requires Inv(s) && Sticks(s) && From(s, later).Some? && FlagExpires !in later
    ensures Inv(From(s, later).value) && Sticks(From(s, later).value)
  {
    hide Inv, Sticks, Step, Enabled;
    if later != [] {
      var t := From(s, later[..|later| - 1]).value;
      SticksForever(s, later[..|later| - 1]);
      StepKeeps(t, later[|later| - 1]);
      SticksStep(t, later[|later| - 1]);
    }
  }

  /** The runner will begin no step and not complete, flag or no flag. */
  predicate Lost(s: State) {
    && s.row.status != Completed && s.mem.status != Completed
    && (s.pc.TimedOut? || s.pc == Throwing || s.pc == Returned || s.pc == Crashed || (s.pc.Inside? && s.fn == Doomed))
  }

  lemma LostStep(s: State, e: Event)
    requires Inv(s) && Lost(s) && Enabled(s, e)
    ensures Lost(Step(s, e))
  {
    hide At, AllCompleted, StoppedShort, RowOk;
  }

  lemma {:induction false} LostForever(s: State, later: seq<Event>)
    requires Inv(s) && Lost(s) && From(s, later).Some?
    ensures Inv(From(s, later).value) && Lost(From(s, later).value)
  {
    hide Inv, Lost, Step, Enabled;
    if later != [] {
      var t := From(s, later[..|later| - 1]).value;
      LostForever(s, later[..|later| - 1]);
      StepKeeps(t, later[|later| - 1]);
      LostStep(t, later[|later| - 1]);
    }
  }

  lemma InsideAStep(s: State)
    requires Inv(s)
    ensures s.pc.Inside? ==> s.fn != NoFn && s.pc.step <= LAST
  {
  }

  /** Exactly when a cancel can be undone. At any time in any run, for a job that is not over: while the flag does not
      expire, the job can still complete after a cancel if and only if its last step is running or done. */
  lemma CancelIsLostIff(es: seq<Event>)
    requires After(es).Some? && !Terminal(After(es).value.row.status)
    ensures
      var s := After(es).value;
      CanComplete(Step(s, Cancel), false) <==> s.pc == Inside(LAST) || s.pc == Ending
  {
    hide From, Inv, CanComplete, Step;
    var s := After(es).value;
    LinkedHolds(es);
    StepKeeps(s, Cancel);
    CancelledState(s);
    InsideAStep(s);
    var t := Step(s, Cancel);
    if s.pc == Inside(LAST) || s.pc == Ending {
      EndCompletes(t, false);
    } else {
      if CanComplete(t, false) {
        NoCompletion(t);
      }
    }
  }

  lemma CancelledState(s: State)
    requires Inv(s) && Linked(s) && !Terminal(s.row.status)
    ensures
      var t := Step(s, Cancel);
      && t.pc == s.pc && t.flag && t.timers > 0 && t.row.status == Failed && t.mem == s.mem && !Terminal(t.mem.status)
      && t.fn == if s.fn == AwaitingCode && s.mem.status == Waiting2FA then Doomed else s.fn
  {
    hide At, AllCompleted, StoppedShort, RowOk;
  }

  lemma NoCompletion(t: State)
    requires Inv(t) && Sticks(t)
    ensures !CanComplete(t, false)
  {
    hide From, Inv;
    if CanComplete(t, false) {
      var later :| CompletesBy(t, later) && FlagExpires !in later;
      SticksForever(t, later);
    }
  }

  /** The runner has steps or the end in front of it, and the function of a step in progress has not lost its code. */
  predicate GoesOn(s: State) {
    s.pc == AwaitingLock || s.pc.Before? || s.pc == Ending || (s.pc.Inside? && (s.fn.Working? || s.fn == Resuming))
  }

  /** What the expiry of the flag after a minute changes: the job can complete after a cancel if and only if it is not
      waiting for a code, and not on its way to failing anyway. */
  lemma CancelIsOutlivedIff(es: seq<Event>)
    requires After(es).Some? && !Terminal(After(es).value.row.status)
    ensures CanComplete(Step(After(es).value, Cancel), true) <==> GoesOn(After(es).value)
  {
    hide From, Inv, CanComplete, Step;
    var s := After(es).value;
    LinkedHolds(es);
    StepKeeps(s, Cancel);
    CancelledState(s);
    InsideAStep(s);
    if GoesOn(s) {
      ExpiryCompletes(Step(s, Cancel));
    } else {
      NeverCompletes(Step(s, Cancel));
    }
  }

  lemma NeverCompletes(t: State)
    requires Inv(t) && Lost(t)
    ensures !CanComplete(t, true)
  {
    hide From, Inv;
    if CanComplete(t, true) {
      var later :| CompletesBy(t, later);
      LostForever(t, later);
    }
  }

  /** The flag expires, a code that has come is used, and the runner runs to the end. */
  lemma ExpiryCompletes(t: State)
    requires Inv(t) && t.timers > 0 && GoesOn(t)
    ensures CanComplete(t, true)
  {
    hide CanComplete, RowOk, At, AllCompleted;
    var u := Step(t, FlagExpires);
    StepKeeps(t, FlagExpires);
    if t.pc == AwaitingLock {
      StepKeeps(u, Start);
      RunCompletes(Step(u, Start), true);
      CompleteAfter(u, Start, true);
    } else if t.pc.Inside? && t.fn == Resuming {
      StepKeeps(u, Resume);
      RunCompletes(Step(u, Resume), true);
      CompleteAfter(u, Resume, true);
    } else {
      RunCompletes(u, true);
    }
    CompleteAfter(t, FlagExpires, true);
  }
}
