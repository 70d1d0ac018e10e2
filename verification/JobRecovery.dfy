/** recoverStalledJobs (src/server/pipeline/pipeline.ts) over the whole table, and the module state of the runner with
    the methods that change it. Rows are ordered as listJobs returns them, newest first. */
module JobRecovery {
  import opened JobRows

  const LIST_LIMIT: nat := 50

  function Count(db: seq<Job>, status: JobStatus): (n: nat)
    ensures n <= |db|
  {
    if db == [] then 0
    else
      Count(db[..|db| - 1], status) + if db[|db| - 1].status == status then 1 else 0
  }

  lemma CountNext(db: seq<Job>, i: nat, status: JobStatus)
    requires i < |db|
    ensures Count(db[..i + 1], status) == Count(db[..i], status) + if db[i].status == status then 1 else 0
  {
    assert db[..i + 1][..i] == db[..i];
  }

  lemma {:induction false} CountGrows(db: seq<Job>, i: nat, status: JobStatus)
    requires i <= |db|
    ensures Count(db[..i], status) <= Count(db, status)
    decreases |db| - i
  {
    if i < |db| {
      CountNext(db, i, status);
      CountGrows(db, i + 1, status);
    } else {
      assert db[..i] == db;
    }
  }

  /** Row `i` is among the rows listJobs returns for a status. */
  predicate Listed(db: seq<Job>, i: nat, status: JobStatus) {
    i < |db| && db[i].status == status && Count(db[..i], status) < LIST_LIMIT
  }

  /** How many rows of a status listJobs returns. */
  function Shown(db: seq<Job>, status: JobStatus): nat {
    if Count(db, status) < LIST_LIMIT then Count(db, status) else LIST_LIMIT
  }

  predicate Taken(db: seq<Job>, i: nat) {
    Listed(db, i, Running) || Listed(db, i, Waiting2FA)
  }

  function Recovered(db: seq<Job>): (r: seq<Job>)
    ensures |r| == |db|
  {
    seq(|db|, i requires 0 <= i < |db| => if Taken(db, i) then Stop(db[i]) else db[i])
  }

  /** The row of a status that has exactly `n` such rows before it. */
  lemma {:induction false} NthRow(db: seq<Job>, status: JobStatus, n: nat) returns (i: nat)
    requires n < Count(db, status)
    ensures i < |db| && db[i].status == status && Count(db[..i], status) == n
  {
    var last := |db| - 1;
    if Count(db[..last], status) > n {
      i := NthRow(db[..last], status, n);
      assert db[..last][..i] == db[..i];
    } else {
      i := last;
    }
  }

  lemma RecoveredAt(db: seq<Job>, i: nat)
    requires i < |db|
    ensures Stalled(Recovered(db)[i]) <==> Stalled(db[i]) && !Taken(db, i)
  {
  }

  /** Recovery leaves no stalled row exactly when at most 50 rows are running and at most 50 are waiting for 2FA. */
  lemma RecoveryCompleteIff(db: seq<Job>)
    ensures (forall i :: 0 <= i < |db| ==> !Stalled(Recovered(db)[i]))
       <==> Count(db, Running) <= 50 && Count(db, Waiting2FA) <= 50
  {
    hide Count, Recovered;
    if Count(db, Running) > LIST_LIMIT {
      var i := NthRow(db, Running, LIST_LIMIT);
      RecoveredAt(db, i);
    } else if Count(db, Waiting2FA) > LIST_LIMIT {
      var i := NthRow(db, Waiting2FA, LIST_LIMIT);
      RecoveredAt(db, i);
    } else {
      forall i | 0 <= i < |db| ensures !Stalled(Recovered(db)[i]) {
        RecoveredAt(db, i);
        CountNext(db, i, db[i].status);
        CountGrows(db, i + 1, db[i].status);
      }
    }
  }

  /** Recovered rows keep the shape of rows, and rows that are not stalled are not touched. */
  lemma RecoveryKeepsRows(db: seq<Job>, i: nat)
    requires i < |db|
    ensures RowOk(db[i]) ==> RowOk(Recovered(db)[i])
    ensures !Stalled(db[i]) ==> Recovered(db)[i] == db[i]
    ensures Stalled(db[i]) && Recovered(db)[i] != db[i] ==> Recovered(db)[i].status == Failed
  {
    if RowOk(db[i]) {
      StopOk(db[i]);
    }
  }

  method ListJobs(db: seq<Job>, status: JobStatus) returns (ids: seq<nat>)
    ensures forall i: nat :: i in ids <==> Listed(db, i, status)
    ensures |ids| == Shown(db, status)
  {
    ids := [];
    var i := 0;
    while i < |db| && |ids| < LIST_LIMIT
      invariant 0 <= i <= |db|
      invariant |ids| == Count(db[..i], status) <= LIST_LIMIT
      invariant forall k: nat :: k in ids <==> k < i && Listed(db, k, status)
    {
      CountNext(db, i, status);
      if db[i].status == status {
        ids := ids + [i];
      }
      i := i + 1;
    }
    CountGrows(db, i, status);
    forall k | i <= k < |db| ensures !Listed(db, k, status) {
      RestNotListed(db, i, k, status);
    }
    if i == |db| { assert db[..i] == db; }
  }

  lemma RestNotListed(db: seq<Job>, i: nat, k: nat, status: JobStatus)
    requires i <= k < |db| && Count(db[..i], status) >= LIST_LIMIT
    ensures !Listed(db, k, status)
  {
    CountGrows(db[..k], i, status);
    assert db[..k][..i] == db[..i];
  }

  /** `after` is `before` failed: every running step is failed, every other step is as it was. */
  predicate FailedFrom(before: Job, after: Job) {
    && after.status == Failed && |after.steps| == |before.steps|
    && (forall i :: 0 <= i < |before.steps| && before.steps[i] == StepRunning ==> after.steps[i] == StepFailed)
    && (forall i :: 0 <= i < |before.steps| && before.steps[i] != StepRunning ==> after.steps[i] == before.steps[i])
  }

  /** Every running step of a row becomes failed, and so does the row. */
  method StopRow(row: Job) returns (r: Job)
    ensures FailedFrom(row, r)
    ensures r == Stop(row)
  {
    var steps := row.steps;
    var i := 0;
    while i < |steps|
      invariant 0 <= i <= |steps| == |row.steps|
      invariant forall k :: 0 <= k < |steps| ==> steps[k] == if k < i then Stopped(row.steps[k]) else row.steps[k]
    {
      if steps[i] == StepRunning {
        steps := steps[i := StepFailed];
      }
      i := i + 1;
    }
    assert steps == Stop(row).steps;
    r := Job(Failed, steps);
  }

  /** The first 50 running rows and the first 50 waiting ones are failed, no other row is touched. */
  method RecoverStalledJobs(db: seq<Job>) returns (r: seq<Job>, count: nat)
    ensures |r| == |db|
    ensures forall i :: 0 <= i < |db| ==> if Taken(db, i) then FailedFrom(db[i], r[i]) else r[i] == db[i]
    ensures r == Recovered(db)
    ensures count == Shown(db, Running) + Shown(db, Waiting2FA)
  {
    hide Stop;
    var running := ListJobs(db, Running);
    var waiting := ListJobs(db, Waiting2FA);
    var stalled := running + waiting;
    r, count := db, 0;
    while count < |stalled|
      invariant 0 <= count <= |stalled| && |r| == |db|
      invariant forall i :: 0 <= i < |db| ==> r[i] == if i in stalled[..count] then Stop(db[i]) else db[i]
    {
      var id := stalled[count];
      assert id in stalled;
      var row := StopRow(db[id]);
      r := r[id := row];
      assert stalled[..count + 1] == stalled[..count] + [id];
      count := count + 1;
    }
    assert stalled[..count] == stalled;
    forall i | 0 <= i < |db| && Taken(db, i) ensures FailedFrom(db[i], r[i]) {
      StopIsFailedFrom(db[i]);
    }
  }

  lemma StopIsFailedFrom(row: Job)
    ensures FailedFrom(row, Stop(row))
  {
  }

  class JobRunner {
    var row: Job
    var mem: Job
    var pc: Pc
    var fn: Fn
    var fnStep: nat
    var cancelled: bool
    var timers: nat
    ghost var overrun: bool

    ghost function Now(): State
      reads this
    {
      State(row, mem, pc, fn, fnStep, cancelled, timers, overrun)
    }

    /** startInstallPipeline: the job is queued and its row created. */
    constructor ()
      ensures Now() == INIT
    {
      row, mem, pc, fn, fnStep, cancelled, timers, overrun := FRESH, FRESH, AwaitingLock, NoFn, 0, false, 0, false;
    }

    method UpdateJob()
      modifies this`row
      ensures row == mem
    {
      row := mem;
    }

    /** The lock is acquired. */
    method StartRun()
      requires Enabled(Now(), Start)
      modifies this
      ensures Now() == Step(old(Now()), Start)
      ensures row == mem == old(mem).(status := Running) && pc == Before(0)
    {
      mem := mem.(status := Running);
      UpdateJob();
      pc := Before(0);
    }

    /** runStep up to the call of the step function. */
    method BeginRunStep()
      requires Enabled(Now(), BeginStep)
      modifies this
      ensures Now() == Step(old(Now()), BeginStep)
      ensures old(cancelled) ==> row == old(row) && mem == old(mem) && !cancelled && pc == Throwing
      ensures !old(cancelled) ==> row == mem && pc == Inside(old(pc).step) && fn == Working(false)
      ensures !old(cancelled) && old(pc).step < |old(mem).steps| ==>
        mem == old(mem).(steps := old(mem).steps[old(pc).step := StepRunning])
    {
      if cancelled {
        cancelled, pc := false, Throwing;
        return;
      }
      mem := SetStep(mem, pc.step, StepRunning);
      UpdateJob();
      fnStep, fn, pc := pc.step, Working(false), Inside(pc.step);
    }

    /** The step function resolved. */
    method FinishRunStep()
      requires Enabled(Now(), FinishStep)
      modifies this
      ensures Now() == Step(old(Now()), FinishStep)
      ensures row == mem && fn == NoFn && pc == if old(pc).step == 5 then Ending else Before(old(pc).step + 1)
      ensures old(pc).step < |old(mem).steps| ==>
        mem == old(mem).(steps := old(mem).steps[old(pc).step := StepCompleted])
    {
      mem := SetStep(mem, pc.step, StepCompleted);
      UpdateJob();
      pc, fn := if pc.step == LAST then Ending else Before(pc.step + 1), NoFn;
    }

    /** The catch block of runStep. */
    method FailRunStep()
      requires Enabled(Now(), FailStep)
      modifies this
      ensures Now() == Step(old(Now()), FailStep)
      ensures row == mem && pc == Throwing && fn == if old(pc).TimedOut? then old(fn) else NoFn
      ensures old(pc).step < |old(mem).steps| ==>
        mem == Job(Failed, old(mem).steps[old(pc).step := StepFailed])
    {
      mem := SetStep(mem, pc.step, StepFailed);
      mem := mem.(status := Failed);
      UpdateJob();
      if !pc.TimedOut? {
        fn := NoFn;
      }
      pc := Throwing;
    }

    /** The catch block of runPipeline. */
    method CatchPipelineError()
      requires Enabled(Now(), CatchError)
      modifies this
      ensures Now() == Step(old(Now()), CatchError)
      ensures pc == Returned && mem == old(mem).(status := Failed)
      ensures row == if old(mem).status == Failed then old(row) else mem
    {
      if mem.status != Failed {
        mem := mem.(status := Failed);
        UpdateJob();
      }
      pc := Returned;
    }

    method CompleteJob()
      requires Enabled(Now(), Complete)
      modifies this
      ensures Now() == Step(old(Now()), Complete)
      ensures pc == Returned && row == mem == old(mem).(status := Completed)
    {
      mem := mem.(status := Completed);
      UpdateJob();
      pc := Returned;
    }

    /** pauseForTwoFactor up to the await of the code. */
    method PauseForTwoFactor()
      requires Enabled(Now(), Pause)
      modifies this
      ensures Now() == Step(old(Now()), Pause)
      ensures fn == AwaitingCode && row == mem == old(mem).(status := Waiting2FA)
    {
      mem := mem.(status := Waiting2FA);
      UpdateJob();
      fn := AwaitingCode;
    }

    /** pauseForTwoFactor after the account is authenticated. */
    method ResumeAfterTwoFactor()
      requires Enabled(Now(), Resume)
      modifies this
      ensures Now() == Step(old(Now()), Resume)
      ensures fn == Working(true) && row == mem == old(mem).(status := Running)
    {
      mem := mem.(status := Running);
      UpdateJob();
      fn := Working(true);
    }

    /** cancelJob works on a fresh copy of the row, not on the job object. */
    method CancelJob() returns (accepted: bool)
      modifies this
      ensures Now() == Step(old(Now()), Cancel)
      ensures accepted <==> old(row).status != Completed && old(row).status != Failed
      ensures accepted ==> FailedFrom(old(row), row) && cancelled && mem == old(mem) && timers == old(timers) + 1
      ensures accepted ==> fn == if old(row).status == Waiting2FA && old(fn) == AwaitingCode then Doomed else old(fn)
      ensures !accepted ==> Now() == old(Now())
    {
      if row.status == Completed || row.status == Failed {
        return false;
      }
      if row.status == Waiting2FA && fn == AwaitingCode {
        fn := Doomed;
      }
      cancelled := true;
      row := StopRow(row);
      timers := timers + 1;
      accepted := true;
    }

    /** The timer set by cancelJob. */
    method ForgetCancellation()
      requires Enabled(Now(), FlagExpires)
      modifies this
      ensures Now() == Step(old(Now()), FlagExpires)
    {
      cancelled, timers := false, timers - 1;
    }
  }
}
