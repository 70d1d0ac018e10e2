/** Install jobs waiting for a verification code (waitFor2FACode, submitJobTwoFA and cancelJob in
    src/server/pipeline/pipeline.ts). */
module TwoFactor {
  import opened Wrappers

  datatype Outcome = Resolved(code: string) | TimedOut | Cancelled

  /** `calls` are the calls of the waiter's resolve and reject functions, in order. */
  datatype Waiter = Waiter(job: string, account: string, timer: bool, calls: seq<Outcome>)

  /** `pending2FA` maps a job to its waiter. */
  datatype State = State(pending2FA: map<string, nat>, waiters: seq<Waiter>)

  const INIT := State(map[], [])

  datatype Event =
    | Wait(job: string, account: string)
    | Submit(job: string, code: string)
    | Timeout(waiter: nat)
    | Cancel(job: string)

  /** A job waits for one code at a time: its step function awaits the waiter it created. */
  predicate Enabled(s: State, e: Event) {
    match e
    case Wait(job, _) => job !in s.pending2FA
    case Timeout(w) => w < |s.waiters| && s.waiters[w].timer
    case _ => true
  }

  function SettleOne(w: Waiter, o: Outcome): Waiter {
    w.(timer := false, calls := w.calls + [o])
  }

  predicate PendingFor(s: State, job: string, account: string) {
    job in s.pending2FA && s.pending2FA[job] < |s.waiters| && s.waiters[s.pending2FA[job]].account == account
  }

  /** Waiter `i` is the pending waiter of its job and belongs to the account. */
  predicate WaitsFor(s: State, i: nat, account: string) {
    i < |s.waiters| && PendingFor(s, s.waiters[i].job, account) && s.pending2FA[s.waiters[i].job] == i
  }

  /** Deliver `o` to every pending waiter of the account. */
  function SettleAccount(s: State, account: string, o: Outcome): State {
    State(map j | j in s.pending2FA && !PendingFor(s, j, account) :: s.pending2FA[j],
          seq(|s.waiters|, i requires 0 <= i < |s.waiters| =>
            if WaitsFor(s, i, account) then SettleOne(s.waiters[i], o) else s.waiters[i]))
  }

  function SettleJob(s: State, job: string, o: Outcome): State
    requires job in s.pending2FA && s.pending2FA[job] < |s.waiters|
  {
    var w := s.pending2FA[job];
    State(s.pending2FA - {job}, s.waiters[w := SettleOne(s.waiters[w], o)])
  }

  predicate Known(s: State, job: string) {
    job in s.pending2FA && s.pending2FA[job] < |s.waiters|
  }

  function Step(s: State, e: Event): State
    requires Enabled(s, e)
  {
    match e
    case Wait(job, account) =>
      State(s.pending2FA[job := |s.waiters|], s.waiters + [Waiter(job, account, true, [])])
    case Submit(job, code) =>
      if Known(s, job) then SettleAccount(s, s.waiters[s.pending2FA[job]].account, Resolved(code)) else s
    case Timeout(w) =>
      State(s.pending2FA - {s.waiters[w].job}, s.waiters[w := SettleOne(s.waiters[w], TimedOut)])
    case Cancel(job) => if Known(s, job) then SettleJob(s, job, Cancelled) else s
  }

  function After(es: seq<Event>): Option<State> {
    if es == [] then Some(INIT)
    else
      match After(es[..|es| - 1])
      case None => None
      case Some(s) => if Enabled(s, es[|es| - 1]) then Some(Step(s, es[|es| - 1])) else None
  }

  /** The map holds exactly the waiters that nobody has settled; those and only those have a timer running. */
  predicate Inv(s: State) {
    && (forall j :: j in s.pending2FA ==>
          && s.pending2FA[j] < |s.waiters| && s.waiters[s.pending2FA[j]].job == j
          && s.waiters[s.pending2FA[j]].calls == [])
    && (forall i :: 0 <= i < |s.waiters| && s.waiters[i].calls == [] ==>
          s.waiters[i].job in s.pending2FA && s.pending2FA[s.waiters[i].job] == i)
    && (forall i :: 0 <= i < |s.waiters| ==> WaiterOk(s.waiters[i]))
  }

  predicate WaiterOk(w: Waiter) {
    |w.calls| <= 1 && (w.timer <==> w.calls == [])
  }

  lemma WaitKeeps(s: State, job: string, account: string)
    requires Inv(s) && job !in s.pending2FA
    ensures Inv(Step(s, Wait(job, account)))
  {
  }

  lemma SettleAccountKeeps(s: State, account: string, o: Outcome)
    requires Inv(s)
    ensures Inv(SettleAccount(s, account, o))
  {
    var t := SettleAccount(s, account, o);
    forall i | 0 <= i < |t.waiters| ensures WaiterOk(t.waiters[i]) {
      assert WaiterOk(s.waiters[i]);
    }
    hide WaiterOk;
    forall j | j in t.pending2FA ensures t.waiters[t.pending2FA[j]] == s.waiters[s.pending2FA[j]] {
    }
  }

  lemma SettleKeeps(s: State, w: nat, o: Outcome)
    requires Inv(s) && w < |s.waiters| && s.waiters[w].calls == []
    ensures Inv(State(s.pending2FA - {s.waiters[w].job}, s.waiters[w := SettleOne(s.waiters[w], o)]))
  {
    assert WaiterOk(s.waiters[w]);
  }

  lemma StepKeeps(s: State, e: Event)
    requires Inv(s) && Enabled(s, e)
    ensures Inv(Step(s, e))
  {
    match e
    case Wait(job, account) => WaitKeeps(s, job, account);
    case Submit(job, code) =>
      if Known(s, job) { SettleAccountKeeps(s, s.waiters[s.pending2FA[job]].account, Resolved(code)); }
    case Timeout(w) =>
      assert WaiterOk(s.waiters[w]);
      SettleKeeps(s, w, TimedOut);
    case Cancel(job) =>
      if Known(s, job) { SettleKeeps(s, s.pending2FA[job], Cancelled); }
  }

  lemma {:induction false} InvHolds(es: seq<Event>)
    requires After(es).Some?
    ensures Inv(After(es).value)
  {
    if es != [] {
      InvHolds(es[..|es| - 1]);
      hide Inv, Step, Enabled;
      StepKeeps(After(es[..|es| - 1]).value, es[|es| - 1]);
    }
  }

  /** In every interleaving a waiter is settled at most once, and it is in the map exactly while nobody has settled
      it. */
  lemma SettledOnce(es: seq<Event>, i: nat)
    requires After(es).Some? && i < |After(es).value.waiters|
    ensures
      var s := After(es).value;
      var w := s.waiters[i];
      && |w.calls| <= 1
      && (w.calls == [] <==> w.job in s.pending2FA && s.pending2FA[w.job] == i)
      && (w.calls == [] <==> w.timer)
  {
    InvHolds(es);
    var s := After(es).value;
    assert WaiterOk(s.waiters[i]);
  }

  /** One submission settles all unsettled waiters of the job's account with the code, and no other waiter. */
  lemma SubmitCascades(es: seq<Event>, job: string, code: string, i: nat)
    requires After(es).Some? && job in After(es).value.pending2FA && i < |After(es).value.waiters|
    ensures After(es + [Submit(job, code)]).Some?
    ensures
      var s, t := After(es).value, After(es + [Submit(job, code)]).value;
      && s.pending2FA[job] < |s.waiters| == |t.waiters|
      && t.waiters[i].calls ==
           if s.waiters[i].calls == [] && s.waiters[i].account == s.waiters[s.pending2FA[job]].account
           then [Resolved(code)]
           else s.waiters[i].calls
  {
    assert (es + [Submit(job, code)])[..|es|] == es;
    InvHolds(es);
  }

  /** A cancellation rejects the waiter of that job, if it has one, and no other. */
  lemma CancelSettlesOne(es: seq<Event>, job: string, i: nat)
    requires After(es).Some? && i < |After(es).value.waiters|
    ensures After(es + [Cancel(job)]).Some?
    ensures
      var s, t := After(es).value, After(es + [Cancel(job)]).value;
      && |s.waiters| == |t.waiters|
      && t.waiters[i].calls ==
           if s.waiters[i].calls == [] && s.waiters[i].job == job then [Cancelled] else s.waiters[i].calls
  {
    assert (es + [Cancel(job)])[..|es|] == es;
    InvHolds(es);
  }

  /** A timeout rejects its own waiter and no other, and only one that nobody has settled. */
  lemma TimeoutSettlesOne(es: seq<Event>, w: nat, i: nat)
    requires After(es).Some? && w < |After(es).value.waiters| && i < |After(es).value.waiters|
    ensures After(es + [Timeout(w)]).Some? <==> After(es).value.waiters[w].calls == []
    ensures After(es + [Timeout(w)]).Some? ==>
      var s, t := After(es).value, After(es + [Timeout(w)]).value;
      && |s.waiters| == |t.waiters|
      && t.waiters[i].calls == if i == w then [TimedOut] else s.waiters[i].calls
  {
    assert (es + [Timeout(w)])[..|es|] == es;
    InvHolds(es);
    assert WaiterOk(After(es).value.waiters[w]);
  }

  // ---------------------------------------------------------------- the module state

  /** The pending waiters of some jobs settled. */
  function SettleJobs(s: State, jobs: set<string>, o: Outcome): State {
    State(map j | j in s.pending2FA && j !in jobs :: s.pending2FA[j],
          seq(|s.waiters|, i requires 0 <= i < |s.waiters| =>
            if s.waiters[i].job in jobs && Known(s, s.waiters[i].job) && s.pending2FA[s.waiters[i].job] == i
            then SettleOne(s.waiters[i], o) else s.waiters[i]))
  }

  lemma SettleFirst(s: State, job: string, o: Outcome)
    requires Inv(s) && Known(s, job)
    ensures SettleJob(s, job, o) == SettleJobs(s, {job}, o)
  {
    assert SettleJob(s, job, o).waiters == SettleJobs(s, {job}, o).waiters;
    assert SettleJob(s, job, o).pending2FA == SettleJobs(s, {job}, o).pending2FA;
  }

  lemma SettleNext(s: State, jobs: set<string>, job: string, o: Outcome)
    requires Inv(s) && job !in jobs && Known(s, job)
    ensures Known(SettleJobs(s, jobs, o), job)
    ensures SettleJob(SettleJobs(s, jobs, o), job, o) == SettleJobs(s, jobs + {job}, o)
  {
    hide WaiterOk, SettleOne;
    assert SettleJob(SettleJobs(s, jobs, o), job, o).waiters == SettleJobs(s, jobs + {job}, o).waiters;
    assert SettleJob(SettleJobs(s, jobs, o), job, o).pending2FA == SettleJobs(s, jobs + {job}, o).pending2FA;
  }

  function JobsOf(s: State, account: string): set<string> {
    set j | j in s.pending2FA && PendingFor(s, j, account)
  }

  lemma SettleAll(s: State, account: string, o: Outcome)
    requires Inv(s)
    ensures SettleJobs(s, JobsOf(s, account), o) == SettleAccount(s, account, o)
  {
    hide WaiterOk, SettleOne;
    assert SettleJobs(s, JobsOf(s, account), o).waiters == SettleAccount(s, account, o).waiters;
    assert SettleJobs(s, JobsOf(s, account), o).pending2FA == SettleAccount(s, account, o).pending2FA;
  }

  class Waiters {
    var pending2FA: map<string, nat>
    var waiters: seq<Waiter>

    ghost function Now(): State
      reads this
    {
      State(pending2FA, waiters)
    }

    constructor ()
      ensures Now() == INIT
    {
      pending2FA, waiters := map[], [];
    }

    method WaitFor2FACode(job: string, account: string) returns (w: nat)
      requires Enabled(Now(), Wait(job, account))
      modifies this
      ensures Now() == Step(old(Now()), Wait(job, account)) && w == |old(waiters)|
      ensures waiters == old(waiters) + [Waiter(job, account, true, [])] && pending2FA == old(pending2FA)[job := w]
    {
      w := |waiters|;
      waiters := waiters + [Waiter(job, account, true, [])];
      pending2FA := pending2FA[job := w];
    }

    /** clearTimeout, delete from the map, then resolve or reject. */
    method SettleWaiter(job: string, o: Outcome)
      requires job in pending2FA && pending2FA[job] < |waiters|
      modifies this
      ensures Now() == SettleJob(old(Now()), job, o)
      ensures pending2FA == old(pending2FA) - {job} && |waiters| == |old(waiters)|
      ensures forall i :: 0 <= i < |waiters| ==>
        if i == old(pending2FA)[job]
        then waiters[i] == old(waiters)[i].(timer := false, calls := old(waiters)[i].calls + [o])
        else waiters[i] == old(waiters)[i]
    {
      var w := pending2FA[job];
      pending2FA := pending2FA - {job};
      waiters := waiters[w := SettleOne(waiters[w], o)];
    }

    /** The siblings are collected before the first waiter is resolved, then resolved one by one. */
    method SubmitJobTwoFA(job: string, code: string) returns (delivered: bool)
      requires Inv(Now())
      modifies this
      ensures Now() == Step(old(Now()), Submit(job, code)) && Inv(Now())
      ensures delivered <==> job in old(pending2FA)
    {
      hide SettleAccount, SettleJob, SettleJobs, SettleOne;
      if job !in pending2FA {
        return false;
      }
      var account := waiters[pending2FA[job]].account;
      ghost var s := Now();
      StepKeeps(s, Submit(job, code));
      var siblings := set j | j in pending2FA && j != job && waiters[pending2FA[j]].account == account;
      SettleFirst(s, job, Resolved(code));
      SettleWaiter(job, Resolved(code));
      ghost var done := {job};
      SettleAll(s, account, Resolved(code));
      while siblings != {}
        invariant siblings !! done && siblings + done == JobsOf(s, account)
        invariant Now() == SettleJobs(s, done, Resolved(code))
        decreases siblings
      {
        var other :| other in siblings;
        SettleNext(s, done, other, Resolved(code));
        SettleWaiter(other, Resolved(code));
        siblings, done := siblings - {other}, done + {other};
      }
      assert done == JobsOf(s, account);
      delivered := true;
    }
  }
}
