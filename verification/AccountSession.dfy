/** Completing a two-factor challenge for an account (complete2FAForAccount in
    src/server/services/apple-account-service.ts): the short-circuit, the in-flight map, the pending challenge and the
    session cache. Calls, answers from Apple, new challenges and invalidations interleave freely. */
module AccountSession {
  import opened Wrappers
  import opened Sessions
  import opened SingleFlight

  datatype Status = Active | Requires2FA

  /** What a task is awaiting. `Submitting`: Apple's answer to the code; `Finalizing`: the team list; `Storing`: its
      own continuation, the row is written and the session not cached yet. */
  datatype Stage = Submitting | Finalizing | Storing | Over(ok: bool)

  /** `rows`: the stored accounts. `cachedAt`: the session cache. `challenges`: accounts with a pending challenge.
      `stages[i]` belongs to task `i` of the in-flight map. */
  datatype State = State(rows: map<string, Status>, cachedAt: map<string, int>, challenges: set<string>,
                         flight: Flight<string>, stages: seq<Stage>, now: int)

  datatype Event =
    | Call(account: string, readable: bool)
    | Accepted(task: nat) | Rejected(task: nat) | Stored(task: nat) | Cached(task: nat) | CleanUp(task: nat)
    | Challenged(account: string, known: bool) | ChallengeGone(account: string)
    | Refreshed(account: string) | Invalidated(account: string) | Deleted(account: string)
    | Tick(ms: nat)

  predicate Fresh(s: State, account: string) {
    && account in s.rows && s.rows[account] == Active
    && account in s.cachedAt && s.now - s.cachedAt[account] < SESSION_FRESHNESS_MS
  }

  /** The call goes on to Apple: no short-circuit, nobody to join, credentials and a challenge at hand. */
  predicate Submits(s: State, account: string, readable: bool) {
    && !Fresh(s, account) && account !in s.flight.inflight
    && account in s.rows && readable && account in s.challenges
  }

  predicate AtStage(s: State, i: nat, stage: Stage) {
    i < |s.stages| && i < |s.flight.tasks| && s.stages[i] == stage && s.flight.tasks[i].phase == Open
  }

  predicate Enabled(s: State, e: Event) {
    match e
    case Accepted(i) => AtStage(s, i, Submitting)
    case Rejected(i) => AtStage(s, i, Submitting) || AtStage(s, i, Finalizing)
    case Stored(i) => AtStage(s, i, Finalizing)
    case Cached(i) => AtStage(s, i, Storing)
    case CleanUp(i) => In(s.flight, i, Settled)
    case Refreshed(a) => a in s.rows
    case _ => true
  }

  function AccountOf(s: State, i: nat): string
    requires i < |s.flight.tasks|
  {
    s.flight.tasks[i].key
  }

  /** A call that neither short-circuits nor joins starts a task; without row, password or challenge it fails at
      once. */
  function CallStep(s: State, account: string, readable: bool): State {
    if Fresh(s, account) || account in s.flight.inflight then s
    else
      var (flight, i) := Join(s.flight, account);
      if Submits(s, account, readable) then s.(flight := flight, stages := s.stages + [Submitting])
      else s.(flight := Settle(flight, i), stages := s.stages + [Over(false)])
  }

  function Step(s: State, e: Event): State
    requires Enabled(s, e)
  {
    match e
    case Call(account, readable) => CallStep(s, account, readable)
    case Accepted(i) => s.(challenges := s.challenges - {AccountOf(s, i)}, stages := s.stages[i := Finalizing])
    case Rejected(i) => s.(flight := Settle(s.flight, i), stages := s.stages[i := Over(false)])
    case Stored(i) => s.(rows := s.rows[AccountOf(s, i) := Active], stages := s.stages[i := Storing])
    case Cached(i) =>
      s.(cachedAt := s.cachedAt[AccountOf(s, i) := s.now], flight := Settle(s.flight, i),
         stages := s.stages[i := Over(true)])
    case CleanUp(i) => s.(flight := Remove(s.flight, i))
    case Challenged(a, known) =>
      s.(challenges := s.challenges + {a}, rows := if known && a in s.rows then s.rows[a := Requires2FA] else s.rows)
    case ChallengeGone(a) => s.(challenges := s.challenges - {a})
    case Refreshed(a) => s.(rows := s.rows[a := Active], cachedAt := s.cachedAt[a := s.now])
    case Invalidated(a) => s.(cachedAt := s.cachedAt - {a})
    case Deleted(a) => s.(rows := s.rows - {a}, cachedAt := s.cachedAt - {a})
    case Tick(ms) => s.(now := s.now + ms)
  }

  function Start(rows: map<string, Status>, now: int): State {
    State(rows, map[], {}, Nothing(), [], now)
  }

  function From(s: State, es: seq<Event>): Option<State> {
    if es == [] then Some(s)
    else
      match From(s, es[..|es| - 1])
      case None => None
      case Some(t) => if Enabled(t, es[|es| - 1]) then Some(Step(t, es[|es| - 1])) else None
  }

  // ---------------------------------------------------------------- one submission at a time

  predicate StageFits(phase: Phase, stage: Stage) {
    phase == Open <==> !stage.Over?
  }

  predicate Valid(s: State) {
    && SingleFlight.Inv(s.flight) && |s.stages| == |s.flight.tasks|
    && (forall i :: 0 <= i < |s.stages| ==> StageFits(s.flight.tasks[i].phase, s.stages[i]))
  }

  lemma StepKeeps(s: State, e: Event)
    requires Valid(s) && Enabled(s, e)
    ensures Valid(Step(s, e))
  {
    hide SingleFlight.Inv;
    match e
    case Call(account, readable) =>
      FlightKeeps(s.flight, account, |s.flight.tasks|);
      FlightKeeps(Join(s.flight, account).0, account, |s.flight.tasks|);
    case Rejected(i) => FlightKeeps(s.flight, "", i);
    case Cached(i) => FlightKeeps(s.flight, "", i);
    case CleanUp(i) => FlightKeeps(s.flight, "", i);
    case _ =>
  }

  lemma {:induction false} ValidHolds(s: State, es: seq<Event>)
    requires Valid(s) && From(s, es).Some?
    ensures Valid(From(s, es).value)
  {
    hide Valid, Step, Enabled;
    if es != [] {
      ValidHolds(s, es[..|es| - 1]);
      StepKeeps(From(s, es[..|es| - 1]).value, es[|es| - 1]);
    }
  }

  /** Two tasks of an account are never both waiting for Apple or for what follows. */
  lemma OneSubmissionInFlight(rows: map<string, Status>, now: int, es: seq<Event>, i: nat, j: nat)
    requires From(Start(rows, now), es).Some?
    requires i < |From(Start(rows, now), es).value.stages| && j < |From(Start(rows, now), es).value.stages|
    ensures
      var s := From(Start(rows, now), es).value;
      && i < |s.flight.tasks| && j < |s.flight.tasks|
      && (!s.stages[i].Over? && !s.stages[j].Over? && AccountOf(s, i) == AccountOf(s, j) ==> i == j)
  {
    ValidHolds(Start(rows, now), es);
    var s := From(Start(rows, now), es).value;
    assert StageFits(s.flight.tasks[i].phase, s.stages[i]) && StageFits(s.flight.tasks[j].phase, s.stages[j]);
  }

  // ---------------------------------------------------------------- a code is used once

  /** No submission for the account is possible or on its way to Apple. */
  predicate Spent(s: State, account: string) {
    account !in s.challenges
    && forall i :: 0 <= i < |s.stages| && i < |s.flight.tasks| && s.flight.tasks[i].key == account ==>
         s.stages[i] != Submitting
  }

  lemma SpentAfterAcceptance(s: State, i: nat)
    requires Valid(s) && Enabled(s, Accepted(i))
    ensures Spent(Step(s, Accepted(i)), AccountOf(s, i))
  {
    forall j | 0 <= j < |s.stages| && s.flight.tasks[j].key == AccountOf(s, i) && j != i ensures s.stages[j].Over? {
      assert StageFits(s.flight.tasks[j].phase, s.stages[j]);
    }
  }

  lemma SpentStays(s: State, e: Event, account: string)
    requires Valid(s) && Spent(s, account) && Enabled(s, e) && !(e.Challenged? && e.account == account)
    ensures Spent(Step(s, e), account)
    ensures e.Call? && e.account == account ==> !Submits(s, account, e.readable)
  {
  }

  /** Once Apple has accepted a code for an account, no call submits to Apple for that account until there is a new
      challenge for it, whatever else happens: expiry, invalidation or removal of the session included. */
  lemma {:induction false} NoSubmissionAfterSuccess(s: State, i: nat, es: seq<Event>)
    requires Valid(s) && Enabled(s, Accepted(i)) && From(Step(s, Accepted(i)), es).Some?
    requires forall k :: 0 <= k < |es| ==> !(es[k].Challenged? && es[k].account == AccountOf(s, i))
    ensures Valid(From(Step(s, Accepted(i)), es).value) && Spent(From(Step(s, Accepted(i)), es).value, AccountOf(s, i))
    ensures forall readable :: !Submits(From(Step(s, Accepted(i)), es).value, AccountOf(s, i), readable)
  {
    var account := AccountOf(s, i);
    hide Valid, Step, Enabled;
    StepKeeps(s, Accepted(i));
    SpentAfterAcceptance(s, i);
    if es != [] {
      var t := From(Step(s, Accepted(i)), es[..|es| - 1]).value;
      NoSubmissionAfterSuccess(s, i, es[..|es| - 1]);
      StepKeeps(t, es[|es| - 1]);
      SpentStays(t, es[|es| - 1], account);
    }
  }

  // ---------------------------------------------------------------- the other waiting jobs

  /** Task `t` is on its way to an authenticated account, or has got there not before `t0`. */
  predicate Covered(s: State, account: string, t: nat, t0: int) {
    && t < |s.stages| && t < |s.flight.tasks| && s.flight.tasks[t].key == account && t0 <= s.now
    && (match s.stages[t]
        case Submitting => true
        case Finalizing => true
        case Storing => account in s.rows && s.rows[account] == Active
        case Over(ok) =>
          && ok && account in s.rows && s.rows[account] == Active
          && account in s.cachedAt && s.cachedAt[account] >= t0)
    && (forall i :: t < i < |s.flight.tasks| ==> s.flight.tasks[i].key != account)
  }

  /** What ends the time in which the account counts as authenticated by task `t`. */
  predicate Disturbs(e: Event, account: string, t: nat) {
    match e
    case Challenged(a, _) => a == account
    case Invalidated(a) => a == account
    case Deleted(a) => a == account
    case Rejected(i) => i == t
    case _ => false
  }

  /** A call made meanwhile joins task `t` or returns the active account. */
  predicate Served(s: State, account: string, t: nat) {
    Fresh(s, account) || (account in s.flight.inflight && s.flight.inflight[account] == t)
  }

  lemma CoveredIsServed(s: State, account: string, t: nat, t0: int)
    requires Valid(s) && Covered(s, account, t, t0) && s.now - t0 < SESSION_FRESHNESS_MS
    ensures Served(s, account, t)
  {
    assert StageFits(s.flight.tasks[t].phase, s.stages[t]);
  }

  lemma CallKeepsCovered(s: State, caller: string, readable: bool, account: string, t: nat, t0: int)
    requires Valid(s) && Covered(s, account, t, t0) && Served(s, account, t)
    ensures Covered(CallStep(s, caller, readable), account, t, t0)
  {
    hide Valid;
    assert caller == account ==> CallStep(s, caller, readable) == s;
  }

  lemma CoveredStays(s: State, e: Event, account: string, t: nat, t0: int)
    requires Valid(s) && Covered(s, account, t, t0) && Enabled(s, e) && !Disturbs(e, account, t)
    requires s.now - t0 < SESSION_FRESHNESS_MS
    ensures Covered(Step(s, e), account, t, t0)
  {
    CoveredIsServed(s, account, t, t0);
    if e.Call? {
      hide Covered, Served, CallStep, Valid;
      CallKeepsCovered(s, e.account, e.readable, account, t, t0);
    } else {
      hide Served, Fresh, Submits;
    }
  }

  lemma ClockNeverGoesBack(s: State, e: Event)
    requires Enabled(s, e)
    ensures Step(s, e).now >= s.now
  {
    hide Fresh, Submits, AtStage;
  }

  lemma {:induction false} TimeGoesOn(s: State, es: seq<Event>)
    requires From(s, es).Some?
    ensures From(s, es).value.now >= s.now
    ensures es != [] ==> From(s, es[..|es| - 1]).Some? && From(s, es[..|es| - 1]).value.now <= From(s, es).value.now
  {
    hide Step, Enabled;
    if es != [] {
      TimeGoesOn(s, es[..|es| - 1]);
      ClockNeverGoesBack(From(s, es[..|es| - 1]).value, es[|es| - 1]);
    }
  }

  lemma {:induction false} CoveredAfter(s: State, account: string, t: nat, t0: int, es: seq<Event>)
    requires Valid(s) && Covered(s, account, t, t0) && From(s, es).Some?
    requires forall k :: 0 <= k < |es| ==> !Disturbs(es[k], account, t)
    requires From(s, es).value.now - t0 < SESSION_FRESHNESS_MS
    ensures Valid(From(s, es).value) && Covered(From(s, es).value, account, t, t0)
  {
    hide Valid, Covered, Step, Enabled, Disturbs;
    if es != [] {
      TimeGoesOn(s, es);
      CoveredAfter(s, account, t, t0, es[..|es| - 1]);
      var u := From(s, es[..|es| - 1]).value;
      StepKeeps(u, es[|es| - 1]);
      CoveredStays(u, es[|es| - 1], account, t, t0);
    }
  }

  lemma SubmissionIsCovered(s: State, account: string)
    requires Valid(s) && Submits(s, account, true)
    ensures Covered(Step(s, Call(account, true)), account, |s.flight.tasks|, s.now)
  {
    hide SingleFlight.Inv;
  }

  /** The jobs resumed by one code share one submission: from the call that submits on, for as long as that submission
      is not refused, the session is not invalidated and less than 12 hours pass, every call for the account joins
      that submission or returns the active account, and no other task is started for it. */
  lemma JobsShareOneSubmission(s: State, account: string, es: seq<Event>)
    requires Valid(s) && Submits(s, account, true) && From(Step(s, Call(account, true)), es).Some?
    requires forall k :: 0 <= k < |es| ==> !Disturbs(es[k], account, |s.flight.tasks|)
    requires From(Step(s, Call(account, true)), es).value.now - s.now < SESSION_FRESHNESS_MS
    ensures
      var u := From(Step(s, Call(account, true)), es).value;
      && Served(u, account, |s.flight.tasks|)
      && forall i :: |s.flight.tasks| < i < |u.flight.tasks| ==> u.flight.tasks[i].key != account
  {
    StepKeeps(s, Call(account, true));
    SubmissionIsCovered(s, account);
    hide Valid, Step, Served;
    CoveredAfter(Step(s, Call(account, true)), account, |s.flight.tasks|, s.now, es);
    CoveredIsServed(From(Step(s, Call(account, true)), es).value, account, |s.flight.tasks|, s.now);
  }

  // ---------------------------------------------------------------- the service

  datatype Reply = ActiveAccount | Awaits(task: nat)

  class AppleAccountService {
    var rows: map<string, Status>
    var sessionCache: map<string, int>
    var pendingSessions: set<string>
    var inflight2FA: map<string, nat>
    var tasks: seq<Task<string>>
    var stages: seq<Stage>
    var now: int

    ghost function Now(): State
      reads this
    {
      State(rows, sessionCache, pendingSessions, Flight(inflight2FA, tasks), stages, now)
    }

    constructor (rows: map<string, Status>, now: int)
      ensures Now() == Start(rows, now)
    {
      this.rows, this.now := rows, now;
      sessionCache, pendingSessions, inflight2FA, tasks, stages := map[], {}, map[], [], [];
    }

    /** The synchronous stretch of a call; `readable`: the stored password can be decrypted. An active account with a
        session under 12 hours old is returned; else a running task is joined; else a task is started, which submits the
        code if there are credentials and a challenge, and fails if not. */
    method Complete2FAForAccount(account: string, readable: bool) returns (reply: Reply)
      modifies this
      ensures reply.ActiveAccount?
         <==> (account in old(rows) && old(rows)[account] == Active
               && account in old(sessionCache) && old(now) - old(sessionCache)[account] < 43_200_000)
      ensures !reply.ActiveAccount? && account in old(inflight2FA) ==> reply == Awaits(old(inflight2FA)[account])
      ensures reply.ActiveAccount? || account in old(inflight2FA) ==> Now() == old(Now())
      ensures !reply.ActiveAccount? && account !in old(inflight2FA) ==>
        var submits := account in old(rows) && readable && account in old(pendingSessions);
        && reply == Awaits(|old(tasks)|) && inflight2FA == old(inflight2FA)[account := |old(tasks)|]
        && tasks == old(tasks) + [Task(account, if submits then Open else Settled)]
        && stages == old(stages) + [if submits then Submitting else Over(false)]
      ensures Now() == Step(old(Now()), Call(account, readable))
      ensures reply.ActiveAccount? <==> Fresh(old(Now()), account)
      ensures reply.Awaits? ==> account in inflight2FA && reply.task == inflight2FA[account]
    {
      if account in rows && rows[account] == Active {
        if account in sessionCache && now - sessionCache[account] < SESSION_FRESHNESS_MS {
          return ActiveAccount;
        }
      }
      if account in inflight2FA {
        return Awaits(inflight2FA[account]);
      }
      var task := |tasks|;
      if account in rows && readable && account in pendingSessions {
        stages, tasks := stages + [Submitting], tasks + [Task(account, Open)];
      } else {
        stages, tasks := stages + [Over(false)], tasks + [Task(account, Settled)];
      }
      inflight2FA := inflight2FA[account := task];
      reply := Awaits(task);
    }

    /** Apple took the code: the challenge is used up. */
    method CodeAccepted(i: nat)
      requires Enabled(Now(), Accepted(i))
      modifies this
      ensures Now() == Step(old(Now()), Accepted(i))
      ensures pendingSessions == old(pendingSessions) - {old(tasks)[i].key} && stages[i] == Finalizing
    {
      pendingSessions := pendingSessions - {tasks[i].key};
      stages := stages[i := Finalizing];
    }

    /** The session is cached and the callers get the account. */
    method CacheSession(i: nat)
      requires Enabled(Now(), Cached(i))
      modifies this
      ensures Now() == Step(old(Now()), Cached(i))
      ensures sessionCache == old(sessionCache)[old(tasks)[i].key := now]
      ensures stages[i] == Over(true) && tasks[i].phase == Settled
    {
      sessionCache := sessionCache[tasks[i].key := now];
      stages, tasks := stages[i := Over(true)], tasks[i := tasks[i].(phase := Settled)];
    }

    /** The `finally` of the call that started it. */
    method RemoveInflight(i: nat)
      requires Enabled(Now(), CleanUp(i))
      modifies this
      ensures Now() == Step(old(Now()), CleanUp(i))
    {
      inflight2FA := inflight2FA - {tasks[i].key};
      tasks := tasks[i := tasks[i].(phase := Removed)];
    }
  }
}
