/** Session reuse (refreshAuth in src/server/services/apple-account-service.ts): the session cache, the session
    persisted with the account and the in-flight map. */
module SessionRefresh {
  import opened Wrappers
  import opened Sessions
  import opened SingleFlight

  /** A session authenticated with Apple at `authAt`, put into the cache at `cachedAt`. */
  datatype Session = Session(authAt: int, cachedAt: int)

  /** `lastAuthAt`: the stored accounts. A task in flight is waiting for Apple or settled. */
  datatype State = State(lastAuthAt: map<string, int>, cache: map<string, Session>, flight: Flight<string>, now: int)

  /** `usable`: the persisted cookies hold a session; `readable`: the stored password can be decrypted. */
  datatype Event =
    | Refresh(account: string, force: bool, usable: bool, readable: bool)
    | Authenticated(task: nat) | Failed(task: nat) | CleanUp(task: nat)
    | SignedIn(account: string) | Invalidated(account: string) | Deleted(account: string)
    | Restart | Tick(ms: nat)

  predicate CacheFresh(s: State, account: string) {
    account in s.cache && s.now - s.cache[account].cachedAt < SESSION_FRESHNESS_MS
  }

  predicate PersistedFresh(s: State, account: string) {
    account in s.lastAuthAt && s.lastAuthAt[account] > 0 && s.now - s.lastAuthAt[account] < SESSION_FRESHNESS_MS
  }

  predicate Enabled(s: State, e: Event) {
    match e
    case Authenticated(i) => In(s.flight, i, Open)
    case Failed(i) => In(s.flight, i, Open)
    case CleanUp(i) => In(s.flight, i, Settled)
    case _ => true
  }

  /** What a call returns without asking Apple, if anything: the cached session, or the persisted one. */
  function Immediate(s: State, account: string, force: bool, usable: bool): Option<Session> {
    if force then None
    else if CacheFresh(s, account) then Some(s.cache[account])
    else if account !in s.flight.inflight && PersistedFresh(s, account) && usable then
      Some(Session(s.lastAuthAt[account], s.now))
    else None
  }

  function RefreshStep(s: State, account: string, force: bool, usable: bool, readable: bool): State {
    if (!force && CacheFresh(s, account)) || account in s.flight.inflight then s
    else
      var (flight, i) := Join(s.flight, account);
      if !force && PersistedFresh(s, account) && usable then
        s.(flight := Settle(flight, i), cache := s.cache[account := Session(s.lastAuthAt[account], s.now)])
      else if account in s.lastAuthAt && readable then s.(flight := flight)
      else s.(flight := Settle(flight, i))
  }

  function Step(s: State, e: Event): State
    requires Enabled(s, e)
  {
    match e
    case Refresh(a, force, usable, readable) => RefreshStep(s, a, force, usable, readable)
    case Authenticated(i) =>
      var a := s.flight.tasks[i].key;
      s.(lastAuthAt := if a in s.lastAuthAt then s.lastAuthAt[a := s.now] else s.lastAuthAt,
         cache := s.cache[a := Session(s.now, s.now)], flight := Settle(s.flight, i))
    case Failed(i) => s.(flight := Settle(s.flight, i))
    case CleanUp(i) => s.(flight := Remove(s.flight, i))
    case SignedIn(a) => s.(lastAuthAt := s.lastAuthAt[a := s.now], cache := s.cache[a := Session(s.now, s.now)])
    case Invalidated(a) => s.(cache := s.cache - {a})
    case Deleted(a) => s.(lastAuthAt := s.lastAuthAt - {a}, cache := s.cache - {a})
    case Restart => s.(cache := map[], flight := Nothing())
    case Tick(ms) => s.(now := s.now + ms)
  }

  function From(s: State, es: seq<Event>): Option<State> {
    if es == [] then Some(s)
    else
      match From(s, es[..|es| - 1])
      case None => None
      case Some(t) => if Enabled(t, es[|es| - 1]) then Some(Step(t, es[|es| - 1])) else None
  }

  /** A process started on stored accounts whose authentications are not in the future. */
  predicate Initial(s: State) {
    s.cache == map[] && s.flight == Nothing() && forall a :: a in s.lastAuthAt ==> s.lastAuthAt[a] <= s.now
  }

  /** A session enters the cache less than 12 hours after its authentication, which is the one stored with the account;
      without a stored account it was cached when it was made. */
  predicate Inv(s: State) {
    && SingleFlight.Inv(s.flight)
    && (forall a :: a in s.lastAuthAt ==> s.lastAuthAt[a] <= s.now)
    && (forall a :: a in s.cache ==> Aged(s.cache[a], s.now))
    && (forall a :: a in s.cache ==> Dated(s, a))
  }

  predicate Dated(s: State, account: string)
    requires account in s.cache
  {
    s.cache[account].authAt == if account in s.lastAuthAt then s.lastAuthAt[account] else s.cache[account].cachedAt
  }

  predicate Aged(session: Session, now: int) {
    session.authAt <= session.cachedAt <= now && session.cachedAt - session.authAt < SESSION_FRESHNESS_MS
  }

  lemma RefreshKeeps(s: State, account: string, force: bool, usable: bool, readable: bool)
    requires Inv(s)
    ensures Inv(RefreshStep(s, account, force, usable, readable))
  {
    hide SingleFlight.Inv;
    FlightKeeps(s.flight, account, 0);
    FlightKeeps(Join(s.flight, account).0, account, Join(s.flight, account).1);
  }

  lemma StepKeeps(s: State, e: Event)
    requires Inv(s) && Enabled(s, e)
    ensures Inv(Step(s, e))
  {
    match e
    case Refresh(a, force, usable, readable) =>
      hide RefreshStep, SingleFlight.Inv;
      RefreshKeeps(s, a, force, usable, readable);
    case Authenticated(i) => hide SingleFlight.Inv; FlightKeeps(s.flight, "", i);
    case Failed(i) => hide SingleFlight.Inv; FlightKeeps(s.flight, "", i);
    case CleanUp(i) => hide SingleFlight.Inv; FlightKeeps(s.flight, "", i);
    case _ =>
  }

  lemma {:induction false} InvHolds(s: State, es: seq<Event>)
    requires Initial(s) && From(s, es).Some?
    ensures Inv(From(s, es).value)
  {
    if es != [] {
      hide Inv, Step, Enabled, Initial;
      InvHolds(s, es[..|es| - 1]);
      StepKeeps(From(s, es[..|es| - 1]).value, es[|es| - 1]);
    }
  }

  /** In any run, over restarts, invalidations and new sign-ins: a session handed out without asking Apple was
      authenticated less than 24 hours ago. */
  lemma SessionsAreUnder24Hours(s: State, es: seq<Event>, account: string, usable: bool)
    requires Initial(s) && From(s, es).Some?
    requires Immediate(From(s, es).value, account, false, usable).Some?
    ensures
      var t := From(s, es).value;
      && Immediate(t, account, false, usable).value.authAt <= t.now
      && t.now - Immediate(t, account, false, usable).value.authAt < 2 * SESSION_FRESHNESS_MS
  {
    InvHolds(s, es);
    hide From;
  }

  /** The account's stored authentication is within 12 hours, or there is none. */
  predicate WithinTwelveHours(s: State, account: string) {
    account in s.lastAuthAt ==> s.now - s.lastAuthAt[account] < SESSION_FRESHNESS_MS
  }

  /** When a session handed out without asking Apple is within the 12 hours: exactly if the account's stored
      authentication is. */
  lemma TwelveHoursKeptIff(s: State, es: seq<Event>, account: string, usable: bool)
    requires Initial(s) && From(s, es).Some?
    requires Immediate(From(s, es).value, account, false, usable).Some?
    ensures
      var t := From(s, es).value;
      var age := t.now - Immediate(t, account, false, usable).value.authAt;
      age < SESSION_FRESHNESS_MS <==> WithinTwelveHours(t, account)
  {
    InvHolds(s, es);
    hide From;
  }

  /** The bound is sharp: a persisted session counts as fresh from the moment it is loaded again, so one that is a
      millisecond under 12 hours old is still handed out almost 12 hours later. */
  lemma PersistedSessionLivesTwice(account: string)
    ensures
      var s := State(map[account := 1], map[], Nothing(), SESSION_FRESHNESS_MS);
      var es := [Refresh(account, false, true, true), Tick((SESSION_FRESHNESS_MS - 1) as nat)];
      && Initial(s) && From(s, es).Some?
      && Immediate(From(s, es).value, account, false, true).Some?
      && From(s, es).value.now - Immediate(From(s, es).value, account, false, true).value.authAt
         == 2 * SESSION_FRESHNESS_MS - 2
  {
    var s := State(map[account := 1], map[], Nothing(), SESSION_FRESHNESS_MS);
    var e1, e2 := Refresh(account, false, true, true), Tick((SESSION_FRESHNESS_MS - 1) as nat);
    assert [e1, e2][..1] == [e1] && [e1][..0] == [];
    assert From(s, []) == Some(s);
    assert From(s, [e1]) == Some(Step(s, e1));
    assert From(s, [e1, e2]) == Some(Step(Step(s, e1), e2));
  }

  datatype Reply = Returned(session: Session) | Awaits(task: nat)

  class SessionCache {
    var lastAuthAt: map<string, int>
    var sessionCache: map<string, Session>
    var inflightRefresh: map<string, nat>
    var tasks: seq<Task<string>>
    var now: int

    ghost function Now(): State
      reads this
    {
      State(lastAuthAt, sessionCache, Flight(inflightRefresh, tasks), now)
    }

    constructor (lastAuthAt: map<string, int>, now: int)
      ensures Now() == State(lastAuthAt, map[], Nothing(), now)
    {
      this.lastAuthAt, sessionCache, inflightRefresh, tasks, this.now := lastAuthAt, map[], map[], [], now;
    }

    /** The synchronous stretch of a call: the cached session unless a refresh is forced, else the task in flight,
        else a new task, which loads the persisted session if that is allowed and under 12 hours old, and otherwise
        goes to Apple if there are credentials. */
    method RefreshAuth(account: string, force: bool, usable: bool, readable: bool) returns (reply: Reply)
      modifies this
      ensures reply.Returned?
         <==> (!force && account in old(sessionCache) && now - old(sessionCache)[account].cachedAt < 43_200_000)
      ensures reply.Returned? ==> reply.session == old(sessionCache)[account] && Now() == old(Now())
      ensures !reply.Returned? && account in old(inflightRefresh) ==>
        reply == Awaits(old(inflightRefresh)[account]) && Now() == old(Now())
      ensures !reply.Returned? && account !in old(inflightRefresh) ==>
        var persisted := !force && account in lastAuthAt && lastAuthAt[account] > 0
                         && now - lastAuthAt[account] < 43_200_000 && usable;
        && reply == Awaits(|old(tasks)|) && inflightRefresh == old(inflightRefresh)[account := |old(tasks)|]
        && lastAuthAt == old(lastAuthAt) && now == old(now)
        && sessionCache == (if persisted then old(sessionCache)[account := Session(lastAuthAt[account], now)]
                            else old(sessionCache))
        && tasks == old(tasks) + [Task(account, if !persisted && account in lastAuthAt && readable then Open
                                                else Settled)]
      ensures Now() == Step(old(Now()), Refresh(account, force, usable, readable))
      ensures reply.Returned? ==> Immediate(old(Now()), account, force, usable) == Some(reply.session)
      ensures reply.Awaits? ==> account in inflightRefresh && reply.task == inflightRefresh[account]
    {
      if !force && account in sessionCache && now - sessionCache[account].cachedAt < SESSION_FRESHNESS_MS {
        return Returned(sessionCache[account]);
      }
      if account in inflightRefresh {
        return Awaits(inflightRefresh[account]);
      }
      var task := |tasks|;
      inflightRefresh := inflightRefresh[account := task];
      if !force && account in lastAuthAt && lastAuthAt[account] > 0
         && now - lastAuthAt[account] < SESSION_FRESHNESS_MS && usable
      {
        sessionCache := sessionCache[account := Session(lastAuthAt[account], now)];
        tasks := tasks + [Task(account, Settled)];
      } else if account in lastAuthAt && readable {
        tasks := tasks + [Task(account, Open)];
      } else {
        tasks := tasks + [Task(account, Settled)];
      }
      reply := Awaits(task);
    }
  }
}
