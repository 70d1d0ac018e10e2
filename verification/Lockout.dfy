/** Login lockout (src/server/services/auth-service.ts). Logins are sequential; every clock read of a login is a
    parameter. */
module Lockout {
  import opened Wrappers
  import opened Windows

  const THRESHOLD: nat := 5
  const WINDOW: int := 15 * 60 * 1000
  const DURATION: int := 15 * 60 * 1000

  function Latest(ts: seq<int>): int
    requires ts != []
  {
    if |ts| == 1 then ts[0]
    else
      var m := Latest(ts[..|ts| - 1]);
      if m >= ts[|ts| - 1] then m else ts[|ts| - 1]
  }

  /** checkLockout on the stored failures of a user, with its two clock reads. */
  predicate Locked(failures: seq<int>, counted: int, compared: int) {
    CountSince(failures, counted - WINDOW + 1) >= THRESHOLD && failures != [] && Latest(failures) + DURATION > compared
  }

  /** pruneStaleAttempts */
  function Prune(failures: seq<int>, now: int): seq<int> {
    if failures == [] then []
    else
      var before, t := Prune(failures[..|failures| - 1], now), failures[|failures| - 1];
      if t <= now - WINDOW then before else before + [t]
  }

  lemma {:induction false} PruneKeepsRecent(failures: seq<int>, now: int, lo: int)
    requires lo > now - WINDOW
    ensures CountSince(Prune(failures, now), lo) == CountSince(failures, lo)
  {
    if failures != [] {
      var init, t := failures[..|failures| - 1], failures[|failures| - 1];
      PruneKeepsRecent(init, now, lo);
      assert (Prune(init, now) + [t])[..|Prune(init, now)|] == Prune(init, now);
    }
  }

  lemma {:induction false} CountNeedsLate(ts: seq<int>, lo: int)
    requires CountSince(ts, lo) > 0
    ensures ts != [] && Latest(ts) >= lo
  {
    if |ts| > 1 && CountSince(ts[..|ts| - 1], lo) > 0 {
      CountNeedsLate(ts[..|ts| - 1], lo);
    }
  }

  lemma {:induction false} PruneKeepsLatest(failures: seq<int>, now: int)
    requires failures != [] && Latest(failures) > now - WINDOW
    ensures Prune(failures, now) != [] && Latest(Prune(failures, now)) == Latest(failures)
  {
    var init, t := failures[..|failures| - 1], failures[|failures| - 1];
    var kept := Prune(init, now);
    assert (kept + [t])[..|kept|] == kept;
    if init != [] && Latest(init) > now - WINDOW {
      PruneKeepsLatest(init, now);
    } else {
      PrunedAway(init, now);
    }
  }

  lemma {:induction false} PrunedAway(failures: seq<int>, now: int)
    requires failures != [] ==> Latest(failures) <= now - WINDOW
    ensures Prune(failures, now) == []
  {
    if failures != [] {
      PrunedAway(failures[..|failures| - 1], now);
    }
  }

  /** Pruning old attempts never changes whether a user is locked out. */
  lemma PruningIsInvisible(failures: seq<int>, pruned: int, counted: int, compared: int)
    requires pruned <= counted
    ensures Locked(Prune(failures, pruned), counted, compared) <==> Locked(failures, counted, compared)
  {
    hide Prune, Latest, CountSince;
    PruneKeepsRecent(failures, pruned, counted - WINDOW + 1);
    if CountSince(failures, counted - WINDOW + 1) >= THRESHOLD {
      CountNeedsLate(failures, counted - WINDOW + 1);
      PruneKeepsLatest(failures, pruned);
    }
  }

  lemma {:induction false} PruneTwice(failures: seq<int>, a: int, b: int)
    requires a <= b
    ensures Prune(Prune(failures, a), b) == Prune(failures, b)
  {
    if failures != [] {
      var init, t := failures[..|failures| - 1], failures[|failures| - 1];
      PruneTwice(init, a, b);
      assert (Prune(init, a) + [t])[..|Prune(init, a)|] == Prune(init, a);
    }
  }

  /** One user. `failures` are all failures since the last success (a history variable), `rows` the stored ones. */
  datatype State = State(failures: seq<int>, rows: seq<int>, prunedAt: int)

  /** The clock reads of a login, in order: pruning, counting, comparing, recording. `Elsewhere` is the pruning done by
      somebody else's login. */
  datatype Event =
    | Login(pruned: int, counted: int, compared: int, recorded: int, correct: bool)
    | Elsewhere(pruned: int)

  datatype Reply = LockedOut | Refused | Welcome

  predicate Timely(s: State, e: Event) {
    match e
    case Login(p, c, d, r, _) => s.prunedAt <= p <= c <= d <= r
    case Elsewhere(p) => s.prunedAt <= p
  }

  function Answer(s: State, e: Event): Reply
    requires e.Login?
  {
    if Locked(Prune(s.rows, e.pruned), e.counted, e.compared) then LockedOut else if e.correct then Welcome else Refused
  }

  function Step(s: State, e: Event): State {
    match e
    case Elsewhere(p) => State(s.failures, Prune(s.rows, p), p)
    case Login(p, _, _, recorded, _) =>
      match Answer(s, e)
      case LockedOut => State(s.failures, Prune(s.rows, p), p)
      case Welcome => State([], [], p)
      case Refused => State(s.failures + [recorded], Prune(s.rows, p) + [recorded], p)
  }

  function From(s: State, es: seq<Event>): Option<State> {
    if es == [] then Some(s)
    else
      match From(s, es[..|es| - 1])
      case None => None
      case Some(t) => if Timely(t, es[|es| - 1]) then Some(Step(t, es[|es| - 1])) else None
  }

  function Start(now: int): State { State([], [], now) }

  /** The stored rows are the failures that the last pruning left, and no window shorter than 15 minutes has more than
      five failures. */
  ghost predicate Inv(s: State) {
    s.rows == Prune(s.failures, s.prunedAt) && Bounded(s.failures, WINDOW - 1, THRESHOLD)
  }

  lemma PruneOneMore(failures: seq<int>, t: int, now: int)
    requires t > now - WINDOW
    ensures Prune(failures + [t], now) == Prune(failures, now) + [t]
  {
    assert (failures + [t])[..|failures|] == failures;
  }

  /** A refused login does not exceed the limit, whether the count was below it or the lockout had just run out. */
  lemma FailureKeepsBound(failures: seq<int>, counted: int, compared: int, recorded: int)
    requires Bounded(failures, WINDOW - 1, THRESHOLD) && counted <= compared <= recorded
    requires !Locked(failures, counted, compared)
    ensures Bounded(failures + [recorded], WINDOW - 1, THRESHOLD)
  {
    if CountSince(failures, counted - WINDOW + 1) < THRESHOLD {
      EntryKeepsBound(failures, WINDOW - 1, THRESHOLD, counted, recorded);
    } else {
      CountNeedsLate(failures, counted - WINDOW + 1);
      if CountSince(failures, recorded - WINDOW + 1) > 0 {
        CountNeedsLate(failures, recorded - WINDOW + 1);
      }
      EntryKeepsBound(failures, WINDOW - 1, THRESHOLD, recorded, recorded);
    }
  }

  lemma StepKeeps(s: State, e: Event)
    requires Inv(s) && Timely(s, e)
    ensures Inv(Step(s, e))
    ensures e.Login? ==> (Answer(s, e) == LockedOut <==> Locked(s.failures, e.counted, e.compared))
  {
    hide Prune, Bounded, Locked;
    PruneTwice(s.failures, s.prunedAt, e.pruned);
    if e.Login? {
      PruningIsInvisible(s.failures, e.pruned, e.counted, e.compared);
      if Answer(s, e) == Refused {
        PruneOneMore(s.failures, e.recorded, e.pruned);
        FailureKeepsBound(s.failures, e.counted, e.compared, e.recorded);
      }
    }
    NothingIsBounded();
  }

  lemma NothingIsBounded()
    ensures Bounded([], WINDOW - 1, THRESHOLD) && forall now :: Prune([], now) == []
  {
  }

  lemma {:induction false} InvHolds(now: int, es: seq<Event>)
    requires From(Start(now), es).Some?
    ensures Inv(From(Start(now), es).value)
  {
    hide Inv, Step, Timely;
    if es == [] {
      StartIsFine(now);
    } else {
      InvHolds(now, es[..|es| - 1]);
      StepKeeps(From(Start(now), es[..|es| - 1]).value, es[|es| - 1]);
    }
  }

  lemma StartIsFine(now: int)
    ensures Inv(Start(now))
  {
    NothingIsBounded();
  }

  /** Since the last success a user has at most five failed logins in any window shorter than 15 minutes. */
  lemma AtMostFiveFailures(now: int, es: seq<Event>, lo: int, hi: int)
    requires From(Start(now), es).Some? && hi - lo < WINDOW
    ensures CountIn(From(Start(now), es).value.failures, lo, hi) <= THRESHOLD
  {
    InvHolds(now, es);
    var f := From(Start(now), es).value.failures;
    hide From, Prune;
    assert CountFrom(f, lo, WINDOW - 1) <= THRESHOLD;
    NarrowerCount(f, lo, hi, lo + (WINDOW - 1));
  }

  lemma {:induction false} SinceIsIn(ts: seq<int>, lo: int, hi: int)
    requires forall i :: 0 <= i < |ts| ==> ts[i] <= hi
    ensures CountSince(ts, lo) == CountIn(ts, lo, hi)
  {
    if ts != [] {
      SinceIsIn(ts[..|ts| - 1], lo, hi);
    }
  }

  lemma {:induction false} LatestIs(ts: seq<int>)
    requires ts != []
    ensures Latest(ts) in ts && forall i :: 0 <= i < |ts| ==> ts[i] <= Latest(ts)
  {
    if |ts| > 1 {
      LatestIs(ts[..|ts| - 1]);
    }
  }

  /** Five failures in the last 15 minutes at `counted`, and one that is less than 15 minutes old at `compared`. */
  predicate TooMany(failures: seq<int>, counted: int, compared: int) {
    && CountSince(failures, counted - 900_000 + 1) >= 5
    && exists i :: 0 <= i < |failures| && failures[i] > compared - 900_000
  }

  lemma LockedIs(failures: seq<int>, counted: int, compared: int)
    ensures Locked(failures, counted, compared) <==> TooMany(failures, counted, compared)
  {
    hide CountSince, Latest;
    if failures != [] {
      LatestIs(failures);
      var i :| 0 <= i < |failures| && failures[i] == Latest(failures);
    }
  }

  /** Who is locked out, in any run: exactly a user with five or more failures since the last success in the last 15
      minutes, the newest of them less than 15 minutes old. */
  lemma LockedOutIff(now: int, es: seq<Event>, e: Event, hi: int)
    requires From(Start(now), es).Some? && e.Login? && Timely(From(Start(now), es).value, e)
    requires forall i :: 0 <= i < |From(Start(now), es).value.failures| ==> From(Start(now), es).value.failures[i] <= hi
    ensures
      var s := From(Start(now), es).value;
      Answer(s, e) == LockedOut
      <==> (CountIn(s.failures, e.counted - 900_000 + 1, hi) >= 5
            && exists i :: 0 <= i < |s.failures| && s.failures[i] > e.compared - 900_000)
  {
    hide From, Prune, Locked, Latest, CountSince, CountIn, Inv, Answer;
    InvHolds(now, es);
    var s := From(Start(now), es).value;
    StepKeeps(s, e);
    LockedIs(s.failures, e.counted, e.compared);
    SinceIsIn(s.failures, e.counted - 900_000 + 1, hi);
  }

  /** Pruning keeps the attempts of the last 15 minutes and no other. */
  lemma {:induction false} PruneIs(failures: seq<int>, now: int, t: int)
    ensures t in Prune(failures, now) <==> t in failures && t > now - 900_000
    ensures |Prune(failures, now)| == CountSince(failures, now - 900_000 + 1)
  {
    if failures != [] {
      var init, last := failures[..|failures| - 1], failures[|failures| - 1];
      PruneIs(init, now, t);
      assert failures == init + [last];
    }
  }

  class AuthService {
    var rows: seq<int>
    ghost var failures: seq<int>
    ghost var prunedAt: int

    ghost function Now(): State
      reads this
    {
      State(failures, rows, prunedAt)
    }

    constructor (now: int)
      ensures Now() == Start(now)
    {
      rows, failures, prunedAt := [], [], now;
    }

    method PruneStaleAttempts(now: int)
      modifies this
      ensures rows == Prune(old(rows), now) && failures == old(failures) && prunedAt == now
    {
      var kept: seq<int> := [];
      var i := 0;
      while i < |rows|
        invariant 0 <= i <= |rows| && rows == old(rows) && failures == old(failures) && kept == Prune(rows[..i], now)
      {
        assert rows[..i + 1][..i] == rows[..i];
        if !(rows[i] <= now - WINDOW) {
          kept := kept + [rows[i]];
        }
        i := i + 1;
      }
      assert rows[..i] == rows;
      rows, prunedAt := kept, now;
    }

    /** A locked out user is told so and nothing is recorded; otherwise the right password is welcomed and clears the
        failures, and a wrong one is refused and recorded. */
    method Login(pruned: int, counted: int, compared: int, recorded: int, correct: bool) returns (r: Reply)
      modifies this
      ensures pruned <= counted ==> (r == LockedOut <==> TooMany(old(rows), counted, compared))
      ensures r == LockedOut ==> rows == Prune(old(rows), pruned) && failures == old(failures)
      ensures r == Welcome ==> correct && rows == [] && failures == []
      ensures r == Refused ==>
        !correct && rows == Prune(old(rows), pruned) + [recorded] && failures == old(failures) + [recorded]
      ensures r == Answer(old(Now()), Event.Login(pruned, counted, compared, recorded, correct))
      ensures Now() == Step(old(Now()), Event.Login(pruned, counted, compared, recorded, correct))
    {
      ghost var before := rows;
      if pruned <= counted {
        PruningIsInvisible(before, pruned, counted, compared);
        LockedIs(before, counted, compared);
      }
      hide Prune, CountSince, TooMany, Latest;
      PruneStaleAttempts(pruned);
      if CountSince(rows, counted - WINDOW + 1) >= THRESHOLD {
        if rows != [] && Latest(rows) + DURATION > compared {
          return LockedOut;
        }
      }
      if !correct {
        rows, failures := rows + [recorded], failures + [recorded];
        return Refused;
      }
      rows, failures := [], [];
      r := Welcome;
    }
  }
}
