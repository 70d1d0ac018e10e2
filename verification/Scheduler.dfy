/** Retry backoff of the refresh scheduler (tick, persistRetryBackoff and loadRetryBackoff in
    src/server/services/scheduler-service.ts). Times are milliseconds. */
module Scheduler {
  import opened Wrappers

  datatype Backoff = Backoff(attempt: nat, nextRetryAtMs: int)

  const INITIAL_BACKOFF_MINUTES: nat := 15
  const MAX_BACKOFF_MINUTES: nat := 720
  const MINUTE: nat := 60_000

  function Pow2(n: nat): nat {
    if n == 0 then 1 else 2 * Pow2(n - 1)
  }

  /** Minutes to wait after attempt `n`. */
  function Delay(n: nat): nat
    requires n > 0
  {
    var d := INITIAL_BACKOFF_MINUTES * Pow2(n - 1);
    if d <= MAX_BACKOFF_MINUTES then d else MAX_BACKOFF_MINUTES
  }

  lemma {:induction false} PowGrows(m: nat, n: nat)
    requires m <= n
    ensures 1 <= Pow2(m) <= Pow2(n)
  {
    if m < n {
      PowGrows(m, n - 1);
    } else if m > 0 {
      PowGrows(m - 1, m - 1);
    }
  }

  /** 15, 30, 60, 120, 240, 480 and then 720 minutes. */
  lemma DelayIs(n: nat)
    requires n > 0
    ensures Delay(n) == if n == 1 then 15 else if n == 2 then 30 else if n == 3 then 60 else if n == 4 then 120
                        else if n == 5 then 240 else if n == 6 then 480 else 720
  {
    assert Pow2(0) == 1 && Pow2(1) == 2 && Pow2(2) == 4 && Pow2(3) == 8;
    assert Pow2(4) == 16 && Pow2(5) == 32 && Pow2(6) == 64;
    if n >= 7 {
      PowGrows(6, n - 1);
    }
  }

  // ---------------------------------------------------------------- one app, disconnected

  /** A tick at `now` makes an attempt unless a wait is still running. */
  predicate Attempts(b: Option<Backoff>, now: int) {
    b.None? || now >= b.value.nextRetryAtMs
  }

  function Attempt(b: Option<Backoff>): nat {
    if b.None? then 0 else b.value.attempt
  }

  function Tick1(b: Option<Backoff>, now: int): Option<Backoff> {
    if !Attempts(b, now) then b
    else
      var n := Attempt(b) + 1;
      Some(Backoff(n, now + Delay(n) * MINUTE))
  }

  /** What loadRetryBackoff takes over from the stored entry. */
  function Load1(stored: Option<Backoff>, now: int): Option<Backoff> {
    if stored.Some? && stored.value.nextRetryAtMs > now then stored else None
  }

  /** A stretch of ticks without the device, in which the process may be restarted. */
  datatype Event = Tick(at: int) | Restart(at: int)

  predicate InOrder(es: seq<Event>) {
    forall i, j :: 0 <= i < j < |es| ==> es[i].at <= es[j].at
  }

  /** The entry after such a stretch. */
  function Run(es: seq<Event>): Option<Backoff> {
    if es == [] then None
    else
      var b := Run(es[..|es| - 1]);
      match es[|es| - 1]
      case Tick(now) => Tick1(b, now)
      case Restart(now) => Load1(b, now)
  }

  /** An attempt that was made, and its number in the entry. */
  datatype Record = Record(at: int, attempt: nat)

  function Recorded(es: seq<Event>): seq<Record> {
    if es == [] then []
    else
      var before, last := es[..|es| - 1], es[|es| - 1];
      Recorded(before)
      + if last.Tick? && Attempts(Run(before), last.at) then [Record(last.at, Attempt(Run(before)) + 1)] else []
  }

  function WaitEnds(r: Record): int {
    if r.attempt == 0 then r.at else r.at + Delay(r.attempt) * MINUTE
  }

  /** The entry is about the last attempt; without one a restart has come after the end of the wait. */
  ghost predicate EntryFits(es: seq<Event>) {
    var r, b := Recorded(es), Run(es);
    if b.Some? then
      && r != [] && b.value.attempt == r[|r| - 1].attempt > 0
      && b.value.nextRetryAtMs == WaitEnds(r[|r| - 1])
    else r != [] ==> r[|r| - 1].attempt > 0 && RestartSince(es, r[|r| - 1])
  }

  /** A restart found the wait of `r` over. */
  predicate RestartSince(es: seq<Event>, r: Record) {
    exists i :: 0 <= i < |es| && es[i].Restart? && es[i].at >= WaitEnds(r)
  }

  lemma {:induction false} EntryIsLast(es: seq<Event>)
    ensures EntryFits(es)
  {
    hide Delay;
    if es != [] {
      var before, last := es[..|es| - 1], es[|es| - 1];
      EntryIsLast(before);
      assert last.Restart? ==> es[|es| - 1].Restart?;
    }
  }

  lemma OrderOfPrefix(es: seq<Event>)
    requires InOrder(es) && es != []
    ensures InOrder(es[..|es| - 1])
  {
  }

  /** The attempts of two successive records: the next number, or the first again after a restart that found the wait
      over. */
  predicate Follows(es: seq<Event>, r: Record, next: Record) {
    && r.attempt > 0 && next.at >= WaitEnds(r)
    && (next.attempt == r.attempt + 1 || (next.attempt == 1 && RestartSince(es, r)))
  }

  lemma {:induction false} AttemptsSpaced(es: seq<Event>, k: nat)
    requires InOrder(es) && 0 < k < |Recorded(es)|
    ensures Follows(es, Recorded(es)[k - 1], Recorded(es)[k])
  {
    hide Delay;
    var before := es[..|es| - 1];
    EntryIsLast(before);
    OrderOfPrefix(es);
    if k < |Recorded(before)| {
      AttemptsSpaced(before, k);
    }
    var r := Recorded(es)[k - 1];
    if i :| 0 <= i < |before| && before[i].Restart? && before[i].at >= WaitEnds(r) {
      assert es[i] == before[i];
    }
  }

  /** Minutes of the waits after these attempts. */
  function Waits(r: seq<Record>): nat {
    if r == [] then 0 else Waits(r[..|r| - 1]) + if r[|r| - 1].attempt == 0 then 0 else Delay(r[|r| - 1].attempt)
  }

  /** In any stretch without the device, whenever the process is restarted: an attempt comes no earlier than the first
      one plus all waits in between, which are at least 15 minutes each. */
  lemma {:induction false} BackoffHolds(es: seq<Event>, k: nat)
    requires InOrder(es) && k < |Recorded(es)|
    ensures Recorded(es)[k].at >= Recorded(es)[0].at + Waits(Recorded(es)[..k]) * MINUTE
    ensures Waits(Recorded(es)[..k]) >= k * INITIAL_BACKOFF_MINUTES
  {
    if k > 0 {
      var r := Recorded(es);
      BackoffHolds(es, k - 1);
      AttemptsSpaced(es, k);
      DelayIs(r[k - 1].attempt);
      hide Delay, Recorded;
      assert r[..k][..k - 1] == r[..k - 1];
    }
  }

  /** Without a restart the attempts are numbered from 1, so the waits grow as DelayIs says. */
  lemma {:induction false} Numbered(es: seq<Event>, k: nat)
    requires forall i :: 0 <= i < |es| ==> es[i].Tick?
    requires k < |Recorded(es)|
    ensures Recorded(es)[k].attempt == k + 1
  {
    hide Delay;
    var before := es[..|es| - 1];
    EntryIsLast(before);
    if k < |Recorded(before)| {
      Numbered(before, k);
    } else if k > 0 {
      Numbered(before, k - 1);
    }
  }

  /** No attempt is late either, restarts or not: the first tick at or after the end of a wait makes it. */
  lemma NoAttemptIsLate(es: seq<Event>, now: int)
    requires Recorded(es) != [] && InOrder(es + [Tick(now)])
    ensures
      var r := Recorded(es);
      |Recorded(es + [Tick(now)])| == if now >= WaitEnds(r[|r| - 1]) then |r| + 1 else |r|
  {
    hide Delay;
    EntryIsLast(es);
    assert (es + [Tick(now)])[..|es|] == es;
    var last := Recorded(es)[|Recorded(es)| - 1];
    if i :| 0 <= i < |es| && es[i].Restart? && es[i].at >= WaitEnds(last) {
      assert (es + [Tick(now)])[i].at <= (es + [Tick(now)])[|es|].at;
    }
  }

  // ---------------------------------------------------------------- restarts

  /** A restart never changes when the next attempt is made: a running wait is kept, and only a wait that is over is
      forgotten. */
  lemma RestartKeepsTheWait(b: Option<Backoff>, restart: int, now: int)
    requires restart <= now
    ensures Attempts(Load1(b, restart), now) <==> Attempts(b, now)
    ensures b.Some? && b.value.nextRetryAtMs > restart ==> Tick1(Load1(b, restart), now) == Tick1(b, now)
  {
  }

  // ---------------------------------------------------------------- the service

  function Find(m: map<string, Backoff>, app: string): Option<Backoff> {
    if app in m then Some(m[app]) else None
  }

  /** One app that needs a refresh, and whether its device is connected. */
  datatype Due = Due(app: string, connected: bool)

  function TickApp(m: map<string, Backoff>, due: Due, now: int): map<string, Backoff> {
    if due.connected then m - {due.app}
    else
      match Tick1(Find(m, due.app), now)
      case Some(b) => m[due.app := b]
      case None => m
  }

  function TickAll(m: map<string, Backoff>, dues: seq<Due>, now: int): map<string, Backoff> {
    if dues == [] then m else TickApp(TickAll(m, dues[..|dues| - 1], now), dues[|dues| - 1], now)
  }

  /** A tick treats each app on its own: an app that is due without its device moves by Tick1, one whose device is there
      is forgotten, any other is left alone. */
  lemma {:induction false} TickIsPerApp(m: map<string, Backoff>, dues: seq<Due>, now: int, app: string)
    requires forall i, j :: 0 <= i < j < |dues| ==> dues[i].app != dues[j].app
    ensures Find(TickAll(m, dues, now), app)
         == if Due(app, false) in dues then Tick1(Find(m, app), now)
            else if Due(app, true) in dues then None else Find(m, app)
  {
    hide Delay, Tick1;
    if dues != [] {
      var before, last := dues[..|dues| - 1], dues[|dues| - 1];
      TickIsPerApp(m, before, now, app);
      assert dues == before + [last];
      if last.app == app {
        assert Due(app, false) !in before && Due(app, true) !in before;
        TickOfOwn(TickAll(m, before, now), last, now);
      } else {
        assert last != Due(app, false) && last != Due(app, true);
      }
    }
  }

  lemma TickOfOwn(m: map<string, Backoff>, due: Due, now: int)
    ensures Find(TickApp(m, due, now), due.app) == if due.connected then None else Tick1(Find(m, due.app), now)
  {
  }

  function Load(stored: map<string, Backoff>, now: int): map<string, Backoff> {
    map app | app in stored && stored[app].nextRetryAtMs > now :: stored[app]
  }

  /** The stored setting is the memory plus entries whose wait was over at the last start. */
  ghost predicate InStep(memory: map<string, Backoff>, stored: map<string, Backoff>, loadedAt: int) {
    forall app :: if app in memory then app in stored && stored[app] == memory[app]
                  else app in stored ==> stored[app].nextRetryAtMs <= loadedAt
  }

  /** A restart loads exactly the entries of the memory that are still in the future. */
  lemma RestartLoadsTheFuture(memory: map<string, Backoff>, stored: map<string, Backoff>, loadedAt: int, now: int)
    requires InStep(memory, stored, loadedAt) && loadedAt <= now
    ensures Load(stored, now) == map app | app in memory && memory[app].nextRetryAtMs > now :: memory[app]
  {
  }

  /** For each app that is what the stretches above take a restart to do. */
  lemma RestartIsPerApp(memory: map<string, Backoff>, stored: map<string, Backoff>, loadedAt: int, now: int,
                        app: string)
    requires InStep(memory, stored, loadedAt) && loadedAt <= now
    ensures Find(Load(stored, now), app) == Load1(Find(memory, app), now)
  {
  }

  class SchedulerService {
    var retryBackoff: map<string, Backoff>
    var setting: map<string, Backoff>
    ghost var loadedAt: int

    ghost predicate Valid()
      reads this
    {
      InStep(retryBackoff, setting, loadedAt)
    }

    /** A new process loads the setting the last one left. */
    constructor (stored: map<string, Backoff>, now: int)
      ensures Valid() && retryBackoff == Load(stored, now) && setting == stored && loadedAt == now
    {
      var loaded: map<string, Backoff> := map[];
      var keys := stored.Keys;
      ghost var seen: set<string> := {};
      while keys != {}
        invariant seen !! keys && seen + keys == stored.Keys
        invariant loaded == map app | app in seen && stored[app].nextRetryAtMs > now :: stored[app]
        decreases keys
      {
        var app :| app in keys;
        if stored[app].nextRetryAtMs > now {
          loaded := loaded[app := stored[app]];
        }
        keys, seen := keys - {app}, seen + {app};
      }
      retryBackoff, setting, loadedAt := loaded, stored, now;
    }

    method PersistRetryBackoff()
      modifies this`setting
      ensures setting == retryBackoff
    {
      setting := retryBackoff;
    }

    /** The loop of a tick over the apps that need a refresh. */
    method Tick(dues: seq<Due>, now: int)
      requires Valid()
      modifies this`retryBackoff, this`setting
      ensures Valid() && retryBackoff == TickAll(old(retryBackoff), dues, now)
      ensures setting == retryBackoff || (setting == old(setting) && retryBackoff == old(retryBackoff))
    {
      var i := 0;
      while i < |dues|
        invariant 0 <= i <= |dues| && Valid()
        invariant retryBackoff == TickAll(old(retryBackoff), dues[..i], now)
        invariant setting == retryBackoff || (setting == old(setting) && retryBackoff == old(retryBackoff))
      {
        assert dues[..i + 1][..i] == dues[..i];
        var app := dues[i].app;
        if !dues[i].connected {
          if app in retryBackoff && now < retryBackoff[app].nextRetryAtMs {
            assert retryBackoff[app := retryBackoff[app]] == retryBackoff;
          } else {
            var nextAttempt := (if app in retryBackoff then retryBackoff[app].attempt else 0) + 1;
            retryBackoff := retryBackoff[app := Backoff(nextAttempt, now + Delay(nextAttempt) * MINUTE)];
            PersistRetryBackoff();
          }
        } else if app in retryBackoff {
          retryBackoff := retryBackoff - {app};
          PersistRetryBackoff();
        } else {
          assert retryBackoff - {app} == retryBackoff;
        }
        i := i + 1;
      }
      assert dues[..i] == dues;
    }
  }
}
