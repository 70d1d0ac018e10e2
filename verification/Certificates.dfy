/** Signing certificates: the rows (src/server/state/database.ts) and ensureCertificate with its in-flight map
    (src/server/apple/certificate-manager.ts). */
module Certificates {
  import opened Wrappers
  import opened SingleFlight

  /** Account and team. */
  type Key = (string, string)

  /** `readable`: the stored private key can be decrypted. */
  datatype Cert = Cert(id: nat, key: Key, expires: int, revoked: bool, readable: bool)

  /** A row the query of getActiveCertificate selects. */
  predicate Usable(c: Cert, key: Key, now: int) {
    c.key == key && !c.revoked && c.expires > now
  }

  // ---------------------------------------------------------------- getActiveCertificate

  /** Rows are newest first. Candidates that cannot be decrypted are marked revoked on the way to the first that can. */
  function Active(db: seq<Cert>, key: Key, now: int): (r: (seq<Cert>, Option<Cert>))
    ensures |r.0| == |db|
  {
    if db == [] then ([], None)
    else if !Usable(db[0], key, now) then
      var (rest, c) := Active(db[1..], key, now);
      ([db[0]] + rest, c)
    else if db[0].readable then (db, Some(db[0]))
    else
      var (rest, c) := Active(db[1..], key, now);
      ([db[0].(revoked := true)] + rest, c)
  }

  /** What quarantining may do to a row: nothing, or mark an undecryptable one revoked. */
  predicate Quarantined(before: Cert, after: Cert) {
    after == before || (after == before.(revoked := true) && !before.readable)
  }

  /** The result is the newest usable certificate that can be decrypted; without one, no usable row is left. */
  lemma {:induction false} ActiveIs(db: seq<Cert>, key: Key, now: int)
    ensures
      var (after, c) := Active(db, key, now);
      && (forall i :: 0 <= i < |db| ==> Quarantined(db[i], after[i]))
      && (c == None ==> forall i :: 0 <= i < |db| ==> !Usable(after[i], key, now))
      && (c.Some? ==> exists i :: 0 <= i < |db| && FirstReadable(db, after, key, now, i, c.value))
  {
    if db != [] && Usable(db[0], key, now) && db[0].readable {
      assert FirstReadable(db, db, key, now, 0, db[0]);
    } else if db != [] {
      ActiveIs(db[1..], key, now);
      var (rest, c) := Active(db[1..], key, now);
      var first := if Usable(db[0], key, now) then db[0].(revoked := true) else db[0];
      assert Active(db, key, now) == ([first] + rest, c);
      hide Active;
      assert forall i :: 1 <= i < |db| ==> ([first] + rest)[i] == rest[i - 1] && db[i] == db[1..][i - 1];
      if c.Some? {
        ActiveTailFirst(db, rest, first, key, now, c.value);
      }
    }
  }

  /** `c` is row `i`, usable and readable, and no row before it is usable any more. */
  predicate FirstReadable(db: seq<Cert>, after: seq<Cert>, key: Key, now: int, i: nat, c: Cert) {
    && i < |db| == |after| && db[i] == c == after[i] && Usable(c, key, now) && c.readable
    && (forall j :: 0 <= j < i ==> !Usable(after[j], key, now))
    && (forall j :: i < j < |db| ==> after[j] == db[j])
  }

  lemma ActiveTailFirst(db: seq<Cert>, rest: seq<Cert>, first: Cert, key: Key, now: int, c: Cert)
    requires db != [] && !Usable(first, key, now)
    requires exists i :: 0 <= i < |rest| && FirstReadable(db[1..], rest, key, now, i, c)
    ensures exists i :: 0 <= i < |db| && FirstReadable(db, [first] + rest, key, now, i, c)
  {
    hide Usable;
    var i :| 0 <= i < |rest| && FirstReadable(db[1..], rest, key, now, i, c);
    forall j | 0 <= j < i + 1 ensures !Usable(([first] + rest)[j], key, now) {
      if j > 0 { assert !Usable(rest[j - 1], key, now); }
    }
    forall j | i + 1 < j < |db| ensures ([first] + rest)[j] == db[j] {
      assert rest[j - 1] == db[1..][j - 1];
    }
    assert FirstReadable(db, [first] + rest, key, now, i + 1, c);
  }

  /** One row of the loop. */
  lemma ActiveStep(db: seq<Cert>, key: Key, now: int, i: nat)
    requires i < |db|
    ensures
      var (after, c) := Active(db[i..], key, now);
      var (rest, d) := Active(db[i + 1..], key, now);
      if !Usable(db[i], key, now) then after == [db[i]] + rest && c == d
      else if db[i].readable then after == db[i..] && c == Some(db[i])
      else after == [db[i].(revoked := true)] + rest && c == d
  {
    assert db[i..][1..] == db[i + 1..];
  }

  method GetActiveCertificate(rows: seq<Cert>, key: Key, now: int) returns (db: seq<Cert>, cert: Option<Cert>)
    ensures db == Active(rows, key, now).0 && cert == Active(rows, key, now).1
  {
    hide Active, Usable;
    db := rows;
    var i := 0;
    assert rows[0..] == rows;
    while i < |rows|
      invariant 0 <= i <= |rows| == |db|
      invariant db[i..] == rows[i..]
      invariant Active(rows, key, now).0 == db[..i] + Active(rows[i..], key, now).0
      invariant Active(rows, key, now).1 == Active(rows[i..], key, now).1
    {
      ActiveStep(rows, key, now, i);
      assert db[i] == rows[i..][0] && db[i + 1..] == rows[i..][1..];
      ghost var before := db;
      if Usable(db[i], key, now) {
        if db[i].readable {
          assert db == db[..i] + db[i..];
          return db, Some(db[i]);
        }
        db := db[i := db[i].(revoked := true)];
      }
      assert db[..i + 1] == before[..i] + [db[i]];
      i := i + 1;
    }
    NoRows(key, now);
    assert db[..i] == db && rows[i..] == [];
    cert := None;
  }

  lemma NoRows(key: Key, now: int)
    ensures Active([], key, now) == ([], None)
  {
  }

  // ---------------------------------------------------------------- ensureCertificate

  /** What a task awaits: the portal's list, a revocation, or the answer to the certificate request. */
  datatype Await = Listing | Revoking | Requesting

  /** `clear`: when it was decided to create a certificate no usable row was left (a history variable). */
  datatype Stage = Working(at: Await, clear: bool) | Over(id: Option<nat>)

  datatype State = State(db: seq<Cert>, flight: Flight<Key>, stages: seq<Stage>, nextId: nat, now: int)

  /** `Call(key, ms)`: the two clock reads of ensureCertificateImpl are `ms` apart. */
  datatype Event =
    | Call(key: Key, ms: nat)
    | Listed(task: nat) | Reclaimed(task: nat, id: nat) | Requested(task: nat)
    | Issued(task: nat, expires: int) | Broken(task: nat) | CleanUp(task: nat)
    | Revoked(id: nat) | Quarantine(id: nat) | Tick(ms: nat)

  predicate At(s: State, i: nat, at: Await) {
    && i < |s.stages| && i < |s.flight.tasks| && s.flight.tasks[i].phase == Open
    && s.stages[i].Working? && s.stages[i].at == at
  }

  predicate Enabled(s: State, e: Event) {
    match e
    case Listed(i) => At(s, i, Listing)
    case Reclaimed(i, _) => At(s, i, Revoking)
    case Requested(i) => At(s, i, Revoking)
    case Issued(i, _) => At(s, i, Requesting)
    case Broken(i) => i < |s.stages| && i < |s.flight.tasks| && s.flight.tasks[i].phase == Open && s.stages[i].Working?
    case CleanUp(i) => In(s.flight, i, Settled)
    case _ => true
  }

  predicate NoneUsable(db: seq<Cert>, key: Key, now: int) {
    forall i :: 0 <= i < |db| ==> !Usable(db[i], key, now)
  }

  /** The stretch up to the first await: return a stored certificate or go and create one. */
  function CallStep(s: State, key: Key, ms: nat): State {
    if key in s.flight.inflight then s.(now := s.now + ms)
    else
      var (db, c) := Active(s.db, key, s.now);
      var (flight, i) := Join(s.flight, key);
      if c.Some? && c.value.expires > s.now + ms then
        s.(db := db, flight := Settle(flight, i), stages := s.stages + [Over(Some(c.value.id))], now := s.now + ms)
      else
        s.(db := db, flight := flight, stages := s.stages + [Working(Listing, NoneUsable(db, key, s.now + ms))],
           now := s.now + ms)
  }

  function Update(db: seq<Cert>, id: nat, revokeAll: bool): (r: seq<Cert>)
    ensures |r| == |db|
  {
    seq(|db|, i requires 0 <= i < |db| =>
      if db[i].id == id && (revokeAll || !db[i].readable) then db[i].(revoked := true) else db[i])
  }

  /** hardDeleteCertificate */
  function Delete(db: seq<Cert>, id: nat): seq<Cert> {
    if db == [] then [] else (if db[0].id == id then [] else [db[0]]) + Delete(db[1..], id)
  }

  predicate Unreadable(db: seq<Cert>, id: nat) {
    exists i :: 0 <= i < |db| && db[i].id == id && !db[i].readable
  }

  function Step(s: State, e: Event): State
    requires Enabled(s, e)
  {
    match e
    case Call(key, ms) => CallStep(s, key, ms)
    case Listed(i) => s.(stages := s.stages[i := s.stages[i].(at := Revoking)])
    case Reclaimed(i, id) =>
      if Unreadable(s.db, id) then s.(db := Delete(s.db, id)) else s.(db := Update(s.db, id, true))
    case Requested(i) => s.(stages := s.stages[i := s.stages[i].(at := Requesting)])
    case Issued(i, expires) =>
      s.(db := [Cert(s.nextId, s.flight.tasks[i].key, expires, false, true)] + s.db, nextId := s.nextId + 1,
         flight := Settle(s.flight, i), stages := s.stages[i := Over(Some(s.nextId))])
    case Broken(i) => s.(flight := Settle(s.flight, i), stages := s.stages[i := Over(None)])
    case CleanUp(i) => s.(flight := Remove(s.flight, i))
    case Revoked(id) => s.(db := Update(s.db, id, true))
    case Quarantine(id) => s.(db := Update(s.db, id, false))
    case Tick(ms) => s.(now := s.now + ms)
  }

  function From(s: State, es: seq<Event>): Option<State> {
    if es == [] then Some(s)
    else
      match From(s, es[..|es| - 1])
      case None => None
      case Some(t) => if Enabled(t, es[|es| - 1]) then Some(Step(t, es[|es| - 1])) else None
  }

  /** A server start on any table. */
  function Start(db: seq<Cert>, nextId: nat, now: int): State {
    State(db, Nothing(), [], nextId, now)
  }

  // ---------------------------------------------------------------- invariants

  /** `a` makes no more rows usable than `b`: each usable row of `a` was one of `b`. */
  predicate NoMore(a: seq<Cert>, b: seq<Cert>, key: Key, now: int) {
    NoneUsable(b, key, now) ==> NoneUsable(a, key, now)
  }

  predicate StageFits(s: State, i: nat)
    requires i < |s.stages| == |s.flight.tasks|
  {
    && (s.flight.tasks[i].phase == Open <==> s.stages[i].Working?)
    && (s.stages[i].Working? && s.stages[i].clear ==> NoneUsable(s.db, s.flight.tasks[i].key, s.now))
  }

  predicate Valid(s: State) {
    && SingleFlight.Inv(s.flight) && |s.stages| == |s.flight.tasks|
    && (forall i :: 0 <= i < |s.stages| ==> StageFits(s, i))
  }

  lemma ActiveLeavesNoMore(db: seq<Cert>, key: Key, now: int, k: Key, later: int)
    requires now <= later
    ensures NoMore(Active(db, key, now).0, db, k, later)
    ensures NoneUsable(db, k, now) ==> NoneUsable(db, k, later)
  {
    ActiveIs(db, key, now);
  }

  lemma UpdateLeavesNoMore(db: seq<Cert>, id: nat, all: bool, k: Key, now: int)
    ensures NoMore(Update(db, id, all), db, k, now)
  {
  }

  lemma {:induction false} DeleteKeepsRest(db: seq<Cert>, id: nat, i: nat) returns (j: nat)
    requires i < |Delete(db, id)|
    ensures j < |db| && db[j] == Delete(db, id)[i] && j >= i
  {
    if db[0].id == id {
      j := DeleteKeepsRest(db[1..], id, i);
      j := j + 1;
    } else if i == 0 {
      j := 0;
    } else {
      j := DeleteKeepsRest(db[1..], id, i - 1);
      j := j + 1;
    }
  }

  lemma DeleteOne(c: Cert, id: nat)
    ensures Delete([c], id) == if c.id == id then [] else [c]
  {
    assert [c][1..] == [];
  }

  /** Row by row: with DeleteOne this says that exactly the rows with that id go and the others keep their order. */
  lemma {:induction false} DeleteSplits(a: seq<Cert>, b: seq<Cert>, id: nat)
    ensures Delete(a + b, id) == Delete(a, id) + Delete(b, id)
  {
    hide Delete;
    if a == [] {
      assert a + b == b;
      DeleteNothing(id);
    } else {
      DeleteSplits(a[1..], b, id);
      assert (a + b)[1..] == a[1..] + b;
      DeleteHead(a, id);
      DeleteHead(a + b, id);
    }
  }

  lemma DeleteNothing(id: nat)
    ensures Delete([], id) == []
  {
  }

  lemma DeleteHead(db: seq<Cert>, id: nat)
    requires db != []
    ensures Delete(db, id) == (if db[0].id == id then [] else [db[0]]) + Delete(db[1..], id)
  {
  }

  lemma {:induction false} DeleteIs(db: seq<Cert>, id: nat)
    ensures forall c :: multiset(Delete(db, id))[c] == if c.id == id then 0 else multiset(db)[c]
  {
    if db != [] {
      DeleteIs(db[1..], id);
      assert db == [db[0]] + db[1..];
    }
  }

  lemma DeleteLeavesNoMore(db: seq<Cert>, id: nat, k: Key, now: int)
    ensures NoMore(Delete(db, id), db, k, now)
  {
    if NoneUsable(db, k, now) {
      forall i | 0 <= i < |Delete(db, id)| ensures !Usable(Delete(db, id)[i], k, now) {
        var j := DeleteKeepsRest(db, id, i);
      }
    }
  }

  lemma RowsShrink(s: State, db: seq<Cert>, now: int)
    requires Valid(s) && s.now <= now
    requires forall k, later :: s.now <= later ==> NoMore(db, s.db, k, later)
    ensures Valid(s.(db := db, now := now))
  {
    var t := s.(db := db, now := now);
    forall i | 0 <= i < |t.stages| ensures StageFits(t, i) {
      assert StageFits(s, i);
      var k := s.flight.tasks[i].key;
      assert NoneUsable(s.db, k, s.now) ==> NoneUsable(s.db, k, now);
      assert NoMore(db, s.db, k, now);
    }
  }

  lemma CallKeeps(s: State, key: Key, ms: nat)
    requires Valid(s)
    ensures Valid(CallStep(s, key, ms))
  {
    hide Active, Usable, NoneUsable;
    var (db, c) := Active(s.db, key, s.now);
    forall k, later | s.now <= later ensures NoMore(db, s.db, k, later) {
      ActiveLeavesNoMore(s.db, key, s.now, k, later);
    }
    if key in s.flight.inflight {
      forall k, later | s.now <= later ensures NoMore(s.db, s.db, k, later) {
      }
      RowsShrink(s, s.db, s.now + ms);
    } else {
      RowsShrink(s, db, s.now + ms);
      AddTask(s.(db := db, now := s.now + ms), key);
    }
  }

  lemma AddTask(s: State, key: Key)
    requires Valid(s) && key !in s.flight.inflight
    ensures
      var (flight, i) := Join(s.flight, key);
      && Valid(s.(flight := flight, stages := s.stages + [Working(Listing, NoneUsable(s.db, key, s.now))]))
      && forall id :: Valid(s.(flight := Settle(flight, i), stages := s.stages + [Over(id)]))
  {
    hide NoneUsable, SingleFlight.Inv;
    var (flight, i) := Join(s.flight, key);
    FlightKeeps(s.flight, key, 0);
    FlightKeeps(flight, key, i);
    forall j | 0 <= j < |s.stages| ensures flight.tasks[j] == s.flight.tasks[j] && StageFits(s, j) {
    }
  }

  /** A new row belongs to the key of the one open task of that key. */
  lemma IssueKeeps(s: State, i: nat, expires: int)
    requires Valid(s) && At(s, i, Requesting)
    ensures Valid(Step(s, Issued(i, expires)))
  {
    var t := Step(s, Issued(i, expires));
    FlightKeeps(s.flight, s.flight.tasks[i].key, i);
    forall j | 0 <= j < |t.stages| ensures StageFits(t, j) {
      assert StageFits(s, j);
      if j != i && s.flight.tasks[j].phase == Open {
        assert s.flight.tasks[j].key != s.flight.tasks[i].key;
        assert forall k :: 1 <= k < |t.db| ==> t.db[k] == s.db[k - 1];
      }
    }
  }

  lemma StepKeeps(s: State, e: Event)
    requires Valid(s) && Enabled(s, e)
    ensures Valid(Step(s, e))
  {
    hide NoneUsable, SingleFlight.Inv, StageFits, CallStep, NoMore, Unreadable, Update, Delete;
    match e
    case Call(key, ms) => CallKeeps(s, key, ms);
    case Listed(i) => StageMoves(s, i, Revoking);
    case Requested(i) => StageMoves(s, i, Requesting);
    case Reclaimed(i, id) =>
      forall k, later | s.now <= later
        ensures NoMore(Delete(s.db, id), s.db, k, later) && NoMore(Update(s.db, id, true), s.db, k, later)
      {
        DeleteLeavesNoMore(s.db, id, k, later);
        UpdateLeavesNoMore(s.db, id, true, k, later);
      }
      RowsShrink(s, Delete(s.db, id), s.now);
      RowsShrink(s, Update(s.db, id, true), s.now);
    case Issued(i, expires) => IssueKeeps(s, i, expires);
    case Broken(i) => TaskEnds(s, i);
    case CleanUp(i) => TaskRemoved(s, i);
    case Revoked(id) =>
      forall k, later | s.now <= later ensures NoMore(Update(s.db, id, true), s.db, k, later) {
        UpdateLeavesNoMore(s.db, id, true, k, later);
      }
      RowsShrink(s, Update(s.db, id, true), s.now);
    case Quarantine(id) =>
      forall k, later | s.now <= later ensures NoMore(Update(s.db, id, false), s.db, k, later) {
        UpdateLeavesNoMore(s.db, id, false, k, later);
      }
      RowsShrink(s, Update(s.db, id, false), s.now);
    case Tick(ms) =>
      forall k, later | s.now <= later ensures NoMore(s.db, s.db, k, later) {
        SameNoMore(s.db, k, later);
      }
      RowsShrink(s, s.db, s.now + ms);
  }

  lemma SameNoMore(db: seq<Cert>, k: Key, now: int)
    ensures NoMore(db, db, k, now)
  {
  }

  lemma StageMoves(s: State, i: nat, at: Await)
    requires Valid(s) && i < |s.stages| && s.stages[i].Working?
    ensures Valid(s.(stages := s.stages[i := s.stages[i].(at := at)]))
  {
    hide NoneUsable, SingleFlight.Inv;
    var t := s.(stages := s.stages[i := s.stages[i].(at := at)]);
    forall j | 0 <= j < |t.stages| ensures StageFits(t, j) {
      assert StageFits(s, j);
    }
  }

  lemma TaskEnds(s: State, i: nat)
    requires Valid(s) && In(s.flight, i, Open)
    ensures Valid(s.(flight := Settle(s.flight, i), stages := s.stages[i := Over(None)]))
  {
    hide NoneUsable, SingleFlight.Inv;
    var t := s.(flight := Settle(s.flight, i), stages := s.stages[i := Over(None)]);
    FlightKeeps(s.flight, s.flight.tasks[i].key, i);
    forall j | 0 <= j < |t.stages| ensures StageFits(t, j) {
      assert StageFits(s, j);
    }
  }

  lemma TaskRemoved(s: State, i: nat)
    requires Valid(s) && In(s.flight, i, Settled)
    ensures Valid(s.(flight := Remove(s.flight, i)))
  {
    hide NoneUsable, SingleFlight.Inv;
    var t := s.(flight := Remove(s.flight, i));
    FlightKeeps(s.flight, s.flight.tasks[i].key, i);
    forall j | 0 <= j < |t.stages| ensures StageFits(t, j) {
      assert StageFits(s, j);
    }
  }

  lemma {:induction false} ValidHolds(s: State, es: seq<Event>)
    requires Valid(s) && From(s, es).Some?
    ensures Valid(From(s, es).value)
  {
    hide Valid, Step, Enabled;
    if es != [] {
      ValidHolds(s, es[..|es| - 1]);
      StepKeeps(From(s, es[..|es| - 1]).value, es[|es| - 1]);
    }
  }

  lemma StartIsValid(db: seq<Cert>, nextId: nat, now: int)
    ensures Valid(Start(db, nextId, now))
  {
  }

  // ---------------------------------------------------------------- the created certificate is the only usable one

  /** A task that finds no certificate to return is clear: whatever could not be decrypted has been quarantined. */
  lemma NothingFoundIsClear(s: State, key: Key, ms: nat)
    requires key !in s.flight.inflight && Active(s.db, key, s.now).1 == None
    ensures CallStep(s, key, ms).stages == s.stages + [Working(Listing, true)]
  {
    ActiveIs(s.db, key, s.now);
  }

  /** On any table, in any interleaving: the certificate a clear task creates is the only usable one of its account and
      team, its id is what all who joined get, and every caller still coming joins as well. */
  lemma CreatedIsTheOnlyUsable(db: seq<Cert>, nextId: nat, now: int, es: seq<Event>, i: nat, expires: int)
    requires From(Start(db, nextId, now), es).Some?
    requires Enabled(From(Start(db, nextId, now), es).value, Issued(i, expires))
    requires From(Start(db, nextId, now), es).value.stages[i].clear
    ensures
      var s := From(Start(db, nextId, now), es).value;
      var t, key := Step(s, Issued(i, expires)), s.flight.tasks[i].key;
      && (forall k :: 0 <= k < |t.db| && Usable(t.db[k], key, t.now) ==> k == 0)
      && t.stages[i] == Over(Some(t.db[0].id)) && t.db[0].key == key
      && (Usable(t.db[0], key, t.now) <==> expires > t.now)
      && Join(s.flight, key) == (s.flight, i) && Join(t.flight, key) == (t.flight, i)
  {
    StartIsValid(db, nextId, now);
    ValidHolds(Start(db, nextId, now), es);
    var s := From(Start(db, nextId, now), es).value;
    var t, key := Step(s, Issued(i, expires)), s.flight.tasks[i].key;
    assert StageFits(s, i);
    hide From, StageFits;
    assert forall k :: 1 <= k < |t.db| ==> t.db[k] == s.db[k - 1];
  }

  // ---------------------------------------------------------------- at most one, always

  function UsableCount(db: seq<Cert>, key: Key, now: int): nat {
    if db == [] then 0 else (if Usable(db[0], key, now) then 1 else 0) + UsableCount(db[1..], key, now)
  }

  lemma {:induction false} CountZero(db: seq<Cert>, key: Key, now: int)
    ensures UsableCount(db, key, now) == 0 <==> NoneUsable(db, key, now)
  {
    if db != [] {
      CountZero(db[1..], key, now);
      assert NoneUsable(db, key, now) ==> NoneUsable(db[1..], key, now);
      assert NoneUsable(db[1..], key, now) && !Usable(db[0], key, now) ==> NoneUsable(db, key, now) by {
        assert forall i :: 1 <= i < |db| ==> db[i] == db[1..][i - 1];
      }
    }
  }

  lemma {:induction false} CountShrinks(a: seq<Cert>, b: seq<Cert>, key: Key, now: int, later: int)
    requires |a| == |b| && forall i :: 0 <= i < |a| && Usable(a[i], key, later) ==> Usable(b[i], key, now)
    ensures UsableCount(a, key, later) <= UsableCount(b, key, now)
  {
    hide Usable;
    if a != [] {
      CountShrinks(a[1..], b[1..], key, now, later);
    }
  }

  lemma {:induction false} DeleteCount(db: seq<Cert>, id: nat, key: Key, now: int)
    ensures UsableCount(Delete(db, id), key, now) <= UsableCount(db, key, now)
  {
    hide Usable;
    if db != [] {
      DeleteCount(db[1..], id, key, now);
      assert Delete(db, id) == (if db[0].id == id then [] else [db[0]]) + Delete(db[1..], id);
      if db[0].id != id {
        assert Delete(db, id)[1..] == Delete(db[1..], id);
      } else {
        assert Delete(db, id) == Delete(db[1..], id);
      }
    }
  }

  lemma {:induction false} TwoCount(db: seq<Cert>, key: Key, now: int, i: nat, j: nat)
    requires i < j < |db| && Usable(db[i], key, now) && Usable(db[j], key, now)
    ensures UsableCount(db, key, now) >= 2
  {
    hide Usable;
    if i == 0 {
      CountPositive(db[1..], key, now, j - 1);
    } else {
      TwoCount(db[1..], key, now, i - 1, j - 1);
    }
  }

  lemma CountPositive(db: seq<Cert>, key: Key, now: int, i: nat)
    requires i < |db| && Usable(db[i], key, now)
    ensures UsableCount(db, key, now) >= 1
  {
    CountZero(db, key, now);
  }

  /** At most one usable certificate, and every task that may still create one is clear. */
  predicate AtMostOne(s: State, key: Key) {
    && UsableCount(s.db, key, s.now) <= 1
    && forall i :: 0 <= i < |s.stages| && i < |s.flight.tasks| && s.flight.tasks[i].key == key ==>
         s.stages[i].Working? ==> s.stages[i].clear
  }

  lemma ActiveCount(db: seq<Cert>, key: Key, now: int, k: Key, later: int)
    requires now <= later
    ensures UsableCount(Active(db, key, now).0, k, later) <= UsableCount(db, k, now)
  {
    ActiveIs(db, key, now);
    hide Active;
    CountShrinks(Active(db, key, now).0, db, k, now, later);
  }

  /** With at most one candidate, a certificate that expires between the two clock reads leaves none behind. */
  lemma ExpiredWasTheOnlyOne(db: seq<Cert>, key: Key, now: int, later: int)
    requires now <= later && UsableCount(db, key, now) <= 1
    requires Active(db, key, now).1.Some? && Active(db, key, now).1.value.expires <= later
    ensures NoneUsable(Active(db, key, now).0, key, later)
  {
    ActiveIs(db, key, now);
    var (after, c) := Active(db, key, now);
    var i :| 0 <= i < |db| && FirstReadable(db, after, key, now, i, c.value);
    hide Active;
    forall j | 0 <= j < |after| ensures !Usable(after[j], key, later) {
      if Usable(after[j], key, later) {
        assert Quarantined(db[j], after[j]) && Usable(db[j], key, now) && j != i;
        TwoCount(db, key, now, if i < j then i else j, if i < j then j else i);
      }
    }
  }

  lemma CallKeepsOne(s: State, caller: Key, ms: nat, key: Key)
    requires Valid(s) && AtMostOne(s, key)
    ensures AtMostOne(CallStep(s, caller, ms), key)
  {
    hide SingleFlight.Inv, StageFits, Active, Usable, NoneUsable;
    var t := CallStep(s, caller, ms);
    ActiveCount(s.db, caller, s.now, key, s.now + ms);
    TimeCount(s.db, key, s.now, s.now + ms);
    if caller == key && caller !in s.flight.inflight {
      var c := Active(s.db, key, s.now).1;
      if c == None {
        NothingFoundIsClear(s, key, ms);
      } else if c.value.expires <= s.now + ms {
        ExpiredWasTheOnlyOne(s.db, key, s.now, s.now + ms);
      }
    }
  }

  lemma TimeCount(db: seq<Cert>, key: Key, now: int, later: int)
    requires now <= later
    ensures UsableCount(db, key, later) <= UsableCount(db, key, now)
  {
    CountShrinks(db, db, key, now, later);
  }

  lemma UpdateCount(db: seq<Cert>, id: nat, all: bool, key: Key, now: int)
    ensures UsableCount(Update(db, id, all), key, now) <= UsableCount(db, key, now)
  {
    CountShrinks(Update(db, id, all), db, key, now, now);
  }

  lemma IssueKeepsOne(s: State, i: nat, expires: int, key: Key)
    requires Valid(s) && AtMostOne(s, key) && At(s, i, Requesting)
    ensures AtMostOne(Step(s, Issued(i, expires)), key)
  {
    hide SingleFlight.Inv, NoneUsable;
    var t := Step(s, Issued(i, expires));
    assert t.db[1..] == s.db;
    assert StageFits(s, i);
    CountZero(s.db, s.flight.tasks[i].key, s.now);
  }

  lemma StepKeepsOne(s: State, e: Event, key: Key)
    requires Valid(s) && AtMostOne(s, key) && Enabled(s, e)
    ensures AtMostOne(Step(s, e), key)
  {
    hide UsableCount, NoneUsable, SingleFlight.Inv, StageFits, CallStep, Unreadable, Update, Delete;
    match e
    case Call(caller, ms) => CallKeepsOne(s, caller, ms, key);
    case Issued(i, expires) => IssueKeepsOne(s, i, expires, key);
    case Reclaimed(i, id) =>
      DeleteCount(s.db, id, key, s.now);
      UpdateCount(s.db, id, true, key, s.now);
    case Revoked(id) => UpdateCount(s.db, id, true, key, s.now);
    case Quarantine(id) => UpdateCount(s.db, id, false, key, s.now);
    case Tick(ms) => TimeCount(s.db, key, s.now, s.now + ms);
    case _ =>
  }

  lemma {:induction false} OneHolds(s: State, es: seq<Event>, key: Key)
    requires Valid(s) && AtMostOne(s, key) && From(s, es).Some?
    ensures Valid(From(s, es).value) && AtMostOne(From(s, es).value, key)
  {
    hide Valid, Step, Enabled, AtMostOne;
    if es != [] {
      OneHolds(s, es[..|es| - 1], key);
      StepKeeps(From(s, es[..|es| - 1]).value, es[|es| - 1]);
      StepKeepsOne(From(s, es[..|es| - 1]).value, es[|es| - 1], key);
    }
  }

  /** A table with at most one usable certificate for an account and team never gets a second one, however calls for
      this and other keys, revocations, deletions, quarantines and the clock interleave. */
  lemma NeverASecondUsable(db: seq<Cert>, nextId: nat, now: int, es: seq<Event>, key: Key)
    requires UsableCount(db, key, now) <= 1 && From(Start(db, nextId, now), es).Some?
    ensures UsableCount(From(Start(db, nextId, now), es).value.db, key, From(Start(db, nextId, now), es).value.now) <= 1
  {
    StartIsValid(db, nextId, now);
    OneHolds(Start(db, nextId, now), es, key);
    hide From, UsableCount, Valid;
  }

  // ---------------------------------------------------------------- the two clock reads

  lemma FoundIsUsable(db: seq<Cert>, key: Key, now: int)
    ensures Active(db, key, now).1.Some? ==> Usable(Active(db, key, now).1.value, key, now)
  {
    hide Usable, Active;
    ActiveIs(db, key, now);
  }

  lemma FoundLater(c: Cert, key: Key, now: int, later: int)
    requires Usable(c, key, now) && c.expires > later
    ensures Usable(c, key, later)
  {
  }

  /** Row `i` is what a call at `now` finds: the newest usable row that can be decrypted. */
  predicate Found(db: seq<Cert>, key: Key, now: int, i: nat) {
    && i < |db| && Usable(db[i], key, now) && db[i].readable
    && forall j :: 0 <= j < i && Usable(db[j], key, now) ==> !db[j].readable
  }

  /** The row found expires by the second clock read and an older row is usable then. */
  predicate Race(db: seq<Cert>, key: Key, now: int, ms: nat, i: nat, j: nat) {
    Found(db, key, now, i) && db[i].expires <= now + ms && i < j < |db| && Usable(db[j], key, now + ms)
  }

  lemma {:induction false} FoundIsActive(db: seq<Cert>, key: Key, now: int, i: nat)
    requires Found(db, key, now, i)
    ensures Active(db, key, now).1 == Some(db[i])
    ensures forall j :: i < j < |db| ==> Active(db, key, now).0[j] == db[j]
  {
    if i > 0 {
      assert Found(db[1..], key, now, i - 1);
      FoundIsActive(db[1..], key, now, i - 1);
      assert forall j :: i < j < |db| ==> Active(db, key, now).0[j] == Active(db[1..], key, now).0[j - 1];
    }
  }

  lemma ActiveIsFound(db: seq<Cert>, key: Key, now: int) returns (i: nat)
    requires Active(db, key, now).1.Some?
    ensures FirstReadable(db, Active(db, key, now).0, key, now, i, Active(db, key, now).1.value)
    ensures Found(db, key, now, i)
  {
    ActiveIs(db, key, now);
    hide Active;
    var (after, c) := Active(db, key, now);
    i :| 0 <= i < |db| && FirstReadable(db, after, key, now, i, c.value);
    forall j | 0 <= j < i && Usable(db[j], key, now) ensures !db[j].readable {
      assert Quarantined(db[j], after[j]) && !Usable(after[j], key, now);
    }
  }

  /** There is a row to be found exactly when one is returned, and it is that one. */
  lemma FoundIff(db: seq<Cert>, key: Key, now: int)
    ensures Active(db, key, now).1.Some? <==> exists i :: 0 <= i < |db| && Found(db, key, now, i)
    ensures forall i :: 0 <= i < |db| && Found(db, key, now, i) ==> Active(db, key, now).1 == Some(db[i])
  {
    hide Active, Found;
    forall i | 0 <= i < |db| && Found(db, key, now, i) ensures Active(db, key, now).1 == Some(db[i]) {
      FoundIsActive(db, key, now, i);
    }
    if Active(db, key, now).1.Some? {
      var i := ActiveIsFound(db, key, now);
    }
  }

  predicate StartsUnclear(s: State, key: Key, ms: nat) {
    CallStep(s, key, ms).stages == s.stages + [Working(Listing, false)]
  }

  /** Exactly when a call goes on to create a certificate beside a usable one: in terms of the table before the call and
      its two clock reads, the row found expires between the reads and an older row outlives it. */
  lemma NotClearIff(s: State, key: Key, ms: nat)
    requires key !in s.flight.inflight
    ensures StartsUnclear(s, key, ms) <==> exists i, j :: Race(s.db, key, s.now, ms, i, j)
  {
    var (after, c) := Active(s.db, key, s.now);
    var later := s.now + ms;
    if i, j :| Race(s.db, key, s.now, ms, i, j) {
      RaceIsUnclear(s, key, ms, i, j);
    }
    if StartsUnclear(s, key, ms) {
      assert CallStep(s, key, ms).stages[|s.stages|] == Working(Listing, false);
      if c == None {
        NothingFoundIsClear(s, key, ms);
      }
      assert c.Some? && c.value.expires <= later && !NoneUsable(after, key, later);
      hide Active, CallStep;
      var i := ActiveIsFound(s.db, key, s.now);
      var j :| 0 <= j < |after| && Usable(after[j], key, later);
      assert Race(s.db, key, s.now, ms, i, j);
    }
  }

  lemma RaceIsUnclear(s: State, key: Key, ms: nat, i: nat, j: nat)
    requires key !in s.flight.inflight && Race(s.db, key, s.now, ms, i, j)
    ensures StartsUnclear(s, key, ms)
    ensures j < |CallStep(s, key, ms).db| && Usable(CallStep(s, key, ms).db[j], key, CallStep(s, key, ms).now)
    ensures CallStep(s, key, ms).flight == Join(s.flight, key).0 && CallStep(s, key, ms).now == s.now + ms
  {
    FoundIsActive(s.db, key, s.now, i);
    hide Active;
  }

  /** Every such call can leave two usable certificates of its account and team. */
  lemma RaceLeavesTwo(s: State, key: Key, ms: nat, i: nat, j: nat, expires: int)
    requires Valid(s) && key !in s.flight.inflight && Race(s.db, key, s.now, ms, i, j) && expires > s.now + ms
    ensures
      var n := |s.stages|;
      var t := From(s, [Call(key, ms), Listed(n), Requested(n), Issued(n, expires)]);
      t.Some? && UsableCount(t.value.db, key, t.value.now) >= 2
  {
    hide SingleFlight.Inv, StageFits, Active, Race, NoneUsable, CallStep, UsableCount;
    var n := |s.stages|;
    RaceIsUnclear(s, key, ms, i, j);
    var s1 := CallStep(s, key, ms);
    var s2 := s1.(stages := s1.stages[n := Working(Revoking, false)]);
    var s3 := s1.(stages := s1.stages[n := Working(Requesting, false)]);
    RaceRun(s, s1, s2, s3, Call(key, ms), Listed(n), Requested(n), Issued(n, expires));
    SecondUsable(Cert(s3.nextId, key, expires, false, true), s1.db, key, s1.now, j);
  }

  lemma SecondUsable(c: Cert, db: seq<Cert>, key: Key, now: int, j: nat)
    requires Usable(c, key, now) && j < |db| && Usable(db[j], key, now)
    ensures UsableCount([c] + db, key, now) >= 2
  {
    TwoCount([c] + db, key, now, 0, j + 1);
  }

  /** On a table with two usable certificates the newer one may expire between the two clock reads of a call: then a
      third is created although the older one is still usable. */
  lemma TwoClockReadsRace(key: Key)
    ensures
      var newer, older := Cert(1, key, 10, false, true), Cert(0, key, 100, false, true);
      var es := [Call(key, 1), Listed(0), Requested(0), Issued(0, 50)];
      && From(Start([newer, older], 2, 9), es).Some?
      && UsableCount(From(Start([newer, older], 2, 9), es).value.db, key, 10) == 2
  {
    var newer, older := Cert(1, key, 10, false, true), Cert(0, key, 100, false, true);
    var s0 := Start([newer, older], 2, 9);
    var e1, e2, e3, e4 := Call(key, 1), Listed(0), Requested(0), Issued(0, 50);
    var task := Task(key, Open);
    var s1 := State([newer, older], Flight(map[key := 0], [task]), [Working(Listing, false)], 2, 10);
    assert Usable([newer, older][1], key, 10);
    assert Step(s0, e1) == s1;
    var s2 := s1.(stages := [Working(Revoking, false)]);
    var s3 := s1.(stages := [Working(Requesting, false)]);
    RaceRun(s0, s1, s2, s3, e1, e2, e3, e4);
    var t := Step(s3, e4);
    assert t.db == [Cert(2, key, 50, false, true), newer, older];
    assert t.db[1..] == [newer, older] && [newer, older][1..] == [older] && [older][1..] == [];
    assert UsableCount([older], key, 10) == 1;
    assert UsableCount([newer, older], key, 10) == 1;
  }

  lemma RaceRun(s0: State, s1: State, s2: State, s3: State, e1: Event, e2: Event, e3: Event, e4: Event)
    requires Enabled(s0, e1) && Step(s0, e1) == s1 && Enabled(s1, e2) && Step(s1, e2) == s2
    requires Enabled(s2, e3) && Step(s2, e3) == s3 && Enabled(s3, e4)
    ensures From(s0, [e1, e2, e3, e4]) == Some(Step(s3, e4))
  {
    hide Step, Enabled;
    assert [e1, e2, e3, e4][..3] == [e1, e2, e3] && [e1, e2, e3][..2] == [e1, e2];
    assert [e1, e2][..1] == [e1] && [e1][..0] == [];
    assert From(s0, []) == Some(s0);
    assert From(s0, [e1]) == Some(s1);
    assert From(s0, [e1, e2]) == Some(s2);
    assert From(s0, [e1, e2, e3]) == Some(s3);
  }

  // ---------------------------------------------------------------- the manager

  datatype Reply = Stored(cert: Cert) | Awaits(task: nat)

  class CertificateManager {
    var db: seq<Cert>
    var inflightEnsureCert: map<Key, nat>
    var tasks: seq<Task<Key>>
    var stages: seq<Stage>
    var nextId: nat
    var now: int

    ghost function Now(): State
      reads this
    {
      State(db, Flight(inflightEnsureCert, tasks), stages, nextId, now)
    }

    constructor (db: seq<Cert>, nextId: nat, now: int)
      ensures Now() == Start(db, nextId, now)
    {
      this.db, inflightEnsureCert, tasks, stages, this.nextId, this.now := db, map[], [], [], nextId, now;
    }

    /** ensureCertificate up to its first await: a task in flight is joined; else the newest usable certificate that can
        be decrypted is returned if it has not expired meanwhile; else a task is started that creates one. */
    method EnsureCertificate(key: Key, ms: nat) returns (reply: Reply)
      modifies this
      ensures now == old(now) + ms
      ensures key in old(inflightEnsureCert) ==>
        reply == Awaits(old(inflightEnsureCert)[key]) && db == old(db) && tasks == old(tasks)
      ensures key !in old(inflightEnsureCert) ==> inflightEnsureCert == old(inflightEnsureCert)[key := |old(tasks)|]
      ensures key !in old(inflightEnsureCert) ==>
        (reply.Stored?
         <==> exists i :: 0 <= i < |old(db)| && Found(old(db), key, old(now), i) && old(db)[i].expires > now)
      ensures reply.Stored? ==>
        exists i :: 0 <= i < |old(db)| && Found(old(db), key, old(now), i) && old(db)[i] == reply.cert
      ensures key !in old(inflightEnsureCert) && reply.Awaits? ==>
        reply.task == |old(tasks)| && tasks == old(tasks) + [Task(key, Open)]
      ensures Now() == Step(old(Now()), Call(key, ms))
      ensures reply.Awaits? ==> key in inflightEnsureCert && reply.task == inflightEnsureCert[key]
      ensures reply.Stored? ==>
        && Active(old(db), key, old(now)).1 == Some(reply.cert) && Usable(reply.cert, key, now)
        && key !in old(inflightEnsureCert)
    {
      hide Active, NoneUsable, Usable, Found;
      FoundIsUsable(db, key, now);
      FoundIff(db, key, now);
      if key in inflightEnsureCert {
        now := now + ms;
        return Awaits(inflightEnsureCert[key]);
      }
      var task := |tasks|;
      inflightEnsureCert := inflightEnsureCert[key := task];
      var existingCert;
      db, existingCert := GetActiveCertificate(db, key, now);
      now := now + ms;
      if existingCert.Some? && existingCert.value.expires > now {
        tasks, stages := tasks + [Task(key, Settled)], stages + [Over(Some(existingCert.value.id))];
        FoundLater(existingCert.value, key, old(now), now);
        return Stored(existingCert.value);
      }
      tasks, stages := tasks + [Task(key, Open)], stages + [Working(Listing, NoneUsable(db, key, now))];
      reply := Awaits(task);
    }

    /** Apple issued the certificate: its row is saved and the callers get it. */
    method SaveIssued(i: nat, expires: int)
      requires Enabled(Now(), Issued(i, expires))
      modifies this
      ensures Now() == Step(old(Now()), Issued(i, expires))
      ensures db == [Cert(old(nextId), old(tasks)[i].key, expires, false, true)] + old(db)
      ensures nextId == old(nextId) + 1 && stages[i] == Over(Some(old(nextId))) && tasks[i].phase == Settled
    {
      db := [Cert(nextId, tasks[i].key, expires, false, true)] + db;
      stages := stages[i := Over(Some(nextId))];
      tasks := tasks[i := tasks[i].(phase := Settled)];
      nextId := nextId + 1;
    }

    /** After a portal certificate of ours is revoked: an undecryptable row is deleted, any other marked revoked. */
    method ReclaimRow(i: nat, id: nat)
      requires Enabled(Now(), Reclaimed(i, id))
      modifies this`db
      ensures (exists k :: 0 <= k < |old(db)| && old(db)[k].id == id && !old(db)[k].readable) ==>
        forall c :: multiset(db)[c] == if c.id == id then 0 else multiset(old(db))[c]
      ensures !(exists k :: 0 <= k < |old(db)| && old(db)[k].id == id && !old(db)[k].readable) ==>
        |db| == |old(db)| && forall k :: 0 <= k < |db| ==>
          db[k] == if old(db)[k].id == id then old(db)[k].(revoked := true) else old(db)[k]
      ensures Now() == Step(old(Now()), Reclaimed(i, id))
    {
      DeleteIs(db, id);
      if Unreadable(db, id) {
        HardDeleteCertificate(id);
      } else {
        db := Update(db, id, true);
      }
    }

    method HardDeleteCertificate(id: nat)
      modifies this`db
      ensures db == Delete(old(db), id)
    {
      var rest := db;
      var kept: seq<Cert> := [];
      while rest != []
        invariant kept + Delete(rest, id) == Delete(old(db), id)
        invariant db == old(db)
      {
        if rest[0].id != id {
          kept := kept + [rest[0]];
        }
        rest := rest[1..];
      }
      assert kept + [] == kept;
      db := kept;
    }

    /** The `finally` of the call that started it. */
    method RemoveInflight(i: nat)
      requires Enabled(Now(), CleanUp(i))
      modifies this
      ensures Now() == Step(old(Now()), CleanUp(i))
    {
      inflightEnsureCert := inflightEnsureCert - {tasks[i].key};
      tasks := tasks[i := tasks[i].(phase := Removed)];
    }
  }
}
