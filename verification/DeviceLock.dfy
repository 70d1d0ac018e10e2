/** The promise-chain mutex per device (acquireDeviceLock in src/server/pipeline/pipeline.ts). Every synchronous stretch
    between awaits is one step; the steps of different runs interleave freely. */
module DeviceLock {
  import opened Wrappers

  /** `Waiting(prev)` awaits the promise of run `prev`, or a promise that is resolved already. */
  datatype Phase = Waiting(prev: PrevPromise) | Holding | Released
  datatype PrevPromise = Resolved | PromiseOf(run: nat)

  datatype Run = Run(udid: string, phase: Phase)

  /** `deviceLocks` maps a device to the run whose promise was installed last; run `i` is the i-th to call. */
  datatype State = State(deviceLocks: map<string, nat>, runs: seq<Run>)

  datatype Event = Acquire(udid: string) | Wake(run: nat) | Release(run: nat)

  predicate Enabled(s: State, e: Event) {
    match e
    case Acquire(_) => true
    case Wake(i) => i < |s.runs| && CanWake(s, s.runs[i].phase)
    case Release(i) => i < |s.runs| && s.runs[i].phase == Holding
  }

  /** The awaited promise is resolved once its run has released. */
  predicate CanWake(s: State, phase: Phase) {
    match phase
    case Waiting(Resolved) => true
    case Waiting(PromiseOf(p)) => p < |s.runs| && s.runs[p].phase == Released
    case _ => false
  }

  function Step(s: State, e: Event): State
    requires Enabled(s, e)
  {
    match e
    case Acquire(udid) =>
      var prev := if udid in s.deviceLocks then PromiseOf(s.deviceLocks[udid]) else Resolved;
      State(s.deviceLocks[udid := |s.runs|], s.runs + [Run(udid, Waiting(prev))])
    case Wake(i) => s.(runs := s.runs[i := s.runs[i].(phase := Holding)])
    case Release(i) =>
      var udid := s.runs[i].udid;
      State(if udid in s.deviceLocks && s.deviceLocks[udid] == i then s.deviceLocks - {udid} else s.deviceLocks,
            s.runs[i := s.runs[i].(phase := Released)])
  }

  const INIT := State(map[], [])

  /** The state after a run of events; nothing when one of them was not possible. */
  function After(es: seq<Event>): Option<State> {
    if es == [] then Some(INIT)
    else
      match After(es[..|es| - 1])
      case None => None
      case Some(s) => if Enabled(s, es[|es| - 1]) then Some(Step(s, es[|es| - 1])) else None
  }

  // ---------------------------------------------------------------- the invariant

  predicate Unfinished(s: State, i: nat, udid: string) {
    i < |s.runs| && s.runs[i].udid == udid && s.runs[i].phase != Released
  }

  /** `p` is the run of the same device that acquired last before `i`. */
  predicate Predecessor(s: State, p: nat, i: nat) {
    && p < i < |s.runs| && s.runs[p].udid == s.runs[i].udid
    && forall j :: p < j < i ==> s.runs[j].udid != s.runs[i].udid
  }

  /** Whoever is past waiting has outlived everyone who called for that device before. */
  predicate Fifo(s: State) {
    forall i, j :: 0 <= i < j < |s.runs| && s.runs[i].udid == s.runs[j].udid && !s.runs[j].phase.Waiting? ==>
      s.runs[i].phase == Released
  }

  predicate Chained(s: State) {
    forall j :: 0 <= j < |s.runs| && s.runs[j].phase.Waiting? ==> ChainedAt(s, j)
  }

  predicate ChainedAt(s: State, j: nat)
    requires j < |s.runs| && s.runs[j].phase.Waiting?
  {
    match s.runs[j].phase.prev
    case Resolved => forall i :: 0 <= i < j && s.runs[i].udid == s.runs[j].udid ==> s.runs[i].phase == Released
    case PromiseOf(p) => Predecessor(s, p, j)
  }

  /** An entry names the last run of its device, which is unfinished; no entry means no unfinished run. */
  predicate EntriesRight(s: State) {
    && (forall u :: u in s.deviceLocks ==>
          Unfinished(s, s.deviceLocks[u], u) && forall j :: s.deviceLocks[u] < j < |s.runs| ==> s.runs[j].udid != u)
    && (forall i :: 0 <= i < |s.runs| && s.runs[i].phase != Released ==> s.runs[i].udid in s.deviceLocks)
  }

  predicate Inv(s: State) {
    Fifo(s) && Chained(s) && EntriesRight(s)
  }

  lemma AcquireKeeps(s: State, udid: string)
    requires Inv(s)
    ensures Inv(Step(s, Acquire(udid)))
  {
    var t := Step(s, Acquire(udid));
    forall j | 0 <= j < |t.runs| && t.runs[j].phase.Waiting? ensures ChainedAt(t, j) {
      if j < |s.runs| {
        assert ChainedAt(s, j) && t.runs[j] == s.runs[j];
      }
    }
  }

  /** A run that wakes comes after released runs only. */
  lemma WakeIsNext(s: State, i: nat, j: nat)
    requires Inv(s) && Enabled(s, Wake(i)) && j < i && s.runs[j].udid == s.runs[i].udid
    ensures s.runs[j].phase == Released
  {
    assert ChainedAt(s, i);
    match s.runs[i].phase.prev
    case Resolved =>
    case PromiseOf(p) =>
      assert j <= p;
  }

  lemma WakeKeeps(s: State, i: nat)
    requires Inv(s) && Enabled(s, Wake(i))
    ensures Inv(Step(s, Wake(i)))
  {
    var t := Step(s, Wake(i));
    forall j | 0 <= j < i && s.runs[j].udid == s.runs[i].udid ensures s.runs[j].phase == Released {
      WakeIsNext(s, i, j);
    }
    forall j | 0 <= j < |t.runs| && t.runs[j].phase.Waiting? ensures ChainedAt(t, j) {
      assert ChainedAt(s, j);
    }
  }

  lemma ReleaseKeepsChain(s: State, i: nat)
    requires Inv(s) && Enabled(s, Release(i))
    ensures Chained(Step(s, Release(i)))
  {
    hide Fifo, EntriesRight;
    var t := Step(s, Release(i));
    forall j | 0 <= j < |t.runs| && t.runs[j].phase.Waiting? ensures ChainedAt(t, j) {
      assert ChainedAt(s, j);
      match s.runs[j].phase.prev
      case Resolved =>
      case PromiseOf(p) => assert Predecessor(t, p, j);
    }
  }

  /** Who calls for the device after the last holder finds no entry and need not wait. */
  lemma ReleaseKeepsEntries(s: State, i: nat)
    requires Inv(s) && Enabled(s, Release(i))
    ensures EntriesRight(Step(s, Release(i)))
  {
    hide Chained;
    var t := Step(s, Release(i));
    forall j | 0 <= j < |t.runs| && t.runs[j].phase != Released ensures t.runs[j].udid in t.deviceLocks {
      assert s.runs[j].udid in s.deviceLocks;
      assert s.runs[j].udid == s.runs[i].udid ==> i < j;
    }
  }

  lemma ReleaseKeeps(s: State, i: nat)
    requires Inv(s) && Enabled(s, Release(i))
    ensures Inv(Step(s, Release(i)))
  {
    ReleaseKeepsChain(s, i);
    ReleaseKeepsEntries(s, i);
    hide Chained, EntriesRight;
  }

  lemma {:induction false} InvHolds(es: seq<Event>)
    requires After(es).Some?
    ensures Inv(After(es).value)
  {
    hide Inv;
    if es == [] {
      InitIsFine();
    } else {
      InvHolds(es[..|es| - 1]);
      StepKeeps(After(es[..|es| - 1]).value, es[|es| - 1]);
    }
  }

  lemma InitIsFine()
    ensures Inv(INIT)
  {
  }

  lemma StepKeeps(s: State, e: Event)
    requires Inv(s) && Enabled(s, e)
    ensures Inv(Step(s, e))
  {
    hide Inv;
    match e
    case Acquire(udid) => AcquireKeeps(s, udid);
    case Wake(i) => WakeKeeps(s, i);
    case Release(i) => ReleaseKeeps(s, i);
  }

  // ---------------------------------------------------------------- what callers rely on

  /** At most one run per device is between its wake-up and its release. */
  lemma MutualExclusion(es: seq<Event>, i: nat, j: nat)
    requires After(es).Some? && i < |After(es).value.runs| && j < |After(es).value.runs|
    requires After(es).value.runs[i].phase == Holding && After(es).value.runs[j].phase == Holding
    requires After(es).value.runs[i].udid == After(es).value.runs[j].udid
    ensures i == j
  {
    InvHolds(es);
  }

  /** Runs of a device are served in the order of their calls. */
  lemma ServedInOrder(es: seq<Event>, i: nat, j: nat)
    requires After(es).Some? && i < j < |After(es).value.runs|
    requires After(es).value.runs[i].udid == After(es).value.runs[j].udid
    ensures !After(es).value.runs[j].phase.Waiting? ==> After(es).value.runs[i].phase == Released
  {
    InvHolds(es);
  }

  /** A device has an entry exactly while some run holds its lock or waits for it. */
  lemma EntryIffInUse(es: seq<Event>, udid: string)
    requires After(es).Some?
    ensures udid in After(es).value.deviceLocks <==> exists i :: Unfinished(After(es).value, i, udid)
  {
    InvHolds(es);
    var s := After(es).value;
    if udid in s.deviceLocks {
      assert Unfinished(s, s.deviceLocks[udid], udid);
    }
  }

  lemma FirstCanGoOn(s: State, f: nat, udid: string) returns (e: Event)
    requires Inv(s) && Unfinished(s, f, udid)
    requires forall j :: 0 <= j < f ==> !Unfinished(s, j, udid)
    ensures Enabled(s, e) && e == if s.runs[f].phase == Holding then Release(f) else Wake(f)
  {
    hide Fifo, EntriesRight;
    e := if s.runs[f].phase == Holding then Release(f) else Wake(f);
    if s.runs[f].phase.Waiting? {
      assert ChainedAt(s, f);
      if s.runs[f].phase.prev.PromiseOf? {
        assert !Unfinished(s, s.runs[f].phase.prev.run, udid);
      }
    }
  }

  /** No lost wake-up: while a device is in use its first unfinished run can go on. */
  lemma SomeoneCanGoOn(es: seq<Event>, i: nat, udid: string) returns (e: Event)
    requires After(es).Some? && Unfinished(After(es).value, i, udid)
    ensures Enabled(After(es).value, e)
    ensures (e.Wake? || e.Release?) && e.run <= i && Unfinished(After(es).value, e.run, udid)
  {
    hide After, Inv;
    InvHolds(es);
    var f := FirstUnfinished(After(es).value, i, udid);
    e := FirstCanGoOn(After(es).value, f, udid);
  }

  lemma {:induction false} FirstUnfinished(s: State, i: nat, udid: string) returns (f: nat)
    requires Unfinished(s, i, udid)
    ensures f <= i && Unfinished(s, f, udid)
    ensures forall j :: 0 <= j < f ==> !Unfinished(s, j, udid)
    decreases i
  {
    if j :| 0 <= j < i && Unfinished(s, j, udid) {
      f := FirstUnfinished(s, j, udid);
    } else {
      f := i;
    }
  }

  // ---------------------------------------------------------------- the module state

  class DeviceLocks {
    var deviceLocks: map<string, nat>
    var runs: seq<Run>

    ghost function Now(): State
      reads this
    {
      State(deviceLocks, runs)
    }

    constructor ()
      ensures Now() == INIT
    {
      deviceLocks, runs := map[], [];
    }

    /** Up to the await: chain behind the installed promise and install one's own. */
    method AcquireDeviceLock(udid: string) returns (next: nat)
      modifies this
      ensures next == |old(runs)| && Now() == Step(old(Now()), Acquire(udid))
    {
      next := |runs|;
      var prev := if udid in deviceLocks then PromiseOf(deviceLocks[udid]) else Resolved;
      deviceLocks := deviceLocks[udid := next];
      runs := runs + [Run(udid, Waiting(prev))];
    }

    /** The await returns. */
    method Resume(i: nat)
      requires Enabled(Now(), Wake(i))
      modifies this
      ensures Now() == Step(old(Now()), Wake(i))
    {
      runs := runs[i := runs[i].(phase := Holding)];
    }

    /** The returned release function. */
    method ReleaseLock(i: nat)
      requires Enabled(Now(), Release(i))
      modifies this
      ensures Now() == Step(old(Now()), Release(i))
    {
      var udid := runs[i].udid;
      if udid in deviceLocks && deviceLocks[udid] == i {
        deviceLocks := deviceLocks - {udid};
      }
      runs := runs[i := runs[i].(phase := Released)];
    }
  }
}
