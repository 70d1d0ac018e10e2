/** The in-flight map pattern of apple-account-service.ts and certificate-manager.ts: a caller joins whatever is in
    flight for its key or starts one; the starter removes the entry when its task has settled. */
module SingleFlight {

  /** `Settled`: the promise is settled, the starter's `finally` has not run. */
  datatype Phase = Open | Settled | Removed

  datatype Task<!K(==)> = Task(key: K, phase: Phase)

  datatype Flight<!K(==)> = Flight(inflight: map<K, nat>, tasks: seq<Task<K>>)

  function Nothing<K(==)>(): Flight<K> { Flight(map[], []) }

  /** The flight after a call, and what the caller awaits. */
  function Join<K(==)>(f: Flight<K>, key: K): (Flight<K>, nat) {
    if key in f.inflight then (f, f.inflight[key])
    else (Flight(f.inflight[key := |f.tasks|], f.tasks + [Task(key, Open)]), |f.tasks|)
  }

  predicate In<K>(f: Flight<K>, i: nat, phase: Phase) {
    i < |f.tasks| && f.tasks[i].phase == phase
  }

  function Settle<K(==)>(f: Flight<K>, i: nat): Flight<K>
    requires In(f, i, Open)
  {
    f.(tasks := f.tasks[i := f.tasks[i].(phase := Settled)])
  }

  /** `inflight.delete(key)`, whatever the entry is. */
  function Remove<K(==)>(f: Flight<K>, i: nat): Flight<K>
    requires In(f, i, Settled)
  {
    Flight(f.inflight - {f.tasks[i].key}, f.tasks[i := f.tasks[i].(phase := Removed)])
  }

  /** The entry of a key is the one task of that key that has not been removed. */
  predicate Inv<K(!new)>(f: Flight<K>) {
    && (forall k :: k in f.inflight ==>
          f.inflight[k] < |f.tasks| && f.tasks[f.inflight[k]].key == k && f.tasks[f.inflight[k]].phase != Removed)
    && (forall i :: 0 <= i < |f.tasks| && f.tasks[i].phase != Removed ==>
          f.tasks[i].key in f.inflight && f.inflight[f.tasks[i].key] == i)
  }

  /** Every operation keeps the map exact; deleting by key never deletes another task's entry. */
  lemma FlightKeeps<K(!new)>(f: Flight<K>, key: K, i: nat)
    requires Inv(f)
    ensures Inv(Join(f, key).0)
    ensures In(f, i, Open) ==> Inv(Settle(f, i))
    ensures In(f, i, Settled) ==> Inv(Remove(f, i))
  {
    JoinKeeps(f, key);
    if In(f, i, Settled) {
      RemoveKeeps(f, i);
    }
  }

  lemma JoinKeeps<K(!new)>(f: Flight<K>, key: K)
    requires Inv(f)
    ensures Inv(Join(f, key).0)
  {
  }

  lemma RemoveKeeps<K(!new)>(f: Flight<K>, i: nat)
    requires Inv(f) && In(f, i, Settled)
    ensures Inv(Remove(f, i))
  {
  }

  /** A caller awaits a task of its key that has not been removed, and it is the only one. */
  lemma CallersShareOneTask<K(!new)>(f: Flight<K>, key: K, j: nat)
    requires Inv(f)
    ensures
      var (g, i) := Join(f, key);
      && i < |g.tasks| && g.tasks[i].key == key && g.tasks[i].phase != Removed
      && (j < |g.tasks| && g.tasks[j].key == key && g.tasks[j].phase != Removed ==> i == j)
  {
    JoinKeeps(f, key);
  }
}
