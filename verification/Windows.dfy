/** Counting entries in rolling windows. Times are milliseconds. */
module Windows {

  /** How many of the times lie in [lo, hi]. */
  function CountIn(ts: seq<int>, lo: int, hi: int): (n: nat)
    ensures n <= |ts|
  {
    if ts == [] then 0
    else
      CountIn(ts[..|ts| - 1], lo, hi) + if lo <= ts[|ts| - 1] <= hi then 1 else 0
  }

  /** How many of the times are `lo` or later. */
  function CountSince(ts: seq<int>, lo: int): (n: nat)
    ensures n <= |ts|
  {
    if ts == [] then 0
    else
      CountSince(ts[..|ts| - 1], lo) + if ts[|ts| - 1] >= lo then 1 else 0
  }

  lemma {:induction false} InIsSince(ts: seq<int>, lo: int, hi: int, since: int)
    requires since <= lo
    ensures CountIn(ts, lo, hi) <= CountSince(ts, since)
  {
    if ts != [] {
      InIsSince(ts[..|ts| - 1], lo, hi, since);
    }
  }

  lemma CountOneMore(ts: seq<int>, t: int, lo: int, hi: int)
    ensures CountIn(ts + [t], lo, hi) == CountIn(ts, lo, hi) + if lo <= t <= hi then 1 else 0
  {
    assert (ts + [t])[..|ts|] == ts;
  }

  lemma {:induction false} CountWithout(ts: seq<int>, i: nat, lo: int, hi: int)
    requires i < |ts|
    ensures CountIn(ts[..i] + ts[i + 1..], lo, hi) <= CountIn(ts, lo, hi)
  {
    var last := |ts| - 1;
    if i == last {
      assert ts[..i] + ts[i + 1..] == ts[..last];
    } else {
      CountWithout(ts[..last], i, lo, hi);
      assert ts[..i] + ts[i + 1..] == (ts[..last][..i] + ts[..last][i + 1..]) + [ts[last]];
      CountOneMore(ts[..last][..i] + ts[..last][i + 1..], ts[last], lo, hi);
    }
  }

  /** How many of the times lie in the closed window of a length that starts at `lo`. */
  function CountFrom(ts: seq<int>, lo: int, length: int): (n: nat)
    ensures n <= |ts|
  {
    CountIn(ts, lo, lo + length)
  }

  /** At most `max` of the times in any closed window of the given length. */
  ghost predicate Bounded(ts: seq<int>, length: int, max: int) {
    forall lo :: CountFrom(ts, lo, length) <= max
  }

  /** A check made at `checked` keeps the bound for an entry made at `entered`, however much later that is. */
  lemma EntryKeepsBound(ts: seq<int>, length: int, max: int, checked: int, entered: int)
    requires Bounded(ts, length, max) && checked <= entered && CountSince(ts, checked - length) < max
    ensures Bounded(ts + [entered], length, max)
  {
    forall lo ensures CountFrom(ts + [entered], lo, length) <= max {
      assert CountFrom(ts, lo, length) <= max;
      CountOneMore(ts, entered, lo, lo + length);
      if lo <= entered <= lo + length {
        InIsSince(ts, lo, lo + length, checked - length);
      }
    }
  }

  /** Removing an entry keeps the bound. */
  lemma RemovalKeepsBound(ts: seq<int>, length: int, max: int, i: nat)
    requires Bounded(ts, length, max) && i < |ts|
    ensures Bounded(ts[..i] + ts[i + 1..], length, max)
  {
    var rest := ts[..i] + ts[i + 1..];
    forall lo ensures CountFrom(rest, lo, length) <= max {
      assert CountFrom(ts, lo, length) <= max;
      CountWithout(ts, i, lo, lo + length);
    }
  }

  /** A narrower window holds no more. */
  lemma {:induction false} NarrowerCount(ts: seq<int>, lo: int, hi: int, higher: int)
    requires hi <= higher
    ensures CountIn(ts, lo, hi) <= CountIn(ts, lo, higher)
  {
    if ts != [] {
      NarrowerCount(ts[..|ts| - 1], lo, hi, higher);
    }
  }
}
