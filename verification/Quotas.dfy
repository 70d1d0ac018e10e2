/** App ID quotas (src/server/services/app-id-manager.ts). Calls are sequential; every clock read of a call is a
    parameter. */
module Quotas {
  import opened Wrappers
  import opened Windows

  const WEEK: int := 7 * 24 * 60 * 60 * 1000

  /** A stored App ID of one account and team. */
  datatype AppId = AppId(original: string, createdAt: int)

  /** The limits of a tier; `None` is no limit. */
  datatype Tier = Tier(maxActive: Option<nat>, maxPerWeek: Option<nat>)

  datatype Ensured = Existing | Created | ActiveLimit | WeeklyLimit | PortalError

  function Times(rows: seq<AppId>): (ts: seq<int>)
    ensures |ts| == |rows|
  {
    seq(|rows|, i requires 0 <= i < |rows| => rows[i].createdAt)
  }

  predicate Reached(limit: Option<nat>, n: nat) {
    limit.Some? && n >= limit.value
  }

  predicate Knows(rows: seq<AppId>, original: string) {
    exists i :: 0 <= i < |rows| && rows[i].original == original
  }

  /** What ensureAppId answers: `checked` is the clock read of the weekly check, `portal` whether Apple created it. */
  function Verdict(rows: seq<AppId>, tier: Tier, original: string, checked: int, portal: bool): Ensured {
    if Knows(rows, original) then Existing
    else if Reached(tier.maxActive, |rows|) then ActiveLimit
    else if Reached(tier.maxPerWeek, CountSince(Times(rows), checked - WEEK)) then WeeklyLimit
    else if !portal then PortalError
    else Created
  }

  datatype Event =
    | Ensure(original: string, checked: int, created: int, portal: bool)
    | Remove(index: nat)

  predicate Timely(e: Event) {
    e.Ensure? ==> e.checked <= e.created
  }

  function Step(rows: seq<AppId>, tier: Tier, e: Event): seq<AppId> {
    match e
    case Ensure(original, checked, created, portal) =>
      if Verdict(rows, tier, original, checked, portal) == Created then rows + [AppId(original, created)] else rows
    case Remove(i) => if i < |rows| then rows[..i] + rows[i + 1..] else rows
  }

  function After(rows: seq<AppId>, tier: Tier, es: seq<Event>): seq<AppId> {
    if es == [] then rows else Step(After(rows, tier, es[..|es| - 1]), tier, es[|es| - 1])
  }

  /** Both limits hold of the rows. */
  ghost predicate WithinLimits(rows: seq<AppId>, tier: Tier) {
    && (tier.maxActive.Some? ==> |rows| <= tier.maxActive.value)
    && (tier.maxPerWeek.Some? ==> Bounded(Times(rows), WEEK, tier.maxPerWeek.value))
  }

  lemma StepKeepsLimits(rows: seq<AppId>, tier: Tier, e: Event)
    requires WithinLimits(rows, tier) && Timely(e)
    ensures WithinLimits(Step(rows, tier, e), tier)
  {
    match e
    case Ensure(original, checked, created, portal) =>
      if Verdict(rows, tier, original, checked, portal) == Created && tier.maxPerWeek.Some? {
        assert Times(rows + [AppId(original, created)]) == Times(rows) + [created];
        EntryKeepsBound(Times(rows), WEEK, tier.maxPerWeek.value, checked, created);
      }
    case Remove(i) =>
      if i < |rows| {
        assert Times(rows[..i] + rows[i + 1..]) == Times(rows)[..i] + Times(rows)[i + 1..];
        if tier.maxPerWeek.Some? {
          RemovalKeepsBound(Times(rows), WEEK, tier.maxPerWeek.value, i);
        }
      }
  }

  /** Over any sequence of calls and removals: never more rows than the active limit, and in no 7-day window more
      surviving rows than the weekly limit. */
  lemma {:induction false} LimitsHold(rows: seq<AppId>, tier: Tier, es: seq<Event>)
    requires WithinLimits(rows, tier) && forall i :: 0 <= i < |es| ==> Timely(es[i])
    ensures WithinLimits(After(rows, tier, es), tier)
  {
    hide WithinLimits, Step;
    if es != [] {
      LimitsHold(rows, tier, es[..|es| - 1]);
      StepKeepsLimits(After(rows, tier, es[..|es| - 1]), tier, es[|es| - 1]);
    }
  }

  class AppIdManager {
    const tier: Tier
    var rows: seq<AppId>

    constructor (tier: Tier)
      ensures this.tier == tier && rows == [] && WithinLimits(rows, tier)
    {
      this.tier, rows := tier, [];
    }

    method CountAppIdsCreatedSince(since: int) returns (count: nat)
      ensures count == CountSince(Times(rows), since)
    {
      count := 0;
      var i := 0;
      while i < |rows|
        invariant 0 <= i <= |rows| && count == CountSince(Times(rows)[..i], since)
      {
        assert Times(rows)[..i + 1][..i] == Times(rows)[..i];
        if rows[i].createdAt >= since {
          count := count + 1;
        }
        i := i + 1;
      }
      assert Times(rows)[..i] == Times(rows);
    }

    /** An App ID that is known is returned; else the limits are checked, the active one first; else Apple is asked, and
        only what Apple created is stored. */
    method EnsureAppId(original: string, checked: int, created: int, portal: bool) returns (r: Ensured)
      modifies this
      ensures r == Existing <==> exists i :: 0 <= i < |old(rows)| && old(rows)[i].original == original
      ensures r == ActiveLimit <==> r != Existing && tier.maxActive.Some? && |old(rows)| >= tier.maxActive.value
      ensures r == WeeklyLimit
         <==> (r != Existing && r != ActiveLimit && tier.maxPerWeek.Some?
               && CountSince(Times(old(rows)), checked - 604_800_000) >= tier.maxPerWeek.value)
      ensures r == Created ==> portal && rows == old(rows) + [AppId(original, created)]
      ensures r == PortalError ==> !portal
      ensures r != Created ==> rows == old(rows)
      ensures r == Verdict(old(rows), tier, original, checked, portal)
      ensures rows == Step(old(rows), tier, Ensure(original, checked, created, portal))
    {
      if Knows(rows, original) {
        return Existing;
      }
      if tier.maxActive.Some? && |rows| >= tier.maxActive.value {
        return ActiveLimit;
      }
      if tier.maxPerWeek.Some? {
        var createdRecently := CountAppIdsCreatedSince(checked - WEEK);
        if createdRecently >= tier.maxPerWeek.value {
          return WeeklyLimit;
        }
      }
      if !portal {
        return PortalError;
      }
      rows := rows + [AppId(original, created)];
      r := Created;
    }
  }
}
