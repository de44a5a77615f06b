/** Age-based sweeps over tier metadata, and the in-memory tiering store that the
    file-backed one must agree with. */
module Sweeps {
  import opened Wrappers
  import opened Sequences
  import opened WalRecovery
  import opened DurableLog
  import opened Tiering

  /** Old enough at `now` to move on; an entry from the future never is. */
  predicate IsDue(e: TierEntry, now: int, policy: TierPolicy) {
    && policy.ThresholdFrom(e.tier).Some? && e.tier.NextForward().Some?
    && now >= e.migratedAt && now - e.migratedAt >= policy.ThresholdFrom(e.tier).value
  }

  function DueKeys(entries: Entries, now: int, policy: TierPolicy): set<Key> {
    set k | k in entries && IsDue(entries[k], now, policy)
  }

  function Moved(e: TierEntry, now: int): TierEntry
    requires e.tier.NextForward().Some?
  {
    e.(tier := e.tier.NextForward().value, migratedAt := now)
  }

  /** What a sweep does: every due entry moves one tier, nothing else changes. */
  function Sweep(entries: Entries, now: int, policy: TierPolicy): Entries {
    map k | k in entries :: if IsDue(entries[k], now, policy) then Moved(entries[k], now) else entries[k]
  }

  /** The same from the fields alone: a hot item that is `hotToWarm` old moves to warm, a
      warm one that is `warmToCold` old to cold, everything else stays as it is. */
  lemma SweepByFields(entries: Entries, now: int, policy: TierPolicy)
    ensures Sweep(entries, now, policy).Keys == entries.Keys
    ensures forall k :: k in entries ==>
              var e := entries[k];
              Sweep(entries, now, policy)[k] ==
              if e.tier == Hot && now >= e.migratedAt && now - e.migratedAt >= policy.hotToWarm
              then TierEntry(Warm, e.placedAt, now)
              else if e.tier == Warm && now >= e.migratedAt && now - e.migratedAt >= policy.warmToCold
              then TierEntry(Cold, e.placedAt, now)
              else e
    ensures forall k :: k in DueKeys(entries, now, policy) <==>
              && k in entries && now >= entries[k].migratedAt
              && (|| (entries[k].tier == Hot && now - entries[k].migratedAt >= policy.hotToWarm)
                  || (entries[k].tier == Warm && now - entries[k].migratedAt >= policy.warmToCold))
  {
  }

  // ----- Any order of moves ------------------------------------------------

  ghost predicate IsOrderOf(keys: seq<Key>, due: set<Key>) {
    Distinct(keys) && (forall k :: k in keys <==> k in due)
  }

  lemma {:induction false} OrderCounts(keys: seq<Key>, due: set<Key>)
    requires IsOrderOf(keys, due)
    ensures |keys| == |due|
  {
    if keys == [] {
      assert due == {};
    } else {
      var k := keys[|keys| - 1];
      var front := keys[..|keys| - 1];
      assert keys == front + [k];
      assert k in keys && k in due && k !in front;
      OrderCounts(front, due - {k});
    }
  }

  /** The record a sweep appends for an entry. */
  function MoveOf(entries: Entries, k: Key, now: int): WalRecord
    requires k in entries && entries[k].tier.NextForward().Some?
  {
    Migrate(k, entries[k].tier.NextForward().value, now)
  }

  ghost predicate AllMovable(entries: Entries, keys: seq<Key>) {
    forall k :: k in keys ==> k in entries && entries[k].tier.NextForward().Some?
  }

  function Moves(entries: Entries, keys: seq<Key>, now: int): (rs: seq<WalRecord>)
    requires AllMovable(entries, keys)
    ensures |rs| == |keys|
  {
    seq(|keys|, i requires 0 <= i < |keys| => assert keys[i] in keys; MoveOf(entries, keys[i], now))
  }

  /** The entries after the moves of `keys`, all decided on `entries`. */
  function MovedAll(entries: Entries, keys: set<Key>, now: int): Entries
    requires forall k :: k in keys ==> k in entries && entries[k].tier.NextForward().Some?
  {
    map k | k in entries :: if k in keys then Moved(entries[k], now) else entries[k]
  }

  ghost function Elements(keys: seq<Key>): set<Key> {
    set k | k in keys
  }

  /** Moving distinct items one after the other, in any order, moves each once. */
  lemma {:induction false} MovesInOrder(entries: Entries, keys: seq<Key>, now: int)
    requires AllMovable(entries, keys) && Distinct(keys)
    ensures Replays(entries, Moves(entries, keys, now)) == MovedAll(entries, Elements(keys), now)
  {
    var rs := Moves(entries, keys, now);
    if keys == [] {
      assert MovedAll(entries, Elements(keys), now) == entries;
    } else {
      var n := |keys| - 1;
      var front, k := keys[..n], keys[n];
      assert keys == front + [k] && k in keys && k !in front;
      assert AllMovable(entries, front);
      MovesInOrder(entries, front, now);
      assert rs == Moves(entries, front, now) + [MoveOf(entries, k, now)];
      FoldOne(Apply, entries, Moves(entries, front, now), MoveOf(entries, k, now));
      assert Elements(keys) == Elements(front) + {k};
    }
  }

  /** A sweep is the moves of the due items, whatever order they are listed in. */
  lemma SweepIsMoves(entries: Entries, keys: seq<Key>, now: int, policy: TierPolicy)
    requires IsOrderOf(keys, DueKeys(entries, now, policy))
    ensures AllMovable(entries, keys)
    ensures Replays(entries, Moves(entries, keys, now)) == Sweep(entries, now, policy)
  {
    MovesInOrder(entries, keys, now);
    assert Elements(keys) == DueKeys(entries, now, policy);
  }

  // ----- Repeated sweeps ---------------------------------------------------

  datatype Visit = Visit(now: int, policy: TierPolicy)

  function SweepAll(entries: Entries, visits: seq<Visit>): Entries
    decreases |visits|
  {
    if visits == [] then entries else SweepAll(Sweep(entries, visits[0].now, visits[0].policy), visits[1..])
  }

  /** How many of the sweeps move the item. */
  function TimesMoved(entries: Entries, visits: seq<Visit>, k: Key): nat
    decreases |visits|
  {
    if visits == [] then 0
    else
      var v := visits[0];
      (if k in DueKeys(entries, v.now, v.policy) then 1 else 0) +
      TimesMoved(Sweep(entries, v.now, v.policy), visits[1..], k)
  }

  /** Sweeps only move forward: over any times and policies the tier of an item
      rises by exactly the number of its moves, so it moves at most twice; no item
      appears or disappears and none changes when it was placed. */
  lemma {:induction false} SweepsMoveForward(entries: Entries, visits: seq<Visit>, k: Key)
    requires k in entries
    ensures k in SweepAll(entries, visits)
    ensures SweepAll(entries, visits)[k].placedAt == entries[k].placedAt
    ensures SweepAll(entries, visits)[k].tier.Rank() == entries[k].tier.Rank() + TimesMoved(entries, visits, k)
    ensures TimesMoved(entries, visits, k) <= 2 - entries[k].tier.Rank()
    decreases |visits|
  {
    if visits != [] {
      var v := visits[0];
      SweepsMoveForward(Sweep(entries, v.now, v.policy), visits[1..], k);
    }
  }

  /** A second sweep at the same instant moves nothing exactly when items wait in
      the warm tier or none was due to leave the hot one. */
  lemma SecondSweepIsIdle(entries: Entries, now: int, policy: TierPolicy)
    ensures DueKeys(Sweep(entries, now, policy), now, policy) == {} <==>
            policy.warmToCold > 0 ||
            forall k :: k in entries && entries[k].tier.Hot? ==> now - entries[k].migratedAt < policy.hotToWarm
  {
    var swept := Sweep(entries, now, policy);
    if k :| k in entries && entries[k].tier.Hot? && IsDue(entries[k], now, policy) {
      assert IsDue(swept[k], now, policy) <==> policy.warmToCold == 0;
      assert policy.warmToCold == 0 ==> k in DueKeys(swept, now, policy);
    }
    if policy.warmToCold > 0 ||
       forall k :: k in entries && entries[k].tier.Hot? ==> now - entries[k].migratedAt < policy.hotToWarm
    {
      forall k | k in entries
        ensures !IsDue(swept[k], now, policy)
      {
      }
    }
  }

  /** The counterexample to unconditional idempotence: with no waiting time in the
      warm tier an item crosses it in two sweeps at one instant. */
  lemma SecondSweepCanMove(k: Key)
    ensures var entries: Entries := map[k := TierEntry(Hot, 0, 0)];
            var policy := TierPolicy(0, 0);
            Sweep(Sweep(entries, 0, policy), 0, policy)[k].tier == Cold
  {
    var entries: Entries := map[k := TierEntry(Hot, 0, 0)];
    assert Sweep(entries, 0, TierPolicy(0, 0))[k] == TierEntry(Warm, 0, 0);
  }

  // ----- Collecting the due items ------------------------------------------

  /** The scan over the entries, in whatever order the map yields them. */
  method CollectDue(entries: Entries, now: int, policy: TierPolicy) returns (keys: seq<Key>)
    ensures IsOrderOf(keys, DueKeys(entries, now, policy))
    ensures forall k :: k in keys <==>
              && k in entries && now >= entries[k].migratedAt
              && (|| (entries[k].tier == Hot && now - entries[k].migratedAt >= policy.hotToWarm)
                  || (entries[k].tier == Warm && now - entries[k].migratedAt >= policy.warmToCold))
  {
    SweepByFields(entries, now, policy);
    keys := [];
    var left := entries.Keys;
    while left != {}
      invariant left <= entries.Keys
      invariant Distinct(keys) && forall k :: k in keys ==> k !in left
      invariant forall k :: k in keys <==> k in DueKeys(entries, now, policy) && k !in left
      decreases |left|
    {
      var k :| k in left;
      left := left - {k};
      if IsDue(entries[k], now, policy) {
        keys := keys + [k];
      }
    }
  }

  // ----- The in-memory store -----------------------------------------------

  datatype MigrateError = UnknownItem(key: Key) | PersistenceFailed

  class InMemoryTieringStore {
    var entries: Entries

    constructor ()
      ensures entries == map[]
    {
      entries := map[];
    }

    method PlaceItem(key: Key, tier: Tier, placedAt: int)
      modifies this
      ensures entries == old(entries)[key := TierEntry(tier, placedAt, placedAt)]
      ensures entries == Apply(old(entries), Place(key, tier, placedAt))
    {
      entries := entries[key := TierEntry(tier, placedAt, placedAt)];
    }

    method MigrateItem(key: Key, toTier: Tier, migratedAt: int) returns (r: Result<(), MigrateError>)
      modifies this
      ensures r == if key in old(entries) then Ok(()) else Err(UnknownItem(key))
      ensures entries == if r.Ok? then old(entries)[key := TierEntry(toTier, old(entries)[key].placedAt, migratedAt)]
                         else old(entries)
      ensures r.Ok? ==> entries == Apply(old(entries), Migrate(key, toTier, migratedAt))
    {
      if key !in entries {
        return Err(UnknownItem(key));
      }
      var entry := entries[key];
      entries := entries[key := entry.(tier := toTier, migratedAt := migratedAt)];
      return Ok(());
    }

    method EvaluateAt(now: int, policy: TierPolicy) returns (count: nat)
      modifies this
      ensures entries.Keys == old(entries).Keys
      ensures forall k :: k in old(entries) ==>
                var e := old(entries)[k];
                entries[k] ==
                if e.tier == Hot && now >= e.migratedAt && now - e.migratedAt >= policy.hotToWarm
                then TierEntry(Warm, e.placedAt, now)
                else if e.tier == Warm && now >= e.migratedAt && now - e.migratedAt >= policy.warmToCold
                then TierEntry(Cold, e.placedAt, now)
                else e
      ensures entries == Sweep(old(entries), now, policy)
      ensures count == |set k |
                  && k in old(entries) && now >= old(entries)[k].migratedAt
                  && (|| (old(entries)[k].tier == Hot && now - old(entries)[k].migratedAt >= policy.hotToWarm)
                      || (old(entries)[k].tier == Warm && now - old(entries)[k].migratedAt >= policy.warmToCold))|
    {
      ghost var before := entries;
      SweepByFields(before, now, policy);
      var keys := CollectDue(entries, now, policy);
      OrderCounts(keys, DueKeys(before, now, policy));
      SweepIsMoves(before, keys, now, policy);
      count := |keys|;
      var targets := entries;
      for i := 0 to |keys|
        invariant AllMovable(before, keys[..i]) && targets == before
        invariant entries == Replays(before, Moves(before, keys[..i], now))
      {
        var k := keys[i];
        assert k in keys;
        MovesExtend(before, keys, i, now);
        if k in entries {
          var to := targets[k].tier.NextForward().value;
          entries := entries[k := entries[k].(tier := to, migratedAt := now)];
        }
      }
      assert keys[..|keys|] == keys;
      assert DueKeys(before, now, policy) == set k |
               && k in before && now >= before[k].migratedAt
               && (|| (before[k].tier == Hot && now - before[k].migratedAt >= policy.hotToWarm)
                   || (before[k].tier == Warm && now - before[k].migratedAt >= policy.warmToCold));
    }
  }

  lemma MovesExtend(entries: Entries, keys: seq<Key>, i: nat, now: int)
    requires AllMovable(entries, keys) && i < |keys|
    ensures AllMovable(entries, keys[..i]) && AllMovable(entries, keys[..i + 1])
    ensures keys[i] in entries && entries[keys[i]].tier.NextForward().Some?
    ensures Moves(entries, keys[..i + 1], now) == Moves(entries, keys[..i], now) + [MoveOf(entries, keys[i], now)]
    ensures Replays(entries, Moves(entries, keys[..i + 1], now)) ==
            Apply(Replays(entries, Moves(entries, keys[..i], now)), MoveOf(entries, keys[i], now))
  {
    assert keys[i] in keys;
    assert Moves(entries, keys[..i + 1], now) == Moves(entries, keys[..i], now) + [MoveOf(entries, keys[i], now)];
    FoldOne(Apply, entries, Moves(entries, keys[..i], now), MoveOf(entries, keys[i], now));
  }
}
