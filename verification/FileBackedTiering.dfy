/** The file-backed tiering store: write-ahead, then memory. Its methods are steps
    of the durable-log protocol, carried out on a disk shared with whoever opens
    the store next. */
module FileBackedTiering {
  import opened Wrappers
  import opened Sequences
  import opened WalRecovery
  import D = DurableLog
  import opened Tiering
  import opened Sweeps

  /** The two files of a store. */
  class TieringDisk {
    var snapshot: Option<Entries>
    var wal: string

    constructor ()
      ensures snapshot == None && wal == []
    {
      snapshot, wal := None, [];
    }
  }

  class FileBackedTieringStore {
    const disk: TieringDisk
    const codec: Codec<WalRecord>
    var entries: Entries
    /** The state of the log file. */
    ghost var log: D.Log<WalRecord>

    /** The state of the protocol this object stands for. */
    ghost function View(): D.Node<Entries>
      reads this, disk
    {
      D.Node(D.Disk(disk.snapshot, disk.wal), Some(entries), false)
    }

    ghost predicate Valid()
      reads this, disk
    {
      D.Recoverable(TieringStore(codec), log, View().disk, entries)
    }

    lemma ValidMeansRecoverable()
      requires Valid()
      ensures D.Open(TieringStore(codec), View().disk) == if log.glued then Err(|log.records| + 1) else Ok(entries)
    {
      D.OpenOfLog(TieringStore(codec), log, View().disk);
    }

    constructor (disk: TieringDisk, codec: Codec<WalRecord>, entries: Entries, ghost log: D.Log<WalRecord>)
      ensures this.disk == disk && this.codec == codec && this.entries == entries && this.log == log
    {
      this.disk, this.codec, this.entries, this.log := disk, codec, entries, log;
    }

    method AppendWal(r: WalRecord, w: D.Write) returns (result: Result<(), MigrateError>)
      modifies disk`wal
      ensures result == if w.Done? then Ok(()) else Err(PersistenceFailed)
      ensures View().disk == D.Step(TieringStore(codec), old(View()), D.EventOf(r, w)).disk
    {
      var line := codec.encode(r) + [NEWLINE];
      match w {
        case Failed(reached) =>
          disk.wal := disk.wal + D.Torn(line, reached);
          return Err(PersistenceFailed);
        case Done =>
          disk.wal := disk.wal + line;
          return Ok(());
      }
    }

    /** Write-ahead, then memory: the step every operation is made of. */
    method Commit(r: WalRecord, w: D.Write) returns (result: Result<(), MigrateError>)
      modifies this, disk
      ensures result == if w.Done? then Ok(()) else Err(PersistenceFailed)
      ensures View() == D.Step(TieringStore(codec), old(View()), D.EventOf(r, w))
      ensures log == D.LogAfter(TieringStore(codec), old(log), D.EventOf(r, w))
      ensures old(Valid()) && D.KeepsStep(TieringStore(codec), old(log), r, w) ==> Valid()
    {
      hide D.Recoverable, D.LogAfter, D.KeepsStep;
      if Valid() && D.KeepsStep(TieringStore(codec), log, r, w) {
        D.WriteKeepsRecoverable(TieringStore(codec), log, View(), r, w);
      }
      log := D.LogAfter(TieringStore(codec), log, D.EventOf(r, w));
      var _ :- AppendWal(r, w);
      entries := Apply(entries, r);
      return Ok(());
    }

    method PlaceItem(key: Key, tier: Tier, placedAt: int, w: D.Write) returns (result: Result<(), MigrateError>)
      modifies this, disk
      ensures result == if w.Done? then Ok(()) else Err(PersistenceFailed)
      ensures var r := Place(key, tier, placedAt);
              && View() == D.Step(TieringStore(codec), old(View()), D.EventOf(r, w))
              && log == D.LogAfter(TieringStore(codec), old(log), D.EventOf(r, w))
              && (old(Valid()) && D.KeepsStep(TieringStore(codec), old(log), r, w) ==> Valid())
      ensures entries == if w.Done? then old(entries)[key := TierEntry(tier, placedAt, placedAt)] else old(entries)
    {
      result := Commit(Place(key, tier, placedAt), w);
    }

    method MigrateItem(key: Key, toTier: Tier, migratedAt: int, w: D.Write) returns (result: Result<(), MigrateError>)
      modifies this, disk
      ensures result == if key !in old(entries) then Err(UnknownItem(key))
                        else if w.Done? then Ok(()) else Err(PersistenceFailed)
      ensures key !in old(entries) ==> View() == old(View()) && log == old(log)
      ensures var r := Migrate(key, toTier, migratedAt);
              && (key in old(entries) ==>
                    && View() == D.Step(TieringStore(codec), old(View()), D.EventOf(r, w))
                    && log == D.LogAfter(TieringStore(codec), old(log), D.EventOf(r, w)))
              && (old(Valid()) && D.KeepsStep(TieringStore(codec), old(log), r, w) ==> Valid())
      ensures result.Ok? ==> entries == old(entries)[key := TierEntry(toTier, old(entries)[key].placedAt, migratedAt)]
      ensures result.Err? ==> entries == old(entries)
    {
      if key !in entries {
        return Err(UnknownItem(key));
      }
      result := Commit(Migrate(key, toTier, migratedAt), w);
    }

    /** Sweep, appending one record per move. `goodWrites` writes succeed before one
        fails, `reached` bytes of it in the file. On success the entries are those of
        the in-memory sweep and the count is exact; on failure a prefix of some order
        of the due items moved, on disk and in memory alike. */
    method EvaluateAt(now: int, policy: TierPolicy, goodWrites: nat, reached: nat)
      returns (result: Result<nat, MigrateError>, ghost order: seq<Key>)
      modifies this, disk
      ensures IsOrderOf(order, DueKeys(old(entries), now, policy)) && AllMovable(old(entries), order)
      ensures |order| == |set k |
                  && k in old(entries) && now >= old(entries)[k].migratedAt
                  && (|| (old(entries)[k].tier == Hot && now - old(entries)[k].migratedAt >= policy.hotToWarm)
                      || (old(entries)[k].tier == Warm && now - old(entries)[k].migratedAt >= policy.warmToCold))|
      ensures result == if |order| <= goodWrites then Ok(|order|) else Err(PersistenceFailed)
      ensures entries.Keys == old(entries).Keys
      ensures result.Ok? ==> forall k :: k in old(entries) ==>
                var e := old(entries)[k];
                entries[k] ==
                if e.tier == Hot && now >= e.migratedAt && now - e.migratedAt >= policy.hotToWarm
                then TierEntry(Warm, e.placedAt, now)
                else if e.tier == Warm && now >= e.migratedAt && now - e.migratedAt >= policy.warmToCold
                then TierEntry(Cold, e.placedAt, now)
                else e
      ensures result.Err? ==> forall k :: k in old(entries) ==>
                var e := old(entries)[k];
                entries[k] ==
                if k in order[..goodWrites] then TierEntry(if e.tier == Hot then Warm else Cold, e.placedAt, now)
                else e
      ensures result.Ok? ==> entries == Sweep(old(entries), now, policy)
      ensures var moved := if result.Ok? then order else order[..goodWrites];
              && AllMovable(old(entries), moved)
              && entries == MovedAll(old(entries), Elements(moved), now)
              && disk.wal == old(disk.wal) + Render(codec, Moves(old(entries), moved, now)) +
                             (if result.Ok? then []
                              else D.Torn(Line(codec, MoveOf(old(entries), order[goodWrites], now)), reached))
              && disk.snapshot == old(disk.snapshot)
      ensures old(Valid()) && (result.Ok? || reached == 0) ==> Valid()
    {
      hide Valid, Replays, Apply, IsDue, DueKeys, Sweep, MovedAll, Moves, MoveOf, Render, IsOrderOf, D.LogAfter;
      ghost var before, wal0, valid := entries, disk.wal, Valid();
      var targets := entries;
      var keys := CollectDue(entries, now, policy);
      order := keys;
      OrderCounts(keys, DueKeys(before, now, policy));
      SweepIsMoves(before, keys, now, policy);
      DueByFields(before, now, policy);
      var count := 0;
      NoMoves(codec, before, now);
      assert keys[..0] == [] && wal0 + [] == wal0;
      while count < |keys|
        invariant 0 <= count <= |keys| && count <= goodWrites
        invariant valid ==> Valid()
        invariant AllMovable(before, keys[..count]) && targets == before
        invariant disk.snapshot == old(disk.snapshot)
        invariant entries == Replays(before, Moves(before, keys[..count], now))
        invariant disk.wal == wal0 + Render(codec, Moves(before, keys[..count], now))
      {
        var k := keys[count];
        MovesExtend(before, keys, count, now);
        var r := MoveOf(targets, k, now);
        D.RenderOne(codec, Moves(before, keys[..count], now), r);
        var appended := Commit(r, if count < goodWrites then D.Done else D.Failed(reached));
        if appended.Err? {
          DistinctPrefix(keys, DueKeys(before, now, policy), count);
          MovesInOrder(before, keys[..count], now);
          MovedByFields(before, keys[..count], now);
          return Err(PersistenceFailed), order;
        }
        count := count + 1;
      }
      assert keys[..count] == keys;
      assert disk.wal + [] == disk.wal;
      DistinctPrefix(keys, DueKeys(before, now, policy), count);
      MovesInOrder(before, keys, now);
      SweepByFields(before, now, policy);
      result := Ok(count);
    }

    /** A snapshot that is not interrupted: the snapshot file first, then the log.
        It repairs a log that ends in cut writes. */
    method Snapshot()
      modifies this`log, disk
      ensures entries == old(entries) && disk.snapshot == Some(entries) && disk.wal == []
      ensures var renamed := D.Step(TieringStore(codec), old(View()), D.RenameSnapshot);
              View() == D.Step(TieringStore(codec), renamed, D.EmptyLog)
      ensures JsonLike(codec) ==> Valid() && !log.glued && log.tail == []
    {
      disk.snapshot := Some(entries);
      disk.wal := [];
      log := D.EmptyFile();
      if JsonLike(codec) {
        D.SnapshotIsRecoverable(TieringStore(codec), entries);
      }
    }
  }

  lemma DueByFields(entries: Entries, now: int, policy: TierPolicy)
    ensures DueKeys(entries, now, policy) == set k |
              && k in entries && now >= entries[k].migratedAt
              && (|| (entries[k].tier == Hot && now - entries[k].migratedAt >= policy.hotToWarm)
                  || (entries[k].tier == Warm && now - entries[k].migratedAt >= policy.warmToCold))
  {
    SweepByFields(entries, now, policy);
  }

  lemma MovedByFields(entries: Entries, keys: seq<Key>, now: int)
    requires AllMovable(entries, keys)
    ensures MovedAll(entries, Elements(keys), now).Keys == entries.Keys
    ensures forall k :: k in entries ==>
              MovedAll(entries, Elements(keys), now)[k] ==
              if k in keys then TierEntry(if entries[k].tier == Hot then Warm else Cold, entries[k].placedAt, now)
              else entries[k]
  {
  }

  lemma NoMoves(codec: Codec<WalRecord>, entries: Entries, now: int)
    ensures AllMovable(entries, [])
    ensures Replays(entries, Moves(entries, [], now)) == entries && Render(codec, Moves(entries, [], now)) == []
  {
  }

  lemma DistinctPrefix(keys: seq<Key>, due: set<Key>, n: nat)
    requires IsOrderOf(keys, due) && n <= |keys|
    ensures Distinct(keys[..n])
  {
  }

  /** Opening a store. Memory is what the disk recovers to; cut writes at the end of
      the log are dropped from memory but stay in the file. */
  method OpenStore(disk: TieringDisk, codec: Codec<WalRecord>, ghost log: D.Log<WalRecord>)
    returns (result: Result<FileBackedTieringStore, nat>)
    ensures disk.snapshot == old(disk.snapshot) && disk.wal == old(disk.wal)
    ensures match D.Open(TieringStore(codec), D.Disk(disk.snapshot, disk.wal))
            case Ok(recovered) => result.Ok? && fresh(result.value) && result.value.disk == disk &&
                                  result.value.codec == codec && result.value.entries == recovered
            case Err(line) => result == Err(line)
    ensures JsonLike(codec) && D.LogInv(TieringStore(codec), log, disk.wal) ==>
              if log.glued then result == Err(|log.records| + 1) else result.Ok? && result.value.Valid()
  {
    hide Replayed, JsonLike, D.LogInv;
    var base := disk.snapshot.GetOr(map[]);
    if JsonLike(codec) && D.LogInv(TieringStore(codec), log, disk.wal) {
      D.OpenOfLog(TieringStore(codec), log, D.Disk(disk.snapshot, disk.wal));
    }
    var recovered :- Replay(codec, Apply, base, disk.wal);
    var store := new FileBackedTieringStore(disk, codec, recovered, log);
    return Ok(store);
  }
}
