/** Tier metadata: what a placement or a migration does to it, why replaying a log
    is harmless, and the durable-log protocol over it. */
module Tiering {
  import opened Wrappers
  import opened WalRecovery
  import opened TextCodec
  import opened DurableLog

  datatype Tier = Hot | Warm | Cold {
    function NextForward(): Option<Tier> {
      match this
      case Hot => Some(Warm)
      case Warm => Some(Cold)
      case Cold => None
    }

    function Rank(): nat {
      match this
      case Hot => 0
      case Warm => 1
      case Cold => 2
    }
  }

  datatype Key = Key(tenant: string, item: string)

  /** Times are nanoseconds on the system clock. */
  datatype TierEntry = TierEntry(tier: Tier, placedAt: int, migratedAt: int)

  type Entries = map<Key, TierEntry>

  datatype TierPolicy = TierPolicy(hotToWarm: nat, warmToCold: nat) {
    function ThresholdFrom(tier: Tier): Option<nat> {
      match tier
      case Hot => Some(hotToWarm)
      case Warm => Some(warmToCold)
      case Cold => None
    }
  }

  // ----- Records -----------------------------------------------------------

  datatype WalRecord =
    | Place(key: Key, tier: Tier, placedAt: int)
    | Migrate(key: Key, toTier: Tier, migratedAt: int)

  /** A migration of an unknown item is skipped. */
  function Apply(entries: Entries, r: WalRecord): Entries {
    match r
    case Place(key, tier, placedAt) => entries[key := TierEntry(tier, placedAt, placedAt)]
    case Migrate(key, toTier, migratedAt) =>
      if key in entries then entries[key := entries[key].(tier := toTier, migratedAt := migratedAt)] else entries
  }

  /** The records the operations append: a migration names an item they hold. */
  predicate Accepts(entries: Entries, r: WalRecord) {
    r.Migrate? ==> r.key in entries
  }

  function Replays(entries: Entries, rs: seq<WalRecord>): Entries {
    Fold(Apply, entries, rs)
  }

  // ----- Replay, one key at a time -----------------------------------------

  function Lookup(entries: Entries, k: Key): Option<TierEntry> {
    if k in entries then Some(entries[k]) else None
  }

  function ApplyAt(o: Option<TierEntry>, r: WalRecord, k: Key): Option<TierEntry> {
    if r.key != k then o
    else if r.Place? then Some(TierEntry(r.tier, r.placedAt, r.placedAt))
    else if o.Some? then Some(o.value.(tier := r.toTier, migratedAt := r.migratedAt))
    else None
  }

  function ReplayAt(o: Option<TierEntry>, rs: seq<WalRecord>, k: Key): Option<TierEntry> {
    if rs == [] then o else ApplyAt(ReplayAt(o, rs[..|rs| - 1], k), rs[|rs| - 1], k)
  }

  lemma {:induction false} ReplayByKey(entries: Entries, rs: seq<WalRecord>, k: Key)
    ensures Lookup(Replays(entries, rs), k) == ReplayAt(Lookup(entries, k), rs, k)
  {
    if rs != [] {
      var front, last := rs[..|rs| - 1], rs[|rs| - 1];
      assert rs == front + [last];
      FoldOne(Apply, entries, front, last);
      ReplayByKey(entries, front, k);
    }
  }

  ghost predicate Places(rs: seq<WalRecord>, k: Key) {
    exists r :: r in rs && r.Place? && r.key == k
  }

  ghost predicate Names(rs: seq<WalRecord>, k: Key) {
    exists r :: r in rs && r.key == k
  }

  /** The last record about `k` that `which` picks out, by its number, or none. */
  ghost predicate LastOf(rs: seq<WalRecord>, which: WalRecord -> bool, i: int) {
    -1 <= i < |rs| && (i >= 0 ==> which(rs[i])) && forall j :: i < j < |rs| ==> !which(rs[j])
  }

  function About(k: Key): WalRecord -> bool {
    (r: WalRecord) => r.key == k
  }

  function PlacementOf(k: Key): WalRecord -> bool {
    (r: WalRecord) => r.key == k && r.Place?
  }

  /** What a replay leaves of an item, from the records alone: where its last placement
      and its last record put it; a migration of an item that was never placed does
      nothing. */
  lemma {:induction false} ReplayOutcome(entries: Entries, rs: seq<WalRecord>, k: Key, p: int, i: int)
    requires LastOf(rs, PlacementOf(k), p) && LastOf(rs, About(k), i)
    ensures k in Replays(entries, rs) <==> k in entries || p >= 0
    ensures k in Replays(entries, rs) ==>
              var e := Replays(entries, rs)[k];
              && e.placedAt == (if p >= 0 then rs[p].placedAt else entries[k].placedAt)
              && (i < 0 ==> e == entries[k])
              && (i >= 0 && rs[i].Place? ==> e.tier == rs[i].tier && e.migratedAt == rs[i].placedAt)
              && (i >= 0 && rs[i].Migrate? ==> e.tier == rs[i].toTier && e.migratedAt == rs[i].migratedAt)
  {
    if rs != [] {
      var n := |rs| - 1;
      var front, last := rs[..n], rs[n];
      assert rs == front + [last];
      FoldOne(Apply, entries, front, last);
      var p', i' := LastPlace(front, PlacementOf(k)), LastPlace(front, About(k));
      ReplayOutcome(entries, front, k, p', i');
      assert p < n ==> p == p';
      assert i < n ==> i == i';
    }
  }

  function LastPlace(rs: seq<WalRecord>, which: WalRecord -> bool): (i: int)
    ensures LastOf(rs, which, i)
  {
    if rs == [] then -1
    else if which(rs[|rs| - 1]) then |rs| - 1
    else LastPlace(rs[..|rs| - 1], which)
  }

  /** A replay that places an item forgets what was there. */
  lemma {:induction false} PlacingForgets(o1: Option<TierEntry>, o2: Option<TierEntry>, rs: seq<WalRecord>, k: Key)
    requires Places(rs, k)
    ensures ReplayAt(o1, rs, k) == ReplayAt(o2, rs, k)
  {
    var front, last := rs[..|rs| - 1], rs[|rs| - 1];
    if !(last.Place? && last.key == k) {
      var r :| r in rs && r.Place? && r.key == k;
      assert rs == front + [last];
      assert r in front;
      PlacingForgets(o1, o2, front, k);
    }
  }

  /** A replay that only migrates an item keeps it known or unknown, keeps when it
      was placed, and otherwise depends on its last record alone. */
  lemma {:induction false} MigratingKeeps(o1: Option<TierEntry>, o2: Option<TierEntry>, rs: seq<WalRecord>, k: Key)
    requires !Places(rs, k)
    requires o1.Some? <==> o2.Some?
    requires o1.Some? ==> o1.value.placedAt == o2.value.placedAt
    ensures var r1, r2 := ReplayAt(o1, rs, k), ReplayAt(o2, rs, k);
            && (r1.Some? <==> o1.Some?) && (r2.Some? <==> o1.Some?)
            && (r1.Some? ==> r1.value.placedAt == r2.value.placedAt == o1.value.placedAt)
            && (Names(rs, k) ==> r1 == r2)
            && (!Names(rs, k) ==> r1 == o1 && r2 == o2)
  {
    if rs != [] {
      var front, last := rs[..|rs| - 1], rs[|rs| - 1];
      assert rs == front + [last];
      assert last in rs && forall r :: r in front ==> r in rs;
      MigratingKeeps(o1, o2, front, k);
      assert Names(rs, k) ==> last.key == k || Names(front, k);
    }
  }

  lemma ReplayTwiceAt(o: Option<TierEntry>, rs: seq<WalRecord>, k: Key)
    ensures ReplayAt(ReplayAt(o, rs, k), rs, k) == ReplayAt(o, rs, k)
  {
    hide ReplayAt;
    var o' := ReplayAt(o, rs, k);
    if Places(rs, k) {
      PlacingForgets(o, o', rs, k);
    } else {
      MigratingKeeps(o, o, rs, k);
      MigratingKeeps(o, o', rs, k);
    }
  }

  /** Replaying a log onto the contents it produced changes nothing, overwritten
      placements and skipped migrations included. */
  lemma ReplayTwice(entries: Entries, rs: seq<WalRecord>)
    ensures Replays(Replays(entries, rs), rs) == Replays(entries, rs)
  {
    hide Replays, ReplayAt;
    var once := Replays(entries, rs);
    var twice := Replays(once, rs);
    forall k
      ensures Lookup(twice, k) == Lookup(once, k)
    {
      ReplayByKey(entries, rs, k);
      ReplayByKey(once, rs, k);
      ReplayTwiceAt(Lookup(entries, k), rs, k);
    }
    SameLookups(twice, once);
  }

  lemma SameLookups(a: Entries, b: Entries)
    requires forall k :: Lookup(a, k) == Lookup(b, k)
    ensures a == b
  {
    assert forall k :: k in a <==> Lookup(a, k).Some?;
    assert forall k :: k in b <==> Lookup(b, k).Some?;
    assert forall k :: k in a ==> a[k] == Lookup(a, k).value == Lookup(b, k).value == b[k];
  }

  /** The same holds for every suffix of the log: a log that lost its older part
      can be replayed on a snapshot that already has it all. */
  lemma ReplaySuffix(entries: Entries, older: seq<WalRecord>, newer: seq<WalRecord>)
    ensures Replays(Replays(entries, older + newer), newer) == Replays(entries, older + newer)
  {
    FoldJoins(Apply, entries, older, newer);
    ReplayTwice(Replays(entries, older), newer);
  }

  // ----- The durable protocol, for tier metadata ---------------------------

  function TieringStore(codec: Codec<WalRecord>): Store<Entries, WalRecord> {
    Store(map[], Apply, Accepts, codec)
  }

  lemma TieringAbsorbs(codec: Codec<WalRecord>)
    ensures Absorbing(TieringStore(codec))
  {
    var st := TieringStore(codec);
    forall s, rs
      ensures Fold(st.apply, Fold(st.apply, s, rs), rs) == Fold(st.apply, s, rs)
    {
      ReplayTwice(s, rs);
    }
  }

  /** After any run of the file-backed store, crashes included, memory and the
      reopened disk are the replay of the committed records from nothing, and each
      committed migration names an item present at that point. */
  lemma {:induction false} TieringRunIsDurable(codec: Codec<WalRecord>, run: seq<Event<WalRecord>>)
    requires JsonLike(codec) && IsRun(TieringStore(codec), run)
    ensures var st := TieringStore(codec);
            var n, log, all := NodeOf(st, run), LogOf(st, run), Committed(st, run);
            && (n.memory.Some? ==> n.memory.value == Replays(map[], all))
            && Open(st, n.disk) == (if log.glued then Err(|log.records| + 1) else Ok(Replays(map[], all)))
            && LeavesOut(Acknowledged(run), all)
            && forall i :: 0 <= i < |all| && all[i].Migrate? ==> all[i].key in Replays(map[], all[..i])
  {
    hide JsonLike, IsRun, NodeOf, LogOf, Committed, Open, Fold, LeavesOut, Absorbing;
    var st := TieringStore(codec);
    TieringAbsorbs(codec);
    RunIsDurable(st, run);
    AcknowledgedSurvive(st, run);
    CommittedWereAccepted(st, run);
  }

  /** The three disks a crash in the middle of a snapshot can leave, the log
      perhaps ending in a cut line, all recover to the same entries. */
  lemma SnapshotCrashPoints(codec: Codec<WalRecord>, log: Log<WalRecord>, disk: Disk<Entries>)
    requires JsonLike(codec) && !log.glued && LogInv(TieringStore(codec), log, disk.wal)
    ensures var st := TieringStore(codec);
            Open(st, disk).Ok? &&
            var entries := Open(st, disk).value;
            && Open(st, Disk(Some(entries), disk.wal)) == Ok(entries)
            && Open(st, Disk(Some(entries), [])) == Ok(entries)
  {
    hide JsonLike, LogInv, Open, Fold;
    var st := TieringStore(codec);
    OpenOfLog(st, log, disk);
    var entries := Open(st, disk).value;
    OpenOfLog(st, log, Disk(Some(entries), disk.wal));
    ReplayTwice(Base(st, disk), Readable(st, log));
    EmptyLogIsFine(codec);
    OpenOfLog(st, EmptyFile(), Disk(Some(entries), []));
    FoldNothing(entries);
  }

  lemma EmptyLogIsFine(codec: Codec<WalRecord>)
    ensures LogInv(TieringStore(codec), EmptyFile(), [])
  {
  }

  lemma FoldNothing(entries: Entries)
    ensures Fold(Apply, entries, []) == entries
  {
  }

  // ----- Records that vanish -----------------------------------------------

  /** A placement whose write was cut before its newline is recovered, and gone
      again when the next write is cut too. */
  lemma RecoveredItemVanishes(codec: Codec<WalRecord>, r: WalRecord, r': WalRecord)
    requires JsonLike(codec) && r.Place? && r'.Place?
    ensures var st := TieringStore(codec);
            var once := [Reopen, CrashInAppend(r, |codec.encode(r)|), Reopen];
            var twice := once + [CrashInAppend(r', |codec.encode(r')|)];
            && IsRun(st, twice) && NodeOf(st, once).memory == Some(Apply(map[], r))
            && Open(st, NodeOf(st, twice).disk) == Ok(map[])
  {
    hide JsonLike, IsRun, Open, Reached, Fold, Absorbing;
    var st := TieringStore(codec);
    var first, second := CrashInAppend(r, |codec.encode(r)|), CrashInAppend(r', |codec.encode(r')|);
    TieringAbsorbs(codec);
    CodesAreSomething(codec, r);
    CodesAreSomething(codec, r');
    NothingRun(st);
    RunIsDurable(st, []);
    NextIsRun(st, [], Reopen);
    var started := [] + [Reopen];
    RunIsDurable(st, started);
    NextIsRun(st, started, first);
    var cut := started + [first];
    RunIsDurable(st, cut);
    NextIsRun(st, cut, Reopen);
    var once := cut + [Reopen];
    NextIsRun(st, once, second);
    RunIsDurable(st, once + [second]);
    assert once == [Reopen, first, Reopen];
    FoldNothing(map[]);
    FoldOne(Apply, map[], [], r);
    assert [r][..0] == [] && [] + [r] == [r];
  }

  lemma NothingRun(st: Store<Entries, WalRecord>)
    ensures IsRun(st, [])
  {
  }

  lemma NextIsRun(st: Store<Entries, WalRecord>, run: seq<Event<WalRecord>>, e: Event<WalRecord>)
    requires IsRun(st, run) && CanHappen(st, run, e)
    ensures IsRun(st, run + [e])
    ensures NodeOf(st, run + [e]) == Step(st, NodeOf(st, run), e)
    ensures LogOf(st, run + [e]) == LogAfter(st, LogOf(st, run), e)
    ensures Committed(st, run + [e]) ==
            if e.Append? then Committed(st, run) + [e.record]
            else if e.CrashInAppend? then
              CommittedByCut(st, LogOf(st, run), Committed(st, run), e.record, e.written)
            else Committed(st, run)
  {
    hide CanHappen;
    RunExtends(st, run, e);
    Extend(st, run, e);
  }

  /** The first part of the run below: an item is placed and a snapshot taken; its
      migration is acknowledged; a new placement is cut before its newline, recovered,
      and in the snapshot, whose log could not be emptied. */
  function MixingRun(codec: Codec<WalRecord>, k: Key): seq<Event<WalRecord>> {
    var newer := Place(k, Hot, 9);
    [Reopen, Append(Place(k, Hot, 0)), RenameSnapshot, EmptyLog, Append(Migrate(k, Warm, 5))] +
    [CrashInAppend(newer, |codec.encode(newer)|), Reopen, RenameSnapshot, AbandonSnapshot]
  }

  /** A running store after `run`. */
  ghost predicate At(st: Store<Entries, WalRecord>, run: seq<Event<WalRecord>>, all: seq<WalRecord>,
                     log: Log<WalRecord>, entries: Entries)
  {
    && IsRun(st, run) && Committed(st, run) == all && LogOf(st, run) == log
    && NodeOf(st, run).memory == Some(entries) && !NodeOf(st, run).renamed
  }

  lemma OpenedAt(codec: Codec<WalRecord>)
    requires JsonLike(codec)
    ensures At(TieringStore(codec), [Reopen], [], EmptyFile(), map[])
  {
    hide JsonLike, IsRun, Open, Fold, Absorbing, NodeOf, LogOf, Committed;
    var st := TieringStore(codec);
    TieringAbsorbs(codec);
    NothingRun(st);
    StartOfRuns(st);
    RunIsDurable(st, []);
    FoldNothing(map[]);
    var none: seq<Event<WalRecord>> := [];
    NextIsRun(st, none, Reopen);
    assert none + [Reopen] == [Reopen];
  }

  lemma AppendAt(st: Store<Entries, WalRecord>, run: seq<Event<WalRecord>>, all: seq<WalRecord>,
                 log: Log<WalRecord>, entries: Entries, r: WalRecord)
    requires At(st, run, all, log, entries) && st.apply == Apply && st.accepts(entries, r)
    ensures At(st, run + [Append(r)], all + [r], AfterAppend(st, log, r), Apply(entries, r))
  {
    hide IsRun, NodeOf, LogOf, Committed;
    NextIsRun(st, run, Append(r));
  }

  lemma SnapshotAt(st: Store<Entries, WalRecord>, run: seq<Event<WalRecord>>, all: seq<WalRecord>,
                   log: Log<WalRecord>, entries: Entries)
    requires At(st, run, all, log, entries)
    ensures At(st, run + [RenameSnapshot] + [EmptyLog], all, EmptyFile(), entries)
  {
    hide IsRun, NodeOf, LogOf, Committed;
    NextIsRun(st, run, RenameSnapshot);
    NextIsRun(st, run + [RenameSnapshot], EmptyLog);
  }

  lemma MixingBegins(codec: Codec<WalRecord>, k: Key)
    requires JsonLike(codec)
    ensures At(TieringStore(codec), MixingRun(codec, k)[..5], [Place(k, Hot, 0), Migrate(k, Warm, 5)],
               Log([Migrate(k, Warm, 5)], [], false, false), map[k := TierEntry(Warm, 0, 5)])
  {
    hide JsonLike, At;
    var st, placed, moved := TieringStore(codec), Place(k, Hot, 0), Migrate(k, Warm, 5);
    OpenedAt(codec);
    AppendAt(st, [Reopen], [], EmptyFile(), map[], placed);
    var entries, log := Apply(map[], placed), AfterAppend(st, EmptyFile(), placed);
    var run := [Reopen] + [Append(placed)];
    SnapshotAt(st, run, [] + [placed], log, entries);
    AppendAt(st, run + [RenameSnapshot] + [EmptyLog], [] + [placed], EmptyFile(), entries, moved);
    assert run + [RenameSnapshot] + [EmptyLog] + [Append(moved)] == MixingRun(codec, k)[..5];
    assert [] + [placed] + [moved] == [placed, moved];
    assert AfterAppend(st, EmptyFile(), moved) == Log([moved], [], false, false) by {
      assert [] + [moved] == [moved];
    }
    assert Apply(entries, moved) == map[k := TierEntry(Warm, 0, 5)] by {
      assert entries == map[k := TierEntry(Hot, 0, 0)];
    }
  }

  lemma StartOfRuns(st: Store<Entries, WalRecord>)
    ensures NodeOf(st, []) == Node(Disk(None, []), None, false)
    ensures LogOf(st, []) == EmptyFile() && Committed(st, []) == []
  {
  }

  /** Replaying the older records over a snapshot that already holds a newer one can
      give an entry that was never there: after one more cut write the store of this run
      opens with the migration of the old placement on the new one. */
  lemma RepeatMixesRecords(codec: Codec<WalRecord>, k: Key, r: WalRecord)
    requires JsonLike(codec) && r.Place?
    ensures var st := TieringStore(codec);
            var run := MixingRun(codec, k) + [CrashInAppend(r, 1)];
            && IsRun(st, run) && NodeOf(st, MixingRun(codec, k)).memory == Some(map[k := TierEntry(Hot, 9, 9)])
            && Open(st, NodeOf(st, run).disk) == Ok(map[k := TierEntry(Warm, 9, 5)])
  {
    hide JsonLike, IsRun, Open, Reached, Fold, Absorbing, NodeOf, LogOf, Committed;
    var st, newer, older := TieringStore(codec), Place(k, Hot, 9), Migrate(k, Warm, 5);
    TieringAbsorbs(codec);
    CodesAreSomething(codec, newer);
    CodesAreSomething(codec, r);
    MixingBegins(codec, k);
    var run5, cut := MixingRun(codec, k)[..5], CrashInAppend(newer, |codec.encode(newer)|);
    NextIsRun(st, run5, cut);
    RunIsDurable(st, run5 + [cut]);
    NextIsRun(st, run5 + [cut], Reopen);
    var run7 := run5 + [cut] + [Reopen];
    NextIsRun(st, run7, RenameSnapshot);
    NextIsRun(st, run7 + [RenameSnapshot], AbandonSnapshot);
    var run9 := run7 + [RenameSnapshot] + [AbandonSnapshot];
    assert run9 == MixingRun(codec, k);
    NextIsRun(st, run9, CrashInAppend(r, 1));
    RunIsDurable(st, run9 + [CrashInAppend(r, 1)]);
    var all := [Place(k, Hot, 0), older];
    MixedReplay(k);
    assert Committed(st, run9) == all + [newer];
    assert Committed(st, run9 + [CrashInAppend(r, 1)]) == all + [newer] + [older];
  }

  lemma MixedReplay(k: Key)
    ensures var all := [Place(k, Hot, 0), Migrate(k, Warm, 5)];
            && Fold(Apply, map[], all + [Place(k, Hot, 9)]) == map[k := TierEntry(Hot, 9, 9)]
            && Fold(Apply, map[], all + [Place(k, Hot, 9)] + [Migrate(k, Warm, 5)]) == map[k := TierEntry(Warm, 9, 5)]
  {
    var placed, moved, again := Place(k, Hot, 0), Migrate(k, Warm, 5), Place(k, Hot, 9);
    FoldOne(Apply, map[], [], placed);
    FoldOne(Apply, map[], [placed], moved);
    FoldOne(Apply, map[], [placed, moved], again);
    FoldOne(Apply, map[], [placed, moved] + [again], moved);
    assert [] + [placed] == [placed] && [placed] + [moved] == [placed, moved];
  }

  // ----- The records can be encoded ----------------------------------------

  function TierLetter(tier: Tier): char {
    match tier
    case Hot => 'h'
    case Warm => 'w'
    case Cold => 'c'
  }

  function Text(r: WalRecord): string {
    match r
    case Place(key, tier, at) => ['p', TierLetter(tier)] + KeyText(key, at)
    case Migrate(key, tier, at) => ['m', TierLetter(tier)] + KeyText(key, at)
  }

  function KeyText(key: Key, at: int): string {
    Framed(key.tenant) + (Framed(key.item) + (Number(at) + []))
  }

  lemma TextTells(r: WalRecord, r': WalRecord)
    requires Text(r) == Text(r')
    ensures r == r'
  {
    hide Framed, Number;
    var s, s' := Text(r), Text(r');
    var at, at' := if r.Place? then r.placedAt else r.migratedAt, if r'.Place? then r'.placedAt else r'.migratedAt;
    assert s[0] == s'[0] && s[1] == s'[1] && s[2..] == s'[2..];
    assert s[2..] == KeyText(r.key, at) && s'[2..] == KeyText(r'.key, at');
    FramesEnd(r.key.tenant, Framed(r.key.item) + (Number(at) + []),
              r'.key.tenant, Framed(r'.key.item) + (Number(at') + []));
    FramesEnd(r.key.item, Number(at) + [], r'.key.item, Number(at') + []);
    NumbersEnd(at, [], at', []);
  }

  lemma TieringCodecsExist()
    ensures exists codec: Codec<WalRecord> :: JsonLike(codec)
  {
    forall r, r' | Text(r) == Text(r')
      ensures r == r'
    {
      TextTells(r, r');
    }
    var codec := JsonLikeCodecsExist(Text);
  }
}
