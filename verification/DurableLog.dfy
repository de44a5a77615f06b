/** A snapshot file and a write-ahead log, under crashes. The file-backed tiering
    store and the file-backed rule-state store share this protocol: append to the
    log, then change memory; snapshot by an atomic rename, then empty the log;
    recover by loading the snapshot and replaying the log on top.

    A crash may come between any two disk steps and in the middle of an append. */
module DurableLog {
  import opened Wrappers
  import opened WalRecovery

  /** What a store is: its empty contents, the effect of a record, the records
      its operations append, and the encoding of records. */
  datatype Store<!S, !R> = Store(empty: S, apply: (S, R) -> S, accepts: (S, R) -> bool, codec: Codec<R>)

  /** Replaying a log onto the contents it produced changes nothing. */
  ghost predicate Absorbing<S(!new), R(!new)>(st: Store<S, R>) {
    forall s, rs :: Fold(st.apply, Fold(st.apply, s, rs), rs) == Fold(st.apply, s, rs)
  }

  datatype Disk<S> = Disk(snapshot: Option<S>, wal: string)

  /** `memory` is the contents of the running store, if it runs; `renamed` holds
      between the two disk steps of a snapshot. */
  datatype Node<S> = Node(disk: Disk<S>, memory: Option<S>, renamed: bool)

  /** A write stops after `written` bytes of its line, by a failure that the caller
      sees or by a crash. Runs assume that a failure leaves nothing in the writer's
      buffer; what the buffer does otherwise is `DelayedWrite`. */
  datatype Event<R> =
    | Append(record: R)
    | FailAppend(record: R, written: nat)
    | CrashInAppend(record: R, written: nat)
    | RenameSnapshot
    | EmptyLog
    | AbandonSnapshot
    | Crash
    | Reopen

  function Base<S, R>(st: Store<S, R>, disk: Disk<S>): S {
    disk.snapshot.GetOr(st.empty)
  }

  function Open<S, R>(st: Store<S, R>, disk: Disk<S>): Result<S, nat> {
    Replayed(st.codec, st.apply, Base(st, disk), disk.wal)
  }

  function Torn(line: string, written: nat): string {
    if written <= |line| then line[..written] else line
  }

  /** The disk after `written` bytes of the line of `r` reached the log. */
  function Reached<S, R>(st: Store<S, R>, disk: Disk<S>, r: R, written: nat): Disk<S> {
    disk.(wal := disk.wal + Torn(Line(st.codec, r), written))
  }

  function Step<S, R>(st: Store<S, R>, n: Node<S>, e: Event<R>): Node<S> {
    match e
    case Append(r) =>
      n.(disk := n.disk.(wal := n.disk.wal + Line(st.codec, r)),
         memory := if n.memory.Some? then Some(st.apply(n.memory.value, r)) else None)
    case FailAppend(r, written) => n.(disk := Reached(st, n.disk, r, written))
    case CrashInAppend(r, written) => Node(Reached(st, n.disk, r, written), None, false)
    case RenameSnapshot => n.(disk := n.disk.(snapshot := n.memory), renamed := true)
    case EmptyLog => n.(disk := n.disk.(wal := []), renamed := false)
    case AbandonSnapshot => n.(renamed := false)
    case Crash => n.(memory := None, renamed := false)
    case Reopen =>
      match Open(st, n.disk)
      case Ok(s) => n.(memory := Some(s))
      case Err(_) => n
  }

  function NodeOf<S, R>(st: Store<S, R>, run: seq<Event<R>>): Node<S> {
    if run == [] then Node(Disk(None, []), None, false)
    else Step(st, NodeOf(st, run[..|run| - 1]), run[|run| - 1])
  }

  // ----- What a run has done -----------------------------------------------

  /** The state of the log file: whole records, then the cut writes behind them;
      `glued` once a newline was written behind a line made of several writes;
      `saved` once a snapshot was taken since the first cut write. */
  datatype Log<R> = Log(records: seq<R>, tail: seq<Cut<R>>, glued: bool, saved: bool)

  function EmptyFile<R>(): Log<R> {
    Log([], [], false, false)
  }

  function AfterAppend<S, R>(st: Store<S, R>, log: Log<R>, r: R): Log<R> {
    if log.glued then log
    else if log.tail == [] then log.(records := log.records + [r])
    else log.(tail := log.tail + [Cut(r, |st.codec.encode(r)|)], glued := true)
  }

  function AfterCut<S, R>(st: Store<S, R>, log: Log<R>, r: R, written: nat): Log<R> {
    if log.glued || written == 0 then log
    else if written > |st.codec.encode(r)| then AfterAppend(st, log, r)
    else log.(tail := log.tail + [Cut(r, written)], saved := log.tail != [] && log.saved)
  }

  function LogAfter<S, R>(st: Store<S, R>, log: Log<R>, e: Event<R>): Log<R> {
    match e
    case Append(r) => AfterAppend(st, log, r)
    case FailAppend(r, written) => AfterCut(st, log, r, written)
    case CrashInAppend(r, written) => AfterCut(st, log, r, written)
    case RenameSnapshot => log.(saved := true)
    case EmptyLog => EmptyFile()
    case _ => log
  }

  function LogOf<S, R>(st: Store<S, R>, run: seq<Event<R>>): Log<R> {
    if run == [] then EmptyFile() else LogAfter(st, LogOf(st, run[..|run| - 1]), run[|run| - 1])
  }

  /** The log ends in a record that lacks only its newline: replay reads it. */
  predicate EndsInRecord<S, R>(st: Store<S, R>, log: Log<R>) {
    !log.glued && LacksNewline(st.codec, log.tail)
  }

  /** A cut write makes a record durable when only its newline is missing. Behind a
      record that lacked its newline it takes that record away again: it vanishes,
      or, once a snapshot holds it, the records before it are replayed over it. */
  function CommittedByCut<S, R>(st: Store<S, R>, log: Log<R>, all: seq<R>, r: R, written: nat): seq<R> {
    if log.glued || written == 0 then all
    else if log.tail == [] then if written >= |st.codec.encode(r)| then all + [r] else all
    else if !EndsInRecord(st, log) then all
    else if log.saved then all + log.records
    else if all == [] then [] else all[..|all| - 1]
  }

  /** The records the store holds: those acknowledged, and those whose write was cut
      by a crash after its last byte. */
  function Committed<S, R>(st: Store<S, R>, run: seq<Event<R>>): seq<R> {
    if run == [] then []
    else
      var before, e := run[..|run| - 1], run[|run| - 1];
      match e
      case Append(r) => Committed(st, before) + [r]
      case CrashInAppend(r, written) => CommittedByCut(st, LogOf(st, before), Committed(st, before), r, written)
      case _ => Committed(st, before)
  }

  function Acknowledged<R>(run: seq<Event<R>>): seq<R> {
    if run == [] then []
    else
      Acknowledged(run[..|run| - 1]) + if run[|run| - 1].Append? then [run[|run| - 1].record] else []
  }

  /** A failed append whose bytes change nothing that replay reads. */
  predicate Harmless<S, R>(st: Store<S, R>, log: Log<R>, r: R, written: nat) {
    || written == 0
    || log.glued
    || (log.tail == [] && written < |st.codec.encode(r)|)
    || (log.tail != [] && written <= |st.codec.encode(r)| && !EndsInRecord(st, log))
  }

  /** What can happen next: a running store appends records it accepts, outside of
      a snapshot; only a stopped store is opened. A crash comes anywhere. What a
      harmful failure does is `PartialWrite`. */
  ghost predicate CanHappen<S, R>(st: Store<S, R>, run: seq<Event<R>>, e: Event<R>) {
    var n, log := NodeOf(st, run), LogOf(st, run);
    match e
    case Append(r) => n.memory.Some? && !n.renamed && st.accepts(n.memory.value, r)
    case FailAppend(r, written) =>
      && n.memory.Some? && !n.renamed
      && written <= |st.codec.encode(r)| + 1 && Harmless(st, log, r, written)
    case CrashInAppend(r, written) =>
      && n.memory.Some? && !n.renamed && st.accepts(n.memory.value, r)
      && written <= |st.codec.encode(r)| + 1
    case RenameSnapshot => n.memory.Some? && !n.renamed
    case EmptyLog => n.renamed
    case AbandonSnapshot => n.renamed
    case Crash => n.memory.Some?
    case Reopen => n.memory.None?
  }

  ghost predicate IsRun<S, R>(st: Store<S, R>, run: seq<Event<R>>) {
    forall i :: 0 <= i < |run| ==> CanHappen(st, run[..i], run[i])
  }

  // ----- Invariant ---------------------------------------------------------

  /** The records replay finds in a log that nothing was glued to. */
  function Readable<S, R>(st: Store<S, R>, log: Log<R>): seq<R> {
    if LacksNewline(st.codec, log.tail) then log.records + [log.tail[0].record] else log.records
  }

  ghost predicate LogInv<S, R(!new)>(st: Store<S, R>, log: Log<R>, wal: string) {
    && AreCuts(st.codec, log.tail)
    && (log.glued ==> |log.tail| >= 2)
    && if log.glued
       then exists rest :: wal == GluedLog(st, log, rest)
       else wal == Render(st.codec, log.records) + CutBytes(st.codec, log.tail)
  }

  function GluedLog<S, R>(st: Store<S, R>, log: Log<R>, rest: string): string
    requires AreCuts(st.codec, log.tail)
  {
    Render(st.codec, log.records) + (CutBytes(st.codec, log.tail) + [NEWLINE] + rest)
  }

  function Now<S, R>(st: Store<S, R>, all: seq<R>): S {
    Fold(st.apply, st.empty, all)
  }

  ghost predicate Inv<S, R(!new)>(st: Store<S, R>, run: seq<Event<R>>) {
    var n, log, all := NodeOf(st, run), LogOf(st, run), Committed(st, run);
    && LogInv(st, log, n.disk.wal)
    && (n.memory.Some? ==> n.memory.value == Now(st, all))
    && (!log.glued ==> Fold(st.apply, Base(st, n.disk), Readable(st, log)) == Now(st, all))
    && (n.renamed ==> n.memory.Some? && n.disk.snapshot == n.memory && log.saved)
    && (EndsInRecord(st, log) && log.saved ==> Base(st, n.disk) == Now(st, all))
    && (EndsInRecord(st, log) && !log.saved ==>
          all != [] && Fold(st.apply, Base(st, n.disk), log.records) == Now(st, all[..|all| - 1]))
  }

  // ----- The log file ------------------------------------------------------

  lemma RenderOne<R>(c: Codec<R>, rs: seq<R>, r: R)
    ensures Render(c, rs + [r]) == Render(c, rs) + Line(c, r)
  {
    RenderJoins(c, rs, [r]);
    assert [r][1..] == [];
    assert Render(c, [r]) == Line(c, r) + [];
  }

  lemma OneMoreCut<R>(c: Codec<R>, cuts: seq<Cut<R>>, cut: Cut<R>)
    requires AreCuts(c, cuts) && 0 < cut.written <= |c.encode(cut.record)|
    ensures AreCuts(c, cuts + [cut])
    ensures CutBytes(c, cuts + [cut]) == CutBytes(c, cuts) + c.encode(cut.record)[..cut.written]
  {
    assert (cuts + [cut])[..|cuts|] == cuts;
  }

  lemma AppendKeepsLog<S, R(!new)>(st: Store<S, R>, log: Log<R>, wal: string, r: R)
    requires LogInv(st, log, wal) && st.codec.encode(r) != []
    ensures LogInv(st, AfterAppend(st, log, r), wal + Line(st.codec, r))
  {
    hide Render, CutBytes;
    var line, after := Line(st.codec, r), AfterAppend(st, log, r);
    var code := st.codec.encode(r);
    NoCuts(st.codec);
    if log.glued {
      var rest :| wal == GluedLog(st, log, rest);
      assert wal + line == GluedLog(st, after, rest + line);
    } else if log.tail == [] {
      RenderOne(st.codec, log.records, r);
    } else {
      OneMoreCut(st.codec, log.tail, Cut(r, |code|));
      assert code[..|code|] == code;
      assert wal + line == GluedLog(st, after, []);
    }
  }

  lemma CutKeepsLog<S, R(!new)>(st: Store<S, R>, log: Log<R>, wal: string, r: R, written: nat)
    requires LogInv(st, log, wal) && written <= |st.codec.encode(r)| + 1 && st.codec.encode(r) != []
    ensures LogInv(st, AfterCut(st, log, r, written), wal + Line(st.codec, r)[..written])
  {
    hide Render, CutBytes;
    var line, after := Line(st.codec, r), AfterCut(st, log, r, written);
    if log.glued {
      var rest :| wal == GluedLog(st, log, rest);
      assert wal + line[..written] == GluedLog(st, after, rest + line[..written]);
    } else if written == 0 {
      assert line[..0] == [] && wal + [] == wal;
    } else if written > |st.codec.encode(r)| {
      assert line[..written] == line;
      AppendKeepsLog(st, log, wal, r);
    } else {
      assert line[..written] == st.codec.encode(r)[..written];
      OneMoreCut(st.codec, log.tail, Cut(r, written));
    }
  }

  /** Opening a disk whose log is in state `log`: refused exactly when a record
      was glued to a cut one, and otherwise the snapshot with every whole record
      replayed. */
  lemma OpenOfLog<S, R(!new)>(st: Store<S, R>, log: Log<R>, disk: Disk<S>)
    requires JsonLike(st.codec) && LogInv(st, log, disk.wal)
    ensures Open(st, disk) ==
            if log.glued then Err(|log.records| + 1) else Ok(Fold(st.apply, Base(st, disk), Readable(st, log)))
  {
    hide JsonLike, Render, RecordsOf, Fold, CutBytes;
    if log.glued {
      var rest :| disk.wal == GluedLog(st, log, rest);
      GluedLineIsRefused(st.codec, log.records, log.tail, rest);
    } else {
      TornTailIsDropped(st.codec, log.records, log.tail);
    }
  }

  // ----- Every run ---------------------------------------------------------

  lemma Extend<S, R>(st: Store<S, R>, run: seq<Event<R>>, e: Event<R>)
    ensures (run + [e])[..|run|] == run
    ensures NodeOf(st, run + [e]) == Step(st, NodeOf(st, run), e)
    ensures LogOf(st, run + [e]) == LogAfter(st, LogOf(st, run), e)
    ensures Committed(st, run + [e]) ==
            if e.Append? then Committed(st, run) + [e.record]
            else if e.CrashInAppend? then
              CommittedByCut(st, LogOf(st, run), Committed(st, run), e.record, e.written)
            else Committed(st, run)
  {
    assert (run + [e])[..|run|] == run;
  }

  lemma FoldOne<S, R>(apply: (S, R) -> S, s: S, rs: seq<R>, r: R)
    ensures Fold(apply, s, rs + [r]) == apply(Fold(apply, s, rs), r)
  {
    FoldJoins(apply, s, rs, [r]);
    assert [r][1..] == [];
  }

  lemma {:induction false} AppendKeepsInv<S, R(!new)>(st: Store<S, R>, run: seq<Event<R>>, r: R)
    requires Inv(st, run) && CanHappen(st, run, Append(r)) && st.codec.encode(r) != []
    ensures Inv(st, run + [Append(r)])
  {
    hide Fold, LogInv, NodeOf, LogOf, Committed;
    var n, log := NodeOf(st, run), LogOf(st, run);
    Extend(st, run, Append(r));
    AppendKeepsLog(st, log, n.disk.wal, r);
    FoldOne(st.apply, st.empty, Committed(st, run), r);
    FoldOne(st.apply, Base(st, n.disk), log.records, r);
  }

  lemma {:induction false} CrashKeepsInv<S, R(!new)>(st: Store<S, R>, run: seq<Event<R>>, r: R, written: nat)
    requires Inv(st, run) && CanHappen(st, run, CrashInAppend(r, written)) && st.codec.encode(r) != []
    ensures Inv(st, run + [CrashInAppend(r, written)])
  {
    hide Fold, LogInv, NodeOf, LogOf, Committed;
    var n, log, all := NodeOf(st, run), LogOf(st, run), Committed(st, run);
    Extend(st, run, CrashInAppend(r, written));
    CutKeepsLog(st, log, n.disk.wal, r, written);
    FoldOne(st.apply, st.empty, all, r);
    FoldOne(st.apply, Base(st, n.disk), log.records, r);
    FoldJoins(st.apply, st.empty, all, log.records);
    assert (all + [r])[..|all|] == all;
  }

  lemma {:induction false} FailKeepsInv<S, R(!new)>(st: Store<S, R>, run: seq<Event<R>>, r: R, written: nat)
    requires Inv(st, run) && CanHappen(st, run, FailAppend(r, written)) && st.codec.encode(r) != []
    ensures Inv(st, run + [FailAppend(r, written)])
  {
    hide Fold, LogInv, NodeOf, LogOf, Committed;
    var n, log := NodeOf(st, run), LogOf(st, run);
    Extend(st, run, FailAppend(r, written));
    CutKeepsLog(st, log, n.disk.wal, r, written);
  }

  lemma EmptyKeepsInv<S, R(!new)>(st: Store<S, R>, run: seq<Event<R>>)
    requires Inv(st, run) && CanHappen(st, run, EmptyLog)
    ensures Inv(st, run + [EmptyLog])
  {
    Extend(st, run, EmptyLog);
  }

  lemma GluedHasTail<S, R(!new)>(st: Store<S, R>, log: Log<R>, wal: string)
    requires LogInv(st, log, wal)
    ensures log.glued ==> log.tail != []
  {
  }

  lemma SavingKeepsLog<S, R(!new)>(st: Store<S, R>, log: Log<R>, wal: string)
    requires LogInv(st, log, wal)
    ensures LogInv(st, log.(saved := true), wal)
  {
    if log.glued {
      var rest :| wal == GluedLog(st, log, rest);
      assert wal == GluedLog(st, log.(saved := true), rest);
    }
  }

  lemma {:induction false} OtherKeepsInv<S(!new), R(!new)>(st: Store<S, R>, run: seq<Event<R>>, e: Event<R>)
    requires JsonLike(st.codec) && Absorbing(st)
    requires Inv(st, run) && CanHappen(st, run, e)
    requires e.RenameSnapshot? || e.AbandonSnapshot? || e.Crash? || e.Reopen?
    ensures Inv(st, run + [e])
  {
    hide LogInv, NodeOf, LogOf, Committed, JsonLike, Open, Fold;
    var n, log := NodeOf(st, run), LogOf(st, run);
    Extend(st, run, e);
    SavingKeepsLog(st, log, n.disk.wal);
    if e.RenameSnapshot? && !log.glued {
      var base, rs := Base(st, n.disk), Readable(st, log);
      assert Fold(st.apply, Fold(st.apply, base, rs), rs) == Fold(st.apply, base, rs);
    } else if e.Reopen? {
      OpenOfLog(st, log, n.disk);
    }
  }

  lemma {:induction false} RunKeepsInv<S(!new), R(!new)>(st: Store<S, R>, run: seq<Event<R>>)
    requires JsonLike(st.codec) && Absorbing(st) && IsRun(st, run)
    ensures Inv(st, run)
  {
    if run == [] {
      assert LogInv(st, EmptyFile(), []);
    } else {
      var before, e := Last(st, run);
      RunKeepsInv(st, before);
      StepKeepsInv(st, before, e);
    }
  }

  lemma Last<S, R>(st: Store<S, R>, run: seq<Event<R>>) returns (before: seq<Event<R>>, e: Event<R>)
    requires run != [] && IsRun(st, run)
    ensures before == run[..|run| - 1] && e == run[|run| - 1] && run == before + [e]
    ensures IsRun(st, before) && CanHappen(st, before, e)
  {
    hide CanHappen;
    var k := |run| - 1;
    before, e := run[..k], run[k];
    assert forall i :: 0 <= i < k ==> before[..i] == run[..i];
  }

  lemma {:induction false} StepKeepsInv<S(!new), R(!new)>(st: Store<S, R>, run: seq<Event<R>>, e: Event<R>)
    requires JsonLike(st.codec) && Absorbing(st) && Inv(st, run) && CanHappen(st, run, e)
    ensures Inv(st, run + [e])
  {
    hide Inv, CanHappen, Absorbing;
    match e
    case Append(r) => AppendKeepsInv(st, run, r);
    case FailAppend(r, written) => FailKeepsInv(st, run, r, written);
    case CrashInAppend(r, written) => CrashKeepsInv(st, run, r, written);
    case EmptyLog => EmptyKeepsInv(st, run);
    case _ => OtherKeepsInv(st, run, e);
  }

  /** The main theorem. After any run, with crashes between any two disk steps and
      inside appends, and with failed appends that left bytes behind: a running
      store holds exactly the committed records, and so does a store opened from
      the disk, unless a record was glued to a cut one; then opening is refused,
      never answered wrongly. */
  lemma {:induction false} RunIsDurable<S(!new), R(!new)>(st: Store<S, R>, run: seq<Event<R>>)
    requires JsonLike(st.codec) && Absorbing(st) && IsRun(st, run)
    ensures var n, log := NodeOf(st, run), LogOf(st, run);
            var now := Fold(st.apply, st.empty, Committed(st, run));
            && (n.memory.Some? ==> n.memory.value == now)
            && Open(st, n.disk) == if log.glued then Err(|log.records| + 1) else Ok(now)
  {
    hide Fold, NodeOf, LogOf, Committed, Open;
    RunKeepsInv(st, run);
    OpenOfLog(st, LogOf(st, run), NodeOf(st, run).disk);
  }

  // ----- Acknowledged writes -----------------------------------------------

  /** `xs` is `ys` with some elements left out. */
  ghost predicate LeavesOut<T>(xs: seq<T>, ys: seq<T>)
    decreases |ys|
  {
    if ys == [] then xs == []
    else
      || LeavesOut(xs, ys[..|ys| - 1])
      || (xs != [] && xs[|xs| - 1] == ys[|ys| - 1] && LeavesOut(xs[..|xs| - 1], ys[..|ys| - 1]))
  }

  lemma LeavesOutSame<T>(xs: seq<T>, ys: seq<T>, x: T)
    requires LeavesOut(xs, ys)
    ensures LeavesOut(xs + [x], ys + [x]) && LeavesOut(xs, ys + [x])
  {
    assert (ys + [x])[..|ys|] == ys && (xs + [x])[..|xs|] == xs;
  }

  lemma {:induction false} LeavesOutMore<T>(xs: seq<T>, ys: seq<T>, more: seq<T>)
    requires LeavesOut(xs, ys)
    ensures LeavesOut(xs, ys + more)
  {
    hide LeavesOut;
    if more == [] {
      assert ys + more == ys;
    } else {
      LeavesOutMore(xs, ys, more[..|more| - 1]);
      LeavesOutSame(xs, ys + more[..|more| - 1], more[|more| - 1]);
      assert ys + more == ys + more[..|more| - 1] + [more[|more| - 1]];
    }
  }

  function CutWrites<R>(run: seq<Event<R>>): nat {
    if run == [] then 0 else CutWrites(run[..|run| - 1]) + if run[|run| - 1].CrashInAppend? then 1 else 0
  }

  /** How many records are replayed a second time, over a record that a snapshot
      holds but the log has lost. */
  function Repeats<S, R>(st: Store<S, R>, run: seq<Event<R>>): nat {
    if run == [] then 0
    else
      var before, e := run[..|run| - 1], run[|run| - 1];
      var log := LogOf(st, before);
      Repeats(st, before) +
      if e.CrashInAppend? && e.written > 0 && EndsInRecord(st, log) && log.saved then |log.records| else 0
  }

  /** The acknowledged records are there without the last one, which only lacks
      its newline. */
  ghost predicate LastIsExtra<S, R>(st: Store<S, R>, run: seq<Event<R>>) {
    var log, all := LogOf(st, run), Committed(st, run);
    EndsInRecord(st, log) && !log.saved ==> all != [] && LeavesOut(Acknowledged(run), all[..|all| - 1])
  }

  /** No acknowledged write is lost, none is reordered, and the only other records
      are writes cut by a crash, at most one for each, and repeated records. */
  lemma {:induction false} AcknowledgedSurvive<S, R(!new)>(st: Store<S, R>, run: seq<Event<R>>)
    requires JsonLike(st.codec) && IsRun(st, run)
    ensures LeavesOut(Acknowledged(run), Committed(st, run)) && LastIsExtra(st, run)
    ensures |Committed(st, run)| <= |Acknowledged(run)| + CutWrites(run) + Repeats(st, run)
  {
    hide LeavesOut, JsonLike, CanHappen;
    if run == [] {
      EmptyLeavesOut<R>();
    } else {
      var before, e := Last(st, run);
      AcknowledgedSurvive(st, before);
      Survives(st, before, e);
    }
  }

  lemma ExtendCounts<S, R>(st: Store<S, R>, run: seq<Event<R>>, e: Event<R>)
    ensures Acknowledged(run + [e]) == Acknowledged(run) + if e.Append? then [e.record] else []
    ensures CutWrites(run + [e]) == CutWrites(run) + if e.CrashInAppend? then 1 else 0
    ensures var log := LogOf(st, run);
            Repeats(st, run + [e]) == Repeats(st, run) +
            if e.CrashInAppend? && e.written > 0 && EndsInRecord(st, log) && log.saved then |log.records| else 0
  {
    assert (run + [e])[..|run|] == run;
  }

  lemma {:induction false} Survives<S, R(!new)>(st: Store<S, R>, run: seq<Event<R>>, e: Event<R>)
    requires JsonLike(st.codec) && CanHappen(st, run, e)
    requires LeavesOut(Acknowledged(run), Committed(st, run)) && LastIsExtra(st, run)
    requires |Committed(st, run)| <= |Acknowledged(run)| + CutWrites(run) + Repeats(st, run)
    ensures LeavesOut(Acknowledged(run + [e]), Committed(st, run + [e])) && LastIsExtra(st, run + [e])
    ensures |Committed(st, run + [e])| <=
            |Acknowledged(run + [e])| + CutWrites(run + [e]) + Repeats(st, run + [e])
  {
    hide LeavesOut, LogOf, NodeOf, Committed, JsonLike, Acknowledged, CutWrites, Repeats;
    Extend(st, run, e);
    ExtendCounts(st, run, e);
    var acked, all, log := Acknowledged(run), Committed(st, run), LogOf(st, run);
    assert acked + [] == acked;
    if e.Append? {
      LeavesOutSame(acked, all, e.record);
    } else if e.CrashInAppend? {
      LeavesOutSame(acked, all, e.record);
      LeavesOutMore(acked, all, log.records);
      assert (all + [e.record])[..|all|] == all;
    }
  }

  lemma EmptyLeavesOut<T>()
    ensures LeavesOut<T>([], [])
  {
  }

  // ----- Acceptable records ------------------------------------------------

  /** What a store accepts it goes on accepting. */
  ghost predicate Lasting<S(!new), R(!new)>(st: Store<S, R>) {
    forall s, r, r' :: st.accepts(s, r) ==> st.accepts(st.apply(s, r'), r)
  }

  ghost predicate AcceptsAll<S, R>(st: Store<S, R>, s: S, rs: seq<R>) {
    forall i :: 0 <= i < |rs| ==> st.accepts(s, rs[i])
  }

  /** Every record was acceptable in the state it is replayed onto. */
  ghost predicate WereAccepted<S, R>(st: Store<S, R>, all: seq<R>) {
    forall i :: 0 <= i < |all| ==> st.accepts(Now(st, all[..i]), all[i])
  }

  lemma AcceptedOneMore<S, R>(st: Store<S, R>, all: seq<R>, r: R)
    requires WereAccepted(st, all) && st.accepts(Now(st, all), r)
    ensures WereAccepted(st, all + [r])
  {
    hide Fold;
    forall i | 0 <= i < |all + [r]|
      ensures st.accepts(Now(st, (all + [r])[..i]), (all + [r])[i])
    {
      assert i < |all| ==> (all + [r])[..i] == all[..i];
      assert i == |all| ==> (all + [r])[..i] == all;
    }
  }

  lemma AcceptedLess<S, R>(st: Store<S, R>, all: seq<R>)
    requires WereAccepted(st, all) && all != []
    ensures WereAccepted(st, all[..|all| - 1])
  {
    hide Fold;
    var front := all[..|all| - 1];
    assert forall i :: 0 <= i < |front| ==> front[..i] == all[..i] && front[i] == all[i];
  }

  lemma {:induction false} AcceptedAgain<S(!new), R(!new)>(st: Store<S, R>, all: seq<R>, rs: seq<R>, k: nat)
    requires Lasting(st) && WereAccepted(st, all) && AcceptsAll(st, Now(st, all), rs) && k <= |rs|
    ensures WereAccepted(st, all + rs[..k]) && AcceptsAll(st, Now(st, all + rs[..k]), rs)
  {
    hide WereAccepted, Fold;
    if k == 0 {
      assert all + rs[..0] == all;
    } else {
      var so := all + rs[..k - 1];
      AcceptedAgain(st, all, rs, k - 1);
      AcceptedOneMore(st, so, rs[k - 1]);
      FoldOne(st.apply, st.empty, so, rs[k - 1]);
      assert so + [rs[k - 1]] == all + rs[..k];
    }
  }

  ghost predicate AcceptInv<S, R>(st: Store<S, R>, run: seq<Event<R>>) {
    var log, all := LogOf(st, run), Committed(st, run);
    && WereAccepted(st, all)
    && AcceptsAll(st, Now(st, all), log.records)
    && (EndsInRecord(st, log) && !log.saved ==> all != [] && AcceptsAll(st, Now(st, all[..|all| - 1]), log.records))
  }

  lemma {:induction false} AcceptStep<S(!new), R(!new)>(st: Store<S, R>, run: seq<Event<R>>, e: Event<R>)
    requires JsonLike(st.codec) && Lasting(st) && Inv(st, run) && AcceptInv(st, run) && CanHappen(st, run, e)
    ensures AcceptInv(st, run + [e])
  {
    hide Fold, JsonLike, NodeOf, LogOf, Committed, WereAccepted, LogInv;
    Extend(st, run, e);
    var all, log := Committed(st, run), LogOf(st, run);
    if e.Append? || e.CrashInAppend? {
      AcceptedOneMore(st, all, e.record);
      FoldOne(st.apply, st.empty, all, e.record);
      assert (all + [e.record])[..|all|] == all;
      if EndsInRecord(st, log) && log.saved {
        AcceptedAgain(st, all, log.records, |log.records|);
        assert log.records[..|log.records|] == log.records;
      } else if EndsInRecord(st, log) {
        AcceptedLess(st, all);
      }
    }
  }

  /** Every committed record was acceptable to the store when it came. */
  lemma {:induction false} CommittedWereAccepted<S(!new), R(!new)>(st: Store<S, R>, run: seq<Event<R>>)
    requires JsonLike(st.codec) && Absorbing(st) && Lasting(st) && IsRun(st, run)
    ensures AcceptInv(st, run)
  {
    if run != [] {
      var before, e := Last(st, run);
      CommittedWereAccepted(st, before);
      RunKeepsInv(st, before);
      AcceptStep(st, before, e);
    }
  }

  // ----- Where the promise stops -------------------------------------------

  lemma RunExtends<S, R>(st: Store<S, R>, run: seq<Event<R>>, e: Event<R>)
    requires IsRun(st, run) && CanHappen(st, run, e)
    ensures IsRun(st, run + [e])
  {
    hide CanHappen;
    var longer := run + [e];
    forall i | 0 <= i < |longer|
      ensures CanHappen(st, longer[..i], longer[i])
    {
      assert i < |run| ==> longer[..i] == run[..i];
      assert i == |run| ==> longer[..i] == run;
    }
  }

  /** The store opened after a cut write keeps the cut bytes and appends behind
      them. The next acknowledged append therefore can be recovered exactly when
      the log did not end in a cut line. */
  lemma AppendBehindCut<S(!new), R(!new)>(st: Store<S, R>, run: seq<Event<R>>, r: R)
    requires JsonLike(st.codec) && Absorbing(st) && IsRun(st, run) && CanHappen(st, run, Append(r))
    ensures var disk := NodeOf(st, run + [Append(r)]).disk;
            Open(st, disk).Ok? <==> LogOf(st, run).tail == []
  {
    hide JsonLike, Absorbing, CanHappen, NodeOf, LogOf, Open, Fold, Committed;
    RunExtends(st, run, Append(r));
    RunIsDurable(st, run + [Append(r)]);
    Extend(st, run, Append(r));
    RunKeepsInv(st, run);
  }

  /** The record that only lacks its newline changes nothing when it is replayed. */
  predicate NoEffect<S(==), R>(st: Store<S, R>, log: Log<R>, disk: Disk<S>)
    requires EndsInRecord(st, log)
  {
    var before := Fold(st.apply, Base(st, disk), log.records);
    st.apply(before, log.tail[0].record) == before
  }

  /** A running store, and a write that stopped after `written` bytes, by a failure
      the caller saw or by a crash: the disk still recovers to the memory exactly
      when nothing was written; or, on an intact log, when the record is not whole
      or has no effect; or, behind a cut line, when no newline was written and no
      record is spoilt that only lacked its newline, unless that has no effect. */
  lemma {:induction false} PartialWrite<S(!new), R(!new)>(st: Store<S, R>, run: seq<Event<R>>, r: R, written: nat)
    requires JsonLike(st.codec) && Absorbing(st) && IsRun(st, run)
    requires NodeOf(st, run).memory.Some? && !LogOf(st, run).glued && written <= |st.codec.encode(r)| + 1
    ensures var n, log, size := NodeOf(st, run), LogOf(st, run), |st.codec.encode(r)|;
            Open(st, Reached(st, n.disk, r, written)) == Ok(n.memory.value) <==>
            || written == 0
            || (log.tail == [] && (written < size || st.apply(n.memory.value, r) == n.memory.value))
            || (log.tail != [] && written <= size && (EndsInRecord(st, log) ==> NoEffect(st, log, n.disk)))
  {
    hide JsonLike, Absorbing, IsRun, NodeOf, LogOf, Open, Fold, Committed, LogInv;
    var n, log := NodeOf(st, run), LogOf(st, run);
    RunKeepsInv(st, run);
    assert st.codec.encode(r) != [] by { CodesAreSomething(st.codec, r); }
    CutKeepsLog(st, log, n.disk.wal, r, written);
    OpenOfLog(st, AfterCut(st, log, r, written), Reached(st, n.disk, r, written));
    FoldOne(st.apply, Base(st, n.disk), log.records, r);
    if log.tail != [] {
      FoldOne(st.apply, Base(st, n.disk), log.records, log.tail[0].record);
    }
  }

  lemma CodesAreSomething<R(!new)>(c: Codec<R>, r: R)
    requires JsonLike(c)
    ensures c.encode(r) != []
  {
  }

  /** A failed append that left part of its line, the rest of which is not in the
      writer's buffer (after a restart, or for a line larger than the buffer), makes the
      next acknowledged append unreadable, whatever the state of the log. */
  lemma AppendBehindFailure<S(!new), R(!new)>(st: Store<S, R>, run: seq<Event<R>>, r: R, written: nat, r': R)
    requires JsonLike(st.codec) && Absorbing(st) && IsRun(st, run)
    requires 0 < written <= |st.codec.encode(r)|
    ensures Open(st, Reached(st, Reached(st, NodeOf(st, run).disk, r, written), r', |Line(st.codec, r')|)).Err?
  {
    hide JsonLike, Absorbing, IsRun, NodeOf, LogOf, Open, Fold, Committed, LogInv;
    var n, log := NodeOf(st, run), LogOf(st, run);
    RunKeepsInv(st, run);
    CodesAreSomething(st.codec, r');
    CutKeepsLog(st, log, n.disk.wal, r, written);
    var once, disk := AfterCut(st, log, r, written), Reached(st, n.disk, r, written);
    AppendKeepsLog(st, once, disk.wal, r');
    assert Line(st.codec, r')[..|Line(st.codec, r')|] == Line(st.codec, r');
    OpenOfLog(st, AfterAppend(st, once, r'), Reached(st, disk, r', |Line(st.codec, r')|));
  }

  /** A failed flush may keep the rest of the line in the writer's buffer and put it
      into the file with the next append. The record reported as failed is then on the
      disk: memory and disk agree exactly when the next record hides it. */
  lemma DelayedWrite<S(!new), R(!new)>(st: Store<S, R>, run: seq<Event<R>>, r: R, r': R)
    requires JsonLike(st.codec) && Absorbing(st) && IsRun(st, run)
    requires NodeOf(st, run).memory.Some? && LogOf(st, run).tail == []
    ensures var n := NodeOf(st, run);
            var memory := n.memory.value;
            var disk := n.disk.(wal := n.disk.wal + Line(st.codec, r) + Line(st.codec, r'));
            Open(st, disk) == Ok(st.apply(memory, r')) <==>
            st.apply(st.apply(memory, r), r') == st.apply(memory, r')
  {
    hide JsonLike, Absorbing, IsRun, NodeOf, LogOf, Open, Fold, Committed, LogInv;
    var n, log := NodeOf(st, run), LogOf(st, run);
    RunKeepsInv(st, run);
    GluedHasTail(st, log, n.disk.wal);
    CodesAreSomething(st.codec, r);
    CodesAreSomething(st.codec, r');
    AppendKeepsLog(st, log, n.disk.wal, r);
    var once := AfterAppend(st, log, r);
    AppendKeepsLog(st, once, n.disk.wal + Line(st.codec, r), r');
    var disk := n.disk.(wal := n.disk.wal + Line(st.codec, r) + Line(st.codec, r'));
    OpenOfLog(st, AfterAppend(st, once, r'), disk);
    FoldOne(st.apply, Base(st, n.disk), log.records, r);
    FoldOne(st.apply, Base(st, n.disk), log.records + [r], r');
  }

  /** A second crash behind a cut line loses nothing exactly when the line was not a
      whole record that lacked its newline, or that record has no effect. */
  lemma {:induction false} SecondCut<S(!new), R(!new)>(st: Store<S, R>, run: seq<Event<R>>, r: R, written: nat)
    requires JsonLike(st.codec) && Absorbing(st) && IsRun(st, run)
    requires NodeOf(st, run).memory.Some? && LogOf(st, run).tail != [] && !LogOf(st, run).glued
    requires 0 < written <= |st.codec.encode(r)|
    ensures var n, log := NodeOf(st, run), LogOf(st, run);
            Open(st, NodeOf(st, run + [CrashInAppend(r, written)]).disk) == Ok(n.memory.value) <==>
            (EndsInRecord(st, log) ==> NoEffect(st, log, n.disk))
  {
    hide JsonLike, Absorbing, IsRun, NodeOf, LogOf, Open, Fold, Committed;
    PartialWrite(st, run, r, written);
    Extend(st, run, CrashInAppend(r, written));
  }

  // ----- A running store ---------------------------------------------------

  /** How a write ends: all of it on stable storage, or a failure after `reached`
      bytes of the line are in the file. */
  datatype Write = Done | Failed(reached: nat)

  function EventOf<R>(r: R, w: Write): Event<R> {
    match w
    case Done => Append(r)
    case Failed(reached) => FailAppend(r, reached)
  }

  /** Memory is what the disk would recover to, unless the log is unreadable. The log
      may end in cut writes. */
  ghost predicate Recoverable<S, R(!new)>(st: Store<S, R>, log: Log<R>, disk: Disk<S>, memory: S) {
    && JsonLike(st.codec)
    && LogInv(st, log, disk.wal)
    && (!log.glued ==> memory == Fold(st.apply, Base(st, disk), Readable(st, log)))
  }

  /** A write that keeps memory and disk in step: it succeeds, or it fails and what
      it leaves in the file changes nothing that replay reads. */
  predicate KeepsStep<S, R>(st: Store<S, R>, log: Log<R>, r: R, w: Write) {
    w.Done? || (w.reached <= |Line(st.codec, r)| && Harmless(st, log, r, w.reached))
  }

  lemma WriteKeepsRecoverable<S, R(!new)>(st: Store<S, R>, log: Log<R>, n: Node<S>, r: R, w: Write)
    requires n.memory.Some? && Recoverable(st, log, n.disk, n.memory.value) && KeepsStep(st, log, r, w)
    ensures var n' := Step(st, n, EventOf(r, w));
            n'.memory.Some? && Recoverable(st, LogAfter(st, log, EventOf(r, w)), n'.disk, n'.memory.value)
  {
    hide JsonLike, LogInv, Fold;
    CodesAreSomething(st.codec, r);
    match w
    case Done =>
      AppendKeepsLog(st, log, n.disk.wal, r);
      FoldOne(st.apply, Base(st, n.disk), log.records, r);
    case Failed(reached) =>
      CutKeepsLog(st, log, n.disk.wal, r, reached);
  }

  lemma SnapshotIsRecoverable<S, R(!new)>(st: Store<S, R>, memory: S)
    requires JsonLike(st.codec)
    ensures Recoverable(st, EmptyFile(), Disk(Some(memory), []), memory)
  {
  }
}
