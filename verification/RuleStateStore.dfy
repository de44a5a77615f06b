/** The durable rule-state store: one current state per rule, the last write
    wins, on the same log and snapshot protocol as the tiering store. */
module RuleStateStore {
  import opened Wrappers
  import opened WalRecovery
  import opened TextCodec
  import D = DurableLog
  import opened RuleMachine

  type States = map<string, RuleState>

  datatype Put = Put(rule: string, state: RuleState)

  function Insert(states: States, p: Put): States {
    states[p.rule := p.state]
  }

  function StateStore(codec: Codec<Put>): D.Store<States, Put> {
    D.Store(map[], Insert, (s, p) => true, codec)
  }

  /** The state of a rule: its last record, or what was there before. */
  function LatestOf(o: Option<RuleState>, ps: seq<Put>, rule: string): Option<RuleState> {
    if ps == [] then o
    else if ps[|ps| - 1].rule == rule then Some(ps[|ps| - 1].state)
    else LatestOf(o, ps[..|ps| - 1], rule)
  }

  function Lookup(states: States, rule: string): Option<RuleState> {
    if rule in states then Some(states[rule]) else None
  }

  lemma {:induction false} ReplayIsLatestWins(states: States, ps: seq<Put>, rule: string)
    ensures Lookup(Fold(Insert, states, ps), rule) == LatestOf(Lookup(states, rule), ps, rule)
  {
    if ps != [] {
      var front, last := ps[..|ps| - 1], ps[|ps| - 1];
      assert ps == front + [last];
      D.FoldOne(Insert, states, front, last);
      ReplayIsLatestWins(states, front, rule);
    }
  }

  lemma {:induction false} LatestTwice(o: Option<RuleState>, ps: seq<Put>, rule: string)
    ensures LatestOf(LatestOf(o, ps, rule), ps, rule) == LatestOf(o, ps, rule)
  {
    if ps != [] && ps[|ps| - 1].rule != rule {
      LatestTwice(o, ps[..|ps| - 1], rule);
    }
  }

  lemma StatesAbsorb(codec: Codec<Put>)
    ensures D.Absorbing(StateStore(codec))
  {
    var st := StateStore(codec);
    forall s, ps
      ensures Fold(st.apply, Fold(st.apply, s, ps), ps) == Fold(st.apply, s, ps)
    {
      var once := Fold(Insert, s, ps);
      var twice := Fold(Insert, once, ps);
      forall rule
        ensures Lookup(twice, rule) == Lookup(once, rule)
      {
        ReplayIsLatestWins(s, ps, rule);
        ReplayIsLatestWins(once, ps, rule);
        LatestTwice(Lookup(s, rule), ps, rule);
      }
      assert forall rule :: rule in once <==> Lookup(once, rule).Some?;
      assert forall rule :: rule in twice <==> Lookup(twice, rule).Some?;
      assert forall rule :: rule in once ==> once[rule] == Lookup(once, rule).value == twice[rule];
    }
  }

  /** After any run with crashes, every rule's recovered state is the last one put
      for it, unless a put was glued to a cut line, and then opening is refused. */
  lemma StatesAreDurable(codec: Codec<Put>, run: seq<D.Event<Put>>, rule: string)
    requires JsonLike(codec) && D.IsRun(StateStore(codec), run)
    ensures var st := StateStore(codec);
            var disk, latest := D.NodeOf(st, run).disk, LatestOf(None, D.Committed(st, run), rule);
            if D.LogOf(st, run).glued then D.Open(st, disk).Err?
            else D.Open(st, disk).Ok? && Lookup(D.Open(st, disk).value, rule) == latest
  {
    hide JsonLike, D.IsRun, D.NodeOf, D.LogOf, D.Committed, D.Open, Fold, D.Absorbing, LatestOf;
    StatesAbsorb(codec);
    D.RunIsDurable(StateStore(codec), run);
    ReplayIsLatestWins(map[], D.Committed(StateStore(codec), run), rule);
  }

  /** A crash inside a put, on a log that is intact, is a crash just before it or just
      after it: after it from the last byte of the line on. */
  lemma CrashInPut(codec: Codec<Put>, run: seq<D.Event<Put>>, p: Put, written: nat)
    requires JsonLike(codec) && D.IsRun(StateStore(codec), run)
    requires D.CanHappen(StateStore(codec), run, D.CrashInAppend(p, written))
    requires D.LogOf(StateStore(codec), run).tail == []
    ensures var st := StateStore(codec);
            var before := D.NodeOf(st, run).memory.value;
            D.Open(st, D.NodeOf(st, run + [D.CrashInAppend(p, written)]).disk) ==
            Ok(if written >= |codec.encode(p)| then Insert(before, p) else before)
  {
    hide JsonLike, D.IsRun, D.NodeOf, D.LogOf, D.Committed, D.Open, Fold, D.Absorbing, D.LogInv;
    var st, e := StateStore(codec), D.CrashInAppend(p, written);
    StatesAbsorb(codec);
    D.CodesAreSomething(codec, p);
    D.RunExtends(st, run, e);
    D.Extend(st, run, e);
    D.RunIsDurable(st, run);
    D.RunKeepsInv(st, run);
    D.GluedHasTail(st, D.LogOf(st, run), D.NodeOf(st, run).disk.wal);
    D.RunIsDurable(st, run + [e]);
    D.FoldOne(Insert, map[], D.Committed(st, run), p);
  }

  class StateDisk {
    var snapshot: Option<States>
    var wal: string

    constructor ()
      ensures snapshot == None && wal == []
    {
      snapshot, wal := None, [];
    }
  }

  class FileBackedRuleStateStore {
    const disk: StateDisk
    const codec: Codec<Put>
    var rules: States
    ghost var log: D.Log<Put>

    ghost function View(): D.Node<States>
      reads this, disk
    {
      D.Node(D.Disk(disk.snapshot, disk.wal), Some(rules), false)
    }

    ghost predicate Valid()
      reads this, disk
    {
      D.Recoverable(StateStore(codec), log, View().disk, rules)
    }

    constructor (disk: StateDisk, codec: Codec<Put>, rules: States, ghost log: D.Log<Put>)
      ensures this.disk == disk && this.codec == codec && this.rules == rules && this.log == log
    {
      this.disk, this.codec, this.rules, this.log := disk, codec, rules, log;
    }

    method PutState(rule: string, state: RuleState, w: D.Write) returns (ok: bool)
      modifies this, disk
      ensures ok == w.Done?
      ensures rules == if ok then old(rules)[rule := state] else old(rules)
      ensures var p := Put(rule, state);
              && View() == D.Step(StateStore(codec), old(View()), D.EventOf(p, w))
              && log == D.LogAfter(StateStore(codec), old(log), D.EventOf(p, w))
              && (old(Valid()) && D.KeepsStep(StateStore(codec), old(log), p, w) ==> Valid())
    {
      hide D.Recoverable, D.LogAfter, D.KeepsStep;
      var p := Put(rule, state);
      if Valid() && D.KeepsStep(StateStore(codec), log, p, w) {
        D.WriteKeepsRecoverable(StateStore(codec), log, View(), p, w);
      }
      log := D.LogAfter(StateStore(codec), log, D.EventOf(p, w));
      if w.Failed? {
        disk.wal := disk.wal + D.Torn(Line(codec, p), w.reached);
        return false;
      }
      disk.wal := disk.wal + Line(codec, p);
      rules := rules[rule := state];
      return true;
    }

    method Snapshot()
      modifies this`log, disk
      ensures rules == old(rules)
      ensures var renamed := D.Step(StateStore(codec), old(View()), D.RenameSnapshot);
              View() == D.Step(StateStore(codec), renamed, D.EmptyLog)
      ensures JsonLike(codec) ==> Valid() && !log.glued && log.tail == []
    {
      disk.snapshot := Some(rules);
      disk.wal := [];
      log := D.EmptyFile();
      if JsonLike(codec) {
        D.SnapshotIsRecoverable(StateStore(codec), rules);
      }
    }

    method LoadAll() returns (states: States)
      ensures states == rules
      ensures Valid() ==>
                D.Open(StateStore(codec), View().disk) == if log.glued then Err(|log.records| + 1) else Ok(states)
    {
      if Valid() {
        D.OpenOfLog(StateStore(codec), log, View().disk);
      }
      states := rules;
    }
  }

  /** Open a store, or report the line of the log that cannot be read. */
  method OpenStates(disk: StateDisk, codec: Codec<Put>, ghost log: D.Log<Put>)
    returns (result: Result<FileBackedRuleStateStore, nat>)
    ensures disk.snapshot == old(disk.snapshot) && disk.wal == old(disk.wal)
    ensures match D.Open(StateStore(codec), D.Disk(disk.snapshot, disk.wal))
            case Ok(recovered) => result.Ok? && fresh(result.value) && result.value.disk == disk &&
                                  result.value.codec == codec && result.value.rules == recovered
            case Err(line) => result == Err(line)
    ensures JsonLike(codec) && D.LogInv(StateStore(codec), log, disk.wal) ==>
              if log.glued then result == Err(|log.records| + 1) else result.Ok? && result.value.Valid()
  {
    hide Replayed, JsonLike, D.LogInv;
    var base := disk.snapshot.GetOr(map[]);
    if JsonLike(codec) && D.LogInv(StateStore(codec), log, disk.wal) {
      D.OpenOfLog(StateStore(codec), log, D.Disk(disk.snapshot, disk.wal));
    }
    var recovered :- Replay(codec, Insert, base, disk.wal);
    var store := new FileBackedRuleStateStore(disk, codec, recovered, log);
    return Ok(store);
  }

  // ----- The records can be encoded ----------------------------------------

  function StateText(state: RuleState): string {
    match state
    case Inactive => "i"
    case Pending(since) => "p" + (Number(since) + [])
    case Firing(since) => "f" + (Number(since) + [])
  }

  function Text(p: Put): string {
    Framed(p.rule) + StateText(p.state)
  }

  lemma TextTells(p: Put, q: Put)
    requires Text(p) == Text(q)
    ensures p == q
  {
    hide Framed, Number;
    var a, b := StateText(p.state), StateText(q.state);
    FramesEnd(p.rule, a, q.rule, b);
    assert a[0] == b[0];
    if !p.state.Inactive? {
      assert a[1..] == Number(p.state.since) + [] && b[1..] == Number(q.state.since) + [];
      NumbersEnd(p.state.since, [], q.state.since, []);
    }
  }

  lemma StateCodecsExist()
    ensures exists codec: Codec<Put> :: JsonLike(codec)
  {
    forall p, q | Text(p) == Text(q)
      ensures p == q
    {
      TextTells(p, q);
    }
    var codec := JsonLikeCodecsExist(Text);
  }
}
