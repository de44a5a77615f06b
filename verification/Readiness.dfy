/** The readiness state machine of the ingest gateway: one phase and two flags,
    changed by atomic stores and compare-exchange steps from any number of tasks.
    Interleavings are sequentially consistent. */
module Readiness {
  import opened Wrappers

  datatype Phase = Starting | Ready | Draining | Failed {
    predicate Terminal() {
      Draining? || Failed?
    }

    function Rank(): nat {
      if Starting? then 0 else if Ready? then 1 else 2
    }
  }

  datatype Listener = Grpc | Http

  datatype Shared = Shared(phase: Phase, grpcBound: bool, httpBound: bool)

  type Target = p: Phase | p.Terminal() witness Draining

  /** A call in progress, by the atomic step it takes next. A flip remembers the
      phase at its call and what its first compare-exchange saw. */
  datatype Task =
    | Store(listener: Listener)
    | LoadGrpc
    | LoadHttp
    | Promote
    | CasReady(target: Target, begun: Phase)
    | CasStarting(target: Target, begun: Phase, first: Phase)
    | Log(flip: Option<Phase>)
    | Returned(flip: Option<Phase>)

  datatype Call = Mark(listener: Listener) | Flip(target: Target)

  function Begin(call: Call, phase: Phase): Task {
    match call
    case Mark(listener) => Store(listener)
    case Flip(target) => CasReady(target, phase)
  }

  /** One atomic step of one task. */
  function Advance(s: Shared, t: Task): (Shared, Task) {
    match t
    case Store(Grpc) => (s.(grpcBound := true), LoadGrpc)
    case Store(Http) => (s.(httpBound := true), LoadGrpc)
    case LoadGrpc => (s, if s.grpcBound then LoadHttp else Returned(None))
    case LoadHttp => (s, if s.httpBound then Promote else Returned(None))
    case Promote => if s.phase.Starting? then (s.(phase := Ready), Log(None)) else (s, Returned(None))
    case CasReady(target, begun) =>
      if s.phase.Ready? then (s.(phase := target), Log(Some(begun)))
      else (s, CasStarting(target, begun, s.phase))
    case CasStarting(target, begun, first) =>
      if s.phase.Starting? then (s.(phase := target), Log(Some(begun))) else (s, Returned(Some(begun)))
    case Log(flip) => (s, Returned(flip))
    case Returned(_) => (s, t)
  }

  datatype System = System(shared: Shared, tasks: seq<Task>, emitted: nat)

  datatype Action = Start(call: Call) | Step(task: nat)

  const INITIAL := System(Shared(Starting, false, false), [], 0)

  function Next(s: System, a: Action): System {
    match a
    case Start(call) => s.(tasks := s.tasks + [Begin(call, s.shared.phase)])
    case Step(i) =>
      if i >= |s.tasks| then s
      else
        var (shared, task) := Advance(s.shared, s.tasks[i]);
        System(shared, s.tasks[i := task], s.emitted + if s.tasks[i].Log? then 1 else 0)
  }

  function Run(s: System, actions: seq<Action>): System
    decreases |actions|
  {
    if actions == [] then s else Run(Next(s, actions[0]), actions[1..])
  }

  /** How often the phase changes along a run. */
  function Changes(s: System, actions: seq<Action>): nat
    decreases |actions|
  {
    if actions == [] then 0
    else
      var n := Next(s, actions[0]);
      (if n.shared.phase == s.shared.phase then 0 else 1) + Changes(n, actions[1..])
  }

  function Unlogged(tasks: seq<Task>): nat {
    if tasks == [] then 0 else (if tasks[0].Log? then 1 else 0) + Unlogged(tasks[1..])
  }

  // ----- Invariant ---------------------------------------------------------

  ghost predicate TaskInv(s: Shared, t: Task) {
    match t
    case LoadHttp => s.grpcBound
    case Promote => s.grpcBound && s.httpBound
    case CasReady(_, begun) => begun.Rank() <= s.phase.Rank()
    case CasStarting(_, begun, first) =>
      begun.Rank() <= first.Rank() && !first.Ready? && first.Rank() <= s.phase.Rank()
    case Log(Some(_)) => s.phase.Terminal()
    case Returned(Some(begun)) => !begun.Starting? ==> s.phase.Terminal()
    case _ => true
  }

  ghost predicate Inv(s: System) {
    && (s.shared.phase.Ready? ==> s.shared.grpcBound && s.shared.httpBound)
    && forall i :: 0 <= i < |s.tasks| ==> TaskInv(s.shared, s.tasks[i])
  }

  /** A later shared state keeps what a task already knows. */
  ghost predicate Grows(s: Shared, s': Shared) {
    && (s.phase == s'.phase || s.phase.Rank() < s'.phase.Rank())
    && (s.grpcBound ==> s'.grpcBound) && (s.httpBound ==> s'.httpBound)
  }

  lemma TaskInvIsStable(s: Shared, s': Shared, t: Task)
    requires TaskInv(s, t) && Grows(s, s')
    ensures TaskInv(s', t)
  {
  }

  lemma AdvanceKeepsInv(s: Shared, t: Task)
    requires TaskInv(s, t) && (s.phase.Ready? ==> s.grpcBound && s.httpBound)
    ensures var (s', t') := Advance(s, t);
            Grows(s, s') && TaskInv(s', t') && (s'.phase.Ready? ==> s'.grpcBound && s'.httpBound)
  {
  }

  lemma NextKeepsInv(s: System, a: Action)
    requires Inv(s)
    ensures Inv(Next(s, a)) && Grows(s.shared, Next(s, a).shared)
  {
    hide TaskInv;
    var n := Next(s, a);
    match a
    case Start(call) =>
      BeginInv(s.shared, call);
    case Step(i) =>
      if i < |s.tasks| {
        AdvanceKeepsInv(s.shared, s.tasks[i]);
        forall k | 0 <= k < |n.tasks|
          ensures TaskInv(n.shared, n.tasks[k])
        {
          if k != i {
            TaskInvIsStable(s.shared, n.shared, s.tasks[k]);
          }
        }
      }
  }

  lemma BeginInv(s: Shared, call: Call)
    ensures TaskInv(s, Begin(call, s.phase))
  {
  }

  // ----- Every run ---------------------------------------------------------

  /** The phase only rises, a terminal phase never changes, and a ready gateway
      has both listeners bound. */
  lemma {:induction false} PhaseOnlyRises(s: System, actions: seq<Action>)
    requires Inv(s)
    ensures Inv(Run(s, actions))
    ensures var p, q := s.shared.phase, Run(s, actions).shared.phase;
            p == q || p.Rank() < q.Rank()
    ensures Run(s, actions).shared.phase.Ready? ==>
              Run(s, actions).shared.grpcBound && Run(s, actions).shared.httpBound
    decreases |actions|
  {
    hide Next, TaskInv;
    if actions != [] {
      NextKeepsInv(s, actions[0]);
      PhaseOnlyRises(Next(s, actions[0]), actions[1..]);
    }
  }

  lemma {:induction false} UnloggedOfUpdate(tasks: seq<Task>, i: nat, t: Task)
    requires i < |tasks|
    ensures Unlogged(tasks[i := t]) ==
            Unlogged(tasks) - (if tasks[i].Log? then 1 else 0) + (if t.Log? then 1 else 0)
  {
    if i == 0 {
      assert tasks[0 := t][1..] == tasks[1..];
    } else {
      UnloggedOfUpdate(tasks[1..], i - 1, t);
      assert tasks[i := t][1..] == tasks[1..][i - 1 := t];
    }
  }

  lemma {:induction false} UnloggedOfAppend(tasks: seq<Task>, t: Task)
    ensures Unlogged(tasks + [t]) == Unlogged(tasks) + (if t.Log? then 1 else 0)
  {
    if tasks == [] {
      assert tasks + [t] == [t];
    } else {
      UnloggedOfAppend(tasks[1..], t);
      assert (tasks + [t])[1..] == tasks[1..] + [t];
    }
  }

  lemma EmissionsOfNext(s: System, a: Action)
    ensures var n := Next(s, a);
            n.emitted + Unlogged(n.tasks) ==
            s.emitted + Unlogged(s.tasks) + if n.shared.phase == s.shared.phase then 0 else 1
  {
    match a
    case Start(call) => UnloggedOfAppend(s.tasks, Begin(call, s.shared.phase));
    case Step(i) =>
      if i < |s.tasks| {
        UnloggedOfUpdate(s.tasks, i, Advance(s.shared, s.tasks[i]).1);
      }
  }

  /** Every phase change is logged exactly once, by the task that made it. */
  lemma {:induction false} EmissionsAreChanges(s: System, actions: seq<Action>)
    requires Inv(s)
    ensures var r := Run(s, actions);
            r.emitted + Unlogged(r.tasks) == s.emitted + Unlogged(s.tasks) + Changes(s, actions)
    ensures Changes(s, actions) <= Run(s, actions).shared.phase.Rank() - s.shared.phase.Rank() <= 2
    decreases |actions|
  {
    hide Next, Inv, Unlogged;
    if actions != [] {
      EmissionsOfNext(s, actions[0]);
      NextKeepsInv(s, actions[0]);
      EmissionsAreChanges(Next(s, actions[0]), actions[1..]);
    }
  }

  /** From start-up on: at most two changes, each logged at most once, and once
      every task has returned, each logged exactly once. */
  lemma RunEmissions(actions: seq<Action>)
    ensures var r := Run(INITIAL, actions);
            && r.emitted <= Changes(INITIAL, actions) <= 2
            && ((forall i :: 0 <= i < |r.tasks| ==> r.tasks[i].Returned?) ==> r.emitted == Changes(INITIAL, actions))
  {
    EmissionsAreChanges(INITIAL, actions);
    var r := Run(INITIAL, actions);
    if forall i :: 0 <= i < |r.tasks| ==> r.tasks[i].Returned? {
      NothingUnlogged(r.tasks);
    }
  }

  lemma {:induction false} NothingUnlogged(tasks: seq<Task>)
    requires forall i :: 0 <= i < |tasks| ==> tasks[i].Returned?
    ensures Unlogged(tasks) == 0
  {
    if tasks != [] {
      NothingUnlogged(tasks[1..]);
    }
  }

  // ----- Flips -------------------------------------------------------------

  /** A flip called once start-up is over has landed when it returns: the phase is
      draining or failed and stays so. */
  lemma FlipLands(actions: seq<Action>, i: nat)
    requires var r := Run(INITIAL, actions);
             i < |r.tasks| && r.tasks[i].Returned? && r.tasks[i].flip.Some? && !r.tasks[i].flip.value.Starting?
    ensures Run(INITIAL, actions).shared.phase.Terminal()
  {
    PhaseOnlyRises(INITIAL, actions);
    var r := Run(INITIAL, actions);
    assert TaskInv(r.shared, r.tasks[i]);
  }

  /** The schedule that makes a flip called during start-up miss: both listeners
      report between its two compare-exchange steps. */
  function Interloper(n: nat, target: Target): seq<Action> {
    [ Start(Flip(target)), Step(n),
      Start(Mark(Grpc)), Step(n + 1), Start(Mark(Http)), Step(n + 2),
      Step(n + 2), Step(n + 2), Step(n + 2), Step(n) ]
  }

  /** However a flip called in `s` is interleaved, the phase is terminal once it has
      returned. */
  ghost predicate AlwaysLands(s: System, target: Target) {
    forall actions :: var r := Run(Next(s, Start(Flip(target))), actions);
      |s.tasks| < |r.tasks| && r.tasks[|s.tasks|].Returned? ==> r.shared.phase.Terminal()
  }

  lemma {:induction false} TaskKeepsBegun(s: System, actions: seq<Action>, i: nat, begun: Phase)
    requires i < |s.tasks| && BegunAt(s.tasks[i], begun)
    ensures i < |Run(s, actions).tasks| && BegunAt(Run(s, actions).tasks[i], begun)
    decreases |actions|
  {
    if actions != [] {
      TaskKeepsBegun(Next(s, actions[0]), actions[1..], i, begun);
    }
  }

  ghost predicate BegunAt(t: Task, begun: Phase) {
    match t
    case CasReady(_, b) => b == begun
    case CasStarting(_, b, _) => b == begun
    case Log(flip) => flip == Some(begun)
    case Returned(flip) => flip == Some(begun)
    case _ => false
  }

  /** A flip is sure to land exactly when it is called after start-up. */
  lemma FlipLandsExactly(s: System, target: Target)
    requires Inv(s)
    ensures AlwaysLands(s, target) <==> !s.shared.phase.Starting?
  {
    var n := |s.tasks|;
    var begun := Next(s, Start(Flip(target)));
    if s.shared.phase.Starting? {
      var schedule := Interloper(n, target);
      InterloperMisses(s, target);
      RunFrom(s, schedule, 0);
      assert schedule[0..] == schedule;
    } else {
      forall actions
        ensures var r := Run(begun, actions);
                n < |r.tasks| && r.tasks[n].Returned? ==> r.shared.phase.Terminal()
      {
        NextKeepsInv(s, Start(Flip(target)));
        PhaseOnlyRises(begun, actions);
        TaskKeepsBegun(begun, actions, n, s.shared.phase);
        var r := Run(begun, actions);
        assert TaskInv(r.shared, r.tasks[n]);
      }
    }
  }

  lemma {:induction false} RunFrom(s: System, actions: seq<Action>, k: nat)
    requires k < |actions|
    ensures Run(s, actions[k..]) == Run(Next(s, actions[k]), actions[k + 1..])
  {
    assert actions[k..][1..] == actions[k + 1..];
  }

  lemma StartBehind(s: System, others: seq<Task>, mine: seq<Task>, call: Call)
    requires s.tasks == others + mine
    ensures Next(s, Start(call)).tasks == others + (mine + [Begin(call, s.shared.phase)])
    ensures Next(s, Start(call)).shared == s.shared
  {
  }

  lemma StepBehind(s: System, others: seq<Task>, mine: seq<Task>, k: nat)
    requires s.tasks == others + mine && k < |mine|
    ensures Next(s, Step(|others| + k)).tasks == others + mine[k := Advance(s.shared, mine[k]).1]
    ensures Next(s, Step(|others| + k)).shared == Advance(s.shared, mine[k]).0
  {
  }

  lemma InterloperStates(s: System, target: Target) returns (t: seq<System>)
    requires s.shared.phase.Starting?
    ensures |t| == 11 && t[0] == s
    ensures forall i :: 0 <= i < 10 ==> t[i + 1] == Next(t[i], Interloper(|s.tasks|, target)[i])
    ensures t[10].shared.phase == Ready && t[10].tasks == s.tasks + [Returned(Some(Starting)), LoadGrpc, Log(None)]
  {
    hide Next;
    var n, o := |s.tasks|, s.tasks;
    var a := Interloper(n, target);
    var s1 := Next(s, a[0]);
    assert s.tasks == o + [];
    StartBehind(s, o, [], Flip(target));
    var flip := CasReady(target, Starting);
    assert s1.tasks == o + [flip];
    var s2 := Next(s1, a[1]);
    StepBehind(s1, o, [flip], 0);
    var half := CasStarting(target, Starting, Starting);
    var s3 := Next(s2, a[2]);
    StartBehind(s2, o, [half], Mark(Grpc));
    var s4 := Next(s3, a[3]);
    StepBehind(s3, o, [half, Store(Grpc)], 1);
    var s5 := Next(s4, a[4]);
    StartBehind(s4, o, [half, LoadGrpc], Mark(Http));
    var s6 := Next(s5, a[5]);
    StepBehind(s5, o, [half, LoadGrpc, Store(Http)], 2);
    var s7 := Next(s6, a[6]);
    StepBehind(s6, o, [half, LoadGrpc, LoadGrpc], 2);
    var s8 := Next(s7, a[7]);
    StepBehind(s7, o, [half, LoadGrpc, LoadHttp], 2);
    var s9 := Next(s8, a[8]);
    StepBehind(s8, o, [half, LoadGrpc, Promote], 2);
    var s10 := Next(s9, a[9]);
    StepBehind(s9, o, [half, LoadGrpc, Log(None)], 0);
    t := [s, s1, s2, s3, s4, s5, s6, s7, s8, s9, s10];
  }

  lemma {:induction false} RunThrough(t: seq<System>, actions: seq<Action>, k: nat)
    requires |t| == |actions| + 1 && k <= |actions|
    requires forall i :: 0 <= i < |actions| ==> t[i + 1] == Next(t[i], actions[i])
    ensures Run(t[k], actions[k..]) == t[|actions|]
    decreases |actions| - k
  {
    hide Next;
    if k < |actions| {
      RunFrom(t[k], actions, k);
      RunThrough(t, actions, k + 1);
    }
  }

  lemma InterloperMisses(s: System, target: Target)
    requires s.shared.phase.Starting?
    ensures var r := Run(s, Interloper(|s.tasks|, target));
            |s.tasks| < |r.tasks| && r.tasks[|s.tasks|] == Returned(Some(Starting)) && r.shared.phase == Ready
  {
    hide Run, Next;
    var t := InterloperStates(s, target);
    var a := Interloper(|s.tasks|, target);
    RunThrough(t, a, 0);
    assert a[0..] == a;
  }

  // ----- The shared object -------------------------------------------------

  class ReadinessState {
    var inner: Phase
    var grpcBound: bool
    var httpBound: bool

    ghost function View(): Shared
      reads this
    {
      Shared(inner, grpcBound, httpBound)
    }

    constructor ()
      ensures inner == Starting && !grpcBound && !httpBound
      ensures View() == INITIAL.shared
    {
      inner, grpcBound, httpBound := Starting, false, false;
    }

    method CompareExchange(expected: Phase, desired: Phase) returns (ok: bool)
      modifies this`inner
      ensures ok <==> old(inner) == expected
      ensures inner == if ok then desired else old(inner)
    {
      ok := inner == expected;
      if ok {
        inner := desired;
      }
    }

    /** The next atomic step of a task, carried out on the fields. */
    method Atomic(t: Task) returns (next: Task)
      modifies this
      ensures (View(), next) == Advance(old(View()), t)
    {
      match t {
        case Store(Grpc) => grpcBound := true; next := LoadGrpc;
        case Store(Http) => httpBound := true; next := LoadGrpc;
        case LoadGrpc => next := if grpcBound then LoadHttp else Returned(None);
        case LoadHttp => next := if httpBound then Promote else Returned(None);
        case Promote =>
          var ok := CompareExchange(Starting, Ready);
          next := if ok then Log(None) else Returned(None);
        case CasReady(target, begun) =>
          var seen := inner;
          var ok := CompareExchange(Ready, target);
          next := if ok then Log(Some(begun)) else CasStarting(target, begun, seen);
        case CasStarting(target, begun, _) =>
          var ok := CompareExchange(Starting, target);
          next := if ok then Log(Some(begun)) else Returned(Some(begun));
        case Log(flip) => next := Returned(flip);
        case Returned(_) => next := t;
      }
    }

    /** A call that nothing interrupts: a flip always lands, and a mark makes the
        gateway ready exactly when it completes the pair during start-up. */
    method Perform(call: Call) returns (lines: nat)
      modifies this
      ensures call.Flip? ==> inner == if old(inner).Terminal() then old(inner) else call.target
      ensures call.Flip? ==> grpcBound == old(grpcBound) && httpBound == old(httpBound)
      ensures call.Mark? ==>
                && grpcBound == (old(grpcBound) || call.listener.Grpc?)
                && httpBound == (old(httpBound) || call.listener.Http?)
                && inner == if old(inner).Starting? && grpcBound && httpBound then Ready else old(inner)
      ensures lines == if inner == old(inner) then 0 else 1
    {
      var t1 := Atomic(Begin(call, inner));
      var t2 := Atomic(t1);
      var t3 := Atomic(t2);
      var t4 := Atomic(t3);
      var t5 := Atomic(t4);
      lines := if t1.Log? || t2.Log? || t3.Log? || t4.Log? then 1 else 0;
    }
  }
}
