/** The alerting process: one evaluation loop per rule, a shared resolver and a
    durable store. Loops interleave at their steps (evaluate, persist, observe),
    the process may crash between any two steps, restart with any catalogue, and
    reload. Puts succeed; a crash inside a put is a crash just before or just after
    it. A page counts as delivered once the resolver hands it out. */
module RuleLoop {
  import opened Wrappers
  import opened RuleMachine
  import opened RuleStateStore
  import I = Inhibition

  /** The evaluation a page comes from, by its number in the rule's history. */
  datatype Stamp = Stamp(tick: nat, times: Times)

  type Page = Emission<Stamp>

  datatype Stage =
    | Idle
    | Evaluated(next: RuleState, emission: Option<Emission<Times>>)
    | Persisted(page: Option<Page>)

  datatype Loop = Loop(rule: Rule, state: RuleState, stage: Stage)

  /** `ticks` is every evaluation ever made, by rule; `released` every emission the
      resolver ever handed out. */
  datatype System = System(
    store: States,
    loops: map<string, Loop>,
    resolver: I.Resolver<Stamp>,
    released: seq<Page>,
    ticks: map<string, seq<Tick>>)
  {
    function Ticks(n: string): seq<Tick> {
      if n in ticks then ticks[n] else []
    }

    function Stored(n: string): RuleState {
      if n in store then store[n] else Inactive
    }
  }

  datatype Action =
    | Start(rules: seq<Rule>)
    | Reload(rules: seq<Rule>)
    | Evaluate(rule: string, tick: Tick)
    | Persist(rule: string)
    | Observe(rule: string)
    | Crash

  const NO_RESOLVER: I.Resolver<Stamp> := I.Resolver(map[], map[], map[])
  const INITIAL := System(map[], map[], NO_RESOLVER, [], map[])

  /** Each rule starts from its stored state, a new one from `Inactive`. */
  function Seeded(rules: seq<Rule>, store: States): map<string, Loop> {
    if rules == [] then map[]
    else
      var last := rules[|rules| - 1];
      Seeded(rules[..|rules| - 1], store)
        [last.name := Loop(last, if last.name in store then store[last.name] else Inactive, Idle)]
  }

  function Stamped(e: Option<Emission<Times>>, tick: nat): Option<Page> {
    match e
    case None => None
    case Some(Fire(i)) => Some(Fire(Incident(i.name, Stamp(tick, i.details))))
    case Some(Resolve(i)) => Some(Resolve(Incident(i.name, Stamp(tick, i.details))))
  }

  function EvaluateStep(s: System, n: string, tick: Tick): System
    requires n in s.loops
  {
    var loop := s.loops[n];
    var (next, emission) := Transition(loop.state, tick.outcome, loop.rule, tick.now);
    s.(loops := s.loops[n := loop.(stage := Evaluated(next, emission))], ticks := s.ticks[n := s.Ticks(n) + [tick]])
  }

  /** The store is written only when the state changed. */
  function PersistStep(s: System, n: string): System
    requires n in s.loops && s.loops[n].stage.Evaluated? && s.Ticks(n) != []
  {
    var loop := s.loops[n];
    var Evaluated(next, emission) := loop.stage;
    s.(store := if loop.state != next then s.store[n := next] else s.store,
       loops := s.loops[n := loop.(state := next, stage := Persisted(Stamped(emission, |s.Ticks(n)| - 1)))])
  }

  function ObserveStep(s: System, n: string): System
    requires n in s.loops && s.loops[n].stage.Persisted?
  {
    var loop := s.loops[n];
    var (resolver, out) := I.Observe(s.resolver, loop.rule.name, loop.stage.page);
    s.(resolver := resolver, released := s.released + out, loops := s.loops[n := loop.(stage := Idle)])
  }

  /** An action that is not possible in a state leaves it alone. */
  function Next(s: System, a: Action): System {
    match a
    case Start(rules) =>
      if s.loops == map[] then s.(loops := Seeded(rules, s.store), resolver := I.New(rules)) else s
    case Reload(rules) =>
      if s.loops == map[] then s
      else s.(loops := Seeded(rules, s.store), resolver := I.Rebuild(rules, s.resolver))
    case Evaluate(n, tick) => if n in s.loops && s.loops[n].stage.Idle? then EvaluateStep(s, n, tick) else s
    case Persist(n) =>
      if n in s.loops && s.loops[n].stage.Evaluated? && s.Ticks(n) != [] then PersistStep(s, n) else s
    case Observe(n) => if n in s.loops && s.loops[n].stage.Persisted? then ObserveStep(s, n) else s
    case Crash => s.(loops := map[], resolver := NO_RESOLVER)
  }

  function Run(actions: seq<Action>): System {
    if actions == [] then INITIAL else Next(Run(actions[..|actions| - 1]), actions[|actions| - 1])
  }

  // ----- Where a page can be -----------------------------------------------

  predicate IsPage(e: Page, n: string, t: nat) {
    e.Fire? && e.incident.name == n && e.incident.details.tick == t
  }

  ghost predicate Out(s: System, n: string, t: nat) {
    exists i :: 0 <= i < |s.released| && IsPage(s.released[i], n, t)
  }

  predicate Held(s: System, n: string, t: nat) {
    n in s.resolver.pending && s.resolver.pending[n].details.tick == t
  }

  predicate OnItsWay(s: System, n: string, t: nat) {
    && n in s.loops && s.loops[n].stage.Persisted? && s.loops[n].stage.page.Some?
    && IsPage(s.loops[n].stage.page.value, n, t)
  }

  ghost predicate Exists(s: System, n: string, t: nat) {
    Out(s, n, t) || Held(s, n, t) || OnItsWay(s, n, t)
  }

  /** Some evaluation strictly between `t` and `u` saw the condition inactive. */
  ghost predicate Quiet(ticks: seq<Tick>, t: nat, u: nat)
    requires u <= |ticks|
  {
    exists m :: t < m < u && !ticks[m].Active()
  }

  // ----- Invariant ---------------------------------------------------------

  /** A loop's state is the durable state of its rule, at every step. */
  ghost predicate LoopInv(s: System, n: string)
    requires n in s.loops
  {
    var loop, ticks := s.loops[n], s.Ticks(n);
    && loop.rule.name == n && loop.state == s.Stored(n)
    && (loop.stage.Evaluated? ==>
          && ticks != []
          && (loop.stage.next, loop.stage.emission) ==
             Transition(loop.state, ticks[|ticks| - 1].outcome, loop.rule, ticks[|ticks| - 1].now)
          && !Exists(s, n, |ticks| - 1))
    && (loop.stage.Persisted? && loop.stage.page.Some? ==> loop.stage.page.value.incident.name == n)
  }

  /** A page comes from an active evaluation, and its rule is stored as firing
      until an inactive evaluation follows. */
  ghost predicate PageInv(s: System, n: string, t: nat) {
    Exists(s, n, t) ==>
      && t < |s.Ticks(n)| && s.Ticks(n)[t].Active()
      && (s.Stored(n).Firing? || Quiet(s.Ticks(n), t, |s.Ticks(n)|))
  }

  ghost predicate Separated(s: System, n: string, t: nat, u: nat) {
    Exists(s, n, t) && Exists(s, n, u) && t < u && u <= |s.Ticks(n)| ==> Quiet(s.Ticks(n), t, u)
  }

  /** No page is in two places, or twice in one. */
  ghost predicate Once(s: System) {
    && (forall i, j, n, t :: 0 <= i < j < |s.released| && IsPage(s.released[i], n, t) ==> !IsPage(s.released[j], n, t))
    && (forall n, t :: Held(s, n, t) ==> !Out(s, n, t) && !OnItsWay(s, n, t))
    && (forall n, t :: OnItsWay(s, n, t) ==> !Out(s, n, t))
  }

  ghost predicate Inv(s: System) {
    && (forall n :: n in s.loops ==> LoopInv(s, n))
    && (forall n :: n in s.resolver.pending ==> s.resolver.pending[n].name == n)
    && (forall n, t :: PageInv(s, n, t))
    && (forall n, t, u :: Separated(s, n, t, u))
    && Once(s)
  }

  // ----- Losing pages ------------------------------------------------------

  lemma {:induction false} SeededLoops(rules: seq<Rule>, store: States, n: string)
    requires n in Seeded(rules, store)
    ensures var loop := Seeded(rules, store)[n];
            loop.rule.name == n && loop.state == (if n in store then store[n] else Inactive) && loop.stage == Idle
  {
    var last := rules[|rules| - 1];
    if n != last.name {
      SeededLoops(rules[..|rules| - 1], store, n);
    }
  }

  /** A crash, a restart or a reload only loses pages. */
  lemma LosingKeepsInv(s: System, s': System)
    requires Inv(s)
    requires s'.store == s.store && s'.released == s.released && s'.ticks == s.ticks
    requires forall n :: n in s'.loops ==>
               s'.loops[n].rule.name == n && s'.loops[n].state == s.Stored(n) && s'.loops[n].stage == Idle
    requires forall n :: n in s'.resolver.pending ==>
               n in s.resolver.pending && s'.resolver.pending[n] == s.resolver.pending[n]
    ensures Inv(s')
  {
    forall n, t
      ensures Exists(s', n, t) ==> Exists(s, n, t)
      ensures PageInv(s', n, t)
    {
      assert PageInv(s, n, t);
    }
    forall n, t, u
      ensures Separated(s', n, t, u)
    {
      assert Separated(s, n, t, u);
    }
    assert Once(s') by {
      assert forall n, t :: Out(s', n, t) <==> Out(s, n, t);
      assert forall n, t :: Held(s', n, t) ==> Held(s, n, t);
    }
  }

  // ----- Evaluating --------------------------------------------------------

  lemma QuietGrows(ticks: seq<Tick>, more: seq<Tick>, t: nat, u: nat, v: nat)
    requires u <= v <= |ticks + more| && u <= |ticks| && Quiet(ticks, t, u)
    ensures Quiet(ticks + more, t, v)
  {
    var m :| t < m < u && !ticks[m].Active();
    assert (ticks + more)[m] == ticks[m];
  }

  lemma EvaluateMovesNothing(s: System, n: string, tick: Tick, m: string, t: nat)
    requires n in s.loops && s.loops[n].stage.Idle?
    ensures var s' := EvaluateStep(s, n, tick);
            && (Out(s', m, t) <==> Out(s, m, t)) && (Held(s', m, t) <==> Held(s, m, t))
            && (OnItsWay(s', m, t) <==> OnItsWay(s, m, t))
  {
    hide Transition;
  }

  lemma EvaluatedPages(s: System, n: string, tick: Tick, m: string, t: nat, u: nat)
    requires Inv(s) && n in s.loops && s.loops[n].stage.Idle?
    ensures PageInv(EvaluateStep(s, n, tick), m, t) && Separated(EvaluateStep(s, n, tick), m, t, u)
  {
    hide Transition, Exists, Quiet, LoopInv, Once;
    var s', ticks := EvaluateStep(s, n, tick), s.Ticks(m);
    SamePages(s, n, tick, m, t);
    SamePages(s, n, tick, m, u);
    assert PageInv(s, m, t) && PageInv(s, m, u) && Separated(s, m, t, u);
    if m == n && Exists(s, n, t) {
      if Quiet(ticks, t, |ticks|) {
        QuietGrows(ticks, [tick], t, |ticks|, |ticks| + 1);
      }
      if Exists(s, n, u) && t < u {
        QuietGrows(ticks, [tick], t, u, u);
      }
    }
  }

  lemma SamePages(s: System, n: string, tick: Tick, m: string, t: nat)
    requires n in s.loops && s.loops[n].stage.Idle?
    ensures Exists(EvaluateStep(s, n, tick), m, t) <==> Exists(s, m, t)
  {
    EvaluateMovesNothing(s, n, tick, m, t);
  }

  lemma EvaluateKeepsInv(s: System, n: string, tick: Tick)
    requires Inv(s) && n in s.loops && s.loops[n].stage.Idle?
    ensures Inv(EvaluateStep(s, n, tick))
  {
    hide Transition, Out, Held, OnItsWay, Quiet, PageInv, Separated;
    var s' := EvaluateStep(s, n, tick);
    forall m, t
      ensures Out(s', m, t) <==> Out(s, m, t)
      ensures Held(s', m, t) <==> Held(s, m, t)
      ensures OnItsWay(s', m, t) <==> OnItsWay(s, m, t)
      ensures Exists(s', m, t) <==> Exists(s, m, t)
      ensures PageInv(s', m, t)
    {
      EvaluateMovesNothing(s, n, tick, m, t);
      EvaluatedPages(s, n, tick, m, t, t);
    }
    forall m, t, u
      ensures Separated(s', m, t, u)
    {
      EvaluatedPages(s, n, tick, m, t, u);
    }
    NoPageYet(s, n);
    forall m | m in s'.loops
      ensures LoopInv(s', m)
    {
      assert LoopInv(s, m);
    }
  }

  lemma NoPageYet(s: System, n: string)
    requires Inv(s)
    ensures !Exists(s, n, |s.Ticks(n)|)
  {
    assert PageInv(s, n, |s.Ticks(n)|);
  }

  // ----- Persisting --------------------------------------------------------

  /** What a transition says about pages: a page leaves the pending state at an
      active tick, and only an inactive tick leaves the firing state. */
  lemma TransitionPages(state: RuleState, tick: Tick, rule: Rule)
    ensures var (next, e) := Transition(state, tick.outcome, rule, tick.now);
            && (e.Some? ==> e.value.incident.name == rule.name)
            && (e.Some? && e.value.Fire? ==> state.Pending? && tick.Active() && next.Firing?)
            && (state.Firing? ==> next.Firing? || !tick.Active())
  {
  }

  /** A step that may make the one page `(n, t)`, the latest evaluation of `n`. */
  lemma PersistKeepsInv(s: System, n: string)
    requires Inv(s) && n in s.loops && s.loops[n].stage.Evaluated? && s.Ticks(n) != []
    ensures Inv(PersistStep(s, n))
  {
    hide Transition;
    var s', loop, ticks := PersistStep(s, n), s.loops[n], s.Ticks(n);
    var t0 := |ticks| - 1;
    assert LoopInv(s, n);
    TransitionPages(loop.state, ticks[t0], loop.rule);
    var fires := loop.stage.emission.Some? && loop.stage.emission.value.Fire?;
    assert s'.Stored(n) == loop.stage.next;
    forall m, t
      ensures Out(s', m, t) <==> Out(s, m, t)
      ensures Held(s', m, t) <==> Held(s, m, t)
      ensures m != n ==> (OnItsWay(s', m, t) <==> OnItsWay(s, m, t))
      ensures OnItsWay(s', n, t) <==> fires && t == t0
      ensures !OnItsWay(s, n, t)
    {
    }
    forall m, t
      ensures Exists(s', m, t) <==> Exists(s, m, t) || (m == n && t == t0 && fires)
    {
    }
    PersistedPages(s, n);
    forall m | m in s'.loops
      ensures LoopInv(s', m)
    {
      assert LoopInv(s, m);
      assert m != n && s.Ticks(m) != [] ==> (Exists(s', m, |s.Ticks(m)| - 1) <==> Exists(s, m, |s.Ticks(m)| - 1));
    }
    assert !Exists(s, n, t0);
    assert Once(s');
  }

  lemma PersistedPages(s: System, n: string)
    requires Inv(s) && n in s.loops && s.loops[n].stage.Evaluated? && s.Ticks(n) != []
    requires var s', e := PersistStep(s, n), s.loops[n].stage.emission;
             forall m, t :: Exists(s', m, t) <==>
               Exists(s, m, t) || (m == n && t == |s.Ticks(n)| - 1 && e.Some? && e.value.Fire?)
    ensures forall m, t :: PageInv(PersistStep(s, n), m, t)
    ensures forall m, t, u :: Separated(PersistStep(s, n), m, t, u)
  {
    hide Transition, Exists;
    var s', loop, ticks := PersistStep(s, n), s.loops[n], s.Ticks(n);
    var t0 := |ticks| - 1;
    assert LoopInv(s, n);
    TransitionPages(loop.state, ticks[t0], loop.rule);
    forall t: nat | Exists(s, n, t)
      ensures t < t0 && (s'.Stored(n).Firing? || Quiet(ticks, t, |ticks|))
      ensures loop.state.Pending? && ticks[t0].Active() ==> Quiet(ticks, t, t0)
    {
      assert PageInv(s, n, t);
      if Quiet(ticks, t, |ticks|) {
        var m :| t < m < |ticks| && !ticks[m].Active();
        assert m == t0 || m < t0;
      }
    }
    forall m, t
      ensures PageInv(s', m, t)
    {
      assert PageInv(s, m, t);
    }
    forall m, t, u
      ensures Separated(s', m, t, u)
    {
      assert Separated(s, m, t, u);
    }
  }

  // ----- Observing ---------------------------------------------------------

  type Pages = map<string, Incident<Stamp>>

  predicate WasHeld(pending: Pages, e: Page) {
    e.incident.name in pending && pending[e.incident.name] == e.incident
  }

  /** Where an observation puts pages: the page observed goes out or is held, held
      pages go out or stay, and nothing is doubled. */
  ghost predicate HandsOut(pending: Pages, n: string, page: Option<Page>, pending': Pages, out: seq<Page>) {
    && (forall m :: m in pending' ==>
          || (m in pending && pending'[m] == pending[m])
          || (m == n && page == Some(Fire(pending'[m])) && out == []))
    && (forall i :: 0 <= i < |out| && out[i].Fire? ==>
          || (out == [out[i]] && page == Some(out[i]))
          || (WasHeld(pending, out[i]) && out[i].incident.name !in pending'))
    && (forall i, j :: 0 <= i < j < |out| && out[i].Fire? && out[j].Fire? ==>
          out[i].incident.name != out[j].incident.name)
  }

  /** Releasing hands out held pages, each once, and no longer holds them. */
  lemma {:induction false} ReleaseHandsOut(r: I.Resolver<Stamp>, names: seq<string>)
    requires forall m :: m in r.pending ==> r.pending[m].name == m
    ensures var (r', out) := I.Release(r, names);
            && (forall m :: m in r'.pending ==> m in r.pending && r'.pending[m] == r.pending[m])
            && (forall i :: 0 <= i < |out| ==>
                  out[i].Fire? && WasHeld(r.pending, out[i]) && out[i].incident.name !in r'.pending)
            && (forall i, j :: 0 <= i < j < |out| ==> out[i].incident.name != out[j].incident.name)
    decreases |names|
  {
    if names != [] {
      if r.HasActiveInhibitor(names[0]) || names[0] !in r.pending {
        ReleaseHandsOut(r, names[1..]);
      } else {
        ReleaseHandsOut(r.(pending := r.pending - {names[0]}), names[1..]);
      }
    }
  }

  lemma ObserveHandsOut(r: I.Resolver<Stamp>, n: string, page: Option<Page>)
    requires forall m :: m in r.pending ==> r.pending[m].name == m
    requires page.Some? ==> page.value.incident.name == n
    ensures var (r', out) := I.Observe(r, n, page);
            && (forall m :: m in r'.pending ==> r'.pending[m].name == m)
            && HandsOut(r.pending, n, page, r'.pending, out)
  {
    if page.Some? && page.value.Resolve? {
      var r1 := r.(firing := r.firing[n := false], pending := r.pending - {n});
      ReleaseHandsOut(r1, I.Downstream(r1, n));
    }
  }

  /** After an observation a page is where it was, or moved on. */
  lemma PagesMoveOn(s: System, n: string, m: string, t: nat)
    requires Inv(s) && n in s.loops && s.loops[n].stage.Persisted?
    ensures var s' := ObserveStep(s, n);
            && (Out(s', m, t) ==> Exists(s, m, t)) && (Held(s', m, t) ==> Exists(s, m, t))
            && (OnItsWay(s', m, t) <==> OnItsWay(s, m, t) && m != n)
  {
    var s', page := ObserveStep(s, n), s.loops[n].stage.page;
    assert LoopInv(s, n);
    ObserveHandsOut(s.resolver, n, page);
    var out := I.Observe(s.resolver, n, page).1;
    hide I.Observe;
    if Out(s', m, t) {
      var i :| 0 <= i < |s'.released| && IsPage(s'.released[i], m, t);
      if i >= |s.released| {
        assert s'.released[i] == out[i - |s.released|];
      } else {
        assert IsPage(s.released[i], m, t);
      }
    }
  }

  /** Nothing goes out twice, and nothing that is held went out. */
  lemma ObserveKeepsOnce(s: System, n: string)
    requires Inv(s) && n in s.loops && s.loops[n].stage.Persisted?
    ensures Once(ObserveStep(s, n))
  {
    var s', page := ObserveStep(s, n), s.loops[n].stage.page;
    assert LoopInv(s, n);
    ObserveHandsOut(s.resolver, n, page);
    var out := I.Observe(s.resolver, n, page).1;
    hide I.Observe;
    forall m, t, k | 0 <= k < |out| && IsPage(out[k], m, t)
      ensures !Out(s, m, t) && !Held(s', m, t) && (OnItsWay(s, m, t) ==> m == n)
    {
      if page == Some(out[k]) && out == [out[k]] {
        assert OnItsWay(s, n, t);
      } else {
        assert Held(s, m, t);
      }
    }
    forall i, j, m, t | 0 <= i < j < |s'.released| && IsPage(s'.released[i], m, t)
      ensures !IsPage(s'.released[j], m, t)
    {
      var k := |s.released|;
      if j >= k {
        assert s'.released[j] == out[j - k];
        if i < k {
          assert s'.released[i] == s.released[i];
          assert Out(s, m, t);
        } else {
          assert s'.released[i] == out[i - k];
        }
      } else {
        assert s'.released[i] == s.released[i] && s'.released[j] == s.released[j];
      }
    }
    forall m, t | Held(s', m, t)
      ensures !Out(s', m, t) && !OnItsWay(s', m, t)
    {
      HeldStaysIn(s, n, m, t);
    }
    forall m, t | OnItsWay(s', m, t)
      ensures !Out(s', m, t)
    {
      assert OnItsWay(s, m, t) && m != n;
      if Out(s', m, t) {
        OutIsOldOrNew(s, n, m, t);
      }
    }
  }

  lemma OutIsOldOrNew(s: System, n: string, m: string, t: nat)
    requires n in s.loops && s.loops[n].stage.Persisted? && Out(ObserveStep(s, n), m, t)
    ensures var out := I.Observe(s.resolver, s.loops[n].rule.name, s.loops[n].stage.page).1;
            Out(s, m, t) || exists k :: 0 <= k < |out| && IsPage(out[k], m, t)
  {
    var s' := ObserveStep(s, n);
    var out := I.Observe(s.resolver, s.loops[n].rule.name, s.loops[n].stage.page).1;
    hide I.Observe;
    var i :| 0 <= i < |s'.released| && IsPage(s'.released[i], m, t);
    if i < |s.released| {
      assert IsPage(s.released[i], m, t);
    } else {
      assert IsPage(out[i - |s.released|], m, t);
    }
  }

  lemma HeldStaysIn(s: System, n: string, m: string, t: nat)
    requires Inv(s) && n in s.loops && s.loops[n].stage.Persisted? && Held(ObserveStep(s, n), m, t)
    ensures !Out(ObserveStep(s, n), m, t) && !OnItsWay(ObserveStep(s, n), m, t)
  {
    var s', page := ObserveStep(s, n), s.loops[n].stage.page;
    assert LoopInv(s, n);
    ObserveHandsOut(s.resolver, n, page);
    var out := I.Observe(s.resolver, n, page).1;
    hide I.Observe;
    if Held(s, m, t) {
      assert !Out(s, m, t) && !OnItsWay(s, m, t);
    } else {
      assert OnItsWay(s, n, t) && m == n && out == [];
    }
    if Out(s', m, t) {
      OutIsOldOrNew(s, n, m, t);
    }
  }

  lemma ObserveKeepsInv(s: System, n: string)
    requires Inv(s) && n in s.loops && s.loops[n].stage.Persisted?
    ensures Inv(ObserveStep(s, n))
  {
    var s', loop := ObserveStep(s, n), s.loops[n];
    assert LoopInv(s, n);
    ObserveHandsOut(s.resolver, n, loop.stage.page);
    hide I.Observe, HandsOut;
    forall m, t
      ensures Exists(s', m, t) ==> Exists(s, m, t)
      ensures PageInv(s', m, t)
    {
      PagesMoveOn(s, n, m, t);
      assert PageInv(s, m, t);
    }
    forall m, t, u
      ensures Separated(s', m, t, u)
    {
      assert Separated(s, m, t, u);
    }
    forall m | m in s'.loops
      ensures LoopInv(s', m)
    {
      assert LoopInv(s, m);
    }
    ObserveKeepsOnce(s, n);
  }

  // ----- Every run ---------------------------------------------------------

  lemma NextKeepsInv(s: System, a: Action)
    requires Inv(s)
    ensures Inv(Next(s, a))
  {
    hide Inv, I.Rebuild, I.New, EvaluateStep, PersistStep, ObserveStep, Seeded;
    match a
    case Start(rules) => StartKeepsInv(s, rules);
    case Reload(rules) => StartKeepsInv(s, rules);
    case Evaluate(n, tick) =>
      if n in s.loops && s.loops[n].stage.Idle? {
        EvaluateKeepsInv(s, n, tick);
      }
    case Persist(n) =>
      if n in s.loops && s.loops[n].stage.Evaluated? && s.Ticks(n) != [] {
        PersistKeepsInv(s, n);
      }
    case Observe(n) =>
      if n in s.loops && s.loops[n].stage.Persisted? {
        ObserveKeepsInv(s, n);
      }
    case Crash => LosingKeepsInv(s, Next(s, a));
  }

  lemma StartKeepsInv(s: System, rules: seq<Rule>)
    requires Inv(s)
    ensures Inv(s.(loops := Seeded(rules, s.store), resolver := I.New(rules)))
    ensures Inv(s.(loops := Seeded(rules, s.store), resolver := I.Rebuild(rules, s.resolver)))
  {
    hide Inv, Seeded, I.New;
    forall n | n in Seeded(rules, s.store)
      ensures var loop := Seeded(rules, s.store)[n];
              loop.rule.name == n && loop.state == s.Stored(n) && loop.stage == Idle
    {
      SeededLoops(rules, s.store, n);
    }
    I.NewIsQuiet<Stamp>(rules);
    LosingKeepsInv(s, s.(loops := Seeded(rules, s.store), resolver := I.New(rules)));
    LosingKeepsInv(s, s.(loops := Seeded(rules, s.store), resolver := I.Rebuild(rules, s.resolver)));
  }

  lemma {:induction false} RunKeepsInv(actions: seq<Action>)
    ensures Inv(Run(actions))
  {
    hide Next;
    if actions == [] {
    } else {
      RunKeepsInv(actions[..|actions| - 1]);
      NextKeepsInv(Run(actions[..|actions| - 1]), actions[|actions| - 1]);
    }
  }

  /** At every step of every run, crashes, restarts and reloads included, the state
      a loop works with is the durable state of its rule, although the store is
      written only when the state changes. */
  lemma LoopsMatchTheStore(actions: seq<Action>, n: string)
    requires n in Run(actions).loops
    ensures Run(actions).loops[n].state == Run(actions).Stored(n)
  {
    RunKeepsInv(actions);
    assert LoopInv(Run(actions), n);
  }

  /** No page is delivered twice: two deliveries for one rule come from different
      evaluations of it, and between those evaluations another one saw the
      condition inactive. This holds across crashes at any point, restarts and
      reloads. */
  lemma NoRepaging(actions: seq<Action>, i: nat, j: nat)
    requires var out := Run(actions).released;
             i < j < |out| && out[i].Fire? && out[j].Fire? && out[i].incident.name == out[j].incident.name
    ensures var s := Run(actions);
            var first, second := s.released[i].incident, s.released[j].incident;
            var n, t, u := first.name, first.details.tick, second.details.tick;
            && t != u && t < |s.Ticks(n)| && u < |s.Ticks(n)|
            && s.Ticks(n)[t].Active() && s.Ticks(n)[u].Active()
            && Quiet(s.Ticks(n), if t < u then t else u, if t < u then u else t)
  {
    hide Run;
    RunKeepsInv(actions);
    var s := Run(actions);
    var first, second := s.released[i].incident, s.released[j].incident;
    var n, t, u := first.name, first.details.tick, second.details.tick;
    assert IsPage(s.released[i], n, t) && IsPage(s.released[j], n, u);
    assert Out(s, n, t) && Out(s, n, u);
    assert PageInv(s, n, t) && PageInv(s, n, u);
    assert Separated(s, n, t, u) && Separated(s, n, u, t);
  }

  /** The loops of a generation, in order. The recovered state of a rule is taken
      out as it is used, so that a second rule of the same name starts afresh. */
  method SpawnGeneration(rules: seq<Rule>, recovered: States) returns (loops: seq<Loop>, unused: States)
    ensures |loops| == |rules|
    ensures forall k :: 0 <= k < |rules| ==>
              loops[k] == Loop(rules[k], if FirstOfItsName(rules, k) && rules[k].name in recovered
                                         then recovered[rules[k].name] else Inactive, Idle)
    ensures unused.Keys == recovered.Keys - set k | 0 <= k < |rules| :: rules[k].name
    ensures (forall k :: 0 <= k < |rules| ==> FirstOfItsName(rules, k)) ==>
              forall k :: 0 <= k < |rules| ==>
                rules[k].name in Seeded(rules, recovered) && Seeded(rules, recovered)[rules[k].name] == loops[k]
  {
    loops := [];
    var seed := recovered;
    for i := 0 to |rules|
      invariant |loops| == i
      invariant forall k :: 0 <= k < i ==>
                  loops[k] == Loop(rules[k], if FirstOfItsName(rules, k) && rules[k].name in recovered
                                             then recovered[rules[k].name] else Inactive, Idle)
      invariant forall n :: n in seed <==> n in recovered && forall k :: 0 <= k < i ==> rules[k].name != n
      invariant forall n :: n in seed ==> seed[n] == recovered[n]
    {
      var rule := rules[i];
      var seeded := if rule.name in seed then seed[rule.name] else Inactive;
      seed := seed - {rule.name};
      loops := loops + [Loop(rule, seeded, Idle)];
    }
    unused := seed;
    if forall k :: 0 <= k < |rules| ==> FirstOfItsName(rules, k) {
      forall k | 0 <= k < |rules|
        ensures rules[k].name in Seeded(rules, recovered)
        ensures Seeded(rules, recovered)[rules[k].name] ==
                Loop(rules[k], if rules[k].name in recovered then recovered[rules[k].name] else Inactive, Idle)
      {
        SeededByName(rules, recovered, k);
      }
    }
  }

  predicate FirstOfItsName(rules: seq<Rule>, k: nat)
    requires k < |rules|
  {
    forall i :: 0 <= i < k ==> rules[i].name != rules[k].name
  }

  lemma {:induction false} SeededByName(rules: seq<Rule>, store: States, k: nat)
    requires k < |rules| && forall j :: 0 <= j < |rules| ==> FirstOfItsName(rules, j)
    ensures rules[k].name in Seeded(rules, store)
    ensures Seeded(rules, store)[rules[k].name] ==
            Loop(rules[k], if rules[k].name in store then store[rules[k].name] else Inactive, Idle)
  {
    var n := |rules| - 1;
    if k < n {
      assert FirstOfItsName(rules, n);
      forall j | 0 <= j < n
        ensures FirstOfItsName(rules[..n], j)
      {
        assert FirstOfItsName(rules, j);
      }
      SeededByName(rules[..n], store, k);
    }
  }
}
