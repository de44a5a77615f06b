/** The resolver of a running alerting process is the one of the emissions and reloads
    since the process started, so that what is proved of every resolver holds of it. */
module RuleHistory {
  import opened Wrappers
  import opened Sequences
  import opened RuleMachine
  import opened RuleStateStore
  import I = Inhibition
  import V = Deliveries
  import O = Reloads
  import S = Storm
  import opened RuleLoop

  // ----- The history of the process ----------------------------------------

  /** The catalogue the process started with, and what its resolver saw since. */
  datatype History = History(rules: seq<Rule>, events: seq<O.Event<Stamp>>)

  predicate Starts(s: System, a: Action) {
    a.Start? && s.loops == map[]
  }

  predicate Reloads(s: System, a: Action) {
    a.Reload? && s.loops != map[]
  }

  /** The observation of a loop that has something to tell. */
  predicate Tells(s: System, a: Action) {
    a.Observe? && a.rule in s.loops && s.loops[a.rule].stage.Persisted? && s.loops[a.rule].stage.page.Some?
  }

  function HistoryOf(actions: seq<Action>): History {
    if actions == [] then History([], [])
    else
      var before, a := actions[..|actions| - 1], actions[|actions| - 1];
      var s, h := Run(before), HistoryOf(before);
      if a.Crash? then History([], [])
      else if Starts(s, a) then History(a.rules, [])
      else if Reloads(s, a) then h.(events := h.events + [O.Reloaded(a.rules)])
      else if Tells(s, a) then h.(events := h.events + [O.Observed(s.loops[a.rule].stage.page.value)])
      else h
  }

  /** What earlier processes delivered. */
  function Older(actions: seq<Action>): seq<Page> {
    if actions == [] then []
    else
      var before, a := actions[..|actions| - 1], actions[|actions| - 1];
      if a.Crash? || Starts(Run(before), a) then Run(before).released else Older(before)
  }

  lemma LiveStep(rules: seq<Rule>, events: seq<O.Event<Stamp>>, event: O.Event<Stamp>)
    ensures O.LiveAfter(rules, events + [event]) == O.Advance(O.LiveAfter(rules, events), event).0
    ensures O.DeliveredOver(rules, events + [event]) ==
            O.DeliveredOver(rules, events) + O.Advance(O.LiveAfter(rules, events), event).1
    ensures O.Catalogue(rules, events + [event]) == if event.Reloaded? then event.rules else O.Catalogue(rules, events)
  {
    assert (events + [event])[..|events|] == events;
  }

  /** A step of the process and its history. */
  lemma StepIsHistory(s: System, a: Action, h: History, older: seq<Page>)
    requires Inv(s) && s.resolver == O.LiveAfter(h.rules, h.events)
    requires s.released == older + O.DeliveredOver(h.rules, h.events)
    ensures var s' := Next(s, a);
            if a.Crash? then s'.resolver == I.New([]) && s'.released == s.released
            else if Starts(s, a) then s'.resolver == I.New(a.rules) && s'.released == s.released
            else if Reloads(s, a) then
              var events := h.events + [O.Reloaded(a.rules)];
              s'.resolver == O.LiveAfter(h.rules, events) && s'.released == older + O.DeliveredOver(h.rules, events)
            else if Tells(s, a) then
              var events := h.events + [O.Observed(s.loops[a.rule].stage.page.value)];
              s'.resolver == O.LiveAfter(h.rules, events) && s'.released == older + O.DeliveredOver(h.rules, events)
            else s'.resolver == s.resolver && s'.released == s.released
  {
    hide O.LiveAfter, O.DeliveredOver, Seeded, Transition, I.Rebuild, I.New, Once, PageInv, Separated;
    assert s.released + [] == s.released;
    if Reloads(s, a) {
      LiveStep(h.rules, h.events, O.Reloaded(a.rules));
      assert O.DeliveredOver(h.rules, h.events) + [] == O.DeliveredOver(h.rules, h.events);
    } else if Tells(s, a) {
      var page := s.loops[a.rule].stage.page.value;
      assert LoopInv(s, a.rule);
      LiveStep(h.rules, h.events, O.Observed(page));
      var more := I.Observe(s.resolver, a.rule, Some(page)).1;
      assert older + O.DeliveredOver(h.rules, h.events) + more == older + (O.DeliveredOver(h.rules, h.events) + more);
    } else if a.Crash? {
      assert I.New<Stamp>([]) == NO_RESOLVER by { EmptyResolver(); }
    }
  }

  lemma EmptyResolver()
    ensures I.New<Stamp>([]) == NO_RESOLVER
  {
  }

  /** The live resolver is that of the history, and what was delivered is what earlier
      processes delivered and what it handed out. */
  lemma {:induction false} ResolverIsHistory(actions: seq<Action>)
    ensures var h, s := HistoryOf(actions), Run(actions);
            && s.resolver == O.LiveAfter(h.rules, h.events)
            && s.released == Older(actions) + O.DeliveredOver(h.rules, h.events)
  {
    hide Next, Inv, Starts, Reloads, Tells;
    if actions == [] {
      EmptyResolver();
    } else {
      var before, a := actions[..|actions| - 1], actions[|actions| - 1];
      ResolverIsHistory(before);
      RunKeepsInv(before);
      StepIsHistory(Run(before), a, HistoryOf(before), Older(before));
      assert Run(before).released + [] == Run(before).released;
    }
  }

  // ----- The loop runs the rule machine ------------------------------------

  /** The evaluations of `n` whose outcome was persisted; a crash drops the others. */
  function PersistedTicks(actions: seq<Action>, n: string): seq<Tick> {
    if actions == [] then []
    else
      var before, a := actions[..|actions| - 1], actions[|actions| - 1];
      var s := Run(before);
      PersistedTicks(before, n) + if Persists(s, a, n) then [s.Ticks(n)[|s.Ticks(n)| - 1]] else []
  }

  /** No catalogue of the run has another rule of that name. */
  predicate MeansRule(actions: seq<Action>, rule: Rule) {
    forall i, r ::
      0 <= i < |actions| && (actions[i].Start? || actions[i].Reload?) && r in actions[i].rules ==>
        r.name != rule.name || r == rule
  }

  lemma {:induction false} SeededRule(rules: seq<Rule>, store: States, n: string)
    requires n in Seeded(rules, store)
    ensures Seeded(rules, store)[n].rule in rules && Seeded(rules, store)[n].rule.name == n
  {
    var front, last := rules[..|rules| - 1], rules[|rules| - 1];
    if n != last.name {
      SeededRule(front, store, n);
    }
  }

  lemma RuleNext(s: System, a: Action, rule: Rule)
    requires Inv(s) && (rule.name in s.loops ==> s.loops[rule.name].rule == rule)
    requires (a.Start? || a.Reload?) ==> forall r :: r in a.rules && r.name == rule.name ==> r == rule
    ensures var s' := Next(s, a);
            && (rule.name in s'.loops ==> s'.loops[rule.name].rule == rule)
            && (!Persists(s, a, rule.name) ==> s'.Stored(rule.name) == s.Stored(rule.name))
  {
    hide Inv, I.Rebuild, I.New, I.Observe, Transition;
    if (Starts(s, a) || Reloads(s, a)) && rule.name in Seeded(a.rules, s.store) {
      SeededRule(a.rules, s.store, rule.name);
    }
  }

  lemma PersistsTransition(s: System, n: string)
    requires Inv(s) && Persists(s, Persist(n), n)
    ensures var s', tick, loop := Next(s, Persist(n)), s.Ticks(n)[|s.Ticks(n)| - 1], s.loops[n];
            var (next, e) := Transition(s.Stored(n), tick.outcome, loop.rule, tick.now);
            s'.Stored(n) == next && s'.loops[n].stage == Persisted(Stamped(e, |s.Ticks(n)| - 1))
  {
    hide Transition;
    assert LoopInv(s, n);
  }

  /** Through crashes, restarts and reloads, the stored state of a rule is that of the
      rule machine after the persisted evaluations, as long as its name means one rule. */
  lemma {:induction false} StoreIsMachine(actions: seq<Action>, rule: Rule)
    requires MeansRule(actions, rule)
    ensures var s := Run(actions);
            && (rule.name in s.loops ==> s.loops[rule.name].rule == rule)
            && s.Stored(rule.name) == StateAfter(rule, PersistedTicks(actions, rule.name))
  {
    hide Next, Inv, Persists, Transition;
    var n := rule.name;
    if actions != [] {
      var before, a := actions[..|actions| - 1], actions[|actions| - 1];
      assert MeansRule(before, rule) by {
        assert forall i :: 0 <= i < |before| ==> before[i] == actions[i];
      }
      StoreIsMachine(before, rule);
      RunKeepsInv(before);
      var s, ticks := Run(before), PersistedTicks(before, n);
      RuleNext(s, a, rule);
      assert ticks + [] == ticks;
      if Persists(s, a, n) {
        PersistOf(s, a, n);
        PersistsTransition(s, n);
        var tick := s.Ticks(n)[|s.Ticks(n)| - 1];
        assert s.loops[n].rule == rule;
        assert (ticks + [tick])[..|ticks|] == ticks;
      }
    }
  }

  lemma PersistOf(s: System, a: Action, n: string)
    requires Persists(s, a, n)
    ensures a == Persist(n) && n in s.loops && s.Ticks(n) != []
  {
  }

  /** And what it persists is what the machine emits there, under the number of the
      evaluation. */
  lemma PagesAreEmissions(actions: seq<Action>, rule: Rule)
    requires MeansRule(actions, rule) && Persists(Run(actions), Persist(rule.name), rule.name)
    ensures var n, s, after := rule.name, Run(actions), actions + [Persist(rule.name)];
            var ticks := PersistedTicks(after, n);
            && ticks != [] && ticks[|ticks| - 1] == s.Ticks(n)[|s.Ticks(n)| - 1]
            && n in Run(after).loops
            && Run(after).loops[n].stage ==
               Persisted(Stamped(EmissionAt(rule, ticks, |ticks| - 1), |s.Ticks(n)| - 1))
  {
    hide Next, Inv, Transition, Run;
    var n, s := rule.name, Run(actions);
    var tick, ticks := s.Ticks(n)[|s.Ticks(n)| - 1], PersistedTicks(actions, n);
    StoreIsMachine(actions, rule);
    RunKeepsInv(actions);
    RunStep(actions, Persist(n));
    PersistsTransition(s, n);
    StillThere(s, n);
    assert (actions + [Persist(n)])[..|actions|] == actions;
    assert (ticks + [tick])[..|ticks|] == ticks;
  }

  lemma StillThere(s: System, n: string)
    requires Persists(s, Persist(n), n)
    ensures n in Next(s, Persist(n)).loops
  {
  }

  // ----- What the flags mean -----------------------------------------------

  /** The rule has a page, or a resolution, that is persisted and not yet observed. */
  predicate PageDue(s: System, n: string) {
    n in s.loops && s.loops[n].stage.Persisted? && s.loops[n].stage.page.Some? && s.loops[n].stage.page.value.Fire?
  }

  predicate ResolutionDue(s: System, n: string) {
    n in s.loops && s.loops[n].stage.Persisted? && s.loops[n].stage.page.Some? && s.loops[n].stage.page.value.Resolve?
  }

  /** A page due is that of a rule stored as firing, a resolution due is not. */
  ghost predicate DueInv(s: System) {
    forall n :: (PageDue(s, n) ==> s.Stored(n).Firing?) && (ResolutionDue(s, n) ==> !s.Stored(n).Firing?)
  }

  /** The flag is on although the rule neither fires nor has its resolution due, or
      although its page is still to come. */
  predicate WrongFlag(s: System, n: string) {
    s.resolver.IsFiring(n) && (PageDue(s, n) || !(s.Stored(n).Firing? || ResolutionDue(s, n)))
  }

  /** What a transition emits, by its states. */
  lemma TransitionDue(state: RuleState, tick: Tick, rule: Rule)
    ensures var (next, e) := Transition(state, tick.outcome, rule, tick.now);
            if e.None? then state.Firing? == next.Firing?
            else if e.value.Fire? then !state.Firing? && next.Firing?
            else state.Firing? && !next.Firing?
  {
  }

  lemma EvaluatedDue(s: System, n: string)
    requires Inv(s) && n in s.loops && s.loops[n].stage.Evaluated?
    ensures var next, e, firing := s.loops[n].stage.next, s.loops[n].stage.emission, s.Stored(n).Firing?;
            if e.None? then firing == next.Firing?
            else if e.value.Fire? then !firing && next.Firing?
            else firing && !next.Firing?
  {
    hide Transition;
    assert LoopInv(s, n);
    var loop, ticks := s.loops[n], s.Ticks(n);
    TransitionDue(loop.state, ticks[|ticks| - 1], loop.rule);
  }

  predicate Persists(s: System, a: Action, n: string) {
    a.Persist? && a.rule == n && n in s.loops && s.loops[n].stage.Evaluated? && s.Ticks(n) != []
  }

  /** What is due for a rule, and whether it is stored as firing, after an action. */
  lemma StageNext(s: System, a: Action, n: string)
    requires Inv(s)
    ensures var s' := Next(s, a);
            if a.Crash? || Starts(s, a) || Reloads(s, a) || (Tells(s, a) && a.rule == n) then
              !PageDue(s', n) && !ResolutionDue(s', n) && s'.Stored(n) == s.Stored(n)
            else if Persists(s, a, n) then
              var e := s.loops[n].stage.emission;
              && (PageDue(s', n) <==> e.Some? && e.value.Fire?)
              && (ResolutionDue(s', n) <==> e.Some? && e.value.Resolve?)
              && s'.Stored(n) == s.loops[n].stage.next
            else
              && (PageDue(s', n) <==> PageDue(s, n)) && (ResolutionDue(s', n) <==> ResolutionDue(s, n))
              && s'.Stored(n) == s.Stored(n)
  {
    hide Inv, Seeded, I.New, I.Rebuild, I.Observe, Transition;
    match a
    case Start(rules) => SeededStage(s, rules, n);
    case Reload(rules) => SeededStage(s, rules, n);
    case Evaluate(m, tick) =>
    case Persist(m) =>
      if Persists(s, a, n) {
        assert s.loops[n].state == s.Stored(n) by { LoopState(s, n); }
      }
    case Observe(m) =>
    case Crash =>
  }

  lemma SeededStage(s: System, rules: seq<Rule>, n: string)
    ensures n in Seeded(rules, s.store) ==> Seeded(rules, s.store)[n].stage == Idle
  {
    if n in Seeded(rules, s.store) {
      SeededLoops(rules, s.store, n);
    }
  }

  lemma LoopState(s: System, n: string)
    requires Inv(s) && n in s.loops
    ensures s.loops[n].state == s.Stored(n)
  {
    assert LoopInv(s, n);
  }

  lemma DueNext(s: System, a: Action)
    requires Inv(s) && DueInv(s)
    ensures DueInv(Next(s, a))
  {
    hide Inv, Next, PageDue, ResolutionDue;
    var s' := Next(s, a);
    forall n
      ensures PageDue(s', n) ==> s'.Stored(n).Firing?
      ensures ResolutionDue(s', n) ==> !s'.Stored(n).Firing?
    {
      StageNext(s, a, n);
      if Persists(s, a, n) {
        EvaluatedDue(s, n);
      }
    }
  }

  lemma {:induction false} DueIsStored(actions: seq<Action>)
    ensures DueInv(Run(actions))
  {
    hide Next, Inv, DueInv;
    if actions == [] {
      assert DueInv(INITIAL) by { NothingDue(); }
    } else {
      var before := actions[..|actions| - 1];
      DueIsStored(before);
      RunKeepsInv(before);
      DueNext(Run(before), actions[|actions| - 1]);
    }
  }

  lemma NothingDue()
    ensures DueInv(INITIAL)
  {
  }

  /** Flags of one rule, after an action. */
  lemma FlagNext(s: System, a: Action, n: string)
    requires Inv(s)
    ensures var s' := Next(s, a);
            s'.resolver.IsFiring(n) <==>
            if a.Crash? || Starts(s, a) then false
            else if Reloads(s, a) then n in I.New<Stamp>(a.rules).firing && s.resolver.IsFiring(n)
            else if Tells(s, a) && a.rule == n then s.loops[n].stage.page.value.Fire?
            else s.resolver.IsFiring(n)
  {
    hide Transition, Once, PageInv, Separated, Seeded, I.New, I.Rebuild, I.Observe;
    if Starts(s, a) {
      I.NewIsQuiet<Stamp>(a.rules);
    } else if Reloads(s, a) {
      O.Rebuilt(a.rules, s.resolver, n);
    } else if Tells(s, a) {
      assert LoopInv(s, a.rule);
      V.FiringFlags(s.resolver, s.loops[a.rule].stage.page.value);
    } else if a.Observe? && a.rule in s.loops && s.loops[a.rule].stage.Persisted? {
      assert I.Observe(s.resolver, s.loops[a.rule].rule.name, None).0 == s.resolver by {
        NothingTold(s.resolver, s.loops[a.rule].rule.name);
      }
    }
  }

  lemma NothingTold(r: I.Resolver<Stamp>, name: string)
    ensures I.Observe(r, name, None) == (r, [])
  {
  }

  /** Exactly when a flag is wrong: a reload makes it so, by dropping a resolution that
      was due; the next observation of the rule, or the end of the process, mends it. */
  lemma WrongFlagExactly(actions: seq<Action>, a: Action, n: string)
    ensures var s, s' := Run(actions), Run(actions + [a]);
            WrongFlag(s', n) <==>
            if a.Crash? || Starts(s, a) || (Tells(s, a) && a.rule == n) then false
            else if Reloads(s, a) then
              && n in I.New<Stamp>(a.rules).firing && s.resolver.IsFiring(n)
              && (ResolutionDue(s, n) || (WrongFlag(s, n) && !PageDue(s, n)))
            else WrongFlag(s, n)
  {
    hide Run, Inv, DueInv;
    assert (actions + [a])[..|actions|] == actions;
    RunStep(actions, a);
    RunKeepsInv(actions);
    DueIsStored(actions);
    WrongFlagNext(Run(actions), a, n);
  }

  lemma RunStep(actions: seq<Action>, a: Action)
    ensures Run(actions + [a]) == Next(Run(actions), a)
  {
    assert (actions + [a])[..|actions|] == actions;
  }

  lemma WrongFlagNext(s: System, a: Action, n: string)
    requires Inv(s) && DueInv(s)
    ensures WrongFlag(Next(s, a), n) <==>
            if a.Crash? || Starts(s, a) || (Tells(s, a) && a.rule == n) then false
            else if Reloads(s, a) then
              && n in I.New<Stamp>(a.rules).firing && s.resolver.IsFiring(n)
              && (ResolutionDue(s, n) || (WrongFlag(s, n) && !PageDue(s, n)))
            else WrongFlag(s, n)
  {
    hide Inv, Next, I.New;
    FlagNext(s, a, n);
    StageNext(s, a, n);
    if Persists(s, a, n) {
      EvaluatedDue(s, n);
    }
  }

  /** Such a flag goes on inhibiting. */
  lemma DroppedResolutionInhibits(actions: seq<Action>, rules: seq<Rule>, n: string, m: string)
    requires var s := Run(actions);
             ResolutionDue(s, n) && s.resolver.IsFiring(n) && I.New<Stamp>(rules).Inhibits(n, m)
    ensures var s' := Run(actions + [Reload(rules)]);
            WrongFlag(s', n) && !s'.Stored(n).Firing? && s'.resolver.HasActiveInhibitor(m)
  {
    hide Run, Inv, DueInv, I.New, I.Rebuild, Seeded;
    var s, s' := Run(actions), Run(actions + [Reload(rules)]);
    O.NewKnowsItsRules<Stamp>(rules);
    WrongFlagExactly(actions, Reload(rules), n);
    RunStep(actions, Reload(rules));
    RunKeepsInv(actions);
    DueIsStored(actions);
    assert DueInv(s) ==> !s.Stored(n).Firing? by { DueOf(s, n); }
    O.Rebuilt(rules, s.resolver, n);
    assert s'.resolver.Inhibits(n, m) && s'.resolver.IsFiring(n);
  }

  lemma DueOf(s: System, n: string)
    ensures DueInv(s) && ResolutionDue(s, n) ==> !s.Stored(n).Firing?
  {
  }

  // ----- A process that has not reloaded -----------------------------------

  predicate NoReload(events: seq<O.Event<Stamp>>) {
    forall i :: 0 <= i < |events| ==> events[i].Observed?
  }

  function Inputs(events: seq<O.Event<Stamp>>): seq<Page>
    requires NoReload(events)
  {
    seq(|events|, i requires 0 <= i < |events| => events[i].emission)
  }

  lemma {:induction false} WithoutReload(rules: seq<Rule>, events: seq<O.Event<Stamp>>)
    requires NoReload(events)
    ensures O.LiveAfter(rules, events) == V.ResolverAfter(rules, Inputs(events))
    ensures O.DeliveredOver(rules, events) == V.Delivered(rules, Inputs(events))
  {
    hide I.Observe;
    if events != [] {
      var before := events[..|events| - 1];
      WithoutReload(rules, before);
      assert Inputs(events)[..|events| - 1] == Inputs(before);
    }
  }

  /** Until a reload no flag is wrong, and no rule pages twice in a row. */
  lemma {:induction false} ProcessHasNoSecondPage(actions: seq<Action>)
    requires NoReload(HistoryOf(actions).events)
    ensures V.NoSecondPage(Inputs(HistoryOf(actions).events))
    ensures forall n :: !WrongFlag(Run(actions), n)
  {
    hide Next, Inv, V.On, V.ResolverAfter, O.LiveAfter, O.DeliveredOver, WrongFlag;
    if actions == [] {
      assert forall n :: !WrongFlag(INITIAL, n) by { NoFlagYet(); }
    } else {
      var before, a := actions[..|actions| - 1], actions[|actions| - 1];
      assert before + [a] == actions;
      var s, h := Run(before), HistoryOf(before);
      if a.Crash? || Starts(s, a) {
      } else {
        var events := HistoryOf(actions).events;
        assert Reloads(s, a) ==> events[|h.events|] == O.Reloaded(a.rules);
        NoReloadYet(h.events, events);
        ProcessHasNoSecondPage(before);
        if Tells(s, a) {
          OneMoreInput(before, a);
        }
      }
      forall n
        ensures !WrongFlag(Run(actions), n)
      {
        WrongFlagExactly(before, a, n);
      }
    }
  }

  lemma NoFlagYet()
    ensures forall n :: !WrongFlag(INITIAL, n)
  {
  }

  lemma NoReloadYet(before: seq<O.Event<Stamp>>, events: seq<O.Event<Stamp>>)
    requires NoReload(events) && before <= events
    ensures NoReload(before) && forall i :: |before| <= i < |events| ==> events[i].Observed?
  {
  }

  lemma OneMoreInput(before: seq<Action>, a: Action)
    requires NoReload(HistoryOf(before).events) && Tells(Run(before), a) && !WrongFlag(Run(before), a.rule)
    requires V.NoSecondPage(Inputs(HistoryOf(before).events))
    ensures var page := Run(before).loops[a.rule].stage.page.value;
            var events := HistoryOf(before).events + [O.Observed(page)];
            NoReload(events) && V.NoSecondPage(Inputs(events))
  {
    hide Inv, V.On, V.NoSecondPage, V.ResolverAfter, O.LiveAfter, O.DeliveredOver, Run, HistoryOf;
    var s, h := Run(before), HistoryOf(before);
    var page := s.loops[a.rule].stage.page.value;
    RunKeepsInv(before);
    assert page.incident.name == a.rule by { PageNames(s, a.rule); }
    ResolverIsHistory(before);
    WithoutReload(h.rules, h.events);
    V.FlagsAreLastWord(h.rules, Inputs(h.events));
    V.Extend(Inputs(h.events), page, a.rule);
    assert Inputs(h.events + [O.Observed(page)]) == Inputs(h.events) + [page];
  }

  lemma PageNames(s: System, n: string)
    requires Inv(s) && n in s.loops && s.loops[n].stage.Persisted? && s.loops[n].stage.page.Some?
    ensures s.loops[n].stage.page.value.incident.name == n
  {
    assert LoopInv(s, n);
  }

  // ----- Storms of the running process -------------------------------------

  /** In every state of every process, a restarted one included, whose reloads kept
      inhibitors and held pages: if the live catalogue has no cycle, every held page has
      a chain of firing inhibitors up to a rule whose page this process delivered. */
  lemma HeldPagesLeadUpInRuns(actions: seq<Action>, n: string) returns (chain: seq<string>)
    requires var h := HistoryOf(actions);
             && O.AllKeepInhibitors(h.rules, h.events) && O.AllKeepHeld(h.rules, h.events)
             && forall c :: !S.IsCycle(I.New<Stamp>(O.Catalogue(h.rules, h.events)).inhibits, c)
    requires n in Run(actions).resolver.pending
    ensures S.LeadsUp(Run(actions).resolver, chain, n)
    ensures V.On(Run(actions).released, chain[|chain| - 1])
  {
    hide Run, HistoryOf, V.On, O.LiveAfter, O.DeliveredOver, O.AllKeepInhibitors, O.AllKeepHeld;
    var h := HistoryOf(actions);
    ResolverIsHistory(actions);
    chain := S.HeldPagesLeadUpAcrossReloads(h.rules, h.events, n);
    StillOn(Older(actions), O.DeliveredOver(h.rules, h.events), chain[|chain| - 1]);
  }

  lemma {:induction false} StillOn(older: seq<Page>, out: seq<Page>, n: string)
    requires V.On(out, n)
    ensures V.On(older + out, n)
  {
    var all, last := older + out, out[|out| - 1];
    assert all[|all| - 1] == last && all[..|all| - 1] == older + out[..|out| - 1];
    if last.incident.name != n {
      StillOn(older, out[..|out| - 1], n);
    }
  }

  /** A process that has not reloaded is silent only if a cycle of its catalogue is
      entered from outside. */
  lemma SilenceInRuns(actions: seq<Action>) returns (c: seq<string>, x: string)
    requires NoReload(HistoryOf(actions).events) && S.Silent(Run(actions).resolver)
    ensures S.Entered(I.New<Stamp>(HistoryOf(actions).rules).inhibits, c, x)
  {
    hide Run, HistoryOf, V.NoSecondPage, V.ResolverAfter, O.LiveAfter, O.DeliveredOver, WrongFlag, S.Silent, S.Entered;
    var h := HistoryOf(actions);
    ResolverIsHistory(actions);
    WithoutReload(h.rules, h.events);
    ProcessHasNoSecondPage(actions);
    c, x := S.SilenceNeedsEnteredCycle(h.rules, Inputs(h.events));
  }
}
