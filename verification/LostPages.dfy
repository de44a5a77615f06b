/** What a crash or a reload of the alerting process costs, and what its store is on
    the disk. */
module LostPages {
  import opened Wrappers
  import opened WalRecovery
  import D = DurableLog
  import opened RuleMachine
  import opened RuleStateStore
  import I = Inhibition
  import O = Reloads
  import opened RuleLoop
  import opened RuleHistory

  // ----- Pages that never come out -----------------------------------------

  /** The evaluation `t` of `n` is over, and its page, if it had one, is nowhere. */
  ghost predicate Gone(s: System, n: string, t: nat) {
    && t < |s.Ticks(n)| && !Exists(s, n, t)
    && !(n in s.loops && s.loops[n].stage.Evaluated? && t == |s.Ticks(n)| - 1)
  }

  lemma PersistMakesOnePage(s: System, n: string, m: string, t: nat)
    requires n in s.loops && s.loops[n].stage.Evaluated? && s.Ticks(n) != []
    requires Exists(PersistStep(s, n), m, t) && !Exists(s, m, t)
    ensures m == n && t == |s.Ticks(n)| - 1
  {
    var s' := PersistStep(s, n);
    assert Out(s', m, t) <==> Out(s, m, t);
    assert RuleLoop.Held(s', m, t) <==> RuleLoop.Held(s, m, t);
  }

  lemma LosingStaysGone(s: System, s': System, n: string, t: nat)
    requires Gone(s, n, t) && s'.released == s.released && s'.ticks == s.ticks
    requires forall m :: m in s'.loops ==> s'.loops[m].stage == Idle
    requires forall m :: m in s'.resolver.pending ==>
               m in s.resolver.pending && s'.resolver.pending[m] == s.resolver.pending[m]
    ensures Gone(s', n, t)
  {
    assert Out(s', n, t) <==> Out(s, n, t);
  }

  lemma StartStaysGone(s: System, rules: seq<Rule>, n: string, t: nat)
    requires Gone(s, n, t)
    ensures Gone(s.(loops := Seeded(rules, s.store), resolver := I.New(rules)), n, t)
    ensures Gone(s.(loops := Seeded(rules, s.store), resolver := I.Rebuild(rules, s.resolver)), n, t)
  {
    hide Gone, Seeded, I.New;
    forall m | m in Seeded(rules, s.store)
      ensures Seeded(rules, s.store)[m].stage == Idle
    {
      SeededLoops(rules, s.store, m);
    }
    I.NewIsQuiet<Stamp>(rules);
    LosingStaysGone(s, s.(loops := Seeded(rules, s.store), resolver := I.New(rules)), n, t);
    LosingStaysGone(s, s.(loops := Seeded(rules, s.store), resolver := I.Rebuild(rules, s.resolver)), n, t);
  }

  lemma StaysGone(s: System, a: Action, n: string, t: nat)
    requires Inv(s) && Gone(s, n, t)
    ensures Gone(Next(s, a), n, t)
  {
    hide Inv, I.Rebuild, I.New, Seeded, Transition, I.Observe, Exists;
    match a
    case Start(rules) => StartStaysGone(s, rules, n, t);
    case Reload(rules) => StartStaysGone(s, rules, n, t);
    case Evaluate(m, tick) =>
      if m in s.loops && s.loops[m].stage.Idle? {
        SamePages(s, m, tick, n, t);
      }
    case Persist(m) =>
      if m in s.loops && s.loops[m].stage.Evaluated? && s.Ticks(m) != [] && Exists(PersistStep(s, m), n, t) {
        PersistMakesOnePage(s, m, n, t);
      }
    case Observe(m) =>
      if m in s.loops && s.loops[m].stage.Persisted? {
        ObserveMakesNoPage(s, m, n, t);
      }
    case Crash => LosingStaysGone(s, Next(s, a), n, t);
  }

  lemma ObserveMakesNoPage(s: System, n: string, m: string, t: nat)
    requires Inv(s) && n in s.loops && s.loops[n].stage.Persisted?
    ensures Exists(ObserveStep(s, n), m, t) ==> Exists(s, m, t)
  {
    hide ObserveStep;
    PagesMoveOn(s, n, m, t);
  }

  lemma {:induction false} GoneForGood(actions: seq<Action>, more: seq<Action>, n: string, t: nat)
    requires Gone(Run(actions), n, t)
    ensures Gone(Run(actions + more), n, t)
  {
    hide Gone, Next, Inv;
    if more == [] {
      assert actions + more == actions;
    } else {
      var k := |more| - 1;
      GoneForGood(actions, more[..k], n, t);
      RunKeepsInv(actions + more[..k]);
      StaysGone(Run(actions + more[..k]), more[k], n, t);
      assert (actions + more)[..|actions + more| - 1] == actions + more[..k];
    }
  }

  /** A crash loses exactly the pages that are held back or were persisted and not yet
      handed to the resolver. They never come out, whatever happens next; and their
      rule is stored as firing, so that it pages again only after an inactive
      evaluation. */
  lemma CrashLosesForGood(actions: seq<Action>, more: seq<Action>, n: string, t: nat)
    requires Exists(Run(actions), n, t)
    ensures var s, after := Run(actions), Run(actions + [Crash] + more);
            && (Out(after, n, t) <==> Out(s, n, t))
            && t < |s.Ticks(n)| && (s.Stored(n).Firing? || Quiet(s.Ticks(n), t, |s.Ticks(n)|))
  {
    hide Inv, Next;
    var s := Run(actions);
    RunKeepsInv(actions);
    assert PageInv(s, n, t) by { PagesAreMeant(s, n, t); }
    assert (actions + [Crash])[..|actions|] == actions;
    CrashedState(s, n, t);
    if Out(s, n, t) {
      StaysOut(actions, [Crash] + more, n, t);
      assert actions + ([Crash] + more) == actions + [Crash] + more;
    } else {
      GoneForGood(actions + [Crash], more, n, t);
    }
  }

  lemma PagesAreMeant(s: System, n: string, t: nat)
    requires Inv(s)
    ensures PageInv(s, n, t)
  {
  }

  lemma CrashedState(s: System, n: string, t: nat)
    requires t < |s.Ticks(n)|
    ensures Out(Next(s, Crash), n, t) <==> Out(s, n, t)
    ensures !Out(s, n, t) ==> Gone(Next(s, Crash), n, t)
  {
  }

  lemma NextKeepsOut(s: System, a: Action, n: string, t: nat)
    requires Out(s, n, t)
    ensures Out(Next(s, a), n, t)
  {
    hide I.Rebuild, I.New, Seeded, Transition, I.Observe;
    var i :| 0 <= i < |s.released| && IsPage(s.released[i], n, t);
    assert s.released <= Next(s, a).released;
    assert IsPage(Next(s, a).released[i], n, t);
  }

  lemma {:induction false} StaysOut(actions: seq<Action>, more: seq<Action>, n: string, t: nat)
    requires Out(Run(actions), n, t)
    ensures Out(Run(actions + more), n, t)
  {
    hide Next, Out;
    if more == [] {
      assert actions + more == actions;
    } else {
      var k := |more| - 1;
      StaysOut(actions, more[..k], n, t);
      NextKeepsOut(Run(actions + more[..k]), more[k], n, t);
      assert (actions + more)[..|actions + more| - 1] == actions + more[..k];
    }
  }

  // ----- What becomes of a page --------------------------------------------

  lemma {:induction false} ReleaseGives(r: I.Resolver<Stamp>, names: seq<string>, n: string)
    requires n in r.pending && n !in I.Release(r, names).0.pending
    ensures Fire(r.pending[n]) in I.Release(r, names).1
    decreases |names|
  {
    if names != [] {
      if r.HasActiveInhibitor(names[0]) || names[0] !in r.pending {
        ReleaseGives(r, names[1..], n);
      } else if n != names[0] {
        ReleaseGives(r.(pending := r.pending - {names[0]}), names[1..], n);
      }
    }
  }

  /** An observation of `name` lets go of a held page of another rule only by handing
      it out; one of its own it cancels or, when inhibited, replaces. */
  lemma ObserveGives(r: I.Resolver<Stamp>, name: string, page: Option<Page>, n: string)
    requires n in r.pending && forall m :: m in r.pending ==> r.pending[m].name == m
    ensures var (r', out) := I.Observe(r, name, page);
            var discards := page.Some? && name == n && (page.value.Resolve? || r.HasActiveInhibitor(n));
            if discards then
              && (page.value.Resolve? ==>
                    n !in r'.pending && forall e :: e in out && e.Fire? ==> WasHeld(r.pending - {n}, e))
              && (page.value.Fire? ==> r'.pending == r.pending[n := page.value.incident] && out == [])
            else (n in r'.pending && r'.pending[n] == r.pending[n]) || Fire(r.pending[n]) in out
  {
    match page
    case None =>
    case Some(Fire(incident)) =>
      var r1 := r.(firing := r.firing[name := true]);
      assert r1.HasActiveInhibitor(name) <==> r.HasActiveInhibitor(name) by { OwnFlag(r, name); }
    case Some(Resolve(incident)) =>
      var r1 := r.(firing := r.firing[name := false], pending := r.pending - {name});
      var names := I.Downstream(r1, name);
      I.ReleaseRemoves(r1, names);
      if n != name && n !in I.Release(r1, names).0.pending {
        ReleaseGives(r1, names, n);
      }
      ReleaseTakes(r1, names);
  }

  lemma {:induction false} ReleaseTakes(r: I.Resolver<Stamp>, names: seq<string>)
    requires forall m :: m in r.pending ==> r.pending[m].name == m
    ensures forall e :: e in I.Release(r, names).1 ==> WasHeld(r.pending, e)
    decreases |names|
  {
    if names != [] {
      if r.HasActiveInhibitor(names[0]) || names[0] !in r.pending {
        ReleaseTakes(r, names[1..]);
      } else {
        ReleaseTakes(r.(pending := r.pending - {names[0]}), names[1..]);
      }
    }
  }

  /** Its own flag does not inhibit a rule. */
  lemma OwnFlag(r: I.Resolver<Stamp>, name: string)
    ensures r.(firing := r.firing[name := true]).HasActiveInhibitor(name) <==> r.HasActiveInhibitor(name)
  {
    var r1 := r.(firing := r.firing[name := true]);
    if c :| c in r.inhibits && r.Inhibits(c, name) && r.IsFiring(c) {
      assert r1.Inhibits(c, name) && r1.IsFiring(c);
    }
    if c :| c in r1.inhibits && r1.Inhibits(c, name) && r1.IsFiring(c) {
      assert r.Inhibits(c, name) && r.IsFiring(c);
    }
  }

  /** The observation of `n` cancels its held page by a resolution, or replaces it by a
      newer page that is held too. */
  predicate Discards(s: System, a: Action, n: string, t: nat) {
    && Tells(s, a) && a.rule == n && RuleLoop.Held(s, n, t)
    && (s.loops[n].stage.page.value.Resolve? || s.resolver.HasActiveInhibitor(n))
  }

  /** A crash, a start or a reload takes the page: a reload takes those not yet handed
      to the resolver, and held ones without a declared inhibitor. */
  predicate Takes(s: System, a: Action, n: string, t: nat) {
    || a.Crash?
    || Starts(s, a)
    || (Reloads(s, a) &&
        (OnItsWay(s, n, t) || !(n in I.New<Stamp>(a.rules).firing && I.New<Stamp>(a.rules).HasDeclaredInhibitor(n))))
  }

  /** What becomes of a page that is not out yet: an action loses it exactly when it is
      discarded by an observation of its own rule, or taken. */
  lemma PageFate(s: System, a: Action, n: string, t: nat)
    requires Inv(s) && Exists(s, n, t) && !Out(s, n, t)
    ensures !Exists(Next(s, a), n, t) <==> Discards(s, a, n, t) || Takes(s, a, n, t)
  {
    hide Inv, I.Rebuild, I.New, Seeded, Transition, I.Observe;
    match a
    case Start(rules) =>
      if Starts(s, a) {
        StartTakes(s, rules, n, t);
      }
    case Reload(rules) =>
      if Reloads(s, a) {
        ReloadTakes(s, rules, n, t);
      }
    case Evaluate(m, tick) =>
      if m in s.loops && s.loops[m].stage.Idle? {
        SamePages(s, m, tick, n, t);
      }
    case Persist(m) =>
      if m in s.loops && s.loops[m].stage.Evaluated? && s.Ticks(m) != [] {
        PersistKeepsPages(s, m, n, t);
      }
    case Observe(m) =>
      if m in s.loops && s.loops[m].stage.Persisted? {
        ObserveFate(s, m, n, t);
      }
    case Crash =>
      assert Out(Next(s, a), n, t) <==> Out(s, n, t);
  }

  lemma StartTakes(s: System, rules: seq<Rule>, n: string, t: nat)
    requires !Out(s, n, t)
    ensures !Exists(s.(loops := Seeded(rules, s.store), resolver := I.New(rules)), n, t)
  {
    hide I.New, Seeded;
    var s' := s.(loops := Seeded(rules, s.store), resolver := I.New(rules));
    assert Out(s', n, t) <==> Out(s, n, t);
    I.NewIsQuiet<Stamp>(rules);
    if n in s'.loops {
      SeededLoops(rules, s.store, n);
    }
  }

  lemma ReloadTakes(s: System, rules: seq<Rule>, n: string, t: nat)
    requires Inv(s) && Exists(s, n, t) && !Out(s, n, t)
    ensures !Exists(s.(loops := Seeded(rules, s.store), resolver := I.Rebuild(rules, s.resolver)), n, t) <==>
            OnItsWay(s, n, t) || !(n in I.New<Stamp>(rules).firing && I.New<Stamp>(rules).HasDeclaredInhibitor(n))
  {
    hide I.New, I.Rebuild, Seeded;
    var s' := s.(loops := Seeded(rules, s.store), resolver := I.Rebuild(rules, s.resolver));
    assert Out(s', n, t) <==> Out(s, n, t);
    O.Rebuilt(rules, s.resolver, n);
    if n in s'.loops {
      SeededLoops(rules, s.store, n);
    }
    assert !(RuleLoop.Held(s, n, t) && OnItsWay(s, n, t));
  }

  lemma PersistKeepsPages(s: System, m: string, n: string, t: nat)
    requires m in s.loops && s.loops[m].stage.Evaluated? && s.Ticks(m) != [] && Exists(s, n, t)
    ensures Exists(PersistStep(s, m), n, t)
  {
    var s' := PersistStep(s, m);
    assert Out(s', n, t) <==> Out(s, n, t);
    assert RuleLoop.Held(s', n, t) <==> RuleLoop.Held(s, n, t);
  }

  lemma ObserveFate(s: System, m: string, n: string, t: nat)
    requires Inv(s) && m in s.loops && s.loops[m].stage.Persisted? && Exists(s, n, t) && !Out(s, n, t)
    ensures !Exists(ObserveStep(s, m), n, t) <==> Discards(s, Observe(m), n, t)
  {
    hide I.Observe, PageInv, Separated;
    assert LoopInv(s, m);
    var page := s.loops[m].stage.page;
    var (r', out) := I.Observe(s.resolver, m, page);
    var s' := ObserveStep(s, m);
    assert s'.released == s.released + out && s'.resolver == r';
    if RuleLoop.Held(s, n, t) {
      assert !OnItsWay(s, n, t);
      ObserveGives(s.resolver, m, page, n);
      if Discards(s, Observe(m), n, t) {
        DiscardedIsGone(s, n, t);
      } else if Fire(s.resolver.pending[n]) in out {
        var i :| 0 <= i < |out| && out[i] == Fire(s.resolver.pending[n]);
        assert IsPage(s'.released[|s.released| + i], n, t);
      }
    } else if m == n {
      OwnPage(s.resolver, m, page);
      if out == [page.value] {
        assert IsPage(s'.released[|s.released|], n, t);
      }
    }
  }

  /** A page that is observed is handed out or held. */
  lemma OwnPage(r: I.Resolver<Stamp>, name: string, page: Option<Page>)
    ensures page.Some? && page.value.Fire? ==>
              var (r', out) := I.Observe(r, name, page);
              out == [page.value] || (name in r'.pending && r'.pending[name] == page.value.incident)
  {
  }

  lemma DiscardedIsGone(s: System, n: string, t: nat)
    requires Inv(s) && !Out(s, n, t) && Discards(s, Observe(n), n, t)
    ensures !Exists(ObserveStep(s, n), n, t)
  {
    hide I.Observe, PageInv, Separated;
    assert LoopInv(s, n);
    var page := s.loops[n].stage.page;
    var (r', out) := I.Observe(s.resolver, n, page);
    ObserveGives(s.resolver, n, page, n);
    var s' := ObserveStep(s, n);
    assert forall i :: 0 <= i < |out| ==> out[i] in out && !IsPage(out[i], n, t);
    if Out(s', n, t) {
      OutIsOldOrNew(s, n, n, t);
    }
    assert page.value.Fire? && RuleLoop.Held(s', n, t) ==> OnItsWay(s, n, t);
  }

  // ----- Resolutions without their page ------------------------------------

  predicate MakesPage(s: System, a: Action, n: string) {
    && a.Persist? && a.rule == n && n in s.loops && s.loops[n].stage.Evaluated? && s.Ticks(n) != []
    && s.loops[n].stage.emission.Some? && s.loops[n].stage.emission.value.Fire?
  }

  /** The evaluation that made the last page of `n`. */
  function Paged(actions: seq<Action>, n: string): Option<nat> {
    if actions == [] then None
    else
      var before, a := actions[..|actions| - 1], actions[|actions| - 1];
      if MakesPage(Run(before), a, n) then Some(|Run(before).Ticks(n)| - 1) else Paged(before, n)
  }

  /** The incident of `n` is not over for the resolver. */
  predicate Open(s: System, n: string) {
    s.Stored(n).Firing? || ResolutionDue(s, n)
  }

  /** The action `k` of the run took the page. */
  ghost predicate TakenAt(actions: seq<Action>, k: nat, n: string, t: nat) {
    && k < |actions| && Exists(Run(actions[..k]), n, t) && !Out(Run(actions[..k]), n, t)
    && Takes(Run(actions[..k]), actions[k], n, t)
  }

  ghost predicate WasTaken(actions: seq<Action>, n: string, t: nat) {
    exists k: nat :: TakenAt(actions, k, n, t)
  }

  lemma TakenBefore(before: seq<Action>, a: Action, n: string, t: nat)
    requires WasTaken(before, n, t)
    ensures WasTaken(before + [a], n, t)
  {
    hide Run, Takes;
    var k: nat :| TakenAt(before, k, n, t);
    assert (before + [a])[..k] == before[..k] && (before + [a])[k] == before[k];
    assert TakenAt(before + [a], k, n, t);
  }

  ghost predicate OpenInv(actions: seq<Action>, n: string) {
    var s, t := Run(actions), Paged(actions, n);
    && (Open(s, n) ==> t.Some? && (Exists(s, n, t.value) || WasTaken(actions, n, t.value)))
    && (PageDue(s, n) ==> t.Some? && OnItsWay(s, n, t.value))
  }

  /** How an incident opens and stays open. */
  lemma OpenNext(s: System, a: Action, n: string)
    requires Inv(s) && DueInv(s)
    ensures MakesPage(s, a, n) ==> !Open(s, n) && OnItsWay(Next(s, a), n, |s.Ticks(n)| - 1)
    ensures !MakesPage(s, a, n) && Open(Next(s, a), n) ==> Open(s, n)
    ensures !MakesPage(s, a, n) && PageDue(Next(s, a), n) ==>
              PageDue(s, n) && forall t :: OnItsWay(Next(s, a), n, t) <==> OnItsWay(s, n, t)
    ensures Tells(s, a) && a.rule == n && ResolutionDue(s, n) ==> !Open(Next(s, a), n)
  {
    hide Inv, Next, OnItsWay, Open;
    OpenMeans(s);
    OpenMeans(Next(s, a));
    StageNext(s, a, n);
    if Persists(s, a, n) {
      EvaluatedDue(s, n);
      PersistSends(s, n);
    }
    if PageDue(Next(s, a), n) && !MakesPage(s, a, n) {
      StillOnItsWay(s, a, n);
    }
  }

  lemma OpenMeans(s: System)
    ensures forall m :: Open(s, m) <==> s.Stored(m).Firing? || ResolutionDue(s, m)
  {
  }

  lemma PersistSends(s: System, n: string)
    requires Inv(s) && Persists(s, Persist(n), n)
    ensures MakesPage(s, Persist(n), n) ==> OnItsWay(Next(s, Persist(n)), n, |s.Ticks(n)| - 1)
  {
    hide Inv;
    NamesOf(s, n);
  }

  /** A page due that is not new was due before. */
  lemma StillOnItsWay(s: System, a: Action, n: string)
    requires Inv(s) && PageDue(s, n) && PageDue(Next(s, a), n)
    ensures forall t :: OnItsWay(Next(s, a), n, t) <==> OnItsWay(s, n, t)
  {
    hide Inv, Seeded, I.New, I.Rebuild, I.Observe, Transition;
    match a
    case Start(rules) => SeededStage(s, rules, n);
    case Reload(rules) => SeededStage(s, rules, n);
    case _ =>
  }

  predicate LoopNames(s: System, n: string)
    requires n in s.loops && s.loops[n].stage.Evaluated?
  {
    s.loops[n].stage.emission.Some? ==> s.loops[n].stage.emission.value.incident.name == n
  }

  lemma NamesOf(s: System, n: string)
    requires Inv(s) && n in s.loops && s.loops[n].stage.Evaluated?
    ensures LoopNames(s, n)
  {
    hide Transition;
    assert LoopInv(s, n);
    var loop, ticks := s.loops[n], s.Ticks(n);
    TransitionPages(loop.state, ticks[|ticks| - 1], loop.rule);
  }

  lemma OpenStep(before: seq<Action>, a: Action, n: string)
    requires OpenInv(before, n)
    ensures OpenInv(before + [a], n)
  {
    hide Run, Inv, DueInv, Takes, Discards, Open, WasTaken, Next, MakesPage;
    var s, actions := Run(before), before + [a];
    assert actions[..|before|] == before && actions[|before|] == a;
    RunStep(before, a);
    RunKeepsInv(before);
    DueIsStored(before);
    OpenNext(s, a, n);
    var s' := Run(actions);
    assert Paged(actions, n) == if MakesPage(s, a, n) then Some(|s.Ticks(n)| - 1) else Paged(before, n);
    if Open(s', n) && !MakesPage(s, a, n) {
      var t := Paged(before, n).value;
      if WasTaken(before, n, t) {
        TakenBefore(before, a, n, t);
      } else if !Exists(s', n, t) {
        PageLost(before, a, n, t);
      }
    } else if MakesPage(s, a, n) {
      assert Exists(s', n, |s.Ticks(n)| - 1);
    }
  }

  lemma PageLost(before: seq<Action>, a: Action, n: string, t: nat)
    requires var s := Run(before);
             && Exists(s, n, t) && !Exists(Next(s, a), n, t) && Open(Next(s, a), n)
             && (PageDue(s, n) ==> OnItsWay(s, n, t))
    ensures WasTaken(before + [a], n, t)
  {
    hide Run, Takes, Open, Next;
    var s, actions := Run(before), before + [a];
    assert actions[..|before|] == before && actions[|before|] == a;
    RunKeepsInv(before);
    DueIsStored(before);
    assert !Out(s, n, t) by {
      if Out(s, n, t) {
        NextKeepsOut(s, a, n, t);
      }
    }
    PageFate(s, a, n, t);
    OpenNext(s, a, n);
    assert !(RuleLoop.Held(s, n, t) && OnItsWay(s, n, t));
    assert TakenAt(actions, |before|, n, t);
  }

  lemma {:induction false} OpenPages(actions: seq<Action>, n: string)
    ensures OpenInv(actions, n)
  {
    hide OpenInv, Run;
    if actions == [] {
      assert OpenInv([], n) by { NothingOpen(n); }
    } else {
      var before := actions[..|actions| - 1];
      OpenPages(before, n);
      OpenStep(before, actions[|actions| - 1], n);
      assert before + [actions[|actions| - 1]] == actions;
    }
  }

  lemma NothingOpen(n: string)
    ensures OpenInv([], n)
  {
  }

  lemma TakenIsGone(actions: seq<Action>, n: string, t: nat)
    requires WasTaken(actions, n, t)
    ensures !Exists(Run(actions), n, t)
  {
    hide Run, Exists, Takes, Inv;
    var k: nat :| TakenAt(actions, k, n, t);
    var s, a := Run(actions[..k]), actions[k];
    RunKeepsInv(actions[..k]);
    PageFate(s, a, n, t);
    assert PageInv(s, n, t) by { PagesAreMeant(s, n, t); }
    TakenStage(s, a, n, t);
    RunStep(actions[..k], a);
    assert actions[..k] + [a] == actions[..k + 1] && actions[..k + 1] + actions[k + 1..] == actions;
    GoneForGood(actions[..k + 1], actions[k + 1..], n, t);
  }

  lemma TakenStage(s: System, a: Action, n: string, t: nat)
    requires t < |s.Ticks(n)| && Takes(s, a, n, t) && !Exists(Next(s, a), n, t)
    ensures Gone(Next(s, a), n, t)
  {
    hide Exists, I.New, I.Rebuild, Seeded;
    var s' := Next(s, a);
    if (Starts(s, a) || Reloads(s, a)) && n in s'.loops {
      SeededLoops(a.rules, s.store, n);
    }
  }

  /** When the resolution of a rule is due: it goes out exactly when no page of the rule
      is held, and then the page of its incident never went out exactly when a crash, a
      start or a reload took it. */
  lemma OrphanExactly(actions: seq<Action>, n: string)
    requires ResolutionDue(Run(actions), n)
    ensures var s, t := Run(actions), Paged(actions, n);
            var resolution := s.loops[n].stage.page.value;
            && t.Some?
            && (resolution in I.Observe(s.resolver, n, Some(resolution)).1 <==> n !in s.resolver.pending)
            && (n !in s.resolver.pending ==> (!Out(s, n, t.value) <==> WasTaken(actions, n, t.value)))
  {
    hide Run, WasTaken, Paged;
    var s := Run(actions);
    OpenPages(actions, n);
    var t := Paged(actions, n).value;
    var resolution := s.loops[n].stage.page.value;
    ResolutionGoesOut(s.resolver, n, resolution);
    if WasTaken(actions, n, t) {
      TakenIsGone(actions, n, t);
    }
    assert !OnItsWay(s, n, t);
  }

  lemma ResolutionGoesOut(r: I.Resolver<Stamp>, n: string, e: Page)
    requires e.Resolve?
    ensures e in I.Observe(r, n, Some(e)).1 <==> n !in r.pending
  {
    var r1 := r.(firing := r.firing[n := false], pending := r.pending - {n});
    ReleaseFires(r1, I.Downstream(r1, n));
  }

  lemma {:induction false} ReleaseFires(r: I.Resolver<Stamp>, names: seq<string>)
    ensures forall e :: e in I.Release(r, names).1 ==> e.Fire?
    decreases |names|
  {
    if names != [] {
      if r.HasActiveInhibitor(names[0]) || names[0] !in r.pending {
        ReleaseFires(r, names[1..]);
      } else {
        ReleaseFires(r.(pending := r.pending - {names[0]}), names[1..]);
      }
    }
  }

  const ON := Tick(ConditionActive, 0)
  const OFF := Tick(ConditionInactive, 0)

  /** A rule that fires at once: its page is persisted when the process crashes, and
      after the restart its condition goes away. */
  function OrphanRun(rule: Rule): seq<Action> {
    [Start([rule]), Evaluate(rule.name, ON), Persist(rule.name), Observe(rule.name)] +
    [Evaluate(rule.name, ON), Persist(rule.name), Crash] +
    [Start([rule]), Evaluate(rule.name, OFF), Persist(rule.name), Observe(rule.name)]
  }

  /** A lone rule is evaluated and its state persisted. */
  lemma OneTick(s: System, rule: Rule, state: RuleState, tick: Tick)
    requires s.loops == map[rule.name := Loop(rule, state, Idle)] && s.Stored(rule.name) == state
    ensures var (next, e) := Transition(state, tick.outcome, rule, tick.now);
            var s' := Next(Next(s, Evaluate(rule.name, tick)), Persist(rule.name));
            && s'.loops == map[rule.name := Loop(rule, next, Persisted(Stamped(e, |s.Ticks(rule.name)|)))]
            && s'.Stored(rule.name) == next && s'.resolver == s.resolver && s'.released == s.released
  {
    hide Transition;
    var s1 := Next(s, Evaluate(rule.name, tick));
    assert s1.Ticks(rule.name) == s.Ticks(rule.name) + [tick];
    assert s1.loops[rule.name].stage.Evaluated?;
  }

  /** The first process: the rule goes pending, its page is persisted, and it crashes. */
  lemma FirstProcess(rule: Rule)
    requires rule.forDuration == 0
    ensures var s := Run(OrphanRun(rule)[..7]);
            s.Stored(rule.name) == Firing(0) && s.loops == map[] && s.released == []
  {
    hide Run, I.New, Seeded, I.Observe, EvaluateStep, PersistStep;
    var part1 := [Start([rule]), Evaluate(rule.name, ON), Persist(rule.name), Observe(rule.name)];
    var part2 := [Evaluate(rule.name, ON), Persist(rule.name), Crash];
    RunNothing();
    RunFour([], part1);
    OneRule(rule, map[]);
    var s0 := Next(INITIAL, Start([rule]));
    OneTick(s0, rule, Inactive, ON);
    NothingTold(s0.resolver, rule.name);
    var s1 := Run([] + part1);
    assert s1.loops == map[rule.name := Loop(rule, Pending(0), Idle)];
    RunThree([] + part1, part2);
    OneTick(s1, rule, Pending(0), ON);
    assert OrphanRun(rule)[..7] == [] + part1 + part2;
  }

  /** All that is ever delivered is a resolution. */
  lemma OrphanResolution(name: string)
    ensures var out := Run(OrphanRun(Rule(name, 0, []))).released;
            |out| == 1 && out[0].Resolve? && out[0].incident.name == name
  {
    hide Run, I.New, Seeded, I.Observe, EvaluateStep, PersistStep;
    var rule := Rule(name, 0, []);
    var first := OrphanRun(rule)[..7];
    var part := [Start([rule]), Evaluate(name, OFF), Persist(name), Observe(name)];
    FirstProcess(rule);
    RunFour(first, part);
    OneRule(rule, Run(first).store);
    OneTick(Next(Run(first), Start([rule])), rule, Firing(0), OFF);
    LoneResolution(rule);
    assert OrphanRun(rule) == first + part;
  }

  lemma RunNothing()
    ensures Run([]) == INITIAL
  {
  }

  lemma RunThree(actions: seq<Action>, more: seq<Action>)
    requires |more| == 3
    ensures Run(actions + more) == Next(Next(Next(Run(actions), more[0]), more[1]), more[2])
  {
    hide Next, Run;
    RunStep(actions, more[0]);
    RunStep(actions + [more[0]], more[1]);
    RunStep(actions + [more[0]] + [more[1]], more[2]);
    assert actions + [more[0]] + [more[1]] + [more[2]] == actions + more;
  }

  lemma RunFour(actions: seq<Action>, more: seq<Action>)
    requires |more| == 4
    ensures Run(actions + more) == Next(Next(Next(Next(Run(actions), more[0]), more[1]), more[2]), more[3])
  {
    hide Next, Run;
    RunThree(actions, more[..3]);
    RunStep(actions + more[..3], more[3]);
    assert actions + more[..3] + [more[3]] == actions + more;
  }

  lemma OneRule(rule: Rule, store: States)
    ensures Seeded([rule], store) ==
            map[rule.name := Loop(rule, if rule.name in store then store[rule.name] else Inactive, Idle)]
  {
    assert [rule][..0] == [];
  }

  lemma LoneResolution(rule: Rule)
    requires rule.inhibits == []
    ensures forall e: Page :: e.Resolve? ==> I.Observe(I.New<Stamp>([rule]), rule.name, Some(e)).1 == [e]
  {
    var r := I.New<Stamp>([rule]);
    assert [rule][..0] == [];
    EmptyResolver();
    assert r == I.Resolver(map[rule.name := []], map[rule.name := false], map[]);
    forall e: Page | e.Resolve?
      ensures I.Observe(r, rule.name, Some(e)).1 == [e]
    {
      var r1 := r.(firing := r.firing[rule.name := false], pending := r.pending - {rule.name});
      assert I.Downstream(r1, rule.name) == [] && I.Release(r1, []).1 == [];
    }
  }

  // ----- The store on the disk ---------------------------------------------

  /** The puts that a run makes: one for each persisted change of state. */
  function Puts(actions: seq<Action>): seq<Put> {
    if actions == [] then []
    else
      var before, a := actions[..|actions| - 1], actions[|actions| - 1];
      var s := Run(before);
      Puts(before) +
      if a.Persist? && a.rule in s.loops && s.loops[a.rule].stage.Evaluated? && s.Ticks(a.rule) != [] &&
         s.loops[a.rule].state != s.loops[a.rule].stage.next
      then [Put(a.rule, s.loops[a.rule].stage.next)]
      else []
  }

  lemma {:induction false} StoreIsReplay(actions: seq<Action>)
    ensures Run(actions).store == Fold(Insert, map[], Puts(actions))
  {
    hide I.Rebuild, I.New, Seeded, Transition, I.Observe, Fold;
    if actions == [] {
      assert Fold(Insert, map[], []) == map[] by { FoldNone(); }
    } else {
      var before, a := actions[..|actions| - 1], actions[|actions| - 1];
      StoreIsReplay(before);
      var s := Run(before);
      assert Puts(before) + [] == Puts(before);
      if a.Persist? && a.rule in s.loops && s.loops[a.rule].stage.Evaluated? {
        D.FoldOne(Insert, map[], Puts(before), Put(a.rule, s.loops[a.rule].stage.next));
      }
    }
  }

  lemma FoldNone()
    ensures Fold(Insert, map[], []) == map[]
  {
  }

  /** The file-backed store under the loop: once the puts of a run are committed, by
      any sequence of writes, crashes and snapshots, opening it gives the store of the
      run, unless its log is unreadable. */
  lemma StoreIsOnDisk(codec: Codec<Put>, run: seq<D.Event<Put>>, actions: seq<Action>)
    requires JsonLike(codec) && D.IsRun(StateStore(codec), run)
    requires D.Committed(StateStore(codec), run) == Puts(actions)
    ensures var st := StateStore(codec);
            var disk, log := D.NodeOf(st, run).disk, D.LogOf(st, run);
            D.Open(st, disk) == if log.glued then Err(|log.records| + 1) else Ok(Run(actions).store)
  {
    hide JsonLike, D.IsRun, D.NodeOf, D.LogOf, D.Committed, D.Open, Fold, D.Absorbing, Puts, Run;
    StatesAbsorb(codec);
    D.RunIsDurable(StateStore(codec), run);
    StoreIsReplay(actions);
  }
}
