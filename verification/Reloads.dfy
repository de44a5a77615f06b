/** What a reload of the rule catalogue keeps, over runs that mix observations and
    reloads: a resolver that came from a reload is observed and reloaded again. */
module Reloads {
  import opened Wrappers
  import opened RuleMachine
  import opened Inhibition
  import opened Deliveries

  datatype Event<+D> = Observed(emission: Emission<D>) | Reloaded(rules: seq<Rule>)

  /** The catalogue that is live after `events`. */
  function Catalogue<D>(rules: seq<Rule>, events: seq<Event<D>>): seq<Rule> {
    if events == [] then rules
    else
      match events[|events| - 1]
      case Observed(_) => Catalogue(rules, events[..|events| - 1])
      case Reloaded(newer) => newer
  }

  function Advance<D>(r: Resolver<D>, event: Event<D>): (Resolver<D>, seq<Emission<D>>) {
    match event
    case Observed(e) => Observe(r, e.incident.name, Some(e))
    case Reloaded(newer) => (Rebuild(newer, r), [])
  }

  function LiveAfter<D>(rules: seq<Rule>, events: seq<Event<D>>): Resolver<D> {
    if events == [] then New(rules)
    else Advance(LiveAfter(rules, events[..|events| - 1]), events[|events| - 1]).0
  }

  function DeliveredOver<D>(rules: seq<Rule>, events: seq<Event<D>>): seq<Emission<D>> {
    if events == [] then []
    else
      var before := events[..|events| - 1];
      DeliveredOver(rules, before) + Advance(LiveAfter(rules, before), events[|events| - 1]).1
  }

  /** Every emission is about a rule of the catalogue that is live at that point. */
  predicate InCatalogue<D>(rules: seq<Rule>, events: seq<Event<D>>) {
    events == [] ||
    var before, last := events[..|events| - 1], events[|events| - 1];
    && InCatalogue(rules, before)
    && (last.Observed? ==> last.emission.incident.name in New<D>(Catalogue(rules, before)).firing)
  }

  // ----- What every live resolver knows ------------------------------------

  /** The resolver is about the rules of the catalogue and no others; a page it holds
      is that of a firing rule with a declared inhibitor, under its own name. */
  ghost predicate Knows<D(!new)>(rules: seq<Rule>, r: Resolver<D>) {
    && r.inhibits == New<D>(rules).inhibits
    && r.firing.Keys == New<D>(rules).firing.Keys
    && HeldFires(r)
    && forall n :: n in r.pending ==> r.HasDeclaredInhibitor(n)
  }

  lemma {:induction false} NewKnowsItsRules<D(!new)>(rules: seq<Rule>)
    ensures New<D>(rules).inhibits.Keys == New<D>(rules).firing.Keys
    ensures forall n :: n in New<D>(rules).firing <==> exists r :: r in rules && r.name == n
  {
    if rules != [] {
      NewKnowsItsRules<D>(rules[..|rules| - 1]);
      assert rules == rules[..|rules| - 1] + [rules[|rules| - 1]];
    }
  }

  lemma SameDeclared<D(!new)>(r: Resolver<D>, r1: Resolver<D>)
    requires r.inhibits == r1.inhibits
    ensures forall m :: r1.HasDeclaredInhibitor(m) == r.HasDeclaredInhibitor(m)
  {
    forall m
      ensures r1.HasDeclaredInhibitor(m) == r.HasDeclaredInhibitor(m)
    {
      assert forall c :: r1.Inhibits(c, m) == r.Inhibits(c, m);
    }
  }

  lemma ActiveIsDeclared<D(!new)>(r: Resolver<D>, n: string)
    requires r.HasActiveInhibitor(n)
    ensures r.HasDeclaredInhibitor(n)
  {
    var c :| c in r.inhibits && r.Inhibits(c, n) && r.IsFiring(c);
    assert r.Inhibits(c, n);
  }

  lemma ObserveHoldsFiring<D(!new)>(r: Resolver<D>, e: Emission<D>)
    requires HeldFires(r)
    ensures var r' := Observe(r, e.incident.name, Some(e)).0;
            && HeldFires(r') && r'.inhibits == r.inhibits
            && r'.firing.Keys == r.firing.Keys + {e.incident.name}
            && forall n :: n in r'.pending ==> n in r.pending || r'.HasActiveInhibitor(n)
  {
    var name := e.incident.name;
    var r' := Observe(r, name, Some(e)).0;
    match e
    case Fire(incident) =>
      var r1 := r.(firing := r.firing[name := true]);
      SameRelation(r1, r');
    case Resolve(incident) =>
      var r1 := r.(firing := r.firing[name := false], pending := r.pending - {name});
      ReleaseRemoves(r1, Downstream(r1, name));
  }

  lemma ObserveKnows<D(!new)>(rules: seq<Rule>, r: Resolver<D>, e: Emission<D>)
    requires Knows(rules, r) && e.incident.name in New<D>(rules).firing
    ensures Knows(rules, Observe(r, e.incident.name, Some(e)).0)
  {
    hide Observe, HeldFires;
    var r' := Observe(r, e.incident.name, Some(e)).0;
    ObserveHoldsFiring(r, e);
    SameDeclared(r, r');
    forall n | n in r'.pending
      ensures r'.HasDeclaredInhibitor(n)
    {
      if r'.HasActiveInhibitor(n) {
        ActiveIsDeclared(r', n);
      }
    }
  }

  /** A rebuilt resolver, rule by rule. */
  lemma Rebuilt<D(!new)>(rules: seq<Rule>, live: Resolver<D>, n: string)
    ensures var empty: Resolver<D>, r := New(rules), Rebuild(rules, live);
            && r.inhibits == empty.inhibits && r.firing.Keys == empty.firing.Keys
            && (r.IsFiring(n) <==> n in empty.firing && live.IsFiring(n))
            && (r.HasDeclaredInhibitor(n) <==> empty.HasDeclaredInhibitor(n))
            && (n in r.pending <==> n in live.pending && n in empty.firing && empty.HasDeclaredInhibitor(n))
            && (n in r.pending ==> r.pending[n] == live.pending[n])
  {
    var empty: Resolver<D>, r := New(rules), Rebuild(rules, live);
    NewIsQuiet<D>(rules);
    assert !empty.IsFiring(n);
    SameDeclared(empty, empty.(firing := r.firing));
    SameDeclared(empty, r);
  }

  lemma RebuildKnows<D(!new)>(rules: seq<Rule>, live: Resolver<D>)
    requires HeldFires(live)
    ensures Knows(rules, Rebuild(rules, live))
  {
    hide New, Rebuild;
    Rebuilt(rules, live, "");
    forall n | n in Rebuild(rules, live).pending
      ensures Rebuild(rules, live).IsFiring(n) && Rebuild(rules, live).pending[n].name == n
      ensures Rebuild(rules, live).HasDeclaredInhibitor(n)
    {
      Rebuilt(rules, live, n);
    }
  }

  /** Every resolver that can be live, after any number of reloads. */
  lemma {:induction false} LiveKnows<D(!new)>(rules: seq<Rule>, events: seq<Event<D>>)
    requires InCatalogue(rules, events)
    ensures Knows(Catalogue(rules, events), LiveAfter(rules, events))
  {
    hide Knows, Observe, Rebuild, HeldFires;
    if events == [] {
      NewKnows<D>(rules);
    } else {
      var before := events[..|events| - 1];
      LiveKnows(rules, before);
      var live := LiveAfter(rules, before);
      match events[|events| - 1]
      case Observed(e) => ObserveKnows(Catalogue(rules, before), live, e);
      case Reloaded(newer) =>
        KnowsHeld(Catalogue(rules, before), live);
        RebuildKnows(newer, live);
    }
  }

  lemma KnowsHeld<D(!new)>(rules: seq<Rule>, r: Resolver<D>)
    requires Knows(rules, r)
    ensures HeldFires(r)
  {
  }

  lemma NewKnows<D(!new)>(rules: seq<Rule>)
    ensures Knows(rules, New<D>(rules))
  {
    NewIsQuiet<D>(rules);
  }

  lemma KnownIsUnchanged<D(!new)>(rules: seq<Rule>, live: Resolver<D>)
    requires Knows(rules, live)
    ensures Rebuild(rules, live) == live
  {
    var r := Rebuild(rules, live);
    assert r.firing == live.firing;
    SameDeclared(live, New<D>(rules).(firing := live.firing));
    assert r.pending == live.pending;
  }

  /** Reloading the live catalogue changes nothing, whatever came before. */
  lemma RebuildIsIdentity<D(!new)>(rules: seq<Rule>, events: seq<Event<D>>)
    requires InCatalogue(rules, events)
    ensures Rebuild(Catalogue(rules, events), LiveAfter(rules, events)) == LiveAfter(rules, events)
  {
    LiveKnows(rules, events);
    KnownIsUnchanged(Catalogue(rules, events), LiveAfter(rules, events));
  }

  /** Whatever the new catalogue and whatever came before: a rebuilt resolver knows
      its own rules only, survivors keep their flags, and a page stays held exactly
      when its rule survives with a declared inhibitor. */
  lemma RebuildIsSafe<D(!new)>(rules: seq<Rule>, events: seq<Event<D>>, newer: seq<Rule>)
    requires InCatalogue(rules, events)
    ensures var live := LiveAfter(rules, events);
            var r := Rebuild(newer, live);
            && Knows(newer, r)
            && (forall n :: n in r.firing <==> exists rule :: rule in newer && rule.name == n)
            && (forall n :: n in r.firing ==> (r.IsFiring(n) <==> live.IsFiring(n)))
            && (forall n :: n in r.pending <==> n in live.pending && n in r.firing && r.HasDeclaredInhibitor(n))
            && (forall n :: n in r.pending ==> r.pending[n] == live.pending[n])
  {
    hide LiveAfter, Catalogue, InCatalogue, New, Rebuild;
    var live := LiveAfter(rules, events);
    LiveKnows(rules, events);
    RebuildKnows(newer, live);
    NewKnowsItsRules<D>(newer);
    Rebuilt(newer, live, "");
    forall n
      ensures var r := Rebuild(newer, live);
              && (n in r.firing ==> (r.IsFiring(n) <==> live.IsFiring(n)))
              && (n in r.pending <==> n in live.pending && n in r.firing && r.HasDeclaredInhibitor(n))
              && (n in r.pending ==> r.pending[n] == live.pending[n])
    {
      Rebuilt(newer, live, n);
    }
  }

  // ----- Where a reload breaks a promise -----------------------------------

  /** Every page that stays held has a firing inhibitor in the new catalogue too. */
  ghost predicate KeepsInhibitors<D(!new)>(rules: seq<Rule>, live: Resolver<D>) {
    forall n :: n in live.pending && n in New<D>(rules).firing && New<D>(rules).HasDeclaredInhibitor(n) ==>
      exists c :: New<D>(rules).Inhibits(c, n) && live.IsFiring(c)
  }

  /** Flags of rules outside of the new catalogue do not matter: an inhibitor is one
      of its rules. */
  lemma RebuiltInhibitors<D(!new)>(rules: seq<Rule>, live: Resolver<D>, n: string)
    ensures Rebuild(rules, live).HasActiveInhibitor(n) <==>
            exists c :: New<D>(rules).Inhibits(c, n) && live.IsFiring(c)
  {
    hide New, Rebuild;
    var empty: Resolver<D>, r := New(rules), Rebuild(rules, live);
    NewKnowsItsRules<D>(rules);
    forall c
      ensures r.Inhibits(c, n) <==> empty.Inhibits(c, n)
      ensures empty.Inhibits(c, n) ==> (r.IsFiring(c) <==> live.IsFiring(c))
    {
      Rebuilt(rules, live, c);
    }
  }

  /** A reload keeps "a held page has a firing inhibitor" exactly when every page that
      stays held has one among the new inhibitors. */
  lemma ReloadKeepsInvExactly<D(!new)>(rules: seq<Rule>, live: Resolver<D>)
    requires HeldFires(live)
    ensures Inv(Rebuild(rules, live)) <==> KeepsInhibitors(rules, live)
  {
    hide New, Rebuild;
    var r := Rebuild(rules, live);
    forall n
      ensures n in r.pending <==>
              n in live.pending && n in New<D>(rules).firing && New<D>(rules).HasDeclaredInhibitor(n)
      ensures n in r.pending ==> r.IsFiring(n) && r.pending[n].name == n
      ensures r.HasActiveInhibitor(n) <==> exists c :: New<D>(rules).Inhibits(c, n) && live.IsFiring(c)
    {
      Rebuilt(rules, live, n);
      RebuiltInhibitors(rules, live, n);
    }
  }

  ghost predicate AllKeepInhibitors<D(!new)>(rules: seq<Rule>, events: seq<Event<D>>) {
    events == [] ||
    var before, last := events[..|events| - 1], events[|events| - 1];
    AllKeepInhibitors(rules, before) && (last.Reloaded? ==> KeepsInhibitors(last.rules, LiveAfter(rules, before)))
  }

  /** With such reloads only, a held page has a firing inhibitor at every point. */
  lemma {:induction false} HeldAreInhibited<D(!new)>(rules: seq<Rule>, events: seq<Event<D>>)
    requires AllKeepInhibitors(rules, events)
    ensures Inv(LiveAfter(rules, events))
  {
    hide Observe, Rebuild, KeepsInhibitors;
    if events == [] {
      NewIsQuiet<D>(rules);
    } else {
      var live := LiveAfter(rules, events[..|events| - 1]);
      HeldAreInhibited(rules, events[..|events| - 1]);
      match events[|events| - 1]
      case Observed(e) => ObserveKeepsInv(live, e);
      case Reloaded(newer) => ReloadKeepsInvExactly(newer, live);
    }
  }

  lemma {:induction false} LiveInhibits<D(!new)>(rules: seq<Rule>, events: seq<Event<D>>)
    requires AllKeepInhibitors(rules, events)
    ensures LiveAfter(rules, events).inhibits == New<D>(Catalogue(rules, events)).inhibits
  {
    hide Observe, KeepsInhibitors;
    if events != [] {
      var before := events[..|events| - 1];
      LiveInhibits(rules, before);
      HeldAreInhibited(rules, before);
      if events[|events| - 1].Observed? {
        ObserveKeepsInv(LiveAfter(rules, before), events[|events| - 1].emission);
      }
    }
  }

  /** No held page of a rule that survives is dropped. */
  ghost predicate KeepsHeld<D(!new)>(rules: seq<Rule>, live: Resolver<D>) {
    forall n :: n in live.pending && n in New<D>(rules).firing ==> New<D>(rules).HasDeclaredInhibitor(n)
  }

  ghost predicate AllKeepHeld<D(!new)>(rules: seq<Rule>, events: seq<Event<D>>) {
    events == [] ||
    var before, last := events[..|events| - 1], events[|events| - 1];
    AllKeepHeld(rules, before) && (last.Reloaded? ==> KeepsHeld(last.rules, LiveAfter(rules, before)))
  }

  lemma ReloadKeepsOut<D(!new)>(rules: seq<Rule>, live: Resolver<D>, out: seq<Emission<D>>)
    requires KeepsHeld(rules, live) && PagesAreOut(live, out)
    ensures PagesAreOut(Rebuild(rules, live), out)
  {
    hide On, New, Rebuild;
    forall n | Rebuild(rules, live).IsFiring(n) && n !in Rebuild(rules, live).pending
      ensures On(out, n)
    {
      Rebuilt(rules, live, n);
    }
  }

  /** Whatever is observed, across reloads that keep inhibitors and held pages: a
      firing rule whose page is not held had it delivered. */
  lemma {:induction false} FiringPagesAreOutOver<D(!new)>(rules: seq<Rule>, events: seq<Event<D>>)
    requires AllKeepInhibitors(rules, events) && AllKeepHeld(rules, events)
    ensures PagesAreOut(LiveAfter(rules, events), DeliveredOver(rules, events))
  {
    hide Observe, Rebuild, On, KeepsInhibitors, KeepsHeld;
    if events == [] {
      NewIsQuiet<D>(rules);
    } else {
      var before := events[..|events| - 1];
      var live, out := LiveAfter(rules, before), DeliveredOver(rules, before);
      FiringPagesAreOutOver(rules, before);
      HeldAreInhibited(rules, before);
      match events[|events| - 1]
      case Observed(e) => ObserveKeepsOut(live, e, out);
      case Reloaded(newer) =>
        ReloadKeepsOut(newer, live, out);
        assert out + [] == out;
    }
  }

  /** No page that is out loses its rule, and no held page of a survivor is dropped. */
  ghost predicate KeepsPages<D(!new)>(rules: seq<Rule>, live: Resolver<D>) {
    forall n :: live.IsFiring(n) ==>
      if n in live.pending then n in New<D>(rules).firing ==> New<D>(rules).HasDeclaredInhibitor(n)
      else n in New<D>(rules).firing
  }

  /** A reload keeps the resolver in step with what was delivered exactly then. */
  lemma ReloadKeepsStepExactly<D(!new)>(rules: seq<Rule>, live: Resolver<D>, out: seq<Emission<D>>)
    requires HeldFires(live) && InStep(live, out)
    ensures InStep(Rebuild(rules, live), out) <==> KeepsPages(rules, live)
  {
    hide On, Alternating, New, Rebuild;
    var r := Rebuild(rules, live);
    forall n
      ensures r.IsFiring(n) <==> n in New<D>(rules).firing && live.IsFiring(n)
      ensures n in r.pending <==>
              n in live.pending && n in New<D>(rules).firing && New<D>(rules).HasDeclaredInhibitor(n)
    {
      Rebuilt(rules, live, n);
    }
  }

  /** Emissions take turns with the flags, and reloads keep the pages. */
  ghost predicate Orderly<D(!new)>(rules: seq<Rule>, events: seq<Event<D>>) {
    events == [] ||
    var before, last := events[..|events| - 1], events[|events| - 1];
    var live := LiveAfter(rules, before);
    && Orderly(rules, before)
    && match last
       case Observed(e) => e.Fire? <==> !live.IsFiring(e.incident.name)
       case Reloaded(newer) => KeepsPages(newer, live)
  }

  /** Then deliveries alternate across reloads too, and a page is out exactly when
      its rule fires and is not held back. */
  lemma {:induction false} DeliveriesAcrossReloads<D(!new)>(rules: seq<Rule>, events: seq<Event<D>>)
    requires Orderly(rules, events)
    ensures HeldFires(LiveAfter(rules, events))
    ensures InStep(LiveAfter(rules, events), DeliveredOver(rules, events))
  {
    hide Observe, Rebuild, KeepsPages, On, Alternating;
    if events == [] {
      NewIsQuiet<D>(rules);
      assert Alternating<D>([]) && forall n :: !On<D>([], n) by { NothingIsOut<D>(); }
    } else {
      var before := events[..|events| - 1];
      var live, out := LiveAfter(rules, before), DeliveredOver(rules, before);
      DeliveriesAcrossReloads(rules, before);
      match events[|events| - 1]
      case Observed(e) =>
        ObserveHoldsFiring(live, e);
        ObserveInStep(live, e, out);
      case Reloaded(newer) =>
        RebuildKnows(newer, live);
        ReloadKeepsStepExactly(newer, live, out);
        assert out + [] == out;
    }
  }

  lemma NothingIsOut<D>()
    ensures Alternating<D>([]) && forall n :: !On<D>([], n)
  {
  }
}
