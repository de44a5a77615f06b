/** What reaches the operator: deliveries over whole runs of one resolver. */
module Deliveries {
  import opened Wrappers
  import opened Sequences
  import opened RuleMachine
  import opened Inhibition

  // ----- Runs --------------------------------------------------------------

  /** A resolver fed with emissions, each under the name of its own rule. */
  function ResolverAfter<D>(rules: seq<Rule>, inputs: seq<Emission<D>>): Resolver<D> {
    if inputs == [] then New(rules)
    else
      var e := inputs[|inputs| - 1];
      Observe(ResolverAfter(rules, inputs[..|inputs| - 1]), e.incident.name, Some(e)).0
  }

  function Delivered<D>(rules: seq<Rule>, inputs: seq<Emission<D>>): seq<Emission<D>> {
    if inputs == [] then []
    else
      var e, before := inputs[|inputs| - 1], inputs[..|inputs| - 1];
      Delivered(rules, before) + Observe(ResolverAfter(rules, before), e.incident.name, Some(e)).1
  }

  // ----- Alternation -------------------------------------------------------

  /** The last emission about `n` was a page. */
  predicate On<D>(es: seq<Emission<D>>, n: string) {
    es != [] &&
    var last := es[|es| - 1];
    if last.incident.name == n then last.Fire? else On(es[..|es| - 1], n)
  }

  /** For every rule, pages and resolutions take turns, a page first. */
  predicate Alternating<D>(es: seq<Emission<D>>) {
    es == [] ||
    var last, before := es[|es| - 1], es[..|es| - 1];
    Alternating(before) && (last.Fire? <==> !On(before, last.incident.name))
  }

  /** No rule pages again before it resolved. A resolution may come first: a rule that
      was firing before a restart is not paged for again, but it does resolve. */
  predicate NoSecondPage<D>(es: seq<Emission<D>>) {
    es == [] ||
    var last, before := es[|es| - 1], es[..|es| - 1];
    NoSecondPage(before) && (last.Fire? ==> !On(before, last.incident.name))
  }

  lemma {:induction false} AlternatingHasNoSecondPage<D>(es: seq<Emission<D>>)
    requires Alternating(es)
    ensures NoSecondPage(es)
  {
    if es != [] {
      AlternatingHasNoSecondPage(es[..|es| - 1]);
    }
  }

  lemma Extend<D>(es: seq<Emission<D>>, e: Emission<D>, n: string)
    ensures On(es + [e], n) == if e.incident.name == n then e.Fire? else On(es, n)
    ensures Alternating(es + [e]) <==> Alternating(es) && (e.Fire? <==> !On(es, e.incident.name))
    ensures NoSecondPage(es + [e]) <==> NoSecondPage(es) && (e.Fire? ==> !On(es, e.incident.name))
  {
    assert (es + [e])[..|es|] == es;
  }

  /** A rule's page is out exactly when the rule fires and its page is not held. */
  ghost predicate InStep<D(!new)>(r: Resolver<D>, out: seq<Emission<D>>) {
    Alternating(out) && forall n :: On(out, n) <==> r.IsFiring(n) && n !in r.pending
  }

  lemma {:induction false} ReleaseInStep<D(!new)>(r: Resolver<D>, names: seq<string>, out: seq<Emission<D>>)
    requires InStep(r, out)
    requires HeldFires(r)
    ensures InStep(Release(r, names).0, out + Release(r, names).1)
    decreases |names|
  {
    if names == [] {
      assert out + [] == out;
    } else if r.HasActiveInhibitor(names[0]) || names[0] !in r.pending {
      ReleaseInStep(r, names[1..], out);
    } else {
      var page := Fire(r.pending[names[0]]);
      var r1 := r.(pending := r.pending - {names[0]});
      forall n
        ensures On(out + [page], n) <==> r1.IsFiring(n) && n !in r1.pending
      {
        Extend(out, page, n);
      }
      Extend(out, page, names[0]);
      ReleaseInStep(r1, names[1..], out + [page]);
      assert out + [page] + Release(r1, names[1..]).1 == out + ([page] + Release(r1, names[1..]).1);
    }
  }

  lemma ResolveInStep<D(!new)>(r: Resolver<D>, e: Emission<D>, out: seq<Emission<D>>)
    requires HeldFires(r) && InStep(r, out) && e.Resolve? && r.IsFiring(e.incident.name)
    ensures var (r', more) := Observe(r, e.incident.name, Some(e));
            InStep(r', out + more)
  {
    hide On, Alternating, Release;
    var name := e.incident.name;
    var r1 := r.(firing := r.firing[name := false], pending := r.pending - {name});
    var own := if name in r.pending then [] else [e];
    var out1 := out + own;
    assert out + [] == out;
    forall n
      ensures On(out1, n) <==> r1.IsFiring(n) && n !in r1.pending
    {
      Extend(out, e, n);
    }
    Extend(out, e, name);
    ReleaseInStep(r1, Downstream(r1, name), out1);
    var released := Release(r1, Downstream(r1, name)).1;
    assert out1 + released == out + (own + released);
  }

  lemma {:induction false} ObserveInStep<D(!new)>(r: Resolver<D>, e: Emission<D>, out: seq<Emission<D>>)
    requires HeldFires(r) && InStep(r, out)
    requires e.Fire? <==> !r.IsFiring(e.incident.name)
    ensures var (r', more) := Observe(r, e.incident.name, Some(e));
            InStep(r', out + more)
  {
    hide On, Alternating, Release;
    var name := e.incident.name;
    match e
    case Fire(_) =>
      var r1 := r.(firing := r.firing[name := true]);
      if r1.HasActiveInhibitor(name) {
        assert out + [] == out;
      } else {
        forall n
          ensures On(out + [e], n) <==> r1.IsFiring(n) && n !in r1.pending
        {
          Extend(out, e, n);
        }
        Extend(out, e, name);
      }
    case Resolve(_) => ResolveInStep(r, e, out);
  }

  /** Whatever is observed: held pages have a firing inhibitor, and the firing flags are
      the last word of the inputs. */
  lemma {:induction false} FlagsAreLastWord<D(!new)>(rules: seq<Rule>, inputs: seq<Emission<D>>)
    ensures var r := ResolverAfter(rules, inputs);
            Inv(r) && r.inhibits == New<D>(rules).inhibits && forall n :: r.IsFiring(n) <==> On(inputs, n)
  {
    hide Observe;
    if inputs == [] {
      NewIsQuiet<D>(rules);
    } else {
      var before, e := inputs[..|inputs| - 1], inputs[|inputs| - 1];
      FlagsAreLastWord(rules, before);
      ObserveKeepsInv(ResolverAfter(rules, before), e);
      FiringFlags(ResolverAfter(rules, before), e);
    }
  }

  /** In every generation: given alternating inputs, what is delivered about each
      rule alternates too, page first; the firing flags are the inputs' last word;
      and a page is out exactly when its rule fires and is not held back. */
  lemma {:induction false} DeliveriesAlternate<D(!new)>(rules: seq<Rule>, inputs: seq<Emission<D>>)
    requires Alternating(inputs)
    ensures var r, out := ResolverAfter(rules, inputs), Delivered(rules, inputs);
            && Inv(r) && InStep(r, out)
            && (forall n :: r.IsFiring(n) <==> On(inputs, n))
            && r.inhibits == New<D>(rules).inhibits
  {
    hide Observe;
    FlagsAreLastWord(rules, inputs);
    if inputs != [] {
      var before, e := inputs[..|inputs| - 1], inputs[|inputs| - 1];
      DeliveriesAlternate(rules, before);
      ObserveInStep(ResolverAfter(rules, before), e, Delivered(rules, before));
    }
  }

  lemma FiringFlags<D(!new)>(r: Resolver<D>, e: Emission<D>)
    ensures var r' := Observe(r, e.incident.name, Some(e)).0;
            forall n :: r'.IsFiring(n) <==> if n == e.incident.name then e.Fire? else r.IsFiring(n)
  {
    if e.Resolve? {
      var name := e.incident.name;
      var r1 := r.(firing := r.firing[name := false], pending := r.pending - {name});
      ReleaseRemoves(r1, Downstream(r1, name));
    }
  }

  // ----- One emission, from the rules and the inputs -----------------------

  lemma DeliveredStep<D>(rules: seq<Rule>, inputs: seq<Emission<D>>, e: Emission<D>)
    ensures ResolverAfter(rules, inputs + [e]) == Observe(ResolverAfter(rules, inputs), e.incident.name, Some(e)).0
    ensures Delivered(rules, inputs + [e]) ==
            Delivered(rules, inputs) + Observe(ResolverAfter(rules, inputs), e.incident.name, Some(e)).1
  {
    assert (inputs + [e])[..|inputs|] == inputs;
  }

  /** Who is actively inhibited, from the rules and the last words about them. */
  lemma ActiveByRules<D(!new)>(rules: seq<Rule>, r: Resolver<D>, on: string -> bool, n: string)
    requires r.inhibits == New<D>(rules).inhibits && forall c :: r.IsFiring(c) <==> on(c)
    ensures r.HasActiveInhibitor(n) <==> exists c :: Declares(rules, c, n) && on(c)
  {
    hide New;
    forall c
      ensures r.Inhibits(c, n) <==> Declares(rules, c, n)
    {
      NewInhibits<D>(rules, c, n);
    }
    if c :| Declares(rules, c, n) && on(c) {
      assert r.Inhibits(c, n) && r.IsFiring(c);
    }
  }

  /** A page goes out, or is held, exactly by whether some other rule that is on declares
      to inhibit its rule. */
  lemma PageExactly<D(!new)>(rules: seq<Rule>, inputs: seq<Emission<D>>, e: Emission<D>)
    requires e.Fire?
    ensures var n, held := e.incident.name, ResolverAfter(rules, inputs).pending;
            var inhibited := exists c :: Declares(rules, c, n) && On(inputs, c);
            && Delivered(rules, inputs + [e]) == Delivered(rules, inputs) + (if inhibited then [] else [e])
            && ResolverAfter(rules, inputs + [e]).pending == if inhibited then held[n := e.incident] else held
  {
    hide On, New, ResolverAfter, Delivered, Declares;
    var n, r := e.incident.name, ResolverAfter(rules, inputs);
    var r1 := r.(firing := r.firing[n := true]);
    FlagsAreLastWord(rules, inputs);
    DeliveredStep(rules, inputs, e);
    ActiveByRules(rules, r1, c => c == n || On(inputs, c), n);
    assert forall c :: Declares(rules, c, n) ==> c != n by {
      NoSelf(rules, n);
    }
  }

  lemma NoSelf(rules: seq<Rule>, n: string)
    ensures !Declares(rules, n, n)
  {
  }

  function Picked<D>(held: map<string, Incident<D>>, names: seq<string>, picks: seq<nat>): (out: seq<Emission<D>>)
    requires forall i :: 0 <= i < |picks| ==> picks[i] < |names| && names[picks[i]] in held
  {
    seq(|picks|, i requires 0 <= i < |picks| => Fire(held[names[picks[i]]]))
  }

  /** At `p` a held page is named for the first time that nothing inhibits. */
  ghost predicate Releasable<D(!new)>(r: Resolver<D>, names: seq<string>, p: int) {
    && 0 <= p < |names| && names[p] in r.pending && !r.HasActiveInhibitor(names[p])
    && forall q :: 0 <= q < p ==> names[q] != names[p]
  }

  lemma ReleasableLater<D(!new)>(r: Resolver<D>, r1: Resolver<D>, names: seq<string>, p: int)
    requires names != [] && r1 == if Releasable(r, names, 0) then r.(pending := r.pending - {names[0]}) else r
    ensures p > 0 ==> (Releasable(r, names, p) <==> Releasable(r1, names[1..], p - 1))
  {
    SameRelation(r, r1);
    if 0 < p < |names| {
      assert names[1..][p - 1] == names[p];
      assert (forall q :: 0 <= q < p ==> names[q] != names[p]) <==>
             names[0] != names[p] && forall q :: 0 <= q < p - 1 ==> names[1..][q] != names[p] by {
        assert forall q :: 0 <= q < p - 1 ==> names[1..][q] == names[q + 1];
        assert forall q :: 0 < q < p ==> names[q] == names[1..][q - 1];
      }
    }
  }

  /** Released pages come in the order of the names, each once. */
  lemma {:induction false} ReleaseInOrder<D(!new)>(r: Resolver<D>, names: seq<string>) returns (picks: seq<nat>)
    ensures Increasing(picks)
    ensures forall p: nat :: p in picks <==> Releasable(r, names, p)
    ensures forall i :: 0 <= i < |picks| ==> picks[i] < |names| && names[picks[i]] in r.pending
    ensures Release(r, names).1 == Picked(r.pending, names, picks)
    decreases |names|
  {
    hide Releasable;
    if names == [] {
      picks := [];
      assert forall p: nat :: !Releasable(r, names, p) by { NothingReleasable(r); }
    } else {
      var takes := names[0] in r.pending && !r.HasActiveInhibitor(names[0]);
      var r1 := if takes then r.(pending := r.pending - {names[0]}) else r;
      assert Releasable(r, names, 0) <==> takes by { FirstReleasable(r, names); }
      var more := ReleaseInOrder(r1, names[1..]);
      picks := if takes then [0] + Shifted(more) else Shifted(more);
      forall p: nat
        ensures p in picks <==> Releasable(r, names, p)
      {
        ShiftedHas(more, p);
        ReleasableLater(r, r1, names, p);
      }
      PickedLater(r, r1, names, more);
    }
  }

  lemma NothingReleasable<D(!new)>(r: Resolver<D>)
    ensures forall p: nat :: !Releasable(r, [], p)
  {
  }

  lemma FirstReleasable<D(!new)>(r: Resolver<D>, names: seq<string>)
    requires names != []
    ensures Releasable(r, names, 0) <==> names[0] in r.pending && !r.HasActiveInhibitor(names[0])
  {
  }

  lemma PickedLater<D(!new)>(r: Resolver<D>, r1: Resolver<D>, names: seq<string>, more: seq<nat>)
    requires names != []
    requires var takes := names[0] in r.pending && !r.HasActiveInhibitor(names[0]);
             r1 == if takes then r.(pending := r.pending - {names[0]}) else r
    requires forall i :: 0 <= i < |more| ==> more[i] < |names| - 1 && names[1..][more[i]] in r1.pending
    requires Release(r1, names[1..]).1 == Picked(r1.pending, names[1..], more)
    ensures var takes := names[0] in r.pending && !r.HasActiveInhibitor(names[0]);
            var picks := if takes then [0] + Shifted(more) else Shifted(more);
            && (forall i :: 0 <= i < |picks| ==> picks[i] < |names| && names[picks[i]] in r.pending)
            && Release(r, names).1 == Picked(r.pending, names, picks)
  {
    hide Resolver.HasActiveInhibitor;
    var later := Picked(r1.pending, names[1..], more);
    PickedShifted(r1.pending, names, more);
    assert Picked(r.pending, names, Shifted(more)) == Picked(r1.pending, names, Shifted(more));
    if names[0] in r.pending && !r.HasActiveInhibitor(names[0]) {
      assert Picked(r.pending, names, [0] + Shifted(more)) ==
             [Fire(r.pending[names[0]])] + Picked(r.pending, names, Shifted(more));
    }
  }

  lemma PickedShifted<D>(held: map<string, Incident<D>>, names: seq<string>, more: seq<nat>)
    requires names != []
    requires forall i :: 0 <= i < |more| ==> more[i] < |names| - 1 && names[1..][more[i]] in held
    ensures forall i :: 0 <= i < |more| ==> Shifted(more)[i] < |names| && names[Shifted(more)[i]] in held
    ensures Picked(held, names[1..], more) == Picked(held, names, Shifted(more))
  {
    assert forall i :: 0 <= i < |more| ==> names[1..][more[i]] == names[Shifted(more)[i]];
  }

  /** A resolution goes out unless its page is held, which it cancels; then, in the order
      in which its rule lists them, come the held pages of the rules that no other rule
      that is on declares to inhibit. */
  lemma ResolutionExactly<D(!new)>(rules: seq<Rule>, inputs: seq<Emission<D>>, e: Emission<D>, k: nat)
    returns (picks: seq<nat>)
    requires e.Resolve? && IsLast(rules, k) && rules[k].name == e.incident.name
    ensures var n, names, held := e.incident.name, rules[k].inhibits, ResolverAfter(rules, inputs).pending;
            && Increasing(picks)
            && (forall p: nat :: p in picks <==>
                  && p < |names| && names[p] in held && names[p] != n
                  && (forall q :: 0 <= q < p ==> names[q] != names[p])
                  && !exists c :: c != n && Declares(rules, c, names[p]) && On(inputs, c))
            && (forall i :: 0 <= i < |picks| ==> picks[i] < |names| && names[picks[i]] in held)
            && Delivered(rules, inputs + [e]) ==
               Delivered(rules, inputs) + ((if n in held then [] else [e]) + Picked(held, names, picks))
  {
    hide On, New, ResolverAfter, Delivered, Declares, Release;
    var n, r, names := e.incident.name, ResolverAfter(rules, inputs), rules[k].inhibits;
    var r1 := r.(firing := r.firing[n := false], pending := r.pending - {n});
    FlagsAreLastWord(rules, inputs);
    DeliveredStep(rules, inputs, e);
    NewByRules<D>(rules, k);
    picks := ReleaseInOrder(r1, names);
    forall m
      ensures r1.HasActiveInhibitor(m) <==> exists c :: c != n && Declares(rules, c, m) && On(inputs, c)
    {
      ActiveByRules(rules, r1, c => c != n && On(inputs, c), m);
    }
    assert Picked(r1.pending, names, picks) == Picked(r.pending, names, picks);
  }

  /** And what stays held. */
  lemma HeldAfterResolution<D(!new)>(rules: seq<Rule>, inputs: seq<Emission<D>>, e: Emission<D>, k: nat)
    requires e.Resolve? && IsLast(rules, k) && rules[k].name == e.incident.name
    ensures var n, names, held := e.incident.name, rules[k].inhibits, ResolverAfter(rules, inputs).pending;
            var after := ResolverAfter(rules, inputs + [e]).pending;
            && (forall m :: m in after <==>
                  && m in held && m != n
                  && (m !in names || exists c :: c != n && Declares(rules, c, m) && On(inputs, c)))
            && (forall m :: m in after ==> after[m] == held[m])
  {
    hide On, New, ResolverAfter, Delivered, Declares, Release;
    var n, r, names := e.incident.name, ResolverAfter(rules, inputs), rules[k].inhibits;
    var r1 := r.(firing := r.firing[n := false], pending := r.pending - {n});
    FlagsAreLastWord(rules, inputs);
    DeliveredStep(rules, inputs, e);
    NewByRules<D>(rules, k);
    ReleaseRemoves(r1, names);
    forall m
      ensures r1.HasActiveInhibitor(m) <==> exists c :: c != n && Declares(rules, c, m) && On(inputs, c)
    {
      ActiveByRules(rules, r1, c => c != n && On(inputs, c), m);
    }
  }

  // ----- Pages that are out ------------------------------------------------

  /** The page of a firing rule that is not held back was the last word about it. */
  ghost predicate PagesAreOut<D(!new)>(r: Resolver<D>, out: seq<Emission<D>>) {
    forall n :: r.IsFiring(n) && n !in r.pending ==> On(out, n)
  }

  lemma {:induction false} ReleaseKeepsOut<D(!new)>(r: Resolver<D>, names: seq<string>, out: seq<Emission<D>>)
    requires HeldFires(r) && PagesAreOut(r, out)
    ensures PagesAreOut(Release(r, names).0, out + Release(r, names).1)
    decreases |names|
  {
    hide On;
    if names == [] {
      assert out + [] == out;
    } else if r.HasActiveInhibitor(names[0]) || names[0] !in r.pending {
      ReleaseKeepsOut(r, names[1..], out);
    } else {
      var page, r1 := Fire(r.pending[names[0]]), r.(pending := r.pending - {names[0]});
      forall n | r1.IsFiring(n) && n !in r1.pending
        ensures On(out + [page], n)
      {
        Extend(out, page, n);
        assert r.IsFiring(n);
      }
      ReleaseKeepsOut(r1, names[1..], out + [page]);
      assert out + [page] + Release(r1, names[1..]).1 == out + ([page] + Release(r1, names[1..]).1);
    }
  }

  lemma ObserveKeepsOut<D(!new)>(r: Resolver<D>, e: Emission<D>, out: seq<Emission<D>>)
    requires Inv(r) && PagesAreOut(r, out)
    ensures var (r', more) := Observe(r, e.incident.name, Some(e));
            PagesAreOut(r', out + more)
  {
    hide On, Release;
    var name := e.incident.name;
    assert out + [] == out;
    match e
    case Fire(_) =>
      var r1 := r.(firing := r.firing[name := true]);
      forall n | r1.IsFiring(n) && n !in r.pending
        ensures On(out + [e], n)
        ensures n != name ==> On(out, n)
      {
        Extend(out, e, n);
        assert n != name ==> r.IsFiring(n);
      }
    case Resolve(_) =>
      var r1 := r.(firing := r.firing[name := false], pending := r.pending - {name});
      var own := if name in r.pending then [] else [e];
      forall n | r1.IsFiring(n) && n !in r1.pending
        ensures On(out + own, n)
      {
        Extend(out, e, n);
        assert r.IsFiring(n);
      }
      ReleaseKeepsOut(r1, Downstream(r1, name), out + own);
      var released := Release(r1, Downstream(r1, name)).1;
      assert out + own + released == out + (own + released);
  }

  /** Whatever is observed, a firing rule whose page is not held had it delivered. */
  lemma {:induction false} FiringPagesAreOut<D(!new)>(rules: seq<Rule>, inputs: seq<Emission<D>>)
    ensures PagesAreOut(ResolverAfter(rules, inputs), Delivered(rules, inputs))
  {
    hide Observe, On;
    if inputs == [] {
      NewIsQuiet<D>(rules);
    } else {
      var before, e := inputs[..|inputs| - 1], inputs[|inputs| - 1];
      FiringPagesAreOut(rules, before);
      FlagsAreLastWord(rules, before);
      ObserveKeepsOut(ResolverAfter(rules, before), e, Delivered(rules, before));
    }
  }

  // ----- Conservation ------------------------------------------------------

  function Pages<D>(es: seq<Emission<D>>, n: string): nat {
    if es == [] then 0
    else
      var last := es[|es| - 1];
      Pages(es[..|es| - 1], n) + if last.Fire? && last.incident.name == n then 1 else 0
  }

  function Resolutions<D>(es: seq<Emission<D>>, n: string): nat {
    if es == [] then 0
    else
      var last := es[|es| - 1];
      Resolutions(es[..|es| - 1], n) + if last.Resolve? && last.incident.name == n then 1 else 0
  }

  /** How often `n` resolved while its page was still held: that page is cancelled. */
  function Cancelled<D>(rules: seq<Rule>, inputs: seq<Emission<D>>, n: string): nat {
    if inputs == [] then 0
    else
      var e, before := inputs[|inputs| - 1], inputs[..|inputs| - 1];
      Cancelled(rules, before, n) +
      if e.Resolve? && e.incident.name == n && n in ResolverAfter(rules, before).pending then 1 else 0
  }

  lemma {:induction false} ResolutionsJoin<D>(a: seq<Emission<D>>, b: seq<Emission<D>>, n: string)
    ensures Resolutions(a + b, n) == Resolutions(a, n) + Resolutions(b, n)
  {
    if b == [] {
      assert a + b == a;
    } else {
      ResolutionsJoin(a, b[..|b| - 1], n);
      assert (a + b)[..|a + b| - 1] == a + b[..|b| - 1];
    }
  }

  lemma {:induction false} ReleaseOnlyPages<D>(r: Resolver<D>, names: seq<string>, n: string)
    ensures Resolutions(Release(r, names).1, n) == 0
    decreases |names|
  {
    if names != [] {
      if r.HasActiveInhibitor(names[0]) || names[0] !in r.pending {
        ReleaseOnlyPages(r, names[1..], n);
      } else {
        var r1 := r.(pending := r.pending - {names[0]});
        ReleaseOnlyPages(r1, names[1..], n);
        var page := Fire(r.pending[names[0]]);
        ResolutionsJoin([page], Release(r1, names[1..]).1, n);
        OneEmission(page, n);
      }
    }
  }

  lemma OneEmission<D>(e: Emission<D>, n: string)
    ensures Resolutions([e], n) == if e.Resolve? && e.incident.name == n then 1 else 0
    ensures Resolutions<D>([], n) == 0
  {
    assert [e][..0] == [];
  }

  lemma {:induction false} ResolutionsBalance<D>(rules: seq<Rule>, inputs: seq<Emission<D>>, n: string)
    ensures Resolutions(inputs, n) == Resolutions(Delivered(rules, inputs), n) + Cancelled(rules, inputs, n)
  {
    if inputs != [] {
      var before, e := inputs[..|inputs| - 1], inputs[|inputs| - 1];
      ResolutionsBalance(rules, before, n);
      var r, name := ResolverAfter(rules, before), e.incident.name;
      var (r', more) := Observe(r, name, Some(e));
      ResolutionsJoin(Delivered(rules, before), more, n);
      OneEmission(e, n);
      if e.Resolve? {
        var r1 := r.(firing := r.firing[name := false], pending := r.pending - {name});
        var released := Release(r1, Downstream(r1, name)).1;
        ReleaseOnlyPages(r1, Downstream(r1, name), n);
        ResolutionsJoin(if name in r.pending then [] else [e], released, n);
      }
    }
  }

  lemma {:induction false} PagesJoin<D>(a: seq<Emission<D>>, b: seq<Emission<D>>, n: string)
    ensures Pages(a + b, n) == Pages(a, n) + Pages(b, n)
  {
    if b == [] {
      assert a + b == a;
    } else {
      PagesJoin(a, b[..|b| - 1], n);
      assert (a + b)[..|a + b| - 1] == a + b[..|b| - 1];
    }
  }

  lemma OnePage<D>(e: Emission<D>, n: string)
    ensures Pages([e], n) == if e.Fire? && e.incident.name == n then 1 else 0
    ensures Pages<D>([], n) == 0
  {
    assert [e][..0] == [];
  }

  function Held<D>(r: Resolver<D>, n: string): nat {
    if n in r.pending then 1 else 0
  }

  lemma {:induction false} ReleaseConserves<D(!new)>(r: Resolver<D>, names: seq<string>, n: string)
    requires HeldFires(r)
    ensures Pages(Release(r, names).1, n) + Held(Release(r, names).0, n) == Held(r, n)
    decreases |names|
  {
    hide Pages;
    if names == [] {
      assert Pages<D>([], n) == 0 by { NoPages<D>(n); }
    } else if r.HasActiveInhibitor(names[0]) || names[0] !in r.pending {
      ReleaseConserves(r, names[1..], n);
    } else {
      var page, r1 := Fire(r.pending[names[0]]), r.(pending := r.pending - {names[0]});
      ReleaseConserves(r1, names[1..], n);
      PagesJoin([page], Release(r1, names[1..]).1, n);
      OnePage(page, n);
    }
  }

  lemma NoPages<D>(n: string)
    ensures Pages<D>([], n) == 0
  {
  }

  lemma ObserveConserves<D(!new)>(r: Resolver<D>, e: Emission<D>, n: string)
    requires HeldFires(r) && (e.Fire? ==> !r.IsFiring(e.incident.name))
    ensures var (r', more) := Observe(r, e.incident.name, Some(e));
            Pages([e], n) + Held(r, n) ==
            Pages(more, n) + Held(r', n) + if e.Resolve? && e.incident.name == n then Held(r, n) else 0
  {
    hide Pages, Release;
    var name := e.incident.name;
    OnePage(e, n);
    if e.Resolve? {
      var r1 := r.(firing := r.firing[name := false], pending := r.pending - {name});
      ReleaseConserves(r1, Downstream(r1, name), n);
      PagesJoin(if name in r.pending then [] else [e], Release(r1, Downstream(r1, name)).1, n);
    }
  }

  /** Nothing is lost and nothing is paged twice: the pages a rule raised are the
      pages delivered, the page still held, and the pages cancelled because the
      rule resolved first. */
  lemma {:induction false} PagesAreConserved<D(!new)>(rules: seq<Rule>, inputs: seq<Emission<D>>, n: string)
    requires NoSecondPage(inputs)
    ensures Pages(inputs, n) == Pages(Delivered(rules, inputs), n)
                                + (if n in ResolverAfter(rules, inputs).pending then 1 else 0)
                                + Cancelled(rules, inputs, n)
  {
    hide Observe, Pages, On;
    NoPages<D>(n);
    if inputs == [] {
      NewIsQuiet<D>(rules);
    } else {
      var before, e := inputs[..|inputs| - 1], inputs[|inputs| - 1];
      PagesAreConserved(rules, before, n);
      FlagsAreLastWord(rules, before);
      ObserveConserves(ResolverAfter(rules, before), e, n);
      PagesJoin(before, [e], n);
      PagesJoin(Delivered(rules, before), Observe(ResolverAfter(rules, before), e.incident.name, Some(e)).1, n);
      assert inputs == before + [e];
    }
  }
}
