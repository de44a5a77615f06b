/** Storm suppression: while a rule fires, the pages of the rules it inhibits are
    held back, and released when nothing inhibits them any more. */
module Inhibition {
  import opened Wrappers
  import opened RuleMachine

  datatype Resolver<+D> = Resolver(
    inhibits: map<string, seq<string>>,
    firing: map<string, bool>,
    pending: map<string, Incident<D>>)
  {
    /** `a` declares that it inhibits `b`; a rule never inhibits itself. */
    predicate Inhibits(a: string, b: string) {
      a != b && a in inhibits && b in inhibits[a]
    }

    predicate IsFiring(n: string) {
      n in firing && firing[n]
    }

    predicate HasActiveInhibitor(target: string) {
      exists c :: c in inhibits && Inhibits(c, target) && IsFiring(c)
    }

    predicate HasDeclaredInhibitor(target: string) {
      exists c :: c in inhibits && Inhibits(c, target)
    }
  }

  function New<D>(rules: seq<Rule>): Resolver<D> {
    if rules == [] then Resolver(map[], map[], map[])
    else
      var r: Resolver<D> := New(rules[..|rules| - 1]);
      var last := rules[|rules| - 1];
      Resolver(r.inhibits[last.name := last.inhibits], r.firing[last.name := false], r.pending)
  }

  /** The pages released when the rules `names` have lost an inhibitor. */
  function Release<D>(r: Resolver<D>, names: seq<string>): (Resolver<D>, seq<Emission<D>>)
    decreases |names|
  {
    if names == [] then (r, [])
    else if r.HasActiveInhibitor(names[0]) || names[0] !in r.pending then Release(r, names[1..])
    else
      var (r', out) := Release(r.(pending := r.pending - {names[0]}), names[1..]);
      (r', [Fire(r.pending[names[0]])] + out)
  }

  function Downstream<D>(r: Resolver<D>, name: string): seq<string> {
    if name in r.inhibits then r.inhibits[name] else []
  }

  function Observe<D>(r: Resolver<D>, name: string, e: Option<Emission<D>>): (Resolver<D>, seq<Emission<D>>) {
    match e
    case None => (r, [])
    case Some(Fire(incident)) =>
      var r1 := r.(firing := r.firing[name := true]);
      if r1.HasActiveInhibitor(name) then (r1.(pending := r1.pending[name := incident]), [])
      else (r1, [Fire(incident)])
    case Some(Resolve(incident)) =>
      var r1 := r.(firing := r.firing[name := false], pending := r.pending - {name});
      var (r2, released) := Release(r1, Downstream(r1, name));
      (r2, (if name in r.pending then [] else [Resolve(incident)]) + released)
  }

  function CarriedFlags(empty: map<string, bool>, live: map<string, bool>): map<string, bool> {
    map n | n in empty :: if n in live then live[n] else empty[n]
  }

  function CarriedPages<D>(r: Resolver<D>, live: map<string, Incident<D>>): map<string, Incident<D>> {
    map n | n in live && n in r.firing && r.HasDeclaredInhibitor(n) :: live[n]
  }

  /** The resolver of a reloaded catalogue: the flags of surviving rules, and the
      held pages whose rule survives and still has a declared inhibitor. */
  function Rebuild<D>(rules: seq<Rule>, live: Resolver<D>): Resolver<D> {
    var empty: Resolver<D> := New(rules);
    var r := empty.(firing := CarriedFlags(empty.firing, live.firing));
    r.(pending := CarriedPages(r, live.pending))
  }

  // ----- The relation of a catalogue ---------------------------------------

  /** Rule `k` is the last of its name: the one a catalogue means by that name. */
  predicate IsLast(rules: seq<Rule>, k: nat) {
    k < |rules| && forall j :: k < j < |rules| ==> rules[j].name != rules[k].name
  }

  /** A rule named `a` says that it inhibits `b`, another rule. */
  ghost predicate Declares(rules: seq<Rule>, a: string, b: string) {
    a != b && exists k :: 0 <= k < |rules| && IsLast(rules, k) && rules[k].name == a && b in rules[k].inhibits
  }

  ghost predicate IsNamed(rules: seq<Rule>, n: string) {
    exists k :: 0 <= k < |rules| && rules[k].name == n
  }

  /** The relation has the whole list of every rule, in its order, and nothing fires. */
  lemma {:induction false} NewByRules<D>(rules: seq<Rule>, k: nat)
    ensures IsLast(rules, k) ==>
              && rules[k].name in New<D>(rules).inhibits && New<D>(rules).inhibits[rules[k].name] == rules[k].inhibits
              && rules[k].name in New<D>(rules).firing && !New<D>(rules).firing[rules[k].name]
  {
    if rules != [] {
      var n := |rules| - 1;
      NewByRules<D>(rules[..n], k);
      assert IsLast(rules, k) && k < n ==> IsLast(rules[..n], k);
    }
  }

  lemma {:induction false} NewNames<D>(rules: seq<Rule>, n: string)
    ensures n in New<D>(rules).inhibits <==> IsNamed(rules, n)
    ensures n in New<D>(rules).firing <==> IsNamed(rules, n)
    ensures New<D>(rules).pending == map[]
  {
    if rules != [] {
      var front, last := rules[..|rules| - 1], rules[|rules| - 1];
      NewNames<D>(front, n);
      if k :| 0 <= k < |front| && front[k].name == n {
        assert rules[k].name == n;
      }
      if k :| 0 <= k < |rules| && rules[k].name == n && k < |front| {
        assert front[k].name == n;
      }
    }
  }

  lemma {:induction false} LastOfName(rules: seq<Rule>, n: string) returns (k: nat)
    requires IsNamed(rules, n)
    ensures IsLast(rules, k) && rules[k].name == n
  {
    k := |rules| - 1;
    if rules[k].name != n {
      assert rules == rules[..k] + [rules[k]];
      k := LastOfName(rules[..k], n);
    }
  }

  /** Who inhibits whom, from the rules alone. */
  lemma NewInhibits<D>(rules: seq<Rule>, a: string, b: string)
    ensures New<D>(rules).Inhibits(a, b) <==> Declares(rules, a, b)
    ensures a in New<D>(rules).firing <==> IsNamed(rules, a)
    ensures New<D>(rules).HasDeclaredInhibitor(b) <==> exists c :: Declares(rules, c, b)
  {
    InhibitsByRules<D>(rules, a, b);
    forall c
      ensures New<D>(rules).Inhibits(c, b) <==> Declares(rules, c, b)
    {
      InhibitsByRules<D>(rules, c, b);
    }
  }

  lemma InhibitsByRules<D>(rules: seq<Rule>, a: string, b: string)
    ensures New<D>(rules).Inhibits(a, b) <==> Declares(rules, a, b)
    ensures a in New<D>(rules).firing <==> IsNamed(rules, a)
  {
    hide New;
    NewNames<D>(rules, a);
    if IsNamed(rules, a) {
      var k := LastOfName(rules, a);
      NewByRules<D>(rules, k);
    }
  }

  method CarryFlags(empty: map<string, bool>, live: map<string, bool>) returns (flags: map<string, bool>)
    ensures flags == CarriedFlags(empty, live)
  {
    flags := empty;
    var left := live.Keys;
    while left != {}
      invariant flags.Keys == empty.Keys && left <= live.Keys
      invariant forall n :: n in flags ==> flags[n] == if n in live && n !in left then live[n] else empty[n]
      decreases |left|
    {
      var n :| n in left;
      left := left - {n};
      if n in flags {
        flags := flags[n := live[n]];
      }
    }
  }

  method CarryPages<D>(r: Resolver<D>, live: map<string, Incident<D>>) returns (held: map<string, Incident<D>>)
    ensures held == CarriedPages(r, live)
  {
    held := map[];
    var left := live.Keys;
    while left != {}
      invariant left <= live.Keys
      invariant forall n :: n in held <==> n in live && n !in left && n in r.firing && r.HasDeclaredInhibitor(n)
      invariant forall n :: n in held ==> held[n] == live[n]
      decreases |left|
    {
      var n :| n in left;
      left := left - {n};
      if n !in r.firing {
        continue;
      }
      if !r.HasDeclaredInhibitor(n) {
        continue;
      }
      held := held[n := live[n]];
    }
  }

  // ----- The object --------------------------------------------------------

  class InhibitionResolver<D(!new)> {
    var inhibits: map<string, seq<string>>
    var firing: map<string, bool>
    var pending: map<string, Incident<D>>

    ghost function View(): Resolver<D>
      reads this
    {
      Resolver(inhibits, firing, pending)
    }

    constructor (rules: seq<Rule>)
      ensures View() == New(rules)
      ensures forall k :: 0 <= k < |rules| && IsLast(rules, k) ==>
                && rules[k].name in inhibits && inhibits[rules[k].name] == rules[k].inhibits
                && rules[k].name in firing && !firing[rules[k].name]
      ensures forall n :: n in inhibits <==> exists k :: 0 <= k < |rules| && rules[k].name == n
      ensures forall n :: n in firing <==> exists k :: 0 <= k < |rules| && rules[k].name == n
      ensures pending == map[]
    {
      var relation: map<string, seq<string>> := map[];
      var flags: map<string, bool> := map[];
      for i := 0 to |rules|
        invariant Resolver(relation, flags, map[]) == New<D>(rules[..i])
      {
        assert rules[..i + 1][..i] == rules[..i];
        relation, flags := relation[rules[i].name := rules[i].inhibits], flags[rules[i].name := false];
      }
      assert rules[..|rules|] == rules;
      inhibits, firing, pending := relation, flags, map[];
      forall k
        ensures 0 <= k < |rules| && IsLast(rules, k) ==>
                  && rules[k].name in relation && relation[rules[k].name] == rules[k].inhibits
                  && rules[k].name in flags && !flags[rules[k].name]
      {
        if 0 <= k < |rules| {
          NewByRules<D>(rules, k);
        }
      }
      forall n
        ensures (n in relation <==> IsNamed(rules, n)) && (n in flags <==> IsNamed(rules, n))
      {
        NewNames<D>(rules, n);
      }
    }

    constructor RebuildFrom(rules: seq<Rule>, carried: Resolver<D>)
      ensures View() == Rebuild(rules, carried)
      ensures forall k :: 0 <= k < |rules| && IsLast(rules, k) ==>
                rules[k].name in inhibits && inhibits[rules[k].name] == rules[k].inhibits
      ensures forall n :: n in inhibits <==> exists k :: 0 <= k < |rules| && rules[k].name == n
      ensures forall n :: n in firing <==> exists k :: 0 <= k < |rules| && rules[k].name == n
      ensures forall n :: n in firing ==> (firing[n] <==> n in carried.firing && carried.firing[n])
      ensures forall n :: n in pending <==>
                n in carried.pending && IsNamed(rules, n) && exists c :: Declares(rules, c, n)
      ensures forall n :: n in pending ==> pending[n] == carried.pending[n]
    {
      var empty: Resolver<D> := New(rules);
      var flags := CarryFlags(empty.firing, carried.firing);
      var r := empty.(firing := flags);
      var held := CarryPages(r, carried.pending);
      inhibits, firing, pending := r.inhibits, r.firing, held;
      RebuildByRules(rules, carried);
    }

    /** The scan over the relation, in whatever order the map yields it. */
    method HasActiveInhibitorOf(target: string) returns (active: bool)
      ensures active == View().HasActiveInhibitor(target)
    {
      var left := inhibits.Keys;
      while left != {}
        invariant left <= inhibits.Keys
        invariant forall c :: c in inhibits && c !in left ==> !(View().Inhibits(c, target) && View().IsFiring(c))
        decreases |left|
      {
        var c :| c in left;
        left := left - {c};
        if c == target || target !in inhibits[c] {
          continue;
        }
        if c in firing && firing[c] {
          assert View().Inhibits(c, target) && View().IsFiring(c);
          return true;
        }
      }
      return false;
    }

    method ObserveEmission(name: string, e: Option<Emission<D>>) returns (out: seq<Emission<D>>)
      modifies this
      ensures (View(), out) == Observe(old(View()), name, e)
    {
      out := [];
      match e {
        case None =>
        case Some(Fire(incident)) =>
          firing := firing[name := true];
          var inhibited := HasActiveInhibitorOf(name);
          if inhibited {
            pending := pending[name := incident];
          } else {
            out := [Fire(incident)];
          }
        case Some(Resolve(incident)) =>
          firing := firing[name := false];
          if name !in pending {
            out := [Resolve(incident)];
          }
          pending := pending - {name};
          ghost var start, first := View(), out;
          var downstream := if name in inhibits then inhibits[name] else [];
          assert downstream[0..] == downstream;
          for i := 0 to |downstream|
            invariant inhibits == old(inhibits)
            invariant Release(start, downstream).0 == Release(View(), downstream[i..]).0
            invariant first + Release(start, downstream).1 == out + Release(View(), downstream[i..]).1
          {
            var next := downstream[i];
            assert downstream[i..][1..] == downstream[i + 1..];
            var inhibited := HasActiveInhibitorOf(next);
            if inhibited {
              continue;
            }
            if next in pending {
              out := out + [Fire(pending[next])];
              pending := pending - {next};
            }
          }
          assert out + [] == out;
      }
    }
  }

  lemma {:induction false} NewIsQuiet<D>(rules: seq<Rule>)
    ensures New<D>(rules).pending == map[] && forall n :: !New<D>(rules).IsFiring(n)
  {
    if rules != [] {
      var r := New<D>(rules[..|rules| - 1]);
      NewIsQuiet<D>(rules[..|rules| - 1]);
      forall n
        ensures !New<D>(rules).IsFiring(n)
      {
        assert !r.IsFiring(n);
      }
    }
  }

  /** A rebuilt resolver, from the rules and what was carried over. */
  lemma RebuildByRules<D(!new)>(rules: seq<Rule>, carried: Resolver<D>)
    ensures var r := Rebuild(rules, carried);
            && (forall k :: 0 <= k < |rules| && IsLast(rules, k) ==>
                  rules[k].name in r.inhibits && r.inhibits[rules[k].name] == rules[k].inhibits)
            && (forall n :: n in r.inhibits <==> IsNamed(rules, n))
            && (forall n :: n in r.firing <==> IsNamed(rules, n))
            && (forall n :: n in r.firing ==> (r.firing[n] <==> n in carried.firing && carried.firing[n]))
            && (forall n :: n in r.pending <==>
                  n in carried.pending && IsNamed(rules, n) && exists c :: Declares(rules, c, n))
            && (forall n :: n in r.pending ==> r.pending[n] == carried.pending[n])
  {
    hide New;
    var empty: Resolver<D>, r := New(rules), Rebuild(rules, carried);
    NewNames<D>(rules, "");
    NewIsQuiet<D>(rules);
    forall k | 0 <= k < |rules| && IsLast(rules, k)
      ensures rules[k].name in r.inhibits && r.inhibits[rules[k].name] == rules[k].inhibits
    {
      NewByRules<D>(rules, k);
    }
    forall n
      ensures (n in empty.inhibits <==> IsNamed(rules, n)) && (n in empty.firing <==> IsNamed(rules, n))
      ensures n in empty.firing ==> !empty.firing[n]
      ensures empty.(firing := r.firing).HasDeclaredInhibitor(n) <==> exists c :: Declares(rules, c, n)
    {
      assert !empty.IsFiring(n);
      NewNames<D>(rules, n);
      NewInhibits<D>(rules, n, n);
      assert forall c :: empty.(firing := r.firing).Inhibits(c, n) <==> empty.Inhibits(c, n);
    }
  }

  // ----- Within one generation ---------------------------------------------

  /** A held page belongs to a rule that fires and is inhibited by another firing
      rule, and it carries that rule's name. */
  ghost predicate Inv<D(!new)>(r: Resolver<D>) {
    forall n :: n in r.pending ==> r.IsFiring(n) && r.HasActiveInhibitor(n) && r.pending[n].name == n
  }

  /** A held page belongs to a rule that fires, and it carries that rule's name. */
  ghost predicate HeldFires<D(!new)>(r: Resolver<D>) {
    forall n :: n in r.pending ==> r.IsFiring(n) && r.pending[n].name == n
  }

  /** Releasing removes exactly the held pages that nothing inhibits. */
  lemma {:induction false} ReleaseRemoves<D(!new)>(r: Resolver<D>, names: seq<string>)
    ensures var r' := Release(r, names).0;
            && r'.inhibits == r.inhibits && r'.firing == r.firing
            && r'.pending.Keys <= r.pending.Keys
            && forall n :: n in r.pending ==>
                 (n in r'.pending <==> !(n in names && !r.HasActiveInhibitor(n))) &&
                 (n in r'.pending ==> r'.pending[n] == r.pending[n])
    decreases |names|
  {
    if names != [] {
      var n := names[0];
      if r.HasActiveInhibitor(n) || n !in r.pending {
        ReleaseRemoves(r, names[1..]);
      } else {
        var r1 := r.(pending := r.pending - {n});
        ReleaseRemoves(r1, names[1..]);
        assert forall m :: r1.HasActiveInhibitor(m) == r.HasActiveInhibitor(m) by {
          SameRelation(r, r1);
        }
      }
    }
  }

  lemma SameRelation<D(!new)>(r: Resolver<D>, r1: Resolver<D>)
    requires r.inhibits == r1.inhibits && r.firing == r1.firing
    ensures forall m :: r1.HasActiveInhibitor(m) == r.HasActiveInhibitor(m)
  {
    forall m
      ensures r1.HasActiveInhibitor(m) == r.HasActiveInhibitor(m)
    {
      assert forall c :: r1.Inhibits(c, m) == r.Inhibits(c, m) && r1.IsFiring(c) == r.IsFiring(c);
    }
  }

  lemma ObserveKeepsInv<D(!new)>(r: Resolver<D>, e: Emission<D>)
    requires Inv(r)
    ensures Inv(Observe(r, e.incident.name, Some(e)).0)
    ensures Observe(r, e.incident.name, Some(e)).0.inhibits == r.inhibits
  {
    var name := e.incident.name;
    var r' := Observe(r, name, Some(e)).0;
    match e
    case Fire(incident) =>
      var r1 := r.(firing := r.firing[name := true]);
      forall n | n in r'.pending
        ensures r'.IsFiring(n) && r'.HasActiveInhibitor(n) && r'.pending[n].name == n
      {
        SameRelation(r1, r');
        if n != name {
          var c :| c in r.inhibits && r.Inhibits(c, n) && r.IsFiring(c);
          assert r1.Inhibits(c, n) && r1.IsFiring(c);
        }
      }
    case Resolve(incident) =>
      var r1 := r.(firing := r.firing[name := false], pending := r.pending - {name});
      ReleaseRemoves(r1, Downstream(r1, name));
      SameRelation(r1, r');
      forall n | n in r'.pending
        ensures r'.IsFiring(n) && r'.HasActiveInhibitor(n) && r'.pending[n].name == n
      {
        assert n in r1.pending;
        var c :| c in r.inhibits && r.Inhibits(c, n) && r.IsFiring(c);
        if c == name {
          assert n in Downstream(r1, name);
        } else {
          assert r1.Inhibits(c, n) && r1.IsFiring(c);
        }
      }
  }
}
