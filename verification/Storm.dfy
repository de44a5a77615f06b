/** Can suppression silence a whole storm? Every held page leads upstream to a
    delivered one when the inhibits relation has no cycle; and a wholly silent
    storm is possible exactly when some cycle is entered from outside. */
module Storm {
  import opened Wrappers
  import opened Sequences
  import opened RuleMachine
  import opened Inhibition
  import opened Deliveries
  import opened Reloads

  type Graph = map<string, seq<string>>

  predicate Edge(g: Graph, a: string, b: string) {
    a != b && a in g && b in g[a]
  }

  /** Each rule inhibits the next, and the last one the first. Self-inhibition does
      not count: the resolver ignores it. */
  ghost predicate IsCycle(g: Graph, c: seq<string>) {
    && |c| >= 2 && Distinct(c)
    && (forall i :: 0 <= i < |c| - 1 ==> Edge(g, c[i], c[i + 1]))
    && Edge(g, c[|c| - 1], c[0])
  }

  /** A rule outside of the cycle inhibits one inside. */
  ghost predicate Entered(g: Graph, c: seq<string>, x: string) {
    IsCycle(g, c) && x !in c && exists i :: 0 <= i < |c| && Edge(g, x, c[i])
  }

  // ----- Upstream of a held page -------------------------------------------

  /** A chain of firing rules from a held one to one that is not held. */
  ghost predicate LeadsUp<D>(r: Resolver<D>, chain: seq<string>, n: string) {
    && chain != [] && chain[0] == n
    && (forall i :: 0 <= i < |chain| ==> r.IsFiring(chain[i]))
    && (forall i :: 0 <= i < |chain| - 1 ==> Edge(r.inhibits, chain[i + 1], chain[i]))
    && chain[|chain| - 1] !in r.pending
  }

  ghost predicate IsWalk<D>(r: Resolver<D>, path: seq<string>) {
    && path != [] && Distinct(path)
    && (forall i :: 0 <= i < |path| ==> path[i] in r.pending)
    && (forall i :: 0 <= i < |path| - 1 ==> Edge(r.inhibits, path[i + 1], path[i]))
  }

  function Reversed(s: seq<string>): (t: seq<string>)
    ensures |t| == |s| && forall i :: 0 <= i < |s| ==> t[i] == s[|s| - 1 - i]
  {
    seq(|s|, i requires 0 <= i < |s| => s[|s| - 1 - i])
  }

  lemma {:induction false} WalkFits<D>(r: Resolver<D>, path: seq<string>)
    requires IsWalk(r, path)
    ensures 0 < |path| <= |r.pending| && path[|path| - 1] in r.pending
  {
    DistinctFits(path, r.pending.Keys);
    assert |r.pending.Keys| == |r.pending|;
  }

  lemma {:induction false} DistinctFits(s: seq<string>, all: set<string>)
    requires Distinct(s) && forall i :: 0 <= i < |s| ==> s[i] in all
    ensures |s| <= |all|
  {
    if s != [] {
      DistinctFits(s[1..], all - {s[0]});
    }
  }

  ghost predicate IsHeldCycle<D>(r: Resolver<D>, cycle: seq<string>) {
    IsCycle(r.inhibits, cycle) && forall i :: 0 <= i < |cycle| ==> cycle[i] in r.pending
  }

  lemma WalkEnds<D(!new)>(r: Resolver<D>, path: seq<string>, c: string)
    requires HeldFires(r) && IsWalk(r, path)
    requires r.Inhibits(c, path[|path| - 1]) && r.IsFiring(c) && c !in r.pending
    ensures LeadsUp(r, path + [c], path[0])
  {
  }

  lemma WalkExtends<D>(r: Resolver<D>, path: seq<string>, c: string)
    requires IsWalk(r, path) && r.Inhibits(c, path[|path| - 1]) && c in r.pending && c !in path
    ensures IsWalk(r, path + [c])
  {
  }

  lemma WalkTurns<D>(r: Resolver<D>, path: seq<string>, i: nat)
    requires IsWalk(r, path) && i < |path| && r.Inhibits(path[i], path[|path| - 1])
    ensures IsHeldCycle(r, Reversed(path[i..]))
  {
    var cycle := Reversed(path[i..]);
    assert cycle[|cycle| - 1] == path[i] && cycle[0] == path[|path| - 1];
    WalkCloses(r.inhibits, cycle);
  }

  /** Walking up from a held page ends at a page that is not held, or goes round
      in a cycle of held ones. */
  lemma {:induction false} WalkUp<D(!new)>(r: Resolver<D>, path: seq<string>)
    returns (chain: seq<string>, cycle: seq<string>)
    requires Inv(r) && IsWalk(r, path)
    ensures LeadsUp(r, chain, path[0]) || IsHeldCycle(r, cycle)
    decreases |r.pending| - |path|
  {
    hide LeadsUp, IsHeldCycle, IsWalk;
    WalkFits(r, path);
    var c :| c in r.inhibits && r.Inhibits(c, path[|path| - 1]) && r.IsFiring(c);
    chain, cycle := path + [c], [];
    if c !in r.pending {
      WalkEnds(r, path, c);
    } else if i :| 0 <= i < |path| && path[i] == c {
      cycle := Reversed(path[i..]);
      WalkTurns(r, path, i);
    } else {
      WalkExtends(r, path, c);
      WalkFits(r, path + [c]);
      assert (path + [c])[0] == path[0];
      chain, cycle := WalkUp(r, path + [c]);
    }
  }

  /** A walk read downwards, closed by an edge from its bottom to its top. */
  lemma WalkCloses(g: Graph, c: seq<string>)
    requires |c| >= 1 && Distinct(c) && Edge(g, c[|c| - 1], c[0])
    requires forall i :: 0 <= i < |c| - 1 ==> Edge(g, c[i], c[i + 1])
    ensures IsCycle(g, c)
  {
  }

  /** Without cycles no storm is wholly silent, whatever is observed: every rule whose
      page is held has a chain of firing inhibitors up to a rule whose page is out. */
  lemma HeldPagesLeadUp<D(!new)>(rules: seq<Rule>, inputs: seq<Emission<D>>, n: string) returns (chain: seq<string>)
    requires n in ResolverAfter(rules, inputs).pending
    requires forall c :: !IsCycle(New<D>(rules).inhibits, c)
    ensures LeadsUp(ResolverAfter(rules, inputs), chain, n)
    ensures On(Delivered(rules, inputs), chain[|chain| - 1])
  {
    hide On, ResolverAfter, Delivered, IsCycle;
    FlagsAreLastWord(rules, inputs);
    FiringPagesAreOut(rules, inputs);
    var r := ResolverAfter(rules, inputs);
    var cycle;
    assert IsWalk(r, [n]);
    chain, cycle := WalkUp(r, [n]);
  }

  // ----- Silence -----------------------------------------------------------

  /** Some rule fires and no page is out. */
  ghost predicate Silent<D(!new)>(r: Resolver<D>) {
    (exists n :: r.IsFiring(n)) && forall n :: r.IsFiring(n) ==> n in r.pending
  }

  lemma RotatedOnce(g: Graph, c: seq<string>)
    requires IsCycle(g, c)
    ensures IsCycle(g, c[1..] + [c[0]])
    ensures forall x :: x in c[1..] + [c[0]] <==> x in c
  {
    var d := c[1..] + [c[0]];
    assert c == [c[0]] + c[1..];
    forall k | 0 <= k < |d| - 1
      ensures Edge(g, d[k], d[k + 1])
    {
      assert d[k] == c[k + 1];
    }
  }

  lemma {:induction false} Rotated(g: Graph, c: seq<string>, i: nat)
    requires IsCycle(g, c) && i < |c|
    ensures IsCycle(g, c[i..] + c[..i])
    ensures forall x :: x in c[i..] + c[..i] <==> x in c
  {
    hide IsCycle;
    if i == 0 {
      assert c[0..] + c[..0] == c;
    } else {
      var d := c[i - 1..] + c[..i - 1];
      Rotated(g, c, i - 1);
      RotatedOnce(g, d);
      assert c[i..] + c[..i] == d[1..] + [d[0]];
    }
  }

  // ----- An entered cycle silences a storm ---------------------------------

  function Page<D>(n: string, d: D): Emission<D> {
    Fire(Incident(n, d))
  }

  /** The outsider fires, then the cycle fires around. */
  function Outbreak<D>(x: string, c: seq<string>, k: nat, d: D): seq<Emission<D>>
    requires k <= |c|
  {
    if k == 0 then [Page(x, d)] else Outbreak(x, c, k - 1, d) + [Page(c[k - 1], d)]
  }

  ghost predicate OutbreakState<D(!new)>(r: Resolver<D>, x: string, c: seq<string>, k: nat)
    requires k <= |c|
  {
    && (forall n :: r.IsFiring(n) <==> n == x || n in c[..k])
    && (forall n :: n in r.pending <==> n in c[..k])
  }

  /** The first page of a quiet resolver goes out. */
  lemma FirstPage<D(!new)>(r: Resolver<D>, x: string, c: seq<string>, d: D)
    requires r.pending == map[] && forall n :: !r.IsFiring(n)
    ensures OutbreakState(Observe(r, x, Some(Page(x, d))).0, x, c, 0)
    ensures Observe(r, x, Some(Page(x, d))).0.inhibits == r.inhibits
  {
    var r1 := r.(firing := r.firing[x := true]);
    forall n
      ensures r1.IsFiring(n) <==> n == x
    {
      assert !r.IsFiring(n);
    }
    assert !r1.HasActiveInhibitor(x);
  }

  /** The page of the next rule of the cycle is held. */
  lemma NextPage<D(!new)>(r: Resolver<D>, x: string, c: seq<string>, k: nat, d: D)
    requires IsCycle(r.inhibits, c) && x !in c && Edge(r.inhibits, x, c[0])
    requires 0 < k <= |c| && OutbreakState(r, x, c, k - 1)
    ensures !r.IsFiring(c[k - 1])
    ensures OutbreakState(Observe(r, c[k - 1], Some(Page(c[k - 1], d))).0, x, c, k)
    ensures Observe(r, c[k - 1], Some(Page(c[k - 1], d))).0.inhibits == r.inhibits
  {
    var n := c[k - 1];
    assert n in c && n !in c[..k - 1];
    var r1 := r.(firing := r.firing[n := true]);
    var up := if k == 1 then x else c[k - 2];
    assert k > 1 ==> up == c[..k - 1][k - 2];
    assert r.IsFiring(up) && r1.Inhibits(up, n) && r1.IsFiring(up);
    var r' := Observe(r, n, Some(Page(n, d))).0;
    assert r' == r1.(pending := r1.pending[n := Incident(n, d)]);
    assert c[..k] == c[..k - 1] + [n];
    forall m
      ensures r'.IsFiring(m) <==> m == x || m in c[..k]
      ensures m in r'.pending <==> m in c[..k]
    {
      assert m != n ==> (r'.IsFiring(m) <==> r.IsFiring(m));
    }
  }

  lemma ResolverStep<D>(rules: seq<Rule>, before: seq<Emission<D>>, e: Emission<D>)
    ensures ResolverAfter(rules, before + [e]) == Observe(ResolverAfter(rules, before), e.incident.name, Some(e)).0
  {
    assert (before + [e])[..|before|] == before;
  }

  lemma {:induction false} OutbreakHolds<D(!new)>(rules: seq<Rule>, x: string, c: seq<string>, k: nat, d: D)
    requires var g := New<D>(rules).inhibits;
             IsCycle(g, c) && x !in c && Edge(g, x, c[0])
    requires k <= |c|
    ensures Alternating(Outbreak(x, c, k, d))
    ensures OutbreakState(ResolverAfter(rules, Outbreak(x, c, k, d)), x, c, k)
    ensures ResolverAfter(rules, Outbreak(x, c, k, d)).inhibits == New<D>(rules).inhibits
  {
    hide Alternating, On, IsCycle, OutbreakState, Observe, ResolverAfter;
    if k == 0 {
      NewIsQuiet<D>(rules);
      NothingAlternates<D>(rules);
      FirstPage(New<D>(rules), x, c, d);
      Extend([], Page(x, d), x);
      ResolverStep(rules, [], Page(x, d));
      assert [] + [Page(x, d)] == [Page(x, d)];
    } else {
      var before, e := Outbreak(x, c, k - 1, d), Page(c[k - 1], d);
      OutbreakHolds(rules, x, c, k - 1, d);
      var r := ResolverAfter(rules, before);
      NextPage(r, x, c, k, d);
      DeliveriesAlternate(rules, before);
      Extend(before, e, c[k - 1]);
      ResolverStep(rules, before, e);
    }
  }

  lemma NothingAlternates<D>(rules: seq<Rule>)
    ensures Alternating<D>([]) && ResolverAfter<D>(rules, []) == New(rules)
    ensures forall n :: !On<D>([], n)
  {
  }

  /** When the outsider resolves, the cycle holds itself back. */
  lemma OutsiderResolves<D(!new)>(r: Resolver<D>, x: string, c: seq<string>, d: D)
    requires IsCycle(r.inhibits, c) && x !in c && OutbreakState(r, x, c, |c|)
    ensures Silent(Observe(r, x, Some(Resolve(Incident(x, d)))).0)
  {
    assert c[..|c|] == c;
    var e := Resolve(Incident(x, d));
    var r1 := r.(firing := r.firing[x := false], pending := r.pending - {x});
    ReleaseRemoves(r1, Downstream(r1, x));
    var r' := Observe(r, x, Some(e)).0;
    FiringFlags(r, e);
    forall n | n in c
      ensures r'.IsFiring(n) && n in r'.pending
    {
      var i :| 0 <= i < |c| && c[i] == n;
      var up := if i == 0 then c[|c| - 1] else c[i - 1];
      assert up in c && r.IsFiring(up);
      assert r1.Inhibits(up, n) && r1.IsFiring(up);
      assert r1.HasActiveInhibitor(n);
    }
    assert c[0] in c;
  }

  lemma EnteredCycleSilences<D(!new)>(rules: seq<Rule>, x: string, c: seq<string>, d: D)
    returns (inputs: seq<Emission<D>>)
    requires var g := New<D>(rules).inhibits;
             IsCycle(g, c) && x !in c && Edge(g, x, c[0])
    ensures Alternating(inputs) && Silent(ResolverAfter(rules, inputs))
  {
    hide Outbreak, On, Alternating, IsCycle, Silent, Observe, ResolverAfter;
    var before, e := Outbreak(x, c, |c|, d), Resolve(Incident(x, d));
    OutbreakHolds(rules, x, c, |c|, d);
    DeliveriesAlternate(rules, before);
    var r := ResolverAfter(rules, before);
    assert r.IsFiring(x);
    Extend(before, e, x);
    OutsiderResolves(r, x, c, d);
    ResolverStep(rules, before, e);
    inputs := before + [e];
  }

  // ----- Only an entered cycle silences a storm ----------------------------

  function Before(c: seq<string>, i: nat): string
    requires i < |c|
  {
    if i == 0 then c[|c| - 1] else c[i - 1]
  }

  /** Each rule of the cycle is inhibited by its predecessor alone. */
  ghost predicate Alone(g: Graph, c: seq<string>) {
    IsCycle(g, c) && forall x, i :: 0 <= i < |c| && Edge(g, x, c[i]) ==> x == Before(c, i)
  }

  lemma AloneNames(g: Graph, c: seq<string>, j: nat, up: string)
    requires Alone(g, c) && j < |c| && Edge(g, up, c[j])
    ensures up == Before(c, j)
  {
  }

  /** One observation does not complete a held cycle. */
  lemma NotHeldNext<D(!new)>(r: Resolver<D>, e: Emission<D>, c: seq<string>, i: nat)
    requires Inv(r) && Alone(r.inhibits, c) && i < |c| && c[i] !in r.pending
    requires e.Fire? ==> !r.IsFiring(e.incident.name)
    ensures exists j :: 0 <= j < |c| && c[j] !in Observe(r, e.incident.name, Some(e)).0.pending
  {
    hide Observe;
    var r' := Observe(r, e.incident.name, Some(e)).0;
    if c[i] in r'.pending {
      OnlyFiringHolds(r, e, c[i]);
      var j := if i + 1 < |c| then i + 1 else 0;
      assert c[j] != c[i];
      if c[j] in r.pending {
        var up :| up in r.inhibits && r.Inhibits(up, c[j]) && r.IsFiring(up);
        AloneNames(r.inhibits, c, j, up);
        assert false;
      }
      OtherStaysOut(r, e, c[j]);
    }
  }

  /** The rules of a cycle that nothing else inhibits are never all held, unless a rule
      pages twice in a row. */
  lemma {:induction false} AloneIsNeverHeld<D(!new)>(rules: seq<Rule>, inputs: seq<Emission<D>>, c: seq<string>)
    requires NoSecondPage(inputs) && Alone(New<D>(rules).inhibits, c)
    ensures exists i :: 0 <= i < |c| && c[i] !in ResolverAfter(rules, inputs).pending
  {
    hide On, NoSecondPage, Observe, ResolverAfter, Delivered;
    if inputs == [] {
      NewIsQuiet<D>(rules);
      NothingAlternates<D>(rules);
      assert c[0] !in ResolverAfter(rules, inputs).pending;
    } else {
      var before, e := inputs[..|inputs| - 1], inputs[|inputs| - 1];
      assert inputs == before + [e];
      Extend(before, e, e.incident.name);
      AloneIsNeverHeld(rules, before, c);
      FlagsAreLastWord(rules, before);
      var r := ResolverAfter(rules, before);
      var i :| 0 <= i < |c| && c[i] !in r.pending;
      NotHeldNext(r, e, c, i);
      ResolverStep(rules, before, e);
    }
  }

  lemma OnlyFiringHolds<D(!new)>(r: Resolver<D>, e: Emission<D>, n: string)
    requires n !in r.pending && n in Observe(r, e.incident.name, Some(e)).0.pending
    ensures e.Fire? && e.incident.name == n
  {
    if e.Resolve? {
      var r1 := r.(firing := r.firing[e.incident.name := false], pending := r.pending - {e.incident.name});
      ReleaseRemoves(r1, Downstream(r1, e.incident.name));
    }
  }

  lemma OtherStaysOut<D(!new)>(r: Resolver<D>, e: Emission<D>, n: string)
    requires n !in r.pending && !(e.Fire? && e.incident.name == n)
    ensures n !in Observe(r, e.incident.name, Some(e)).0.pending
  {
    if n in Observe(r, e.incident.name, Some(e)).0.pending {
      OnlyFiringHolds(r, e, n);
    }
  }

  /** An edge that skips part of a cycle makes a shorter cycle, entered by the rule
      it skipped last. */
  lemma ShortCut(g: Graph, c: seq<string>, m: nat) returns (c': seq<string>, x: string)
    requires IsCycle(g, c) && 0 < m < |c| - 1 && Edge(g, c[m], c[0])
    ensures Entered(g, c', x)
  {
    c', x := c[..m + 1], c[|c| - 1];
    WalkCloses(g, c');
    assert Edge(g, x, c'[0]);
  }

  /** A cycle is inhibited by its own edges alone, or some cycle is entered. */
  lemma AloneOrEntered(g: Graph, c: seq<string>) returns (c': seq<string>, x: string)
    requires IsCycle(g, c)
    ensures Alone(g, c) || Entered(g, c', x)
  {
    hide IsCycle;
    c', x := c, "";
    if y, i :| 0 <= i < |c| && Edge(g, y, c[i]) && y !in c {
      x := y;
    } else if y, i :| 0 <= i < |c| && Edge(g, y, c[i]) && y != Before(c, i) {
      var d := c[i..] + c[..i];
      Rotated(g, c, i);
      assert y in d;
      var m :| 0 <= m < |d| && d[m] == y;
      assert d[|d| - 1] == Before(c, i) && d[0] == c[i];
      c', x := ShortCut(g, d, m);
    }
  }

  /** In a silent storm the held pages hold each other in a cycle. */
  lemma {:induction false} SilenceHasCycle<D(!new)>(r: Resolver<D>) returns (cycle: seq<string>)
    requires Inv(r) && Silent(r)
    ensures IsHeldCycle(r, cycle)
  {
    hide Inv;
    var n :| r.IsFiring(n);
    assert IsWalk(r, [n]);
    var chain;
    chain, cycle := WalkUp(r, [n]);
    if LeadsUp(r, chain, n) {
      assert false;
    }
  }

  lemma SilenceNeedsEnteredCycle<D(!new)>(rules: seq<Rule>, inputs: seq<Emission<D>>)
    returns (c: seq<string>, x: string)
    requires NoSecondPage(inputs) && Silent(ResolverAfter(rules, inputs))
    ensures Entered(New<D>(rules).inhibits, c, x)
  {
    hide On, NoSecondPage, ResolverAfter, IsCycle, Entered, Alone, Inv, Silent;
    FlagsAreLastWord(rules, inputs);
    var r := ResolverAfter(rules, inputs);
    var cycle := SilenceHasCycle(r);
    c, x := AloneOrEntered(r.inhibits, cycle);
    if Alone(r.inhibits, cycle) {
      AloneIsNeverHeld(rules, inputs, cycle);
    }
  }

  /** The exact condition: suppression can hold back every page of a storm if and
      only if the catalogue has a cycle of inhibitions that some rule outside of
      the cycle inhibits too. This is within one generation: see
      `ReloadSilenceExactly` for what a reload adds. */
  lemma SilenceExactly<D(!new)>(rules: seq<Rule>, d: D)
    ensures (exists inputs: seq<Emission<D>> :: NoSecondPage(inputs) && Silent(ResolverAfter(rules, inputs)))
            <==> (exists c, x :: Entered(New<D>(rules).inhibits, c, x))
  {
    hide Silent, NoSecondPage, Alternating, ResolverAfter;
    if inputs: seq<Emission<D>> :| NoSecondPage(inputs) && Silent(ResolverAfter(rules, inputs)) {
      var c, x := SilenceNeedsEnteredCycle(rules, inputs);
    }
    if c, x :| Entered(New<D>(rules).inhibits, c, x) {
      var g := New<D>(rules).inhibits;
      var i :| 0 <= i < |c| && Edge(g, x, c[i]);
      Rotated(g, c, i);
      var inputs := EnteredCycleSilences(rules, x, c[i..] + c[..i], d);
      AlternatingHasNoSecondPage(inputs);
    }
  }

  /** Why a second page matters: it silences any cycle, entered or not. */
  lemma SecondPageSilences<D(!new)>(d: D)
    ensures var rules := [Rule("a", 0, ["b"]), Rule("b", 0, ["a"])];
            Silent(ResolverAfter(rules, [Page("a", d), Page("b", d), Page("a", d)]))
  {
    hide Observe, New, On;
    var rules := [Rule("a", 0, ["b"]), Rule("b", 0, ["a"])];
    var a, b := Page("a", d), Page("b", d);
    assert rules[..1] == [rules[0]] && [rules[0]][..0] == [];
    BothInhibit<D>();
    ResolverStep(rules, [], a);
    ResolverStep(rules, [a], b);
    ResolverStep(rules, [a, b], a);
    assert [] + [a] == [a] && [a] + [b] == [a, b] && [a, b] + [a] == [a, b, a];
    NewIsQuiet<D>(rules);
    FirstPage(New<D>(rules), "a", [], d);
    SecondPage(ResolverAfter(rules, [a]), "a", "b", d);
    FlagsAreLastWord(rules, [a, b]);
    ThirdPage(ResolverAfter(rules, [a, b]), "a", "b", d);
  }

  lemma BothInhibit<D>()
    ensures New<D>([Rule("a", 0, ["b"]), Rule("b", 0, ["a"])]).inhibits == map["a" := ["b"], "b" := ["a"]]
  {
    var rules := [Rule("a", 0, ["b"]), Rule("b", 0, ["a"])];
    assert rules[..1] == [rules[0]] && [rules[0]][..0] == [];
    assert New<D>([]).inhibits == map[];
    assert New<D>([rules[0]]).inhibits == New<D>([rules[0]][..0]).inhibits["a" := ["b"]];
  }

  lemma ThirdPage<D(!new)>(r: Resolver<D>, x: string, n: string, d: D)
    requires x != n && r.Inhibits(n, x)
    requires (forall m :: r.IsFiring(m) <==> m == x || m == n) && r.pending.Keys == {n}
    ensures Silent(Observe(r, x, Some(Page(x, d))).0)
  {
    var r1 := r.(firing := r.firing[x := true]);
    assert r.IsFiring(n);
    assert r1.Inhibits(n, x) && r1.IsFiring(n);
    FiringFlags(r, Page(x, d));
    assert Observe(r, x, Some(Page(x, d))).0.IsFiring(n);
  }

  // ----- Reloads -----------------------------------------------------------

  /** Whatever is observed, across reloads that keep inhibitors and held pages: held
      pages lead up to a delivered one, if the live catalogue has no cycle. */
  lemma HeldPagesLeadUpAcrossReloads<D(!new)>(rules: seq<Rule>, events: seq<Event<D>>, n: string)
    returns (chain: seq<string>)
    requires AllKeepInhibitors(rules, events) && AllKeepHeld(rules, events)
    requires n in LiveAfter(rules, events).pending
    requires forall c :: !IsCycle(New<D>(Catalogue(rules, events)).inhibits, c)
    ensures LeadsUp(LiveAfter(rules, events), chain, n)
    ensures On(DeliveredOver(rules, events), chain[|chain| - 1])
  {
    hide On, LiveAfter, DeliveredOver, Catalogue, IsCycle, AllKeepInhibitors, AllKeepHeld;
    LiveInhibits(rules, events);
    HeldAreInhibited(rules, events);
    FiringPagesAreOutOver(rules, events);
    var r := LiveAfter(rules, events);
    var cycle;
    assert IsWalk(r, [n]);
    chain, cycle := WalkUp(r, [n]);
  }

  /** A name that no rule has. */
  function Fresh(rules: seq<Rule>): string {
    if rules == [] then "x" else rules[|rules| - 1].name + Fresh(rules[..|rules| - 1])
  }

  lemma {:induction false} FreshIsLong(rules: seq<Rule>, rule: Rule)
    requires rule in rules
    ensures |rule.name| < |Fresh(rules)|
  {
    var last, before := rules[|rules| - 1], rules[..|rules| - 1];
    assert rules == before + [last];
    if rule in before {
      FreshIsLong(before, rule);
    } else {
      FreshIsSome(before);
    }
  }

  lemma {:induction false} FreshIsSome(rules: seq<Rule>)
    ensures |Fresh(rules)| > 0
  {
    if rules != [] {
      FreshIsSome(rules[..|rules| - 1]);
    }
  }

  /** The catalogue in which `x` inhibits `n`. */
  function Pair(x: string, n: string): seq<Rule> {
    [Rule(x, 0, [n]), Rule(n, 0, [])]
  }

  /** In it `x` fires, then `n`, whose page is held. */
  lemma PairHolds<D(!new)>(x: string, n: string, d: D, inputs: seq<Emission<D>>)
    requires x != n && inputs == [Page(x, d), Page(n, d)]
    ensures var r := ResolverAfter(Pair(x, n), inputs);
            && Alternating(inputs)
            && (forall m :: r.IsFiring(m) <==> m == x || m == n)
            && r.pending.Keys == {n}
  {
    hide Observe, Alternating, On, New;
    var a, b, rules := Page(x, d), Page(n, d), Pair(x, n);
    var empty: Resolver<D> := New(rules);
    PairIsNew<D>(x, n);
    NothingAlternates<D>(rules);
    Extend([], a, x);
    Extend([], a, n);
    Extend([a], b, n);
    ResolverStep(rules, [], a);
    ResolverStep(rules, [a], b);
    assert [] + [a] == [a] && [a] + [b] == [a, b];
    NewIsQuiet<D>(rules);
    FirstPage(empty, x, [], d);
    SecondPage(ResolverAfter(rules, [a]), x, n, d);
  }

  lemma PairIsNew<D>(x: string, n: string)
    requires x != n
    ensures New<D>(Pair(x, n)).inhibits == map[x := [n], n := []]
  {
    var rules := Pair(x, n);
    assert rules[..1] == [rules[0]] && [rules[0]][..0] == [];
    assert New<D>([]).inhibits == map[];
    assert New<D>([rules[0]]).inhibits == New<D>([rules[0]][..0]).inhibits[x := [n]];
  }

  lemma SecondPage<D(!new)>(r: Resolver<D>, x: string, n: string, d: D)
    requires x != n && r.Inhibits(x, n)
    requires (forall m :: r.IsFiring(m) <==> m == x) && forall m :: m !in r.pending
    ensures var r' := Observe(r, n, Some(Page(n, d))).0;
            (forall m :: r'.IsFiring(m) <==> m == x || m == n) && r'.pending.Keys == {n}
  {
    var r1 := r.(firing := r.firing[n := true]);
    assert r.IsFiring(x);
    assert r1.Inhibits(x, n) && r1.IsFiring(x);
    FiringFlags(r, Page(n, d));
  }

  /** A reload can leave a page held that nothing inhibits any more: the inhibitor is
      removed and another one, that does not fire, is declared. */
  lemma ReloadSilences<D(!new)>(rules: seq<Rule>, n: string, d: D) returns (older: seq<Rule>, inputs: seq<Emission<D>>)
    requires n in New<D>(rules).firing && New<D>(rules).HasDeclaredInhibitor(n)
    ensures Alternating(inputs)
    ensures var r := Rebuild(rules, ResolverAfter(older, inputs));
            Silent(r) && n in r.pending && !r.HasActiveInhibitor(n)
  {
    hide Alternating, ResolverAfter, Rebuild, New;
    var x := Fresh(rules);
    NewKnowsItsRules<D>(rules);
    forall m | m in New<D>(rules).firing
      ensures m != x
    {
      var rule :| rule in rules && rule.name == m;
      FreshIsLong(rules, rule);
    }
    older, inputs := Pair(x, n), [Page(x, d), Page(n, d)];
    PairHolds(x, n, d, inputs);
    var live := ResolverAfter(older, inputs);
    assert live.pending.Keys == {n} && forall m :: live.IsFiring(m) <==> m == x || m == n;
    var r := Rebuild(rules, live);
    forall m
      ensures r.IsFiring(m) <==> m == n
      ensures m in r.pending <==> m == n
    {
      Rebuilt(rules, live, m);
    }
    assert r.IsFiring(n);
    RebuiltInhibitors(rules, live, n);
    forall c | New<D>(rules).Inhibits(c, n)
      ensures !live.IsFiring(c)
    {
      assert c in New<D>(rules).firing;
    }
  }

  /** A reload to a catalogue can silence a storm if and only if some rule of the
      catalogue is inhibited by another one: acyclic or not. */
  lemma ReloadSilenceExactly<D(!new)>(rules: seq<Rule>, d: D)
    ensures (exists older, inputs: seq<Emission<D>> ::
               NoSecondPage(inputs) && Silent(Rebuild(rules, ResolverAfter(older, inputs))))
            <==> (exists n :: n in New<D>(rules).firing && New<D>(rules).HasDeclaredInhibitor(n))
  {
    hide NoSecondPage, Alternating, ResolverAfter, Rebuild, New;
    if older, inputs: seq<Emission<D>> :|
      NoSecondPage(inputs) && Silent(Rebuild(rules, ResolverAfter(older, inputs)))
    {
      var r := Rebuild(rules, ResolverAfter(older, inputs));
      var n :| r.IsFiring(n);
      Rebuilt(rules, ResolverAfter(older, inputs), n);
    }
    if n :| n in New<D>(rules).firing && New<D>(rules).HasDeclaredInhibitor(n) {
      var older, inputs := ReloadSilences(rules, n, d);
      AlternatingHasNoSecondPage(inputs);
    }
  }
}
