/** The duplicate-name scan of the rule loader: colliding rules are refused and
    reported, so every catalogue that goes live has one rule per name. */
module RuleCatalogue {
  import opened RuleMachine

  function Count(rules: seq<Rule>, n: string): nat {
    if rules == [] then 0
    else Count(rules[..|rules| - 1], n) + if rules[|rules| - 1].name == n then 1 else 0
  }

  /** The rules of `rules` whose name is not among `names`, in order. */
  function Without(rules: seq<Rule>, names: seq<string>): seq<Rule> {
    if rules == [] then []
    else
      var last := rules[|rules| - 1];
      Without(rules[..|rules| - 1], names) + if last.name in names then [] else [last]
  }

  lemma {:induction false} WithoutMore(rules: seq<Rule>, names: seq<string>, n: string)
    ensures Without(Without(rules, names), [n]) == Without(rules, names + [n])
  {
    if rules != [] {
      var last := rules[|rules| - 1];
      var front := Without(rules[..|rules| - 1], names);
      WithoutMore(rules[..|rules| - 1], names, n);
      if last.name !in names {
        assert (front + [last])[..|front|] == front;
      } else {
        assert front + [] == front;
      }
    }
  }

  lemma {:induction false} WithoutNothing(rules: seq<Rule>)
    ensures Without(rules, []) == rules
  {
    if rules != [] {
      WithoutNothing(rules[..|rules| - 1]);
    }
  }

  lemma {:induction false} CountPositive(rules: seq<Rule>, k: nat)
    requires k < |rules|
    ensures Count(rules, rules[k].name) >= 1
  {
    if k < |rules| - 1 {
      CountPositive(rules[..|rules| - 1], k);
    }
  }

  lemma {:induction false} CountTwice(rules: seq<Rule>, i: nat, j: nat)
    requires i < j < |rules| && rules[i].name == rules[j].name
    ensures Count(rules, rules[i].name) >= 2
  {
    if j < |rules| - 1 {
      CountTwice(rules[..|rules| - 1], i, j);
    } else {
      CountPositive(rules[..|rules| - 1], i);
    }
  }

  lemma {:induction false} TwoOfAName(rules: seq<Rule>, n: string) returns (i: nat, j: nat)
    requires Count(rules, n) >= 2
    ensures i < j < |rules| && rules[i].name == rules[j].name == n
  {
    var k := |rules| - 1;
    if rules[k].name == n {
      i := OneOfAName(rules[..k], n);
      j := k;
    } else {
      i, j := TwoOfAName(rules[..k], n);
    }
  }

  lemma {:induction false} OneOfAName(rules: seq<Rule>, n: string) returns (i: nat)
    requires Count(rules, n) >= 1
    ensures i < |rules| && rules[i].name == n
  {
    i := |rules| - 1;
    if rules[i].name != n {
      i := OneOfAName(rules[..i], n);
    }
  }

  lemma {:induction false} WithoutKeeps(rules: seq<Rule>, names: seq<string>, r: Rule)
    ensures r in Without(rules, names) <==> r in rules && r.name !in names
  {
    if rules != [] {
      WithoutKeeps(rules[..|rules| - 1], names, r);
      assert rules == rules[..|rules| - 1] + [rules[|rules| - 1]];
    }
  }

  lemma {:induction false} WithoutStaysUnique(rules: seq<Rule>, names: seq<string>)
    requires forall n :: Count(rules, n) > 1 ==> n in names
    ensures forall i, j :: 0 <= i < j < |Without(rules, names)| ==>
              Without(rules, names)[i].name != Without(rules, names)[j].name
  {
    if rules != [] {
      var front, last := rules[..|rules| - 1], rules[|rules| - 1];
      assert forall n :: Count(front, n) <= Count(rules, n);
      WithoutStaysUnique(front, names);
      var kept := Without(front, names);
      if last.name !in names {
        forall i | 0 <= i < |kept|
          ensures kept[i].name != last.name
        {
          assert kept[i] in kept;
          WithoutKeeps(front, names, kept[i]);
          var k :| 0 <= k < |front| && front[k] == kept[i];
          if kept[i].name == last.name {
            CountTwice(rules, k, |rules| - 1);
          }
        }
      }
    }
  }

  ghost predicate IsBefore(rules: seq<Rule>, a: Rule, b: Rule) {
    exists p, q :: 0 <= p < q < |rules| && rules[p] == a && rules[q] == b
  }

  lemma {:induction false} WithoutInOrder(rules: seq<Rule>, names: seq<string>, i: nat, j: nat)
    requires i < j < |Without(rules, names)|
    ensures IsBefore(rules, Without(rules, names)[i], Without(rules, names)[j])
  {
    var n := |rules| - 1;
    var front, last := rules[..n], rules[n];
    var kept := Without(front, names);
    if j < |kept| {
      WithoutInOrder(front, names, i, j);
      var p, q :| 0 <= p < q < |front| && front[p] == kept[i] && front[q] == kept[j];
      assert rules[p] == kept[i] && rules[q] == kept[j];
    } else {
      assert kept[i] in kept;
      WithoutKeeps(front, names, kept[i]);
      var p :| 0 <= p < n && front[p] == kept[i];
      assert rules[p] == kept[i] && rules[n] == Without(rules, names)[j];
    }
  }

  method CountNames(rules: seq<Rule>) returns (counts: map<string, nat>)
    ensures forall n :: n in counts <==> Count(rules, n) > 0
    ensures forall n :: n in counts ==> counts[n] == Count(rules, n)
  {
    counts := map[];
    for i := 0 to |rules|
      invariant forall n :: n in counts <==> Count(rules[..i], n) > 0
      invariant forall n :: n in counts ==> counts[n] == Count(rules[..i], n)
    {
      assert rules[..i + 1][..i] == rules[..i];
      var n := rules[i].name;
      counts := counts[n := (if n in counts then counts[n] else 0) + 1];
    }
    assert rules[..|rules|] == rules;
  }

  lemma CollidesExactly(rules: seq<Rule>, n: string)
    ensures Count(rules, n) > 1 <==> exists i, j :: 0 <= i < j < |rules| && rules[i].name == rules[j].name == n
  {
    if Count(rules, n) > 1 {
      var i, j := TwoOfAName(rules, n);
    } else if i, j :| 0 <= i < j < |rules| && rules[i].name == rules[j].name == n {
      CountTwice(rules, i, j);
    }
  }

  /** Every rule that shares its name is dropped, every other one is kept, in
      order; each colliding name is reported exactly once. */
  method DetectDuplicateNames(rules: seq<Rule>) returns (kept: seq<Rule>, reported: seq<string>)
    ensures forall n :: n in reported <==> exists i, j :: 0 <= i < j < |rules| && rules[i].name == rules[j].name == n
    ensures forall i, j :: 0 <= i < j < |reported| ==> reported[i] != reported[j]
    ensures kept == Without(rules, reported)
    ensures forall i, j :: 0 <= i < j < |kept| ==> kept[i].name != kept[j].name
    ensures forall r :: r in kept <==> r in rules && r.name !in reported
    ensures forall i, j :: 0 <= i < j < |kept| ==> IsBefore(rules, kept[i], kept[j])
  {
    hide Count, Without;
    var counts := CountNames(rules);
    kept, reported := rules, [];
    WithoutNothing(rules);
    var left := counts.Keys;
    while left != {}
      invariant left <= counts.Keys
      invariant forall n :: n in reported <==> n in counts && n !in left && counts[n] > 1
      invariant forall i, j :: 0 <= i < j < |reported| ==> reported[i] != reported[j]
      invariant kept == Without(rules, reported)
      decreases |left|
    {
      var n :| n in left;
      left := left - {n};
      if counts[n] > 1 {
        WithoutMore(rules, reported, n);
        kept := Without(kept, [n]);
        reported := reported + [n];
      }
    }
    WithoutStaysUnique(rules, reported);
    forall n
      ensures n in reported <==> exists i, j :: 0 <= i < j < |rules| && rules[i].name == rules[j].name == n
    {
      CollidesExactly(rules, n);
    }
    forall r
      ensures r in kept <==> r in rules && r.name !in reported
    {
      WithoutKeeps(rules, reported, r);
    }
    forall i, j | 0 <= i < j < |kept|
      ensures IsBefore(rules, kept[i], kept[j])
    {
      WithoutInOrder(rules, reported, i, j);
    }
  }
}
