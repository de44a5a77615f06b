/** "Did you mean" suggestions: the closest known name to a mistyped one. */
module NearestMatch {
  import opened Wrappers
  import opened Sequences
  import opened EditDistance

  // ----- Order of names ----------------------------------------------------

  function Codes(s: string): seq<int> {
    seq(|s|, i requires 0 <= i < |s| => s[i] as int)
  }

  predicate NameLess(a: string, b: string) {
    LexLess(Codes(a), Codes(b))
  }

  lemma NameLessIsStrictTotal(a: string, b: string)
    ensures a == b || NameLess(a, b) || NameLess(b, a)
    ensures !(NameLess(a, b) && NameLess(b, a))
    ensures !NameLess(a, a)
  {
    LexLessIsStrictTotal(Codes(a), Codes(b));
    if Codes(a) == Codes(b) {
      assert |a| == |Codes(a)| == |b|;
      assert forall i :: 0 <= i < |a| ==> a[i] as int == Codes(a)[i] == Codes(b)[i] == b[i] as int;
    }
  }

  /** `a` is a proper prefix of `b`, or has the smaller character at the first place
      where they differ. */
  ghost predicate ComesFirst(a: string, b: string) {
    exists i :: 0 <= i <= |a| && i < |b| && a[..i] == b[..i] && (i == |a| || a[i] < b[i])
  }

  lemma NameLessMeans(a: string, b: string)
    ensures NameLess(a, b) <==> ComesFirst(a, b)
  {
    LexLessMeans(Codes(a), Codes(b));
    forall i | 0 <= i <= |a| && i < |b|
      ensures Codes(a)[..i] == Codes(b)[..i] <==> a[..i] == b[..i]
    {
      assert forall k :: 0 <= k < i ==> Codes(a)[..i][k] == a[k] as int && Codes(b)[..i][k] == b[k] as int;
      assert forall k :: 0 <= k < i ==> a[..i][k] == a[k] && b[..i][k] == b[k];
    }
    if ComesFirst(a, b) {
      var i :| 0 <= i <= |a| && i < |b| && a[..i] == b[..i] && (i == |a| || a[i] < b[i]);
      assert Codes(a)[..i] == Codes(b)[..i];
    }
  }

  // ----- The attribute catalogue -------------------------------------------

  datatype BlessedAttribute = Exact(name: string) | Prefix(name: string)

  const THRESHOLD := 2

  /** `x` is preferred to `y` as a suggestion for `target`. */
  predicate Closer(target: string, x: string, y: string) {
    || Dist(target, x) < Dist(target, y)
    || (Dist(target, x) == Dist(target, y) && NameLess(x, y))
  }

  /** The first entry that no other entry beats. */
  function Closest(target: string, catalogue: seq<BlessedAttribute>): string
    requires catalogue != []
  {
    var last := catalogue[|catalogue| - 1].name;
    if |catalogue| == 1 then last
    else
      var best := Closest(target, catalogue[..|catalogue| - 1]);
      if Closer(target, last, best) then last else best
  }

  function NearestBlessedMatch(target: string, catalogue: seq<BlessedAttribute>): Option<string> {
    if catalogue == [] then None
    else
      var best := Closest(target, catalogue);
      if Dist(target, best) <= THRESHOLD then Some(best) else None
  }

  ghost function Names(catalogue: seq<BlessedAttribute>): set<string> {
    set e | e in catalogue :: e.name
  }

  /** The suggestion is a name at most two edits away, closer than any other or as close
      and lexicographically before it; there is none when all are further. */
  ghost predicate IsNearest(target: string, names: set<string>, suggestion: Option<string>) {
    match suggestion
    case None => forall n :: n in names ==> Dist(target, n) > 2
    case Some(s) =>
      && s in names && Dist(target, s) <= 2
      && forall n :: n in names && n != s ==>
           Dist(target, s) < Dist(target, n) || (Dist(target, s) == Dist(target, n) && ComesFirst(s, n))
  }

  lemma CloserIsStrictTotal(target: string, x: string, y: string, z: string)
    ensures x == y || Closer(target, x, y) || Closer(target, y, x)
    ensures Closer(target, x, y) && Closer(target, y, z) ==> Closer(target, x, z)
  {
    hide Dist, LexLess, Codes;
    NameLessIsStrictTotal(x, y);
    if NameLess(x, y) && NameLess(y, z) {
      LexLessIsTransitive(Codes(x), Codes(y), Codes(z));
    }
  }

  lemma {:induction false} ClosestIsLeast(target: string, catalogue: seq<BlessedAttribute>)
    requires catalogue != []
    ensures var s := Closest(target, catalogue);
            s in Names(catalogue) && forall n :: n in Names(catalogue) && n != s ==> Closer(target, s, n)
  {
    hide Closer;
    var k := |catalogue| - 1;
    var last, s := catalogue[k].name, Closest(target, catalogue);
    assert catalogue == catalogue[..k] + [catalogue[k]];
    assert Names(catalogue) == Names(catalogue[..k]) + {last};
    if k > 0 {
      var best := Closest(target, catalogue[..k]);
      ClosestIsLeast(target, catalogue[..k]);
      forall n | n in Names(catalogue) && n != s
        ensures Closer(target, s, n)
      {
        CloserIsStrictTotal(target, last, best, n);
      }
    }
  }

  lemma PrefixOrSmaller(a: string, b: string)
    requires ComesFirst(a, b)
    ensures exists i :: 0 <= i <= |a| && i < |b| && a[..i] == b[..i] && (i == |a| || a[i] < b[i])
  {
  }

  lemma NearestIsLeast(target: string, catalogue: seq<BlessedAttribute>)
    ensures IsNearest(target, Names(catalogue), NearestBlessedMatch(target, catalogue))
    ensures NearestBlessedMatch(target, catalogue).Some? ==>
              var s := NearestBlessedMatch(target, catalogue).value;
              forall n :: n in Names(catalogue) && n != s && Dist(target, n) == Dist(target, s) ==>
                exists i :: 0 <= i <= |s| && i < |n| && s[..i] == n[..i] && (i == |s| || s[i] < n[i])
  {
    hide Dist, NameLess, ComesFirst;
    if catalogue != [] {
      ClosestIsLeast(target, catalogue);
      var s := Closest(target, catalogue);
      forall n | n in Names(catalogue) && n != s
        ensures Dist(target, s) < Dist(target, n) || (Dist(target, s) == Dist(target, n) && ComesFirst(s, n))
      {
        assert Closer(target, s, n);
        NameLessMeans(s, n);
      }
      forall n | n in Names(catalogue) && n != s && Dist(target, n) == Dist(target, s)
        ensures exists i :: 0 <= i <= |s| && i < |n| && s[..i] == n[..i] && (i == |s| || s[i] < n[i])
      {
        PrefixOrSmaller(s, n);
      }
    }
  }

  lemma NearestIsUnique(target: string, names: set<string>, x: Option<string>, y: Option<string>)
    requires IsNearest(target, names, x) && IsNearest(target, names, y)
    ensures x == y
  {
    hide Dist, NameLess, ComesFirst;
    if x.Some? && y.Some? {
      NameLessIsStrictTotal(x.value, y.value);
      NameLessMeans(x.value, y.value);
      NameLessMeans(y.value, x.value);
    }
  }

  /** The suggestion depends on the names only, not on how the catalogue lists
      them. */
  lemma OrderDoesNotMatter(target: string, c: seq<BlessedAttribute>, d: seq<BlessedAttribute>)
    requires Names(c) == Names(d)
    ensures NearestBlessedMatch(target, c) == NearestBlessedMatch(target, d)
  {
    NearestIsLeast(target, c);
    NearestIsLeast(target, d);
    NearestIsUnique(target, Names(c), NearestBlessedMatch(target, c), NearestBlessedMatch(target, d));
  }

  // ----- The rule-file fields ----------------------------------------------

  const FIELD_THRESHOLD := 3

  /** The loader's variant: distance at most three, first of the closest wins. */
  method NearestField(bad: string, fields: seq<string>) returns (suggestion: Option<string>)
    ensures suggestion.None? <==> forall f :: f in fields ==> Dist(bad, f) > 3
    ensures suggestion.Some? ==>
              exists i :: 0 <= i < |fields| && suggestion.value == fields[i] &&
                          (forall j :: 0 <= j < |fields| ==> Dist(bad, fields[i]) <= Dist(bad, fields[j])) &&
                          (forall j :: 0 <= j < i ==> Dist(bad, fields[i]) < Dist(bad, fields[j]))
  {
    hide Dist;
    suggestion := None;
    var best := 0;
    ghost var at := 0;
    for k := 0 to |fields|
      invariant suggestion.None? ==> forall j :: 0 <= j < k ==> Dist(bad, fields[j]) > FIELD_THRESHOLD
      invariant suggestion.Some? ==>
          && 0 <= at < k && suggestion.value == fields[at] && best == Dist(bad, fields[at]) <= FIELD_THRESHOLD
          && (forall j :: 0 <= j < k ==> best <= Dist(bad, fields[j]))
          && (forall j :: 0 <= j < at ==> best < Dist(bad, fields[j]))
    {
      var distance := Levenshtein(bad, fields[k]);
      if distance > FIELD_THRESHOLD {
        continue;
      }
      if suggestion.None? || distance < best {
        suggestion, best, at := Some(fields[k]), distance, k;
      }
    }
  }
}
