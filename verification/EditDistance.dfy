/** The two-row Levenshtein computation, against its meaning: the length of a
    shortest chain of single-character edits. */
module EditDistance {

  // ----- Meaning -----------------------------------------------------------

  /** `t` is `s` with one character inserted, deleted or substituted. */
  ghost predicate Edit(s: string, t: string) {
    || (exists i, c :: 0 <= i <= |s| && t == Inserted(s, i, c))
    || (exists i, c :: 0 <= i <= |t| && s == Inserted(t, i, c))
    || (exists i, c :: 0 <= i < |s| && t == Substituted(s, i, c))
  }

  function Inserted(s: string, i: int, c: char): string
    requires 0 <= i <= |s|
  {
    s[..i] + [c] + s[i..]
  }

  function Substituted(s: string, i: int, c: char): string
    requires 0 <= i < |s|
  {
    s[i := c]
  }

  /** A chain of strings from `a` to `b`, each one edit away from the last. */
  ghost predicate Chain(p: seq<string>, a: string, b: string) {
    p != [] && p[0] == a && p[|p| - 1] == b && forall i :: 0 < i < |p| ==> Edit(p[i - 1], p[i])
  }

  /** `n` edits lead from `a` to `b`, and no fewer do. */
  ghost predicate Shortest(a: string, b: string, n: nat) {
    (exists p :: Chain(p, a, b) && |p| == n + 1) && (forall p :: Chain(p, a, b) ==> |p| >= n + 1)
  }

  // ----- Recurrence --------------------------------------------------------

  function Min(x: nat, y: nat): nat {
    if x <= y then x else y
  }

  function Front(s: string): string
    requires s != []
  {
    s[..|s| - 1]
  }

  function Last(s: string): char
    requires s != []
  {
    s[|s| - 1]
  }

  function Cost(x: char, y: char): nat {
    if x == y then 0 else 1
  }

  function Dist(a: string, b: string): nat
    decreases |a| + |b|
  {
    if a == [] then |b|
    else if b == [] then |a|
    else Min(Min(Dist(Front(a), b) + 1, Dist(a, Front(b)) + 1), Dist(Front(a), Front(b)) + Cost(Last(a), Last(b)))
  }

  // ----- One edit changes the distance by at most one ----------------------

  lemma {:induction false} AppendClose(a: string, b: string)
    requires b != []
    ensures Dist(a, b) <= Dist(a, Front(b)) + 1
    ensures Dist(a, Front(b)) <= Dist(a, b) + 1
    decreases |a| + |b|
  {
    if a != [] {
      AppendClose(Front(a), b);
      DropClose(Front(a), a, Front(b));
    }
  }

  lemma {:induction false} DropClose(front: string, a: string, b: string)
    requires a != [] && front == Front(a)
    ensures Dist(a, b) <= Dist(front, b) + 1
    ensures Dist(front, b) <= Dist(a, b) + 1
    decreases |a| + |b|
  {
    if b != [] {
      DropClose(front, a, Front(b));
      AppendClose(front, b);
    }
  }

  lemma {:induction false} InsertClose(a: string, b: string, i: nat, c: char)
    requires i <= |b|
    ensures Dist(a, Inserted(b, i, c)) <= Dist(a, b) + 1
    ensures Dist(a, b) <= Dist(a, Inserted(b, i, c)) + 1
    decreases |a| + |b|
  {
    var t := Inserted(b, i, c);
    if i == |b| {
      assert Front(t) == b;
      AppendClose(a, t);
    } else if a != [] {
      assert Front(t) == Inserted(Front(b), i, c) && Last(t) == Last(b);
      InsertClose(Front(a), b, i, c);
      InsertClose(a, Front(b), i, c);
      InsertClose(Front(a), Front(b), i, c);
    }
  }

  lemma {:induction false} SubstituteClose(a: string, b: string, i: nat, c: char)
    requires i < |b|
    ensures Dist(a, Substituted(b, i, c)) <= Dist(a, b) + 1
    decreases |a| + |b|
  {
    var t := Substituted(b, i, c);
    if a != [] {
      SubstituteClose(Front(a), b, i, c);
      if i == |b| - 1 {
        assert Front(t) == Front(b);
      } else {
        assert Front(t) == Substituted(Front(b), i, c) && Last(t) == Last(b);
        SubstituteClose(a, Front(b), i, c);
        SubstituteClose(Front(a), Front(b), i, c);
      }
    }
  }

  lemma EditClose(a: string, b: string, c: string)
    requires Edit(b, c)
    ensures Dist(a, c) <= Dist(a, b) + 1
  {
    hide Dist;
    if i, x :| 0 <= i <= |b| && c == Inserted(b, i, x) {
      InsertClose(a, b, i, x);
    } else if i, x :| 0 <= i <= |c| && b == Inserted(c, i, x) {
      InsertClose(a, c, i, x);
    } else {
      var i, x :| 0 <= i < |b| && c == Substituted(b, i, x);
      SubstituteClose(a, b, i, x);
    }
  }

  lemma {:induction false} SelfDistance(a: string)
    ensures Dist(a, a) == 0
  {
    if a != [] {
      SelfDistance(Front(a));
    }
  }

  /** No chain is shorter than the distance. */
  lemma {:induction false} ChainsAreLong(p: seq<string>, a: string, b: string)
    requires Chain(p, a, b)
    ensures Dist(a, b) <= |p| - 1
    decreases |p|
  {
    hide Dist;
    if |p| == 1 {
      SelfDistance(a);
    } else {
      var q := p[..|p| - 1];
      ChainsAreLong(q, a, q[|q| - 1]);
      EditClose(a, q[|q| - 1], b);
    }
  }

  // ----- The distance is reached -------------------------------------------

  lemma EditIsSymmetric(s: string, t: string)
    requires Edit(s, t)
    ensures Edit(t, s)
  {
    if i, c :| 0 <= i < |s| && t == Substituted(s, i, c) {
      assert s == Substituted(t, i, s[i]);
    }
  }

  lemma InsertedUnderSuffix(s: string, i: nat, c: char, x: char)
    requires i <= |s|
    ensures Inserted(s, i, c) + [x] == Inserted(s + [x], i, c)
  {
  }

  lemma SubstitutedUnderSuffix(s: string, i: nat, c: char, x: char)
    requires i < |s|
    ensures Substituted(s, i, c) + [x] == Substituted(s + [x], i, c)
  {
  }

  lemma EditUnderSuffix(s: string, t: string, x: char)
    requires Edit(s, t)
    ensures Edit(s + [x], t + [x])
  {
    hide Inserted, Substituted;
    if i, c :| 0 <= i <= |s| && t == Inserted(s, i, c) {
      InsertedUnderSuffix(s, i, c, x);
    } else if i, c :| 0 <= i <= |t| && s == Inserted(t, i, c) {
      InsertedUnderSuffix(t, i, c, x);
    } else {
      var i, c :| 0 <= i < |s| && t == Substituted(s, i, c);
      SubstitutedUnderSuffix(s, i, c, x);
    }
  }

  function Suffixed(p: seq<string>, x: char): seq<string> {
    seq(|p|, i requires 0 <= i < |p| => p[i] + [x])
  }

  lemma ChainUnderSuffix(p: seq<string>, a: string, b: string, x: char)
    requires Chain(p, a, b)
    ensures Chain(Suffixed(p, x), a + [x], b + [x])
  {
    forall i | 0 < i < |p|
      ensures Edit(Suffixed(p, x)[i - 1], Suffixed(p, x)[i])
    {
      EditUnderSuffix(p[i - 1], p[i], x);
    }
  }

  lemma AppendIsEdit(s: string)
    requires s != []
    ensures Edit(Front(s), s) && Edit(s, Front(s))
  {
    assert s == Inserted(Front(s), |s| - 1, Last(s));
  }

  lemma ChainExtends(p: seq<string>, a: string, b: string, c: string)
    requires Chain(p, a, b) && Edit(b, c)
    ensures Chain(p + [c], a, c)
  {
  }

  lemma ChainPrepends(a: string, b: string, p: seq<string>, c: string)
    requires Edit(a, b) && Chain(p, b, c)
    ensures Chain([a] + p, a, c)
  {
    var q := [a] + p;
    forall i | 0 < i < |q|
      ensures Edit(q[i - 1], q[i])
    {
      if i > 1 {
        assert Edit(p[i - 2], p[i - 1]);
      }
    }
  }

  /** Some chain is as short as the distance. */
  lemma {:induction false} ShortChain(a: string, b: string) returns (p: seq<string>)
    ensures Chain(p, a, b) && |p| == Dist(a, b) + 1
    decreases |a| + |b|
  {
    hide Edit;
    if a == [] && b == [] {
      p := [a];
    } else if a != [] && (b == [] || Dist(a, b) == Dist(Front(a), b) + 1) {
      p := ShortChain(Front(a), b);
      AppendIsEdit(a);
      ChainPrepends(a, Front(a), p, b);
      p := [a] + p;
    } else if a == [] || Dist(a, b) == Dist(a, Front(b)) + 1 {
      p := ShortChain(a, Front(b));
      AppendIsEdit(b);
      ChainExtends(p, a, Front(b), b);
      p := p + [b];
    } else {
      var q := ShortChain(Front(a), Front(b));
      p := Suffixed(q, Last(a));
      ChainUnderSuffix(q, Front(a), Front(b), Last(a));
      assert Front(a) + [Last(a)] == a;
      var mid := Front(b) + [Last(a)];
      if Last(a) == Last(b) {
        assert mid == b;
      } else {
        SubstituteLast(mid, b);
        ChainExtends(p, a, mid, b);
        p := p + [b];
      }
    }
  }

  lemma SubstituteLast(s: string, t: string)
    requires s != [] && t != [] && Front(s) == Front(t)
    ensures Edit(s, t)
  {
    assert |Front(s)| == |Front(t)|;
    assert t == Front(t) + [Last(t)] && s == Front(s) + [Last(s)];
    assert t == Substituted(s, |s| - 1, Last(t));
  }

  /** The recurrence computes the length of a shortest chain of edits. */
  lemma DistIsShortest(a: string, b: string)
    ensures Shortest(a, b, Dist(a, b))
  {
    hide Dist, Chain;
    var p := ShortChain(a, b);
    forall q | Chain(q, a, b)
      ensures |q| >= Dist(a, b) + 1
    {
      ChainsAreLong(q, a, b);
    }
  }

  // ----- A metric ----------------------------------------------------------

  lemma {:induction false} ChainReverses(p: seq<string>, a: string, b: string) returns (q: seq<string>)
    requires Chain(p, a, b)
    ensures Chain(q, b, a) && |q| == |p|
  {
    q := seq(|p|, i requires 0 <= i < |p| => p[|p| - 1 - i]);
    forall i | 0 < i < |q|
      ensures Edit(q[i - 1], q[i])
    {
      assert Edit(p[|p| - 1 - i], p[|p| - i]);
      EditIsSymmetric(p[|p| - 1 - i], p[|p| - i]);
    }
  }

  lemma ChainsJoin(p: seq<string>, a: string, b: string, q: seq<string>, c: string)
    requires Chain(p, a, b) && Chain(q, b, c)
    ensures Chain(p + q[1..], a, c)
  {
    var r := p + q[1..];
    forall i | 0 < i < |r|
      ensures Edit(r[i - 1], r[i])
    {
      if i >= |p| {
        assert Edit(q[i - |p|], q[i - |p| + 1]);
      }
    }
  }

  /** Identity, symmetry and the triangle inequality, from the meaning. */
  lemma {:induction false} DistIsMetric(a: string, b: string, c: string)
    ensures Dist(a, b) == 0 <==> a == b
    ensures Dist(a, b) == Dist(b, a)
    ensures Dist(a, c) <= Dist(a, b) + Dist(b, c)
  {
    hide Dist, Edit;
    SelfDistance(a);
    var p := ShortChain(a, b);
    var p' := ChainReverses(p, a, b);
    ChainsAreLong(p', b, a);
    var q := ShortChain(b, a);
    var q' := ChainReverses(q, b, a);
    ChainsAreLong(q', a, b);
    var r := ShortChain(b, c);
    ChainsJoin(p, a, b, r, c);
    ChainsAreLong(p + r[1..], a, c);
  }

  // ----- The two rows ------------------------------------------------------

  /** The row of the matrix for the first `i` characters of `a`. */
  ghost predicate IsRow(row: seq<nat>, a: string, b: string, i: nat, upTo: nat)
    requires i <= |a| && upTo <= |b|
  {
    |row| == |b| + 1 && forall j :: 0 <= j <= upTo ==> row[j] == Dist(a[..i], b[..j])
  }

  lemma {:induction false} Unfold(a: string, b: string)
    requires a != [] && b != []
    ensures Dist(a, b) == Min(Min(Dist(Front(a), b) + 1, Dist(a, Front(b)) + 1),
                              Dist(Front(a), Front(b)) + Cost(Last(a), Last(b)))
  {
  }

  lemma {:induction false} Cell(a: string, b: string, i: nat, j: nat)
    requires 0 < i <= |a| && 0 < j <= |b|
    ensures Dist(a[..i], b[..j]) ==
            Min(Min(Dist(a[..i - 1], b[..j]) + 1, Dist(a[..i], b[..j - 1]) + 1),
                Dist(a[..i - 1], b[..j - 1]) + Cost(a[i - 1], b[j - 1]))
  {
    hide Dist;
    var x, y := a[..i], b[..j];
    Unfold(x, y);
    assert Front(x) == a[..i - 1] && Front(y) == b[..j - 1];
  }

  /** One row of the matrix from the row above it. */
  method FillRow(a: string, b: string, i: nat, prev: array<nat>, curr: array<nat>)
    requires 0 < i <= |a| && prev != curr && prev.Length == curr.Length == |b| + 1
    requires IsRow(prev[..], a, b, i - 1, |b|)
    modifies curr
    ensures IsRow(curr[..], a, b, i, |b|)
  {
    hide Dist;
    curr[0] := i;
    EmptyDistances(a[..i], b[..0]);
    for j := 1 to |b| + 1
      invariant IsRow(prev[..], a, b, i - 1, |b|)
      invariant IsRow(curr[..], a, b, i, j - 1)
    {
      Cell(a, b, i, j);
      var cost := if a[i - 1] == b[j - 1] then 0 else 1;
      ghost var before := curr[..];
      curr[j] := Min(Min(prev[j] + 1, curr[j - 1] + 1), prev[j - 1] + cost);
      assert curr[..] == before[j := curr[j]];
    }
  }

  method Levenshtein(a: string, b: string) returns (distance: nat)
    ensures distance == Dist(a, b)
    ensures Shortest(a, b, distance)
  {
    hide Shortest, Dist;
    DistIsShortest(a, b);
    EmptyDistances(a, b);
    var m, n := |a|, |b|;
    if m == 0 {
      return n;
    }
    if n == 0 {
      return m;
    }
    var prev := new nat[n + 1](j => j);
    var curr := new nat[n + 1](j => 0);
    forall j | 0 <= j <= n
      ensures prev[j] == Dist(a[..0], b[..j])
    {
      EmptyDistances(a[..0], b[..j]);
    }
    for i := 1 to m + 1
      invariant prev.Length == curr.Length == n + 1 && prev != curr
      invariant fresh(prev) && fresh(curr)
      invariant IsRow(prev[..], a, b, i - 1, n)
    {
      FillRow(a, b, i, prev, curr);
      prev, curr := curr, prev;
    }
    assert a[..m] == a && b[..n] == b;
    distance := prev[n];
  }

  lemma EmptyDistances(a: string, b: string)
    ensures a == [] ==> Dist(a, b) == |b|
    ensures b == [] ==> Dist(a, b) == |a|
  {
  }
}
