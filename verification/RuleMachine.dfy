/** The per-rule alert machine, and what its emissions mean over a whole sequence
    of evaluation ticks. */
module RuleMachine {
  import opened Wrappers

  datatype QueryOutcome = ConditionActive | ConditionInactive

  /** Times are nanoseconds on the system clock. */
  datatype RuleState = Inactive | Pending(since: int) | Firing(since: int)

  datatype Rule = Rule(name: string, forDuration: nat, inhibits: seq<string>)

  /** An incident names its rule; the rest of it is `details`. */
  datatype Incident<+D> = Incident(name: string, details: D)

  datatype Emission<+D> = Fire(incident: Incident<D>) | Resolve(incident: Incident<D>)

  datatype Times = Times(startedAt: int, resolvedAt: Option<int>)

  /** Time since `since`, zero when the clock went backwards. */
  function Dwell(since: int, now: int): nat {
    if now >= since then now - since else 0
  }

  function Transition(state: RuleState, outcome: QueryOutcome, rule: Rule, now: int)
    : (RuleState, Option<Emission<Times>>)
  {
    match (state, outcome)
    case (Inactive, ConditionInactive) => (Inactive, None)
    case (Inactive, ConditionActive) => (Pending(now), None)
    case (Pending(_), ConditionInactive) => (Inactive, None)
    case (Pending(since), ConditionActive) =>
      if Dwell(since, now) >= rule.forDuration
      then (Firing(now), Some(Fire(Incident(rule.name, Times(now, None)))))
      else (Pending(since), None)
    case (Firing(since), ConditionActive) => (Firing(since), None)
    case (Firing(since), ConditionInactive) =>
      (Inactive, Some(Resolve(Incident(rule.name, Times(since, Some(now))))))
  }

  // ----- Runs --------------------------------------------------------------

  datatype Tick = Tick(outcome: QueryOutcome, now: int) {
    predicate Active() {
      outcome.ConditionActive?
    }
  }

  function StateAfter(rule: Rule, ticks: seq<Tick>): RuleState {
    if ticks == [] then Inactive
    else
      var last := ticks[|ticks| - 1];
      Transition(StateAfter(rule, ticks[..|ticks| - 1]), last.outcome, rule, last.now).0
  }

  function EmissionAt(rule: Rule, ticks: seq<Tick>, k: nat): Option<Emission<Times>>
    requires k < |ticks|
  {
    Transition(StateAfter(rule, ticks[..k]), ticks[k].outcome, rule, ticks[k].now).1
  }

  // ----- Meaning -----------------------------------------------------------

  /** Every tick from `j` to `k` saw the condition active, and none just before. */
  ghost predicate Stretch(ticks: seq<Tick>, j: nat, k: nat)
    requires k < |ticks|
  {
    j <= k && (forall i :: j <= i <= k ==> ticks[i].Active()) && (j > 0 ==> !ticks[j - 1].Active())
  }

  /** At `i` the duration has passed since `j`; a clock that went back has not passed it,
      unless there is none to pass. */
  ghost predicate Held(rule: Rule, ticks: seq<Tick>, j: nat, i: nat)
    requires j < |ticks| && i < |ticks|
  {
    rule.forDuration == 0 || ticks[i].now >= ticks[j].now + rule.forDuration
  }

  /** The decision of one evaluation, from the times alone. */
  lemma PendingFires(rule: Rule, since: int, now: int)
    ensures var r := Transition(Pending(since), ConditionActive, rule, now);
            && (r.0.Firing? <==> rule.forDuration == 0 || now >= since + rule.forDuration)
            && (r.0.Firing? ==> r.0.since == now && r.1.Some? && r.1.value.Fire?)
            && (!r.0.Firing? ==> r.0 == Pending(since) && r.1.None?)
  {
  }

  /** `k` is the first tick after the start `j` of its active stretch at which the
      condition has held for the rule's duration. */
  ghost predicate HoldsFirst(rule: Rule, ticks: seq<Tick>, j: nat, k: nat)
    requires k < |ticks|
  {
    && Stretch(ticks, j, k) && j < k && Held(rule, ticks, j, k)
    && forall i :: j < i < k ==> !Held(rule, ticks, j, i)
  }

  function StartOf(ticks: seq<Tick>, k: nat): (j: nat)
    requires k < |ticks| && ticks[k].Active()
    ensures Stretch(ticks, j, k)
  {
    if k == 0 || !ticks[k - 1].Active() then k else StartOf(ticks, k - 1)
  }

  lemma StretchStartsOnce(ticks: seq<Tick>, j: nat, j': nat, k: nat)
    requires k < |ticks| && Stretch(ticks, j, k) && Stretch(ticks, j', k)
    ensures j == j'
  {
  }

  /** The state after tick `k`, from the ticks alone. */
  ghost predicate StateMeans(rule: Rule, ticks: seq<Tick>, k: nat, s: RuleState)
    requires k < |ticks|
  {
    if !ticks[k].Active() then s == Inactive
    else
      var j := StartOf(ticks, k);
      match s
      case Inactive => false
      case Pending(since) => since == ticks[j].now && forall i :: j < i <= k ==> !Held(rule, ticks, j, i)
      case Firing(since) => exists i :: j < i <= k && HoldsFirst(rule, ticks, j, i) && since == ticks[i].now
  }

  lemma {:induction false} StateIsMeant(rule: Rule, ticks: seq<Tick>, k: nat)
    requires k < |ticks|
    ensures StateMeans(rule, ticks, k, StateAfter(rule, ticks[..k + 1]))
  {
    assert ticks[..k + 1][..k] == ticks[..k];
    if k > 0 {
      StateIsMeant(rule, ticks, k - 1);
      if ticks[k].Active() && ticks[k - 1].Active() {
        var j := StartOf(ticks, k);
        var before, after := StateAfter(rule, ticks[..k]), StateAfter(rule, ticks[..k + 1]);
        if before.Pending? && Held(rule, ticks, j, k) {
          assert HoldsFirst(rule, ticks, j, k);
        }
      }
    }
  }

  /** A rule pages exactly at the first tick of an unbroken active stretch, after
      the tick that opened it, at which the condition has held long enough. */
  lemma FiresExactly(rule: Rule, ticks: seq<Tick>, k: nat)
    requires k < |ticks|
    ensures var e := EmissionAt(rule, ticks, k);
            && (e.Some? && e.value.Fire? <==> exists j: nat :: HoldsFirst(rule, ticks, j, k))
            && (e.Some? && e.value.Fire? ==> e.value.incident == Incident(rule.name, Times(ticks[k].now, None)))
  {
    var e := EmissionAt(rule, ticks, k);
    if k > 0 {
      StateIsMeant(rule, ticks, k - 1);
    } else {
      assert ticks[..0] == [];
    }
    if e.Some? && e.value.Fire? {
      assert HoldsFirst(rule, ticks, StartOf(ticks, k), k);
    }
    if j :| HoldsFirst(rule, ticks, j, k) {
      assert Stretch(ticks, j, k - 1);
      StretchStartsOnce(ticks, j, StartOf(ticks, k - 1), k - 1);
    }
  }

  /** The condition has lasted the rule's duration at `i`, for the first time since `j`. */
  ghost predicate Reached(ticks: seq<Tick>, duration: nat, j: nat, i: nat)
    requires j < |ticks| && i < |ticks|
  {
    && (duration == 0 || ticks[i].now >= ticks[j].now + duration)
    && forall m :: j < m < i ==> duration > 0 && ticks[m].now < ticks[j].now + duration
  }

  /** The same from the times alone, for a stretch of active ticks that starts at `j`. */
  lemma FiresByTimes(rule: Rule, ticks: seq<Tick>, j: nat, k: nat)
    requires j <= k < |ticks| && (j > 0 ==> !ticks[j - 1].Active()) && forall i :: j <= i <= k ==> ticks[i].Active()
    ensures EmissionAt(rule, ticks, k).Some? <==> j < k && Reached(ticks, rule.forDuration, j, k)
  {
    hide StateAfter, EmissionAt;
    FiresExactly(rule, ticks, k);
    ResolvesExactly(rule, ticks, k);
    if j': nat :| HoldsFirst(rule, ticks, j', k) {
      StretchStartsOnce(ticks, j, j', k);
      assert HoldsFirst(rule, ticks, j, k);
      forall m | j < m < k
        ensures rule.forDuration > 0 && ticks[m].now < ticks[j].now + rule.forDuration
      {
        assert !Held(rule, ticks, j, m);
      }
    }
    if j < k && Reached(ticks, rule.forDuration, j, k) {
      assert forall m :: j < m < k ==> !Held(rule, ticks, j, m);
      assert HoldsFirst(rule, ticks, j, k);
    }
  }

  /** After a page the rule stays firing, with the time of that page, until the
      condition goes away. */
  lemma FiringSincePage(rule: Rule, ticks: seq<Tick>, i: nat, k: nat)
    requires k < |ticks| && Resolves(rule, ticks, i, k)
    ensures StateAfter(rule, ticks[..k]) == Firing(ticks[i].now)
    ensures EmissionAt(rule, ticks, i).value.incident.details.startedAt == ticks[i].now
  {
    hide StateAfter, EmissionAt;
    FiresExactly(rule, ticks, i);
    var j: nat :| HoldsFirst(rule, ticks, j, i);
    assert Stretch(ticks, j, k - 1);
    StretchStartsOnce(ticks, j, StartOf(ticks, k - 1), k - 1);
    StateIsMeant(rule, ticks, k - 1);
  }

  lemma FiringHasPage(rule: Rule, ticks: seq<Tick>, k: nat) returns (i: nat)
    requires 0 < k < |ticks| && StateAfter(rule, ticks[..k]).Firing? && !ticks[k].Active()
    ensures Resolves(rule, ticks, i, k)
  {
    hide StateAfter, EmissionAt;
    StateIsMeant(rule, ticks, k - 1);
    var j := StartOf(ticks, k - 1);
    i :| j < i <= k - 1 && HoldsFirst(rule, ticks, j, i);
    FiresExactly(rule, ticks, i);
  }

  /** A rule resolves exactly at the first inactive tick after a page, and the
      resolution carries the time of that page. */
  lemma ResolvesExactly(rule: Rule, ticks: seq<Tick>, k: nat)
    requires k < |ticks|
    ensures var e := EmissionAt(rule, ticks, k);
            && (e.Some? && e.value.Resolve? <==> exists i: nat :: Resolves(rule, ticks, i, k))
            && (e.Some? && e.value.Resolve? ==>
                e.value.incident.name == rule.name && e.value.incident.details.resolvedAt == Some(ticks[k].now))
            && forall i: nat :: Resolves(rule, ticks, i, k) && e.Some? && e.value.Resolve? ==>
                 e.value.incident.details.startedAt == EmissionAt(rule, ticks, i).value.incident.details.startedAt
  {
    hide StateAfter;
    var e := EmissionAt(rule, ticks, k);
    forall i: nat | Resolves(rule, ticks, i, k)
      ensures e.Some? && e.value.Resolve?
      ensures e.value.incident.details.startedAt == EmissionAt(rule, ticks, i).value.incident.details.startedAt
    {
      FiringSincePage(rule, ticks, i, k);
    }
    if e.Some? && e.value.Resolve? {
      NothingYet(rule);
      assert ticks[..0] == [];
      var i := FiringHasPage(rule, ticks, k);
    }
  }

  lemma NothingYet(rule: Rule)
    ensures StateAfter(rule, []) == Inactive
  {
  }

  /** Tick `i` paged and tick `k` is the first inactive one after it. */
  ghost predicate Resolves(rule: Rule, ticks: seq<Tick>, i: nat, k: nat)
    requires k < |ticks|
  {
    && i < k && EmissionAt(rule, ticks, i).Some? && EmissionAt(rule, ticks, i).value.Fire?
    && !ticks[k].Active() && forall m :: i <= m < k ==> ticks[m].Active()
  }

  /** The time in a firing state is that of the tick that paged. It is the start of
      the stretch plus the duration exactly when that tick falls on the deadline, and
      it is never before the deadline. */
  lemma FiringSince(rule: Rule, ticks: seq<Tick>, k: nat) returns (j: nat, i: nat)
    requires k < |ticks| && StateAfter(rule, ticks[..k + 1]).Firing?
    ensures j < i <= k && HoldsFirst(rule, ticks, j, i)
    ensures var since, deadline := StateAfter(rule, ticks[..k + 1]).since, ticks[j].now + rule.forDuration;
            && (since == deadline <==> ticks[i].now == deadline)
            && (rule.forDuration > 0 ==> since >= deadline)
  {
    hide StateAfter;
    StateIsMeant(rule, ticks, k);
    j := StartOf(ticks, k);
    i :| j < i <= k && HoldsFirst(rule, ticks, j, i) && StateAfter(rule, ticks[..k + 1]).since == ticks[i].now;
  }

  /** Two ticks five units past the deadline of ten. */
  lemma FiringSinceIsLate(rule: Rule)
    requires rule.forDuration == 10
    ensures StateAfter(rule, [Tick(ConditionActive, 0), Tick(ConditionActive, 15)]) == Firing(15)
  {
    var a, b := Tick(ConditionActive, 0), Tick(ConditionActive, 15);
    assert [a, b][..1] == [a] && [a][..0] == [];
    NothingYet(rule);
    assert StateAfter(rule, [a]) == Pending(0);
  }
}
