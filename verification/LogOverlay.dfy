/** The demo log overlay: synthesised records are merged into what the wrapped
    store returns, by time. Reading with a predicate must agree with filtering a
    plain read. */
module LogOverlay {
  import opened Wrappers

  datatype LogRecord = LogRecord(observedAt: nat, service: string, severity: nat, body: string, cause: bool)

  /** A synthesised record, placed `offset` before now. */
  datatype DemoLogSpec = DemoLogSpec(offset: nat, severity: nat, body: string, cause: bool)

  const DEMO_SERVICE := "kaleidoscope-demo"
  const DEMO_TENANT := "acme"

  datatype TimeRange = TimeRange(start: nat, end: nat) {
    predicate Contains(t: nat) {
      start <= t < end
    }
  }

  function SynthesizeLog(spec: DemoLogSpec, now: nat): LogRecord {
    LogRecord(if now >= spec.offset then now - spec.offset else 0, DEMO_SERVICE, spec.severity, spec.body, spec.cause)
  }

  function SynthesizeAll(specs: seq<DemoLogSpec>, now: nat): seq<LogRecord> {
    seq(|specs|, i requires 0 <= i < |specs| => SynthesizeLog(specs[i], now))
  }

  function Filter(rs: seq<LogRecord>, p: LogRecord -> bool): seq<LogRecord> {
    if rs == [] then []
    else Filter(rs[..|rs| - 1], p) + if p(rs[|rs| - 1]) then [rs[|rs| - 1]] else []
  }

  // ----- Stable sorting by time --------------------------------------------

  ghost predicate Sorted(rs: seq<LogRecord>) {
    forall i, j :: 0 <= i < j < |rs| ==> rs[i].observedAt <= rs[j].observedAt
  }

  function ObservedAt(t: nat): LogRecord -> bool {
    (r: LogRecord) => r.observedAt == t
  }

  /** The records observed at `t`, in order. */
  function At(rs: seq<LogRecord>, t: nat): seq<LogRecord> {
    Filter(rs, ObservedAt(t))
  }

  /** `ys` is `xs` sorted by time, records of one time staying in order. */
  ghost predicate IsStableSort(xs: seq<LogRecord>, ys: seq<LogRecord>) {
    Sorted(ys) && forall t :: At(ys, t) == At(xs, t)
  }

  lemma {:induction false} FilterJoins(xs: seq<LogRecord>, ys: seq<LogRecord>, p: LogRecord -> bool)
    ensures Filter(xs + ys, p) == Filter(xs, p) + Filter(ys, p)
  {
    if ys == [] {
      assert xs + ys == xs;
    } else {
      FilterJoins(xs, ys[..|ys| - 1], p);
      assert (xs + ys)[..|xs + ys| - 1] == xs + ys[..|ys| - 1];
    }
  }

  lemma FilterOne(r: LogRecord, p: LogRecord -> bool)
    ensures Filter([r], p) == if p(r) then [r] else []
  {
    assert [r][..0] == [];
  }

  lemma {:induction false} FilterIn(rs: seq<LogRecord>, p: LogRecord -> bool, r: LogRecord)
    ensures r in Filter(rs, p) <==> r in rs && p(r)
  {
    if rs != [] {
      FilterIn(rs[..|rs| - 1], p, r);
      assert rs == rs[..|rs| - 1] + [rs[|rs| - 1]];
    }
  }

  lemma {:induction false} FiltersCommute(rs: seq<LogRecord>, p: LogRecord -> bool, q: LogRecord -> bool)
    ensures Filter(Filter(rs, p), q) == Filter(Filter(rs, q), p)
  {
    if rs != [] {
      var front, last := rs[..|rs| - 1], rs[|rs| - 1];
      FiltersCommute(front, p, q);
      FilterJoins(Filter(front, p), if p(last) then [last] else [], q);
      FilterJoins(Filter(front, q), if q(last) then [last] else [], p);
      FilterOne(last, p);
      FilterOne(last, q);
    }
  }

  lemma {:induction false} FilterKeepsSorted(rs: seq<LogRecord>, p: LogRecord -> bool)
    requires Sorted(rs)
    ensures Sorted(Filter(rs, p))
  {
    if rs != [] {
      var front, last := rs[..|rs| - 1], rs[|rs| - 1];
      FilterKeepsSorted(front, p);
      forall i | 0 <= i < |Filter(front, p)|
        ensures Filter(front, p)[i].observedAt <= last.observedAt
      {
        FilterIn(front, p, Filter(front, p)[i]);
      }
    }
  }

  /** Sorting and filtering may be done in either order. */
  lemma SortCommutesWithFilter(xs: seq<LogRecord>, ys: seq<LogRecord>, p: LogRecord -> bool)
    requires IsStableSort(xs, ys)
    ensures IsStableSort(Filter(xs, p), Filter(ys, p))
  {
    FilterKeepsSorted(ys, p);
    forall t
      ensures At(Filter(ys, p), t) == At(Filter(xs, p), t)
    {
      var atT := ObservedAt(t);
      FiltersCommute(ys, p, atT);
      FiltersCommute(xs, p, atT);
      assert At(ys, t) == At(xs, t);
    }
  }

  lemma LastIsLatest(ys: seq<LogRecord>, r: LogRecord)
    requires Sorted(ys) && r in ys
    ensures r.observedAt <= ys[|ys| - 1].observedAt
  {
  }

  lemma AtEnd(ys: seq<LogRecord>, t: nat)
    requires ys != []
    ensures At(ys, t) == At(ys[..|ys| - 1], t) + if ys[|ys| - 1].observedAt == t then [ys[|ys| - 1]] else []
  {
  }

  lemma SameMembers(ys: seq<LogRecord>, zs: seq<LogRecord>, r: LogRecord)
    requires forall t :: At(ys, t) == At(zs, t)
    ensures r in ys <==> r in zs
  {
    var t := r.observedAt;
    FilterIn(ys, ObservedAt(t), r);
    FilterIn(zs, ObservedAt(t), r);
    assert At(ys, t) == At(zs, t);
  }

  /** A stable sort has one result, whatever the algorithm. */
  lemma {:induction false} StableSortIsUnique(ys: seq<LogRecord>, zs: seq<LogRecord>)
    requires Sorted(ys) && Sorted(zs) && forall t :: At(ys, t) == At(zs, t)
    ensures ys == zs
  {
    hide Filter;
    if ys == [] {
      if zs != [] {
        SameMembers(ys, zs, zs[0]);
      }
    } else {
      var y := ys[|ys| - 1];
      SameMembers(ys, zs, y);
      var z := zs[|zs| - 1];
      SameMembers(ys, zs, z);
      LastIsLatest(ys, z);
      LastIsLatest(zs, y);
      var front, back := ys[..|ys| - 1], zs[..|zs| - 1];
      var t0 := y.observedAt;
      AtEnd(ys, t0);
      AtEnd(zs, t0);
      assert At(front, t0) + [y] == At(ys, t0) == At(zs, t0) == At(back, t0) + [z];
      assert y == (At(front, t0) + [y])[|At(front, t0)|];
      assert |At(front, t0)| == |At(back, t0)|;
      forall t
        ensures At(front, t) == At(back, t)
      {
        AtEnd(ys, t);
        AtEnd(zs, t);
        assert At(ys, t) == At(zs, t);
        if t == t0 {
          assert At(front, t) == (At(front, t0) + [y])[..|At(front, t0)|];
          assert At(back, t) == (At(back, t0) + [z])[..|At(front, t0)|];
        } else {
          assert At(front, t) + [] == At(front, t) && At(back, t) + [] == At(back, t);
        }
      }
      StableSortIsUnique(front, back);
      assert ys == front + [y] && zs == back + [z];
    }
  }

  /** Sort by insertion behind the records of the same time. */
  method SortByTime(records: seq<LogRecord>) returns (sorted: seq<LogRecord>)
    ensures IsStableSort(records, sorted)
  {
    sorted := [];
    for i := 0 to |records|
      invariant IsStableSort(records[..i], sorted)
    {
      var r, k := records[i], |sorted|;
      while k > 0 && sorted[k - 1].observedAt > r.observedAt
        invariant 0 <= k <= |sorted|
        invariant forall j :: k <= j < |sorted| ==> sorted[j].observedAt > r.observedAt
      {
        k := k - 1;
      }
      InsertIsStable(records[..i], sorted, r, k);
      assert records[..i + 1] == records[..i] + [r];
      sorted := Inserted(sorted, r, k);
    }
    assert records[..|records|] == records;
  }

  function Inserted(ys: seq<LogRecord>, r: LogRecord, k: nat): seq<LogRecord>
    requires k <= |ys|
  {
    ys[..k] + [r] + ys[k..]
  }

  lemma InsertKeepsSorted(ys: seq<LogRecord>, r: LogRecord, k: nat)
    requires Sorted(ys) && k <= |ys|
    requires forall j :: k <= j < |ys| ==> ys[j].observedAt > r.observedAt
    requires k > 0 ==> ys[k - 1].observedAt <= r.observedAt
    ensures Sorted(Inserted(ys, r, k))
  {
    var zs := Inserted(ys, r, k);
    assert forall i :: 0 <= i < |zs| ==> zs[i] == if i < k then ys[i] else if i == k then r else ys[i - 1];
  }

  lemma InsertAt(ys: seq<LogRecord>, r: LogRecord, k: nat, t: nat)
    requires k <= |ys| && forall j :: k <= j < |ys| ==> ys[j].observedAt > r.observedAt
    ensures At(Inserted(ys, r, k), t) == At(ys + [r], t)
  {
    hide Filter;
    var p, front, back := ObservedAt(t), ys[..k], ys[k..];
    FilterJoins(front + [r], back, p);
    FilterJoins(front, [r], p);
    FilterJoins(ys, [r], p);
    FilterJoins(front, back, p);
    assert ys == front + back;
    FilterOne(r, p);
    if t == r.observedAt {
      NoneAt(back, p);
    }
  }

  lemma InsertIsStable(xs: seq<LogRecord>, ys: seq<LogRecord>, r: LogRecord, k: nat)
    requires IsStableSort(xs, ys) && k <= |ys|
    requires forall j :: k <= j < |ys| ==> ys[j].observedAt > r.observedAt
    requires k > 0 ==> ys[k - 1].observedAt <= r.observedAt
    ensures IsStableSort(xs + [r], Inserted(ys, r, k))
  {
    hide Filter, Sorted, Inserted;
    InsertKeepsSorted(ys, r, k);
    forall t
      ensures At(Inserted(ys, r, k), t) == At(xs + [r], t)
    {
      InsertAt(ys, r, k, t);
      FilterJoins(ys, [r], ObservedAt(t));
      FilterJoins(xs, [r], ObservedAt(t));
      assert At(ys, t) == At(xs, t);
    }
  }

  lemma {:induction false} NoneAt(rs: seq<LogRecord>, p: LogRecord -> bool)
    requires forall i :: 0 <= i < |rs| ==> !p(rs[i])
    ensures Filter(rs, p) == []
  {
    if rs != [] {
      NoneAt(rs[..|rs| - 1], p);
    }
  }

  // ----- The overlay -------------------------------------------------------

  /** What the wrapped store answers to one read, and to the same read with a
      predicate. */
  datatype Inner<!E> = Inner(query: Result<seq<LogRecord>, E>, queryWith: Result<seq<LogRecord>, E>)

  /** The wrapped store's own promise: a predicate filters. */
  ghost predicate Honest<E>(inner: Inner<E>, p: LogRecord -> bool) {
    match inner.query
    case Ok(rs) => inner.queryWith == Ok(Filter(rs, p))
    case Err(e) => inner.queryWith == Err(e)
  }

  function Within(range: TimeRange, p: LogRecord -> bool): LogRecord -> bool {
    (r: LogRecord) => range.Contains(r.observedAt) && p(r)
  }

  function Anything(): LogRecord -> bool {
    (r: LogRecord) => true
  }

  /** Records merged with those demo records that lie in the range and match. */
  method Merge(records: seq<LogRecord>, specs: seq<DemoLogSpec>, now: nat, range: TimeRange, p: LogRecord -> bool)
    returns (merged: seq<LogRecord>)
    ensures IsStableSort(records + Filter(SynthesizeAll(specs, now), Within(range, p)), merged)
  {
    var extended := records + Filter(SynthesizeAll(specs, now), Within(range, p));
    merged := SortByTime(extended);
  }

  /** A demo record: its time is `offset` before now, not before zero, and in the range;
      it is of the demo service; the rest is as specified. */
  predicate IsDemoRecord(spec: DemoLogSpec, now: nat, range: TimeRange, r: LogRecord) {
    && r == LogRecord(r.observedAt, "kaleidoscope-demo", spec.severity, spec.body, spec.cause)
    && (if now >= spec.offset then r.observedAt == now - spec.offset else r.observedAt == 0)
    && range.start <= r.observedAt && r.observedAt < range.end
  }

  lemma DemoInRange(specs: seq<DemoLogSpec>, now: nat, range: TimeRange, r: LogRecord)
    ensures r in InRange(SynthesizeAll(specs, now), range) <==>
            exists i :: 0 <= i < |specs| && IsDemoRecord(specs[i], now, range, r)
  {
    var all := SynthesizeAll(specs, now);
    FilterIn(all, Within(range, Anything()), r);
    if i :| 0 <= i < |specs| && IsDemoRecord(specs[i], now, range, r) {
      assert all[i] == r;
    }
  }

  method Query<E>(inner: Inner<E>, tenant: string, specs: seq<DemoLogSpec>, now: nat, range: TimeRange)
    returns (r: Result<seq<LogRecord>, E>)
    ensures IsPlainRead(inner, tenant, specs, now, range, r)
    ensures tenant != "acme" || inner.query.Err? ==> r == inner.query
    ensures tenant == "acme" && inner.query.Ok? ==>
              && r.Ok? && (forall i, j :: 0 <= i < j < |r.value| ==> r.value[i].observedAt <= r.value[j].observedAt)
              && forall record :: record in r.value <==>
                   || record in inner.query.value
                   || exists i :: 0 <= i < |specs| && IsDemoRecord(specs[i], now, range, record)
  {
    hide Filter;
    forall sorted, record | inner.query.Ok? &&
        IsStableSort(inner.query.value + InRange(SynthesizeAll(specs, now), range), sorted)
      ensures record in sorted <==>
              || record in inner.query.value
              || exists i :: 0 <= i < |specs| && IsDemoRecord(specs[i], now, range, record)
    {
      SameMembers(inner.query.value + InRange(SynthesizeAll(specs, now), range), sorted, record);
      DemoInRange(specs, now, range, record);
    }
    if tenant != DEMO_TENANT {
      return inner.query;
    }
    var records :- inner.query;
    var merged := Merge(records, specs, now, range, Anything());
    return Ok(merged);
  }

  method QueryWith<E>(inner: Inner<E>, tenant: string, specs: seq<DemoLogSpec>, now: nat, range: TimeRange,
                      p: LogRecord -> bool)
    returns (r: Result<seq<LogRecord>, E>)
    requires Honest(inner, p)
    ensures tenant != "acme" ==> r == inner.queryWith
    ensures forall plain :: IsPlainRead(inner, tenant, specs, now, range, plain) ==>
              match plain
              case Ok(rs) => r == Ok(Filter(rs, p))
              case Err(e) => r == Err(e)
  {
    if tenant != DEMO_TENANT {
      return inner.queryWith;
    }
    var records :- inner.queryWith;
    var merged := Merge(records, specs, now, range, p);
    forall plain: Result<seq<LogRecord>, E> | IsPlainRead(inner, tenant, specs, now, range, plain)
      ensures plain.Ok? && merged == Filter(plain.value, p)
    {
      OverlayAgrees(inner.query.value, SynthesizeAll(specs, now), range, p, plain.value, merged);
    }
    return Ok(merged);
  }

  /** The records a plain read of the overlay may return: there is only one. */
  ghost predicate IsPlainRead<E>(inner: Inner<E>, tenant: string, specs: seq<DemoLogSpec>, now: nat, range: TimeRange,
                                 r: Result<seq<LogRecord>, E>) {
    if tenant != DEMO_TENANT || inner.query.Err? then r == inner.query
    else r.Ok? && IsStableSort(inner.query.value + InRange(SynthesizeAll(specs, now), range), r.value)
  }

  function InRange(rs: seq<LogRecord>, range: TimeRange): seq<LogRecord> {
    Filter(rs, Within(range, Anything()))
  }

  lemma {:induction false} FilterBoth(rs: seq<LogRecord>, range: TimeRange, p: LogRecord -> bool)
    ensures Filter(rs, Within(range, p)) == Filter(InRange(rs, range), p)
  {
    if rs != [] {
      var front, last := rs[..|rs| - 1], rs[|rs| - 1];
      FilterBoth(front, range, p);
      FilterJoins(InRange(front, range), if range.Contains(last.observedAt) then [last] else [], p);
      FilterOne(last, p);
      assert InRange(rs, range) == InRange(front, range) + if range.Contains(last.observedAt) then [last] else [];
    }
  }

  /** The two read paths agree: the predicate path is the plain path, filtered. */
  lemma OverlayAgrees(records: seq<LogRecord>, demo: seq<LogRecord>, range: TimeRange, p: LogRecord -> bool,
                      plain: seq<LogRecord>, merged: seq<LogRecord>)
    requires IsStableSort(records + InRange(demo, range), plain)
    requires IsStableSort(Filter(records, p) + Filter(demo, Within(range, p)), merged)
    ensures merged == Filter(plain, p)
  {
    SortCommutesWithFilter(records + InRange(demo, range), plain, p);
    FilterJoins(records, InRange(demo, range), p);
    FilterBoth(demo, range, p);
    StableSortIsUnique(merged, Filter(plain, p));
  }
}
