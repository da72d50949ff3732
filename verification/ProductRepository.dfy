/** ProductRepository.query from the row loop on: candidates are built from
    curated rows, ranked, filtered for usable sort metrics, and cut to the
    limit. */
module ProductRepository {
  import opened Text
  import opened Query
  import opened RetrievalModels
  import opened FilterCompiler
  import opened StableSort
  import opened Ranking
  import opened CandidateRanking

  // `excluded` is the MISSING_RANK_METRIC count; zero stands for no entry.
  datatype CandidateBatch = CandidateBatch(
    family: Family, candidates: seq<Candidate>, countBeforeFilter: nat, countAfterFilter: nat, countAfterQuality: nat, excluded: nat)


  function SortFields(sorts: seq<SafeSort>): (r: seq<string>)
    ensures |r| == |sorts|
  {
    seq(|sorts|, i requires 0 <= i < |sorts| => sorts[i].field)
  }

  function MetricFields(plan: SafeQueryPlan): seq<string> {
    Dedupe(plan.metrics + SortFields(plan.sorts))
  }

  function MetricOf(row: Row, field: string, sourceField: string -> string): seq<Metric> {
    if field !in row.values || row.values[field].Missing? then []
    else [Metric(field, sourceField(field), row.values[field], None,
                 if row.values[field] == Number(0.0) && INVALID_FOR_DECISION in row.flags
                 then ["ZERO_VALUE", INVALID_FOR_DECISION] else [])]
  }

  function CandidateOf(row: Row, family: Family, fields: seq<string>, sourceField: string -> string): CandidateView {
    CandidateView(row.uid, family, row.sourceTable, row.sourceKey, row.name, Some(row.sourceKey),
                  FlatMap(fields, f => MetricOf(row, f, sourceField)), [], row.flags, None)
  }

  function CandidatesOf(rows: seq<Row>, family: Family, fields: seq<string>, sourceField: string -> string): (r: seq<CandidateView>)
    ensures |r| == |rows|
  {
    seq(|rows|, i requires 0 <= i < |rows| => CandidateOf(rows[i], family, fields, sourceField))
  }

  predicate UsableMetric(m: Metric, field: string) {
    m.field == field && !m.raw.Missing? && INVALID_FOR_DECISION !in m.flags
  }

  predicate Usable(v: CandidateView, fields: seq<string>) {
    forall f :: f in fields ==> exists m :: m in v.metrics && UsableMetric(m, f)
  }

  function UsableFor(sorts: seq<SafeSort>): CandidateView -> bool {
    (v: CandidateView) => Usable(v, SortFields(sorts))
  }

  predicate ParetoRequested(sorts: seq<SafeSort>) {
    |sorts| > 1 && !AnyPriority(sorts)
  }

  function RankedAndFiltered(views: seq<CandidateView>, sorts: seq<SafeSort>): seq<CandidateView> {
    var ranked := SortCandidatesResult(views, sorts, ParetoRequested(sorts));
    if sorts == [] then ranked else Filter(ranked, UsableFor(sorts))
  }

  function Limited<T>(s: seq<T>, limit: nat): (r: seq<T>)
    ensures |r| == (if |s| <= limit then |s| else limit) && r <= s
  {
    if |s| <= limit then s else s[..limit]
  }

  // ---- The query ----

  // The metric reports a present value of the row, flagged when it is a zero of a flagged row.
  predicate MetricFromRow(m: Metric, row: Row, sourceField: string -> string) {
    && m.field in row.values && m.raw == row.values[m.field] && m.raw != Missing && m.sourceField == sourceField(m.field) && m.asOf == None
    && m.flags == if m.raw == Number(0.0) && INVALID_FOR_DECISION in row.flags then ["ZERO_VALUE", INVALID_FOR_DECISION] else []
  }

  lemma MetricsAreFromRow(row: Row, fields: seq<string>, sourceField: string -> string)
    ensures forall m: Metric :: m in FlatMap(fields, f => MetricOf(row, f, sourceField)) <==> m.field in fields && MetricFromRow(m, row, sourceField)
  {
    var of := f => MetricOf(row, f, sourceField);
    forall m: Metric ensures m in FlatMap(fields, of) <==> m.field in fields && MetricFromRow(m, row, sourceField) {
      if m in FlatMap(fields, of) { var f := FlatMapSource(fields, of, m); }
      if m.field in fields && MetricFromRow(m, row, sourceField) { FlatMapMember(fields, of, m.field, m); }
    }
  }

  method BuildCandidate(row: Row, family: Family, fields: seq<string>, sourceField: string -> string) returns (c: Candidate)
    ensures fresh(c) && c.View() == CandidateOf(row, family, fields, sourceField)
    ensures c.uid == row.uid && c.family == family && c.sourceTable == row.sourceTable && c.sourceKey == row.sourceKey
    ensures c.name == row.name && c.tieBreak == Some(row.sourceKey) && c.qualityFlags == row.flags && c.selectionReasons == []
    ensures forall m :: m in c.metricsUsed <==> m.field in fields && MetricFromRow(m, row, sourceField)
  {
    c := new Candidate(CandidateView(row.uid, family, row.sourceTable, row.sourceKey, row.name, Some(row.sourceKey), [], [], row.flags, None));
    ghost var f, bare := (field: string) => MetricOf(row, field, sourceField), c.View();
    for i := 0 to |fields|
      invariant c.View() == bare.(metrics := c.metricsUsed)
      invariant c.metricsUsed == FlatMap(fields[..i], f)
    {
      assert fields[..i + 1][..i] == fields[..i];
      var metric := MetricIfPresent(row, fields[i], sourceField);
      if metric.Some? {
        c.metricsUsed := c.metricsUsed + [metric.value];
      }
    }
    assert fields[..|fields|] == fields;
    MetricsAreFromRow(row, fields, sourceField);
  }

  // One turn of the metric loop; None stands for `continue`.
  method MetricIfPresent(row: Row, field: string, sourceField: string -> string) returns (m: Option<Metric>)
    ensures MetricOf(row, field, sourceField) == if m.Some? then [m.value] else []
  {
    if field !in row.values || row.values[field].Missing? { return None; }
    var flags: seq<string> := [];
    if row.values[field] == Number(0.0) && INVALID_FOR_DECISION in row.flags {
      flags := flags + ["ZERO_VALUE", INVALID_FOR_DECISION];
      assert flags == ["ZERO_VALUE", INVALID_FOR_DECISION];
    }
    m := Some(Metric(field, sourceField(field), row.values[field], None, flags));
  }

  method BuildCandidates(rows: seq<Row>, family: Family, fields: seq<string>, sourceField: string -> string)
    returns (candidates: seq<Candidate>)
    ensures Unaliased(candidates) && fresh(Objects(candidates))
    ensures Views(candidates) == CandidatesOf(rows, family, fields, sourceField)
  {
    candidates := [];
    for i := 0 to |rows|
      invariant |candidates| == i && Unaliased(candidates) && forall c :: c in candidates ==> fresh(c)
      invariant forall j :: 0 <= j < i ==> candidates[j].View() == CandidateOf(rows[j], family, fields, sourceField)
    {
      var c := BuildCandidate(rows[i], family, fields, sourceField);
      assert c !in candidates;
      candidates := candidates + [c];
    }
  }

  method SelectUsable(ranked: seq<Candidate>, sorts: seq<SafeSort>) returns (kept: seq<Candidate>)
    ensures Views(kept) == Filter(Views(ranked), UsableFor(sorts))
    ensures |kept| <= |ranked|
  {
    kept := [];
    ghost var views := Views(ranked);
    for i := 0 to |ranked|
      invariant |kept| <= i && Views(kept) == Filter(views[..i], UsableFor(sorts))
    {
      FilterSnoc(views, i, UsableFor(sorts));
      if Usable(ranked[i].View(), SortFields(sorts)) {
        kept := kept + [ranked[i]];
      }
    }
    assert views[..|ranked|] == views;
  }

  // `rows` are the selected rows in source key order, `countBefore` the count before the filters.
  method QueryProducts(rows: seq<Row>, countBefore: nat, family: Family, plan: SafeQueryPlan, sourceField: string -> string)
    returns (batch: CandidateBatch)
    ensures var views := CandidatesOf(rows, family, MetricFields(plan), sourceField);
            var kept := RankedAndFiltered(views, plan.sorts);
            && Views(batch.candidates) == Limited(kept, plan.limit)
            && batch.family == family && batch.countBeforeFilter == countBefore
            && batch.countAfterFilter == |rows| && batch.countAfterQuality == |kept|
            && batch.excluded == if plan.sorts == [] then 0 else |rows| - |kept|
    ensures batch.countAfterFilter == batch.countAfterQuality + batch.excluded
  {
    var candidates := BuildCandidates(rows, family, MetricFields(plan), sourceField);
    ghost var views := Views(candidates);
    var ranked := SortCandidates(candidates, plan.sorts, ParetoRequested(plan.sorts));
    var kept := ranked;
    var excluded := 0;
    RankingDoesNotGrow(views, plan.sorts, ParetoRequested(plan.sorts));
    if plan.sorts != [] {
      kept := SelectUsable(ranked, plan.sorts);
      excluded := |candidates| - |kept|;
    }
    var final := Limited(kept, plan.limit);
    assert Views(final) == Limited(Views(kept), plan.limit);
    batch := CandidateBatch(family, final, countBefore, |rows|, |kept|, excluded);
  }

  lemma RankingDoesNotGrow(views: seq<CandidateView>, sorts: seq<SafeSort>, usePareto: bool)
    ensures |SortCandidatesResult(views, sorts, usePareto)| <= |views|
  {
    KeyOrder();
    StringOrder();
    FilterMembers(views, v => Undominated(v, views, sorts));
    SortOrdered(Decorate(views, LexicographicSorts(sorts)), KEY_ORDER);
    SortOrdered(TiePairs(FrontierMembers(views, sorts)), STRING_ORDER);
    SortOrdered(Decorate(FrontierResult(views, sorts), sorts), KEY_ORDER);
  }

  // ---- Sorting before or after the post-filter ----

  // A candidate without what ranking writes.
  function Strip(v: CandidateView): CandidateView {
    v.(reasons := [], rank := None)
  }

  function StripAll(s: seq<CandidateView>): (r: seq<CandidateView>)
    ensures |r| == |s|
  {
    seq(|s|, i requires 0 <= i < |s| => Strip(s[i]))
  }

  ghost predicate Unmarked(s: seq<CandidateView>) {
    forall i :: 0 <= i < |s| ==> Strip(s[i]) == s[i]
  }

  lemma {:induction false} StripFilter(s: seq<CandidateView>, sorts: seq<SafeSort>)
    ensures StripAll(Filter(s, UsableFor(sorts))) == Filter(StripAll(s), UsableFor(sorts))
  {
    if s != [] {
      StripFilter(s[1..], sorts);
      FilterHead(s, UsableFor(sorts));
      FilterHead(StripAll(s), UsableFor(sorts));
      assert StripAll(s)[1..] == StripAll(s[1..]);
    }
  }

  function UsablePair(sorts: seq<SafeSort>): ((SortKey, CandidateView)) -> bool {
    (p: (SortKey, CandidateView)) => UsableFor(sorts)(p.1)
  }

  lemma {:induction false} FilterItems(s: seq<(SortKey, CandidateView)>, sorts: seq<SafeSort>)
    ensures Filter(Items(s), UsableFor(sorts)) == Items(Filter(s, UsablePair(sorts)))
  {
    if s != [] {
      FilterItems(s[1..], sorts);
      FilterHead(s, UsablePair(sorts));
      FilterHead(Items(s), UsableFor(sorts));
      assert Items(s)[1..] == Items(s[1..]);
    }
  }

  lemma {:induction false} FilterDecorated(s: seq<CandidateView>, keySorts: seq<SafeSort>, sorts: seq<SafeSort>)
    ensures Filter(Decorate(s, keySorts), UsablePair(sorts)) == Decorate(Filter(s, UsableFor(sorts)), keySorts)
  {
    if s != [] {
      FilterDecorated(s[1..], keySorts, sorts);
      FilterHead(s, UsableFor(sorts));
      FilterHead(Decorate(s, keySorts), UsablePair(sorts));
      assert Decorate(s, keySorts)[1..] == Decorate(s[1..], keySorts);
    }
  }

  /** On the lexicographic path the code's sort-then-filter is filter-then-sort:
      blocked candidates never change the order of the others. */
  lemma SortThenFilterIsFilterThenSort(views: seq<CandidateView>, sorts: seq<SafeSort>)
    requires Unmarked(views) && sorts != [] && !ParetoRequested(sorts)
    ensures StripAll(RankedAndFiltered(views, sorts)) == Sorted(Filter(views, UsableFor(sorts)), LexicographicSorts(sorts))
  {
    var keySorts := LexicographicSorts(sorts);
    KeyOrder();
    var pairs := Decorate(views, keySorts);
    SortOrdered(pairs, KEY_ORDER);
    StripFilter(LexicographicResult(views, keySorts), sorts);
    SortedUnmarked(views, keySorts);
    assert StripAll(LexicographicResult(views, keySorts)) == Sorted(views, keySorts);
    FilterItems(Sort(pairs, KEY_ORDER), sorts);
    SortFilter(pairs, KEY_ORDER, UsablePair(sorts));
    FilterDecorated(views, keySorts, sorts);
  }

  lemma SortedUnmarked(views: seq<CandidateView>, sorts: seq<SafeSort>)
    requires Unmarked(views)
    ensures Unmarked(Sorted(views, sorts))
  {
    KeyOrder();
    SortedMembers(views, sorts);
    forall i | 0 <= i < |Sorted(views, sorts)| ensures Strip(Sorted(views, sorts)[i]) == Sorted(views, sorts)[i] {
      assert Sorted(views, sorts)[i] in Sorted(views, sorts);
    }
  }

  lemma SortedMembers(views: seq<CandidateView>, sorts: seq<SafeSort>)
    ensures |Sorted(views, sorts)| == |views|
    ensures forall v :: v in Sorted(views, sorts) <==> v in views
  {
    KeyOrder();
    var pairs := Decorate(views, sorts);
    var result := Sort(pairs, KEY_ORDER);
    SortOrdered(pairs, KEY_ORDER);
    forall v | v in Sorted(views, sorts) ensures v in views {
      var i :| 0 <= i < |result| && result[i].1 == v;
      assert result[i] in multiset(pairs);
    }
    forall v | v in views ensures v in Sorted(views, sorts) {
      var i :| 0 <= i < |views| && views[i] == v;
      assert pairs[i] in multiset(result);
      var j :| 0 <= j < |result| && result[j] == pairs[i];
      assert Items(result)[j] == v;
    }
  }

  /** The result of the lexicographic path is the true top of the usable
      candidates: everything returned comes before everything usable that the
      limit cuts off, by directed values and then source key. */
  lemma TopOfUsable(views: seq<CandidateView>, sorts: seq<SafeSort>, limit: nat, i: nat, j: nat)
    requires Unmarked(views) && sorts != [] && !ParetoRequested(sorts)
    requires var pool := Filter(views, UsableFor(sorts)); forall v :: v in pool ==> Complete(v, LexicographicSorts(sorts))
    requires i < j < |RankedAndFiltered(views, sorts)|
    ensures var all := StripAll(RankedAndFiltered(views, sorts));
            && (forall v :: v in all <==> v in views && Usable(v, SortFields(sorts)))
            && Complete(all[i], LexicographicSorts(sorts)) && Complete(all[j], LexicographicSorts(sorts))
            && BeforeFrom(all[i], all[j], LexicographicSorts(sorts), 0)
            && StripAll(Limited(RankedAndFiltered(views, sorts), limit)) == Limited(all, limit)
  {
    var keySorts, pool := LexicographicSorts(sorts), Filter(views, UsableFor(sorts));
    SortThenFilterIsFilterThenSort(views, sorts);
    FilterMembers(views, UsableFor(sorts));
    SortedMembers(pool, keySorts);
    SortedMeaning(pool, keySorts, i, j);
  }

  lemma SortedMeaning(pool: seq<CandidateView>, sorts: seq<SafeSort>, i: nat, j: nat)
    requires forall v :: v in pool ==> Complete(v, sorts)
    requires i < j < |Sorted(pool, sorts)|
    ensures var s := Sorted(pool, sorts);
            Complete(s[i], sorts) && Complete(s[j], sorts) && BeforeFrom(s[i], s[j], sorts, 0)
  {
    KeyOrder();
    var pairs := Decorate(pool, sorts);
    var result := Sort(pairs, KEY_ORDER);
    SortOrdered(pairs, KEY_ORDER);
    assert result[i] in multiset(pairs) && result[j] in multiset(pairs);
    assert result[i].1 in pool && result[j].1 in pool;
    KeyOrderMeaning(result[i].1, result[j].1, sorts);
  }

  // Every raw metric value is a number.
  predicate NumericMetrics(v: CandidateView) {
    forall m :: m in v.metrics ==> m.raw.Number?
  }

  lemma {:induction false} NumericMetricFound(metrics: seq<Metric>, field: string)
    requires forall m :: m in metrics ==> m.raw.Number?
    requires exists m :: m in metrics && m.field == field
    ensures MetricValue(metrics, field).Some?
  {
    assert metrics == [metrics[0]] + metrics[1..];
    if metrics[0].field != field {
      NumericMetricFound(metrics[1..], field);
    }
  }

  /** With numeric metrics a usable candidate has every sort value. */
  lemma UsableIsComplete(v: CandidateView, sorts: seq<SafeSort>)
    requires NumericMetrics(v) && Usable(v, SortFields(sorts))
    ensures Complete(v, LexicographicSorts(sorts))
  {
    ByPriorityMembers(sorts);
    forall i | 0 <= i < |LexicographicSorts(sorts)| ensures ValueOf(v, LexicographicSorts(sorts)[i]).Some? {
      var s := LexicographicSorts(sorts)[i];
      assert s in sorts;
      var k :| 0 <= k < |sorts| && sorts[k] == s;
      assert SortFields(sorts)[k] == s.field && s.field in SortFields(sorts);
      NumericMetricFound(v.metrics, s.field);
    }
  }

  lemma ByPriorityMembers(sorts: seq<SafeSort>)
    ensures forall s :: s in LexicographicSorts(sorts) ==> s in sorts
  {
    var le := (a: int, b: int) => a <= b;
    var pairs := seq(|sorts|, i requires 0 <= i < |sorts| => (PriorityKey(sorts[i]), sorts[i]));
    SortOrdered(pairs, le);
    forall s | s in ByPriority(sorts) ensures s in sorts {
      var i :| 0 <= i < |Sort(pairs, le)| && Sort(pairs, le)[i].1 == s;
      assert Sort(pairs, le)[i] in multiset(pairs);
    }
  }

  /** With distinct source keys the ranking does not depend on the row order. */
  lemma RowOrderIrrelevant(a: seq<CandidateView>, b: seq<CandidateView>, sorts: seq<SafeSort>)
    requires multiset(a) == multiset(b)
    requires forall i, j :: 0 <= i < j < |a| ==> Tie(a[i]) != Tie(a[j])
    ensures Sorted(a, sorts) == Sorted(b, sorts)
  {
    KeyOrder();
    DistinctByIndex(Decorate(a, sorts));
    DecoratedMultiset(a, b, sorts);
    SortIgnoresOrder(Decorate(a, sorts), Decorate(b, sorts), KEY_ORDER);
  }

  lemma DecoratedMultiset(a: seq<CandidateView>, b: seq<CandidateView>, sorts: seq<SafeSort>)
    requires multiset(a) == multiset(b)
    ensures multiset(Decorate(a, sorts)) == multiset(Decorate(b, sorts))
  {
    var key := (v: CandidateView) => KeyOf(v, sorts);
    KeyedPermutes(a, b, key);
    assert Decorate(a, sorts) == Keyed(a, key) && Decorate(b, sorts) == Keyed(b, key);
  }
}
