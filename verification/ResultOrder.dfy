/** In which order a query returns its rows: the order of the sorts, the values
    that decide, and the marks that ranking leaves. */
module ResultOrder {
  import opened Text
  import opened Query
  import opened RetrievalModels
  import opened FilterCompiler
  import opened StableSort
  import opened Ranking
  import opened ProductRepository
  import opened QueryResults

  // ---- The order of the sorts ----

  // A smaller priority goes first, and no priority counts as ten thousand.
  predicate AheadOf(s: SafeSort, t: SafeSort) {
    match (s.priority, t.priority)
    case (Some(p), Some(q)) => p < q
    case (Some(p), None) => p < 10_000
    case (None, Some(q)) => 10_000 < q
    case (None, None) => false
  }

  function Beside(t: SafeSort): SafeSort -> bool {
    (s: SafeSort) => !AheadOf(s, t) && !AheadOf(t, s)
  }

  /** The sorts are applied in the order of their priorities: a permutation of
      the plan's sorts in which none stands behind one that it is ahead of, and
      sorts of the same priority keep the plan's order. */
  lemma SortsGoByPriority(sorts: seq<SafeSort>)
    ensures var r := LexicographicSorts(sorts);
      && multiset(r) == multiset(sorts)
      && (forall i, j :: 0 <= i < j < |r| ==> !AheadOf(r[j], r[i]))
      && (forall t :: Filter(r, Beside(t)) == Filter(sorts, Beside(t)))
  {
    if AnyPriority(sorts) {
      PrioritySortPermutes(sorts);
      PrioritySortIsOrdered(sorts);
      forall t ensures Filter(ByPriority(sorts), Beside(t)) == Filter(sorts, Beside(t)) {
        PrioritySortIsStable(sorts, t);
      }
    }
  }

  const ASCENDING: (int, int) -> bool := (a, b) => a <= b

  function Prioritised(sorts: seq<SafeSort>): (r: seq<(int, SafeSort)>)
    ensures |r| == |sorts| && Items(r) == sorts
  {
    Keyed(sorts, (s: SafeSort) => PriorityKey(s))
  }

  lemma ByPrioritySorts(sorts: seq<SafeSort>)
    ensures ByPriority(sorts) == Items(Sort(Prioritised(sorts), ASCENDING)) && TotalOrder(ASCENDING)
  {
    var le := (a: int, b: int) => a <= b;
    var pairs := seq(|sorts|, i requires 0 <= i < |sorts| => (PriorityKey(sorts[i]), sorts[i]));
    assert pairs == Prioritised(sorts);
    SameSort(pairs, le, ASCENDING);
  }

  lemma {:induction false} SameInsert<K, T>(x: (K, T), s: seq<(K, T)>, le: (K, K) -> bool, other: (K, K) -> bool)
    requires forall a, b :: le(a, b) == other(a, b)
    ensures Insert(x, s, le) == Insert(x, s, other)
  {
    if s != [] { SameInsert(x, s[1..], le, other); }
  }

  lemma {:induction false} SameSort<K, T>(s: seq<(K, T)>, le: (K, K) -> bool, other: (K, K) -> bool)
    requires forall a, b :: le(a, b) == other(a, b)
    ensures Sort(s, le) == Sort(s, other)
  {
    if s != [] {
      SameSort(s[1..], le, other);
      SameInsert(s[0], Sort(s[1..], le), le, other);
    }
  }

  lemma PrioritySortPermutes(sorts: seq<SafeSort>)
    ensures multiset(ByPriority(sorts)) == multiset(sorts)
  {
    ByPrioritySorts(sorts);
    SortOrdered(Prioritised(sorts), ASCENDING);
    ItemsPermute(Sort(Prioritised(sorts), ASCENDING), Prioritised(sorts));
  }

  // The pairs of the sorted list still carry the key of their sort.
  lemma SortedKeys(sorts: seq<SafeSort>, r: seq<(int, SafeSort)>)
    requires r == Sort(Prioritised(sorts), ASCENDING)
    ensures Ordered(r, ASCENDING) && forall i :: 0 <= i < |r| ==> r[i].0 == PriorityKey(r[i].1)
  {
    ByPrioritySorts(sorts);
    SortOrdered(Prioritised(sorts), ASCENDING);
    forall i | 0 <= i < |r| ensures r[i].0 == PriorityKey(r[i].1) {
      assert r[i] in multiset(r);
      assert r[i] in multiset(Prioritised(sorts));
    }
  }

  lemma PrioritySortIsOrdered(sorts: seq<SafeSort>)
    ensures var r := ByPriority(sorts); forall i, j :: 0 <= i < j < |r| ==> !AheadOf(r[j], r[i])
  {
    var pairs := Sort(Prioritised(sorts), ASCENDING);
    ByPrioritySorts(sorts);
    SortedKeys(sorts, pairs);
    forall i, j | 0 <= i < j < |pairs| ensures !AheadOf(pairs[j].1, pairs[i].1) {
      assert ASCENDING(pairs[i].0, pairs[j].0);
    }
  }

  lemma PrioritySortIsStable(sorts: seq<SafeSort>, t: SafeSort)
    ensures Filter(ByPriority(sorts), Beside(t)) == Filter(sorts, Beside(t))
  {
    var same := (p: (int, SafeSort)) => p.0 == PriorityKey(t);
    var pairs := Sort(Prioritised(sorts), ASCENDING);
    ByPrioritySorts(sorts);
    SortedKeys(sorts, pairs);
    SortIsStable(Prioritised(sorts), ASCENDING, PriorityKey(t), same);
    FilterOfItems(pairs, Beside(t), same);
    FilterOfItems(Prioritised(sorts), Beside(t), same);
  }

  // ---- Which value decides ----

  // b does not come before a once a is better at k and they agree before it.
  lemma {:induction false} BetterDecides(a: CandidateView, b: CandidateView, sorts: seq<SafeSort>, i: nat, k: nat)
    requires i <= k < |sorts| && Complete(a, sorts) && Complete(b, sorts) && Better(a, b, sorts[k])
    requires forall j :: 0 <= j < k ==> !Better(b, a, sorts[j])
    ensures !BeforeFrom(b, a, sorts, i)
    decreases k - i
  {
    if i < k { BetterDecides(a, b, sorts, i + 1, k); }
  }

  // The sort s outranks every sort in which b may be better than a.
  ghost predicate Decides(s: SafeSort, a: CandidateView, b: CandidateView, sorts: seq<SafeSort>) {
    s in sorts && Better(a, b, s) && forall t :: t in sorts && Better(b, a, t) ==> AheadOf(s, t)
  }

  lemma DecidedOrder(a: CandidateView, b: CandidateView, sorts: seq<SafeSort>, s: SafeSort)
    requires Decides(s, a, b, sorts) && Complete(a, LexicographicSorts(sorts)) && Complete(b, LexicographicSorts(sorts))
    ensures !BeforeFrom(b, a, LexicographicSorts(sorts), 0)
  {
    var order := LexicographicSorts(sorts);
    SortsGoByPriority(sorts);
    assert s in multiset(order);
    var k :| 0 <= k < |order| && order[k] == s;
    forall j | 0 <= j < k ensures !Better(b, a, order[j]) {
      assert order[j] in multiset(sorts);
    }
    BetterDecides(a, b, order, 0, k);
  }

  // a stands before b in the list.
  ghost predicate Precedes(a: CandidateView, b: CandidateView, all: seq<CandidateView>) {
    exists i, j :: 0 <= i < j < |all| && all[i] == a && all[j] == b
  }

  lemma UsableAreComplete(views: seq<CandidateView>, sorts: seq<SafeSort>)
    requires forall v :: v in views ==> NumericMetrics(v)
    ensures var pool := Filter(views, UsableFor(sorts)); forall v :: v in pool ==> Complete(v, LexicographicSorts(sorts))
  {
    FilterMembers(views, UsableFor(sorts));
    forall v | v in Filter(views, UsableFor(sorts)) ensures Complete(v, LexicographicSorts(sorts)) {
      UsableIsComplete(v, sorts);
    }
  }

  lemma UsableAreReturned(views: seq<CandidateView>, sorts: seq<SafeSort>)
    requires Unmarked(views) && sorts != [] && !ParetoRequested(sorts)
    ensures forall v :: v in StripAll(RankedAndFiltered(views, sorts)) <==> v in views && Usable(v, SortFields(sorts))
  {
    SortThenFilterIsFilterThenSort(views, sorts);
    SortedMembers(Filter(views, UsableFor(sorts)), LexicographicSorts(sorts));
    FilterMembers(views, UsableFor(sorts));
  }

  lemma NoneBehindIsDecided(views: seq<CandidateView>, sorts: seq<SafeSort>, s: SafeSort, i: nat, j: nat)
    requires Unmarked(views) && sorts != [] && !ParetoRequested(sorts) && i < j < |RankedAndFiltered(views, sorts)|
    requires forall v :: v in Filter(views, UsableFor(sorts)) ==> Complete(v, LexicographicSorts(sorts))
    ensures var all := StripAll(RankedAndFiltered(views, sorts)); !Decides(s, all[j], all[i], sorts)
  {
    var all := StripAll(RankedAndFiltered(views, sorts));
    TopOfUsable(views, sorts, 0, i, j);
    if Decides(s, all[j], all[i], sorts) {
      DecidedOrder(all[j], all[i], sorts, s);
    }
  }

  lemma OneIsAhead(all: seq<CandidateView>, a: CandidateView, b: CandidateView)
    requires a in all && b in all && a != b
    ensures Precedes(a, b, all) || exists i, j :: 0 <= i < j < |all| && all[i] == b && all[j] == a
  {
    var i :| 0 <= i < |all| && all[i] == a;
    var j :| 0 <= j < |all| && all[j] == b;
  }

  /** On the lexicographic path, of two usable candidates the one that is better
      in a field comes first, if that field's priority is ahead of every field in
      which the other one is better. */
  lemma PriorityDecides(views: seq<CandidateView>, sorts: seq<SafeSort>, a: CandidateView, b: CandidateView, s: SafeSort)
    requires Unmarked(views) && (forall v :: v in views ==> NumericMetrics(v)) && !ParetoRequested(sorts)
    requires a in views && b in views && Usable(a, SortFields(sorts)) && Usable(b, SortFields(sorts)) && Decides(s, a, b, sorts)
    ensures Precedes(a, b, StripAll(RankedAndFiltered(views, sorts)))
  {
    var all := StripAll(RankedAndFiltered(views, sorts));
    UsableAreReturned(views, sorts);
    UsableAreComplete(views, sorts);
    OneIsAhead(all, a, b);
    if i, j :| 0 <= i < j < |all| && all[i] == b && all[j] == a {
      NoneBehindIsDecided(views, sorts, s, i, j);
    }
  }

  // ---- The same on rows ----

  lemma {:induction false} FirstMetricOfField(row: Row, fields: seq<string>, sourceField: string -> string, field: string)
    ensures MetricValue(FlatMap(fields, f => MetricOf(row, f, sourceField)), field) ==
              if field in fields && field in row.values && row.values[field].Number? then Some(row.values[field].value) else None
  {
    var of := f => MetricOf(row, f, sourceField);
    if fields != [] {
      var before, last := fields[..|fields| - 1], fields[|fields| - 1];
      FirstMetricOfField(row, before, sourceField, field);
      assert FlatMap(fields, of) == FlatMap(before, of) + of(last);
      assert fields == before + [last];
      FieldOrLater(FlatMap(before, of), of(last), row, before, sourceField, field);
    }
  }

  // The first list decides when it has a present value of the field.
  lemma {:induction false} FirstListDecides(a: seq<Metric>, b: seq<Metric>, field: string)
    ensures MetricValue(a + b, field) ==
              if exists m :: m in a && m.field == field && !m.raw.Missing? then MetricValue(a, field) else MetricValue(b, field)
  {
    if a == [] {
      assert a + b == b;
    } else {
      FirstListDecides(a[1..], b, field);
      assert (a + b)[1..] == a[1..] + b && a == [a[0]] + a[1..];
    }
  }

  lemma FieldOrLater(a: seq<Metric>, b: seq<Metric>, row: Row, fields: seq<string>, sourceField: string -> string, field: string)
    requires a == FlatMap(fields, f => MetricOf(row, f, sourceField))
    ensures MetricValue(a + b, field) ==
              if field in fields && field in row.values && !row.values[field].Missing? then MetricValue(a, field) else MetricValue(b, field)
  {
    var of := f => MetricOf(row, f, sourceField);
    FirstListDecides(a, b, field);
    if m :| m in a && m.field == field && !m.raw.Missing? {
      var f := FlatMapSource(fields, of, m);
    }
    if field in fields && field in row.values && !row.values[field].Missing? {
      FlatMapMember(fields, of, field, of(field)[0]);
    }
  }

  /** What ranking compares is what the row holds: the number in the field's
      column, when the query reads that field, and the row's source key. */
  lemma CandidateRanksByItsRow(row: Row, family: Family, fields: seq<string>, sourceField: string -> string, s: SafeSort)
    ensures var c := CandidateOf(row, family, fields, sourceField);
      && ValueOf(c, s) == (if s.field in fields && s.field in row.values && row.values[s.field].Number?
                           then Some(row.values[s.field].value) else None)
      && Tie(c) == row.sourceKey
  {
    FirstMetricOfField(row, fields, sourceField, s.field);
  }

  // The numbers of two rows in the direction of a sort.
  predicate RowBetter(r: Row, q: Row, s: SafeSort) {
    && s.field in r.values && s.field in q.values && r.values[s.field].Number? && q.values[s.field].Number?
    && if s.direction == ASC then r.values[s.field].value < q.values[s.field].value else r.values[s.field].value > q.values[s.field].value
  }

  ghost predicate RowDecides(s: SafeSort, r: Row, q: Row, sorts: seq<SafeSort>) {
    s in sorts && RowBetter(r, q, s) && forall t :: t in sorts && RowBetter(q, r, t) ==> AheadOf(s, t)
  }

  // Every present value is a number.
  ghost predicate NumericRows(rows: seq<Row>) {
    forall r, f :: r in rows && f in r.values ==> !r.values[f].NotNumeric?
  }

  lemma RowsAreNumeric(rows: seq<Row>, family: Family, fields: seq<string>, sourceField: string -> string)
    requires NumericRows(rows)
    ensures forall v :: v in CandidatesOf(rows, family, fields, sourceField) ==> NumericMetrics(v)
  {
    forall v, m | v in CandidatesOf(rows, family, fields, sourceField) && m in v.metrics ensures m.raw.Number? {
      var i :| 0 <= i < |rows| && CandidatesOf(rows, family, fields, sourceField)[i] == v;
      var f := FlatMapSource(fields, f => MetricOf(rows[i], f, sourceField), m);
      assert rows[i] in rows;
    }
  }

  lemma RowBetterIsBetter(r: Row, q: Row, family: Family, plan: SafeQueryPlan, sourceField: string -> string, s: SafeSort)
    requires s in plan.sorts
    ensures var fields := MetricFields(plan);
      RowBetter(r, q, s) <==> Better(CandidateOf(r, family, fields, sourceField), CandidateOf(q, family, fields, sourceField), s)
  {
    CandidateRanksByItsRow(r, family, MetricFields(plan), sourceField, s);
    CandidateRanksByItsRow(q, family, MetricFields(plan), sourceField, s);
    MetricFieldsCoverSorts(plan);
    SortFieldMembers(plan.sorts, s.field);
  }

  /** Top-k of rows: on the lexicographic path, of two usable rows the one with
      the better number in a field is returned first, if that field's priority is
      ahead of every field in which the other row is better. */
  lemma BetterRowComesFirst(rows: seq<Row>, i: nat, j: nat, family: Family, plan: SafeQueryPlan, sourceField: string -> string, s: SafeSort)
    requires NumericRows(rows) && i < |rows| && j < |rows| && RowDecides(s, rows[i], rows[j], plan.sorts)
    requires |plan.sorts| == 1 || exists k :: 0 <= k < |plan.sorts| && plan.sorts[k].priority.Some?
    requires HasValues(rows[i], plan.sorts) && !FlaggedZero(rows[i], plan.sorts)
    requires HasValues(rows[j], plan.sorts) && !FlaggedZero(rows[j], plan.sorts)
    ensures var views := CandidatesOf(rows, family, MetricFields(plan), sourceField);
      Precedes(views[i], views[j], StripAll(RankedAndFiltered(views, plan.sorts)))
  {
    var fields := MetricFields(plan);
    var views := CandidatesOf(rows, family, fields, sourceField);
    CandidatesAreUnmarked(rows, family, fields, sourceField);
    RowsAreNumeric(rows, family, fields, sourceField);
    MetricFieldsCoverSorts(plan);
    RowUsableExactlyWhen(rows[i], family, fields, sourceField, plan.sorts);
    RowUsableExactlyWhen(rows[j], family, fields, sourceField, plan.sorts);
    forall t | t in plan.sorts ensures RowBetter(rows[j], rows[i], t) <==> Better(views[j], views[i], t) {
      RowBetterIsBetter(rows[j], rows[i], family, plan, sourceField, t);
    }
    RowBetterIsBetter(rows[i], rows[j], family, plan, sourceField, s);
    assert Decides(s, views[i], views[j], plan.sorts);
    PriorityDecides(views, plan.sorts, views[i], views[j], s);
  }

  // ---- Dominance of rows ----

  predicate HasNumbers(r: Row, sorts: seq<SafeSort>) {
    forall s :: s in sorts ==> s.field in r.values && r.values[s.field].Number?
  }

  // At least as good in every sort and better in one, all values being numbers.
  predicate RowDominates(r: Row, q: Row, sorts: seq<SafeSort>) {
    && HasNumbers(r, sorts) && HasNumbers(q, sorts)
    && (forall s :: s in sorts ==> !RowBetter(q, r, s)) && exists s :: s in sorts && RowBetter(r, q, s)
  }

  lemma CompleteRow(r: Row, family: Family, plan: SafeQueryPlan, sourceField: string -> string)
    ensures HasNumbers(r, plan.sorts) <==> Complete(CandidateOf(r, family, MetricFields(plan), sourceField), plan.sorts)
  {
    var v := CandidateOf(r, family, MetricFields(plan), sourceField);
    MetricFieldsCoverSorts(plan);
    forall i | 0 <= i < |plan.sorts|
      ensures ValueOf(v, plan.sorts[i]).Some? <==> plan.sorts[i].field in r.values && r.values[plan.sorts[i].field].Number?
    {
      CandidateRanksByItsRow(r, family, MetricFields(plan), sourceField, plan.sorts[i]);
      SortFieldMembers(plan.sorts, plan.sorts[i].field);
    }
  }

  lemma RowDominatesExactlyWhen(r: Row, q: Row, family: Family, plan: SafeQueryPlan, sourceField: string -> string)
    ensures var fields := MetricFields(plan);
      RowDominates(r, q, plan.sorts) <==> Dominates(CandidateOf(r, family, fields, sourceField), CandidateOf(q, family, fields, sourceField), plan.sorts)
  {
    var a, b := CandidateOf(r, family, MetricFields(plan), sourceField), CandidateOf(q, family, MetricFields(plan), sourceField);
    CompleteRow(r, family, plan, sourceField);
    CompleteRow(q, family, plan, sourceField);
    forall s | s in plan.sorts ensures (RowBetter(r, q, s) <==> Better(a, b, s)) && (RowBetter(q, r, s) <==> Better(b, a, s)) {
      RowBetterIsBetter(r, q, family, plan, sourceField, s);
      RowBetterIsBetter(q, r, family, plan, sourceField, s);
    }
  }

  /** On the Pareto path a row is returned, before the limit, exactly when it has
      a number for every sort, none of them a flagged zero, and no row dominates it. */
  lemma RowIsReturnedExactlyWhen(rows: seq<Row>, i: nat, family: Family, plan: SafeQueryPlan, sourceField: string -> string)
    requires |plan.sorts| >= 2 && (forall k :: 0 <= k < |plan.sorts| ==> plan.sorts[k].priority.None?) && i < |rows|
    ensures var views := CandidatesOf(rows, family, MetricFields(plan), sourceField);
      views[i] in StripAll(RankedAndFiltered(views, plan.sorts)) <==>
        && HasNumbers(rows[i], plan.sorts) && !FlaggedZero(rows[i], plan.sorts)
        && forall j :: 0 <= j < |rows| ==> !RowDominates(rows[j], rows[i], plan.sorts)
  {
    var fields, sorts := MetricFields(plan), plan.sorts;
    var views := CandidatesOf(rows, family, fields, sourceField);
    CandidatesAreUnmarked(rows, family, fields, sourceField);
    ReturnsExactly(views, sorts, views[i]);
    MetricFieldsCoverSorts(plan);
    RowUsableExactlyWhen(rows[i], family, fields, sourceField, sorts);
    CompleteRow(rows[i], family, plan, sourceField);
    forall j | 0 <= j < |rows| ensures RowDominates(rows[j], rows[i], sorts) <==> Dominates(views[j], views[i], sorts) {
      RowDominatesExactlyWhen(rows[j], rows[i], family, plan, sourceField);
    }
    assert (forall w :: w in views ==> !Dominates(w, views[i], sorts)) <==> forall j :: 0 <= j < |rows| ==> !Dominates(views[j], views[i], sorts);
  }

  // ---- The frontier in order ----

  ghost predicate InKeyOrder(s: seq<CandidateView>, sorts: seq<SafeSort>) {
    forall i, j :: 0 <= i < j < |s| ==> KeyLe(KeyOf(s[i], sorts), KeyOf(s[j], sorts))
  }

  lemma SortedInKeyOrder(views: seq<CandidateView>, sorts: seq<SafeSort>)
    ensures InKeyOrder(Sorted(views, sorts), sorts)
  {
    var r := Sort(Decorate(views, sorts), KEY_ORDER);
    KeyOrder();
    SortOrdered(Decorate(views, sorts), KEY_ORDER);
    DecoratedKeys(views, sorts, r);
    forall i, j | 0 <= i < j < |r| ensures KeyLe(r[i].0, r[j].0) {
      assert KEY_ORDER(r[i].0, r[j].0);
    }
    assert Sorted(views, sorts) == Items(r);
  }

  lemma {:induction false} FilterInKeyOrder(s: seq<CandidateView>, sorts: seq<SafeSort>, keep: CandidateView -> bool)
    requires InKeyOrder(s, sorts)
    ensures InKeyOrder(Filter(s, keep), sorts)
  {
    if s != [] {
      assert InKeyOrder(s[1..], sorts);
      FilterInKeyOrder(s[1..], sorts, keep);
      FilterHead(s, keep);
      FilterMembers(s[1..], keep);
      var rest := Filter(s[1..], keep);
      forall j | 0 <= j < |rest| ensures KeyLe(KeyOf(s[0], sorts), KeyOf(rest[j], sorts)) {
        assert rest[j] in s[1..];
      }
    }
  }

  // Marks are no part of a key.
  lemma StrippedKeys(s: seq<CandidateView>, sorts: seq<SafeSort>)
    ensures forall i :: 0 <= i < |s| ==> KeyOf(StripAll(s)[i], sorts) == KeyOf(s[i], sorts)
  {
  }

  lemma MarkedKeys(s: seq<CandidateView>, sorts: seq<SafeSort>)
    ensures forall i :: 0 <= i < |s| ==> KeyOf(MarkAll(s)[i], sorts) == KeyOf(s[i], sorts)
  {
  }

  /** The Pareto path returns its candidates by the directed values, in the
      plan's order of sorts, and then the source key. */
  lemma FrontierComesInOrder(views: seq<CandidateView>, sorts: seq<SafeSort>, i: nat, j: nat)
    requires Unmarked(views) && ParetoRequested(sorts) && i < j < |RankedAndFiltered(views, sorts)|
    ensures var all := StripAll(RankedAndFiltered(views, sorts));
      Complete(all[i], sorts) && Complete(all[j], sorts) && BeforeFrom(all[i], all[j], sorts, 0)
  {
    var frontier, all := FrontierResult(views, sorts), StripAll(RankedAndFiltered(views, sorts));
    SortedInKeyOrder(frontier, sorts);
    MarkedKeys(Sorted(frontier, sorts), sorts);
    FilterInKeyOrder(LexicographicResult(frontier, sorts), sorts, UsableFor(sorts));
    StrippedKeys(RankedAndFiltered(views, sorts), sorts);
    assert all[i] in all && all[j] in all;
    ParetoResultExactly(views, sorts, all[i]);
    ParetoResultExactly(views, sorts, all[j]);
    FrontierIsExact(views, sorts);
    KeyOrderMeaning(all[i], all[j], sorts);
  }

  // ---- The marks ----

  /** Ranking numbers the candidates from one, in order, and gives each exactly
      one reason, which tells the path it came by. */
  lemma RankedMarks(views: seq<CandidateView>, sorts: seq<SafeSort>)
    requires Unmarked(views) && sorts != []
    ensures var r := SortCandidatesResult(views, sorts, ParetoRequested(sorts));
      var pareto := |sorts| >= 2 && forall i :: 0 <= i < |sorts| ==> sorts[i].priority.None?;
      forall i :: 0 <= i < |r| ==> r[i].rank == Some(i + 1) && r[i].reasons == [if pareto then "PARETO_FRONTIER" else "LEXICOGRAPHIC_SORT"]
  {
    if views == [] {
    } else if ParetoRequested(sorts) {
      FrontierHasOneReason(views, sorts);
      SortedMembers(FrontierResult(views, sorts), sorts);
      forall v | v in Sorted(FrontierResult(views, sorts), sorts) ensures v.reasons == ["PARETO_FRONTIER"] {}
      MarkedInOrder(Sorted(FrontierResult(views, sorts), sorts));
    } else {
      SortedMembers(views, LexicographicSorts(sorts));
      forall v | v in Sorted(views, LexicographicSorts(sorts)) ensures v.reasons == [] {
        assert v in views;
      }
      MarkedInOrder(Sorted(views, LexicographicSorts(sorts)));
    }
  }

  lemma MarkedInOrder(s: seq<CandidateView>)
    ensures forall i :: 0 <= i < |s| ==> s[i] in s && MarkAll(s)[i].rank == Some(i + 1)
    ensures forall i :: 0 <= i < |s| ==> MarkAll(s)[i].reasons == if s[i].reasons == [] then ["LEXICOGRAPHIC_SORT"] else s[i].reasons
  {
  }

  lemma FrontierHasOneReason(views: seq<CandidateView>, sorts: seq<SafeSort>)
    requires Unmarked(views)
    ensures forall v :: v in FrontierResult(views, sorts) ==> v.reasons == ["PARETO_FRONTIER"]
  {
    var members := FrontierMembers(views, sorts);
    FilterMembers(views, v => Undominated(v, views, sorts));
    StringOrder();
    SortOrdered(TiePairs(members), STRING_ORDER);
    var ordered := Sort(TiePairs(members), STRING_ORDER);
    forall i | 0 <= i < |ordered| ensures ordered[i].1 in views {
      assert ordered[i] in multiset(ordered);
      assert ordered[i] in multiset(TiePairs(members));
    }
  }
}
