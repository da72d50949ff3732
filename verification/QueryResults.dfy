/** What a product query returns, as sets and counts of its rows: the order of
    the rows, the Pareto path with its late filter, and the exclusion count. */
module QueryResults {
  import opened Text
  import opened Query
  import opened RetrievalModels
  import opened FilterCompiler
  import opened StableSort
  import opened Ranking
  import opened ProductRepository

  // ---- Results are a permutation of the frontier, or of everything ----

  lemma SortedPermutes(views: seq<CandidateView>, sorts: seq<SafeSort>)
    ensures multiset(Sorted(views, sorts)) == multiset(views)
  {
    KeyOrder();
    var pairs := Decorate(views, sorts);
    SortOrdered(pairs, KEY_ORDER);
    ItemsPermute(Sort(pairs, KEY_ORDER), pairs);
    assert Items(pairs) == views;
  }

  function Stripping(): CandidateView -> CandidateView {
    (v: CandidateView) => Strip(v)
  }

  lemma StripPermutes(a: seq<CandidateView>, b: seq<CandidateView>)
    requires multiset(a) == multiset(b)
    ensures multiset(StripAll(a)) == multiset(StripAll(b))
  {
    MappedPermutes(a, b, Stripping());
    assert StripAll(a) == Mapped(a, Stripping()) && StripAll(b) == Mapped(b, Stripping());
  }

  // Ranking one list only permutes and marks it.
  lemma RankedPermutes(views: seq<CandidateView>, sorts: seq<SafeSort>)
    ensures multiset(StripAll(LexicographicResult(views, sorts))) == multiset(StripAll(views))
  {
    SortedPermutes(views, sorts);
    StripPermutes(Sorted(views, sorts), views);
    assert StripAll(LexicographicResult(views, sorts)) == StripAll(Sorted(views, sorts));
  }

  lemma FrontierPermutes(views: seq<CandidateView>, sorts: seq<SafeSort>)
    requires Unmarked(views)
    ensures multiset(StripAll(FrontierResult(views, sorts))) == multiset(FrontierMembers(views, sorts))
  {
    var members := FrontierMembers(views, sorts);
    var pairs := TiePairs(members);
    StringOrder();
    SortOrdered(pairs, STRING_ORDER);
    ItemsPermute(Sort(pairs, STRING_ORDER), pairs);
    var ordered := Items(Sort(pairs, STRING_ORDER));
    assert Items(pairs) == members;
    FilterMembers(views, v => Undominated(v, views, sorts));
    StripPermutes(ordered, members);
    forall i | 0 <= i < |members| ensures Strip(members[i]) == members[i] {
      assert members[i] in views;
    }
    assert StripAll(members) == members;
    assert StripAll(FrontierResult(views, sorts)) == StripAll(ordered);
  }

  // The candidates that the result is made of, before the filter for usable ones:
  // the frontier for two or more sorts without any priority.
  function Pool(views: seq<CandidateView>, sorts: seq<SafeSort>): seq<CandidateView> {
    if |sorts| >= 2 && (forall i :: 0 <= i < |sorts| ==> sorts[i].priority.None?) then FrontierMembers(views, sorts) else views
  }

  lemma UnmarkedIsStripped(views: seq<CandidateView>)
    requires Unmarked(views)
    ensures StripAll(views) == views
  {
  }

  lemma RankedIsPool(views: seq<CandidateView>, sorts: seq<SafeSort>)
    requires Unmarked(views) && sorts != []
    ensures multiset(StripAll(SortCandidatesResult(views, sorts, ParetoRequested(sorts)))) == multiset(Pool(views, sorts))
  {
    UnmarkedIsStripped(views);
    if views == [] {
    } else if ParetoRequested(sorts) {
      RankedPermutes(FrontierResult(views, sorts), sorts);
      FrontierPermutes(views, sorts);
    } else {
      RankedPermutes(views, LexicographicSorts(sorts));
    }
  }

  /** A query returns, up to order and marks and before the limit, exactly the
      usable candidates of the frontier on the Pareto path, and all usable
      candidates otherwise. */
  lemma ResultIsUsablePool(views: seq<CandidateView>, sorts: seq<SafeSort>)
    requires Unmarked(views) && sorts != []
    ensures multiset(StripAll(RankedAndFiltered(views, sorts))) == multiset(Filter(Pool(views, sorts), UsableFor(sorts)))
  {
    var ranked := SortCandidatesResult(views, sorts, ParetoRequested(sorts));
    StripFilter(ranked, sorts);
    RankedIsPool(views, sorts);
    FilterPermutes(StripAll(ranked), Pool(views, sorts), UsableFor(sorts));
  }

  ghost predicate UsableOnFrontier(v: CandidateView, views: seq<CandidateView>, sorts: seq<SafeSort>) {
    v in FrontierMembers(views, sorts) && Usable(v, SortFields(sorts))
  }

  lemma ParetoResultExactly(views: seq<CandidateView>, sorts: seq<SafeSort>, v: CandidateView)
    requires Unmarked(views) && ParetoRequested(sorts)
    ensures v in StripAll(RankedAndFiltered(views, sorts)) <==> UsableOnFrontier(v, views, sorts)
  {
    ResultIsUsablePool(views, sorts);
    FilterMembers(FrontierMembers(views, sorts), UsableFor(sorts));
    assert v in StripAll(RankedAndFiltered(views, sorts)) <==> v in multiset(StripAll(RankedAndFiltered(views, sorts)));
    assert v in Filter(FrontierMembers(views, sorts), UsableFor(sorts)) <==> v in multiset(Filter(FrontierMembers(views, sorts), UsableFor(sorts)));
  }

  // ---- The exclusion count ----

  lemma {:induction false} FilterLoses<T(!new)>(s: seq<T>, keep: T -> bool)
    ensures |Filter(s, keep)| == |s| <==> forall x :: x in s ==> keep(x)
  {
    if s != [] {
      FilterLoses(s[1..], keep);
      FilterHead(s, keep);
      FilterMembers(s[1..], keep);
      assert s == [s[0]] + s[1..];
    }
  }

  lemma {:induction false} FilterSplits<T>(s: seq<T>, keep: T -> bool, drop: T -> bool)
    requires forall i :: 0 <= i < |s| ==> (keep(s[i]) <==> !drop(s[i]))
    ensures |Filter(s, keep)| + |Filter(s, drop)| == |s|
  {
    if s != [] {
      FilterSplits(s[1..], keep, drop);
      FilterHead(s, keep);
      FilterHead(s, drop);
    }
  }

  /** MISSING_RANK_METRIC counts the unusable candidates exactly when no usable
      one is off the frontier: on the lexicographic path always, on the Pareto
      path when every usable candidate is complete and undominated. */
  lemma ExclusionsAreUnusableExactlyWhen(views: seq<CandidateView>, sorts: seq<SafeSort>)
    requires Unmarked(views) && sorts != []
    ensures |views| - |RankedAndFiltered(views, sorts)| == |Filter(views, (v: CandidateView) => !Usable(v, SortFields(sorts)))| <==>
              !ParetoRequested(sorts) || forall v :: v in views && Usable(v, SortFields(sorts)) ==> Undominated(v, views, sorts)
  {
    FilterSplits(views, UsableFor(sorts), (v: CandidateView) => !Usable(v, SortFields(sorts)));
    ResultIsUsablePool(views, sorts);
    SameLength(StripAll(RankedAndFiltered(views, sorts)), Filter(Pool(views, sorts), UsableFor(sorts)));
    if ParetoRequested(sorts) {
      var onFrontier := (v: CandidateView) => Undominated(v, views, sorts);
      var both := (v: CandidateView) => Undominated(v, views, sorts) && UsableFor(sorts)(v);
      FilterTwice(views, onFrontier, UsableFor(sorts), both);
      FilterTwice(views, UsableFor(sorts), onFrontier, both);
      FilterLoses(Filter(views, UsableFor(sorts)), onFrontier);
      FilterMembers(views, UsableFor(sorts));
    }
  }

  // ---- The order of the rows ----

  lemma SameUndominated(a: seq<CandidateView>, b: seq<CandidateView>, sorts: seq<SafeSort>)
    requires multiset(a) == multiset(b)
    ensures multiset(FrontierMembers(a, sorts)) == multiset(FrontierMembers(b, sorts))
  {
    forall v ensures v in a <==> v in b {
      assert v in a <==> v in multiset(a);
    }
    var inA, inB := (v: CandidateView) => Undominated(v, a, sorts), (v: CandidateView) => Undominated(v, b, sorts);
    FilterPermutes(a, b, inA);
    FilterAgree(b, inA, inB);
  }

  ghost predicate DistinctTies(s: seq<CandidateView>) {
    forall i, j :: 0 <= i < j < |s| ==> Tie(s[i]) != Tie(s[j])
  }

  lemma {:induction false} FilterKeepsTies(s: seq<CandidateView>, keep: CandidateView -> bool)
    requires DistinctTies(s)
    ensures DistinctTies(Filter(s, keep))
  {
    if s != [] {
      assert DistinctTies(s[1..]);
      FilterKeepsTies(s[1..], keep);
      FilterHead(s, keep);
      FilterMembers(s[1..], keep);
      var rest := Filter(s[1..], keep);
      forall j | 0 <= j < |rest| ensures Tie(rest[j]) != Tie(s[0]) {
        assert rest[j] in s[1..];
      }
    }
  }

  lemma SameFrontierResult(a: seq<CandidateView>, b: seq<CandidateView>, sorts: seq<SafeSort>)
    requires multiset(a) == multiset(b) && DistinctTies(a)
    ensures FrontierResult(a, sorts) == FrontierResult(b, sorts)
  {
    var p, q := FrontierMembers(a, sorts), FrontierMembers(b, sorts);
    SameUndominated(a, b, sorts);
    FilterKeepsTies(a, v => Undominated(v, a, sorts));
    StringOrder();
    var key := (v: CandidateView) => Tie(v);
    KeyedPermutes(p, q, key);
    assert TiePairs(p) == Keyed(p, key) && TiePairs(q) == Keyed(q, key);
    DistinctByIndex(TiePairs(p));
    SortIgnoresOrder(TiePairs(p), TiePairs(q), STRING_ORDER);
  }

  /** With distinct source keys the whole result, on both paths, is the same for
      every order of the rows. */
  lemma RowOrderIrrelevantToResult(a: seq<CandidateView>, b: seq<CandidateView>, sorts: seq<SafeSort>)
    requires multiset(a) == multiset(b) && DistinctTies(a) && sorts != []
    ensures RankedAndFiltered(a, sorts) == RankedAndFiltered(b, sorts)
  {
    SameLength(a, b);
    if ParetoRequested(sorts) {
      SameFrontierResult(a, b, sorts);
    } else {
      RowOrderIrrelevant(a, b, LexicographicSorts(sorts));
    }
  }

  // ---- Missing values ----

  // No candidate without a value stands before one that has a value.
  ghost predicate MissingLast(ranked: seq<CandidateView>, s: SafeSort) {
    forall i, j :: 0 <= i < j < |ranked| ==> ValueOf(ranked[i], s).Some? || ValueOf(ranked[j], s).None?
  }

  // What a present value of the first field needs to come before a missing one:
  // a zero is settled by the later fields, and the source key after them.
  ghost predicate BeatsMissing(w: CandidateView, v: CandidateView, sorts: seq<SafeSort>)
    requires sorts != [] && ValueOf(w, sorts[0]).Some?
  {
    var value := ValueOf(w, sorts[0]).value;
    sorts[0].direction.ASC? || value > 0.0 || (value == 0.0 && KeyLe(KeyOf(w, sorts[1..]), KeyOf(v, sorts[1..])))
  }

  lemma KeyHead(v: CandidateView, sorts: seq<SafeSort>)
    requires sorts != []
    ensures KeyOf(v, sorts).parts == [KeyPart(v, sorts[0])] + KeyOf(v, sorts[1..]).parts && KeyOf(v, sorts).tie == KeyOf(v, sorts[1..]).tie
  {
  }

  // Keys compare by their first parts, and where these agree by the rest.
  lemma KeyHeadFirst(v: CandidateView, w: CandidateView, sorts: seq<SafeSort>)
    requires sorts != []
    ensures KeyLe(KeyOf(v, sorts), KeyOf(w, sorts)) <==>
              if KeyPart(v, sorts[0]) == KeyPart(w, sorts[0]) then KeyLe(KeyOf(v, sorts[1..]), KeyOf(w, sorts[1..]))
              else PartLe(KeyPart(v, sorts[0]), KeyPart(w, sorts[0]))
  {
    KeyHead(v, sorts);
    KeyHead(w, sorts);
    var p, q := KeyOf(v, sorts).parts, KeyOf(w, sorts).parts;
    var restP, restQ := KeyOf(v, sorts[1..]).parts, KeyOf(w, sorts[1..]).parts;
    assert p[1..] == restP && q[1..] == restQ;
    assert p == q <==> p[0] == q[0] && restP == restQ;
  }

  lemma PresentBeforeMissing(w: CandidateView, v: CandidateView, sorts: seq<SafeSort>)
    requires sorts != [] && ValueOf(w, sorts[0]).Some? && ValueOf(v, sorts[0]).None?
    ensures KeyLe(KeyOf(w, sorts), KeyOf(v, sorts)) <==> BeatsMissing(w, v, sorts)
  {
    KeyHeadFirst(w, v, sorts);
  }

  lemma DecoratedStrictly(views: seq<CandidateView>, sorts: seq<SafeSort>, r: seq<(SortKey, CandidateView)>)
    requires DistinctTies(views) && r == Sort(Decorate(views, sorts), KEY_ORDER)
    ensures forall i, j :: 0 <= i < j < |r| ==> KeyLe(r[i].0, r[j].0) && !KeyLe(r[j].0, r[i].0)
  {
    KeyOrder();
    DistinctByIndex(Decorate(views, sorts));
    SortStrict(Decorate(views, sorts), KEY_ORDER);
    forall p: SortKey, q: SortKey ensures KEY_ORDER(p, q) == KeyLe(p, q) {}
  }

  lemma DecoratedKeys(views: seq<CandidateView>, sorts: seq<SafeSort>, r: seq<(SortKey, CandidateView)>)
    requires r == Sort(Decorate(views, sorts), KEY_ORDER)
    ensures forall i :: 0 <= i < |r| ==> r[i].0 == KeyOf(r[i].1, sorts)
  {
    KeyOrder();
    SortOrdered(Decorate(views, sorts), KEY_ORDER);
    forall i | 0 <= i < |r| ensures r[i].0 == KeyOf(r[i].1, sorts) {
      assert r[i] in multiset(r);
      assert r[i] in multiset(Decorate(views, sorts));
    }
  }

  lemma SortedStrictly(views: seq<CandidateView>, sorts: seq<SafeSort>)
    requires DistinctTies(views)
    ensures var r := Sorted(views, sorts); forall i, j :: 0 <= i < j < |r| ==>
      KeyLe(KeyOf(r[i], sorts), KeyOf(r[j], sorts)) && !KeyLe(KeyOf(r[j], sorts), KeyOf(r[i], sorts))
  {
    var ordered := Sort(Decorate(views, sorts), KEY_ORDER);
    DecoratedStrictly(views, sorts, ordered);
    DecoratedKeys(views, sorts, ordered);
    assert Sorted(views, sorts) == Items(ordered);
  }

  /** Sorting puts the candidates without a value of the first field last exactly
      under ASC, or when under DESC every present value is positive, or zero and
      ahead by the later fields and the source key. */
  lemma MissingLastExactlyWhen(views: seq<CandidateView>, sorts: seq<SafeSort>)
    requires DistinctTies(views) && sorts != []
    ensures MissingLast(Sorted(views, sorts), sorts[0]) <==>
              forall v, w :: v in views && w in views && ValueOf(v, sorts[0]).None? && ValueOf(w, sorts[0]).Some? ==> BeatsMissing(w, v, sorts)
  {
    var r, s := Sorted(views, sorts), sorts[0];
    SortedStrictly(views, sorts);
    SortedMembers(views, sorts);
    if MissingLast(r, s) {
      forall v, w | v in views && w in views && ValueOf(v, s).None? && ValueOf(w, s).Some? ensures BeatsMissing(w, v, sorts) {
        assert v in r && w in r;
        var i :| 0 <= i < |r| && r[i] == v;
        var j :| 0 <= j < |r| && r[j] == w;
        PresentBeforeMissing(w, v, sorts);
      }
    }
    if forall v, w :: v in views && w in views && ValueOf(v, s).None? && ValueOf(w, s).Some? ==> BeatsMissing(w, v, sorts) {
      forall i, j | 0 <= i < j < |r| ensures ValueOf(r[i], s).Some? || ValueOf(r[j], s).None? {
        if ValueOf(r[i], s).None? && ValueOf(r[j], s).Some? {
          assert r[i] in r && r[j] in r;
          PresentBeforeMissing(r[j], r[i], sorts);
        }
      }
    }
  }

  // Two ETFs by daily return, descending: one has none, the other lost one percent.
  const BY_RETURN := SafeSort("return_1d", DESC, None)
  const NO_RETURN := Row("ETF_KR:a", "PREF01N001", "a", None, [], map[])
  const LOSS := Row("ETF_KR:b", "PREF01N001", "b", None, [], map["return_1d" := Number(-1.0)])

  /** A candidate without a value is ranked before a negative one under DESC. */
  lemma MissingBeforeLoss(sourceField: string -> string)
    ensures !MissingLast(Sorted(CandidatesOf([LOSS, NO_RETURN], ETF_KR, ["return_1d"], sourceField), [BY_RETURN]), BY_RETURN)
  {
    var views := CandidatesOf([LOSS, NO_RETURN], ETF_KR, ["return_1d"], sourceField);
    var of := (row: Row) => (f: string) => MetricOf(row, f, sourceField);
    assert ["return_1d"][..0] == [];
    assert FlatMap(["return_1d"], of(LOSS)) == of(LOSS)("return_1d");
    assert FlatMap(["return_1d"], of(NO_RETURN)) == [];
    assert views[0].metrics == MetricOf(LOSS, "return_1d", sourceField) && views[1].metrics == [];
    assert views[0] in views && views[1] in views;
    assert Tie(views[0]) == "b" && Tie(views[1]) == "a";
    assert ValueOf(views[0], BY_RETURN) == Some(-1.0) && ValueOf(views[1], BY_RETURN) == None;
    MissingLastExactlyWhen(views, [BY_RETURN]);
    assert !BeatsMissing(views[0], views[1], [BY_RETURN]);
  }

  // ---- Usable rows ----

  predicate HasValues(row: Row, sorts: seq<SafeSort>) {
    forall s :: s in sorts ==> s.field in row.values && !row.values[s.field].Missing?
  }

  // Flagged as invalid for decisions, with a zero sort value: the one way in
  // which a row with all its values is unusable.
  predicate FlaggedZero(row: Row, sorts: seq<SafeSort>) {
    INVALID_FOR_DECISION in row.flags && exists s :: s in sorts && s.field in row.values && row.values[s.field] == Number(0.0)
  }

  lemma SortFieldMembers(sorts: seq<SafeSort>, field: string)
    ensures field in SortFields(sorts) <==> exists s :: s in sorts && s.field == field
  {
    if s :| s in sorts && s.field == field {
      var k :| 0 <= k < |sorts| && sorts[k] == s;
      assert SortFields(sorts)[k] == field;
    }
  }

  lemma MetricUsableExactlyWhen(row: Row, family: Family, fields: seq<string>, sourceField: string -> string, field: string)
    requires field in fields
    ensures (exists m :: m in CandidateOf(row, family, fields, sourceField).metrics && UsableMetric(m, field)) <==>
              field in row.values && !row.values[field].Missing? && !(row.values[field] == Number(0.0) && INVALID_FOR_DECISION in row.flags)
  {
    var of := f => MetricOf(row, f, sourceField);
    var metrics := CandidateOf(row, family, fields, sourceField).metrics;
    assert metrics == FlatMap(fields, of);
    if m :| m in metrics && UsableMetric(m, field) {
      var f := FlatMapSource(fields, of, m);
    }
    if field in row.values && !row.values[field].Missing? && !(row.values[field] == Number(0.0) && INVALID_FOR_DECISION in row.flags) {
      FlatMapMember(fields, of, field, of(field)[0]);
      assert UsableMetric(of(field)[0], field);
    }
  }

  /** A row is usable exactly when it has all sort values and is no flagged zero. */
  lemma RowUsableExactlyWhen(row: Row, family: Family, fields: seq<string>, sourceField: string -> string, sorts: seq<SafeSort>)
    requires forall f :: f in SortFields(sorts) ==> f in fields
    ensures Usable(CandidateOf(row, family, fields, sourceField), SortFields(sorts)) <==> HasValues(row, sorts) && !FlaggedZero(row, sorts)
  {
    forall s | s in sorts ensures s.field in SortFields(sorts) { SortFieldMembers(sorts, s.field); }
    forall f | f in SortFields(sorts) ensures exists s :: s in sorts && s.field == f { SortFieldMembers(sorts, f); }
    forall f | f in SortFields(sorts)
      ensures (exists m :: m in CandidateOf(row, family, fields, sourceField).metrics && UsableMetric(m, f)) <==>
                f in row.values && !row.values[f].Missing? && !(row.values[f] == Number(0.0) && INVALID_FOR_DECISION in row.flags)
    {
      MetricUsableExactlyWhen(row, family, fields, sourceField, f);
    }
  }

  // The fields that a query reads cover its sorts.
  lemma MetricFieldsCoverSorts(plan: SafeQueryPlan)
    ensures forall f :: f in SortFields(plan.sorts) ==> f in MetricFields(plan)
  {
  }

  // ---- The late filter on the Pareto path ----

  // The query returns exactly the frontier of the usable candidates.
  ghost predicate ReturnsUsableFrontier(views: seq<CandidateView>, sorts: seq<SafeSort>) {
    forall v :: v in StripAll(RankedAndFiltered(views, sorts)) <==> v in FrontierMembers(Filter(views, UsableFor(sorts)), sorts)
  }

  // Row i is usable, and row j, a flagged zero, dominates it.
  predicate Overruled(rows: seq<Row>, views: seq<CandidateView>, sorts: seq<SafeSort>, i: nat, j: nat)
    requires |rows| == |views| && i < |rows| && j < |rows|
  {
    && HasValues(rows[i], sorts) && !FlaggedZero(rows[i], sorts)
    && FlaggedZero(rows[j], sorts) && Dominates(views[j], views[i], sorts)
  }

  // Every usable row that a flagged zero dominates is dominated by a usable row too.
  ghost predicate FlaggedZerosNeverDecide(rows: seq<Row>, views: seq<CandidateView>, sorts: seq<SafeSort>)
    requires |rows| == |views|
  {
    forall i, j :: 0 <= i < |rows| && 0 <= j < |rows| && Overruled(rows, views, sorts, i, j) ==>
      exists k :: 0 <= k < |rows| && !FlaggedZero(rows[k], sorts) && Dominates(views[k], views[i], sorts)
  }

  lemma CandidatesAreUnmarked(rows: seq<Row>, family: Family, fields: seq<string>, sourceField: string -> string)
    ensures Unmarked(CandidatesOf(rows, family, fields, sourceField))
  {
  }

  // A candidate that dominates has all sort values, so it is unusable only as a flagged zero.
  lemma DominatorUsableExactlyWhen(row: Row, other: CandidateView, family: Family, fields: seq<string>, sourceField: string -> string,
                                   sorts: seq<SafeSort>)
    requires forall f :: f in SortFields(sorts) ==> f in fields
    requires Dominates(CandidateOf(row, family, fields, sourceField), other, sorts)
    ensures Usable(CandidateOf(row, family, fields, sourceField), SortFields(sorts)) <==> !FlaggedZero(row, sorts)
  {
    var c := CandidateOf(row, family, fields, sourceField);
    RowUsableExactlyWhen(row, family, fields, sourceField, sorts);
    forall s | s in sorts ensures s.field in row.values && !row.values[s.field].Missing? {
      var k :| 0 <= k < |sorts| && sorts[k] == s;
      assert ValueOf(c, sorts[k]).Some?;
      var m := ValueHasMetric(c.metrics, s.field);
      var f := FlatMapSource(fields, f => MetricOf(row, f, sourceField), m);
    }
  }

  lemma {:induction false} ValueHasMetric(metrics: seq<Metric>, field: string) returns (m: Metric)
    requires MetricValue(metrics, field).Some?
    ensures m in metrics && m.field == field && !m.raw.Missing?
  {
    if metrics[0].field == field && !metrics[0].raw.Missing? {
      m := metrics[0];
    } else {
      m := ValueHasMetric(metrics[1..], field);
    }
  }

  lemma UsableOnlyFrontier(views: seq<CandidateView>, sorts: seq<SafeSort>, v: CandidateView)
    ensures v in FrontierMembers(Filter(views, UsableFor(sorts)), sorts) <==>
              v in views && Usable(v, SortFields(sorts)) && Complete(v, sorts)
              && forall w :: w in views && Usable(w, SortFields(sorts)) ==> !Dominates(w, v, sorts)
  {
    FilterMembers(views, UsableFor(sorts));
    FrontierIsExact(Filter(views, UsableFor(sorts)), sorts);
  }

  lemma ReturnsExactly(views: seq<CandidateView>, sorts: seq<SafeSort>, v: CandidateView)
    requires Unmarked(views) && ParetoRequested(sorts)
    ensures v in StripAll(RankedAndFiltered(views, sorts)) <==>
              v in views && Usable(v, SortFields(sorts)) && Complete(v, sorts) && forall w :: w in views ==> !Dominates(w, v, sorts)
  {
    ParetoResultExactly(views, sorts, v);
    FrontierIsExact(views, sorts);
  }

  // Candidates by their index, with what makes them usable.
  lemma RowsAsCandidates(rows: seq<Row>, family: Family, fields: seq<string>, sourceField: string -> string, sorts: seq<SafeSort>)
    requires forall f :: f in SortFields(sorts) ==> f in fields
    ensures var views := CandidatesOf(rows, family, fields, sourceField);
      && (forall i :: 0 <= i < |rows| ==>
            (Usable(views[i], SortFields(sorts)) <==> HasValues(rows[i], sorts) && !FlaggedZero(rows[i], sorts)))
      && (forall i, j :: 0 <= i < |rows| && 0 <= j < |rows| && Dominates(views[j], views[i], sorts) ==>
            (Usable(views[j], SortFields(sorts)) <==> !FlaggedZero(rows[j], sorts)))
  {
    var views := CandidatesOf(rows, family, fields, sourceField);
    forall i | 0 <= i < |rows|
      ensures Usable(views[i], SortFields(sorts)) <==> HasValues(rows[i], sorts) && !FlaggedZero(rows[i], sorts)
    {
      RowUsableExactlyWhen(rows[i], family, fields, sourceField, sorts);
    }
    forall i, j | 0 <= i < |rows| && 0 <= j < |rows| && Dominates(views[j], views[i], sorts)
      ensures Usable(views[j], SortFields(sorts)) <==> !FlaggedZero(rows[j], sorts)
    {
      DominatorUsableExactlyWhen(rows[j], views[i], family, fields, sourceField, sorts);
    }
  }

  lemma PostFilterExactlyWhen(rows: seq<Row>, family: Family, fields: seq<string>, sourceField: string -> string, sorts: seq<SafeSort>)
    requires ParetoRequested(sorts) && forall f :: f in SortFields(sorts) ==> f in fields
    ensures var views := CandidatesOf(rows, family, fields, sourceField);
      ReturnsUsableFrontier(views, sorts) <==> FlaggedZerosNeverDecide(rows, views, sorts)
  {
    var views := CandidatesOf(rows, family, fields, sourceField);
    CandidatesAreUnmarked(rows, family, fields, sourceField);
    RowsAsCandidates(rows, family, fields, sourceField, sorts);
    if ReturnsUsableFrontier(views, sorts) {
      RightOnlyIf(rows, views, sorts);
    }
    if FlaggedZerosNeverDecide(rows, views, sorts) {
      forall v ensures v in StripAll(RankedAndFiltered(views, sorts)) <==> v in FrontierMembers(Filter(views, UsableFor(sorts)), sorts) {
        RightIf(rows, views, sorts, v);
      }
    }
  }

  ghost predicate ByRow(rows: seq<Row>, views: seq<CandidateView>, sorts: seq<SafeSort>) {
    && |rows| == |views| && Unmarked(views) && ParetoRequested(sorts)
    && (forall i :: 0 <= i < |rows| ==>
          (Usable(views[i], SortFields(sorts)) <==> HasValues(rows[i], sorts) && !FlaggedZero(rows[i], sorts)))
    && (forall i, j :: 0 <= i < |rows| && 0 <= j < |rows| && Dominates(views[j], views[i], sorts) ==>
          (Usable(views[j], SortFields(sorts)) <==> !FlaggedZero(rows[j], sorts)))
  }

  // When the result is right, a usable candidate that something dominates is
  // dominated by a usable one.
  lemma OverruledIsDominated(views: seq<CandidateView>, sorts: seq<SafeSort>, v: CandidateView)
    requires Unmarked(views) && ParetoRequested(sorts) && ReturnsUsableFrontier(views, sorts)
    requires v in views && Usable(v, SortFields(sorts)) && Complete(v, sorts) && exists w :: w in views && Dominates(w, v, sorts)
    ensures exists w :: w in views && Usable(w, SortFields(sorts)) && Dominates(w, v, sorts)
  {
    ReturnsExactly(views, sorts, v);
    UsableOnlyFrontier(views, sorts, v);
  }

  lemma UsableDominatorRow(rows: seq<Row>, views: seq<CandidateView>, sorts: seq<SafeSort>, i: nat, w: CandidateView)
    requires ByRow(rows, views, sorts) && i < |rows| && w in views && Usable(w, SortFields(sorts)) && Dominates(w, views[i], sorts)
    ensures exists k :: 0 <= k < |rows| && !FlaggedZero(rows[k], sorts) && Dominates(views[k], views[i], sorts)
  {
    var k :| 0 <= k < |views| && views[k] == w;
  }

  lemma RightForOverruled(rows: seq<Row>, views: seq<CandidateView>, sorts: seq<SafeSort>, i: nat, j: nat)
    requires ByRow(rows, views, sorts) && ReturnsUsableFrontier(views, sorts)
    requires i < |rows| && j < |rows| && Overruled(rows, views, sorts, i, j)
    ensures exists k :: 0 <= k < |rows| && !FlaggedZero(rows[k], sorts) && Dominates(views[k], views[i], sorts)
  {
    assert views[i] in views && views[j] in views;
    OverruledIsDominated(views, sorts, views[i]);
    var w :| w in views && Usable(w, SortFields(sorts)) && Dominates(w, views[i], sorts);
    UsableDominatorRow(rows, views, sorts, i, w);
  }

  lemma RightOnlyIf(rows: seq<Row>, views: seq<CandidateView>, sorts: seq<SafeSort>)
    requires ByRow(rows, views, sorts) && ReturnsUsableFrontier(views, sorts)
    ensures FlaggedZerosNeverDecide(rows, views, sorts)
  {
    forall i: nat, j: nat | i < |rows| && j < |rows| && Overruled(rows, views, sorts, i, j)
      ensures exists k :: 0 <= k < |rows| && !FlaggedZero(rows[k], sorts) && Dominates(views[k], views[i], sorts)
    {
      RightForOverruled(rows, views, sorts, i, j);
    }
  }

  lemma RightIf(rows: seq<Row>, views: seq<CandidateView>, sorts: seq<SafeSort>, v: CandidateView)
    requires ByRow(rows, views, sorts) && FlaggedZerosNeverDecide(rows, views, sorts)
    ensures v in StripAll(RankedAndFiltered(views, sorts)) <==> v in FrontierMembers(Filter(views, UsableFor(sorts)), sorts)
  {
    ReturnsExactly(views, sorts, v);
    UsableOnlyFrontier(views, sorts, v);
    if v in FrontierMembers(Filter(views, UsableFor(sorts)), sorts) {
      var i :| 0 <= i < |views| && views[i] == v;
      forall w | w in views ensures !Dominates(w, v, sorts) {
        var j :| 0 <= j < |views| && views[j] == w;
        forall k | 0 <= k < |rows| && Dominates(views[k], views[i], sorts) ensures FlaggedZero(rows[k], sorts) {
          assert views[k] in views;
        }
        assert !Overruled(rows, views, sorts, i, j);
      }
    }
  }

  /** The filter comes after Pareto selection. A query still returns exactly the
      frontier of its usable rows if and only if no usable row is dominated by
      rows with a flagged zero only. */
  lemma ParetoPostFilterExactlyWhen(rows: seq<Row>, family: Family, plan: SafeQueryPlan, sourceField: string -> string)
    requires ParetoRequested(plan.sorts)
    ensures var views := CandidatesOf(rows, family, MetricFields(plan), sourceField);
      ReturnsUsableFrontier(views, plan.sorts) <==> FlaggedZerosNeverDecide(rows, views, plan.sorts)
  {
    MetricFieldsCoverSorts(plan);
    PostFilterExactlyWhen(rows, family, MetricFields(plan), sourceField, plan.sorts);
  }

  /** Without a flagged zero the late filter does no harm. */
  lemma NoFlaggedZeroIsRight(rows: seq<Row>, family: Family, plan: SafeQueryPlan, sourceField: string -> string)
    requires ParetoRequested(plan.sorts) && forall row :: row in rows ==> !FlaggedZero(row, plan.sorts)
    ensures ReturnsUsableFrontier(CandidatesOf(rows, family, MetricFields(plan), sourceField), plan.sorts)
  {
    ParetoPostFilterExactlyWhen(rows, family, plan, sourceField);
  }

  // ---- The failing input ----

  // Every curated bond carries the flag, for its buyable quantity. A zero-coupon
  // bond then has a flagged zero.
  function Bond(key: string, coupon: real): Row {
    Row("BOND_KR:" + key, "PRBD01N001", key, None, [INVALID_FOR_DECISION],
        map["coupon_rate" := Number(coupon), "applied_yield" := Number(3.0)])
  }

  const BOND_FIELDS := ["coupon_rate", "applied_yield"]
  const BOND_SORTS := [SafeSort("coupon_rate", ASC, None), SafeSort("applied_yield", DESC, None)]
  const BOND_PLAN := SafeQueryPlan([BOND_KR], [], BOND_SORTS, 10, [])

  lemma BondPlanFields()
    ensures MetricFields(BOND_PLAN) == BOND_FIELDS
  {
    assert BOND_PLAN.metrics + SortFields(BOND_SORTS) == BOND_FIELDS;
    assert BOND_FIELDS[..1] == ["coupon_rate"] && BOND_FIELDS[..1][..0] == [] && |"coupon_rate"| != |"applied_yield"|;
    assert Dedupe(BOND_FIELDS[..1]) == ["coupon_rate"];
  }

  lemma BondMetrics(key: string, coupon: real, sourceField: string -> string)
    ensures var row := Bond(key, coupon);
      CandidateOf(row, BOND_KR, BOND_FIELDS, sourceField).metrics ==
        MetricOf(row, "coupon_rate", sourceField) + MetricOf(row, "applied_yield", sourceField)
  {
    var of := f => MetricOf(Bond(key, coupon), f, sourceField);
    assert BOND_FIELDS[..1] == ["coupon_rate"] && BOND_FIELDS[..1][..0] == [];
    assert FlatMap(BOND_FIELDS[..1], of) == of("coupon_rate");
    assert FlatMap(BOND_FIELDS, of) == of("coupon_rate") + of("applied_yield");
  }

  lemma BondValues(key: string, coupon: real, sourceField: string -> string)
    ensures var c := CandidateOf(Bond(key, coupon), BOND_KR, BOND_FIELDS, sourceField);
      ValueOf(c, BOND_SORTS[0]) == Some(coupon) && ValueOf(c, BOND_SORTS[1]) == Some(3.0)
  {
    var row := Bond(key, coupon);
    BondMetrics(key, coupon, sourceField);
    assert |"coupon_rate"| != |"applied_yield"|;
    var metrics := CandidateOf(row, BOND_KR, BOND_FIELDS, sourceField).metrics;
    assert metrics[0].field == "coupon_rate" && metrics[0].raw == Number(coupon);
    assert metrics[1..] == MetricOf(row, "applied_yield", sourceField);
    assert MetricValue(metrics, "applied_yield") == MetricValue(metrics[1..], "applied_yield");
  }

  // A bond and one with a higher coupon, of the same yield.
  function Bonds(coupon: real): seq<Row> {
    [Bond("1", coupon), Bond("2", coupon + 1.0)]
  }

  function BondCandidates(coupon: real, sourceField: string -> string): (r: seq<CandidateView>)
    ensures |r| == 2
  {
    CandidatesOf(Bonds(coupon), BOND_KR, BOND_FIELDS, sourceField)
  }

  lemma LowerCouponDominates(coupon: real, sourceField: string -> string)
    ensures var views := BondCandidates(coupon, sourceField); Dominates(views[0], views[1], BOND_SORTS)
  {
    var views := BondCandidates(coupon, sourceField);
    BondValues("1", coupon, sourceField);
    BondValues("2", coupon + 1.0, sourceField);
    assert Better(views[0], views[1], BOND_SORTS[0]);
    assert BOND_SORTS[0] in BOND_SORTS;
  }

  lemma BondUsable(key: string, coupon: real, sourceField: string -> string)
    ensures Usable(CandidateOf(Bond(key, coupon), BOND_KR, BOND_FIELDS, sourceField), SortFields(BOND_SORTS)) <==> coupon != 0.0
  {
    var row := Bond(key, coupon);
    RowUsableExactlyWhen(row, BOND_KR, BOND_FIELDS, sourceField, BOND_SORTS);
    assert BOND_SORTS[0] in BOND_SORTS;
  }

  ghost predicate Pair(views: seq<CandidateView>, sorts: seq<SafeSort>) {
    |views| == 2 && Unmarked(views) && ParetoRequested(sorts) && Dominates(views[0], views[1], sorts) && Usable(views[1], SortFields(sorts))
  }

  lemma BondsArePair(coupon: real, sourceField: string -> string)
    requires coupon >= 0.0
    ensures var views := BondCandidates(coupon, sourceField);
      Pair(views, BOND_SORTS) && (Usable(views[0], SortFields(BOND_SORTS)) <==> coupon != 0.0)
  {
    LowerCouponDominates(coupon, sourceField);
    BondUsable("1", coupon, sourceField);
    BondUsable("2", coupon + 1.0, sourceField);
    CandidatesAreUnmarked(Bonds(coupon), BOND_KR, BOND_FIELDS, sourceField);
  }

  lemma UnusableFirstLeavesNothing(views: seq<CandidateView>, sorts: seq<SafeSort>)
    requires Pair(views, sorts) && !Usable(views[0], SortFields(sorts))
    ensures RankedAndFiltered(views, sorts) == [] && !ReturnsUsableFrontier(views, sorts)
  {
    var result := StripAll(RankedAndFiltered(views, sorts));
    forall v | v in result ensures false {
      ReturnsExactly(views, sorts, v);
      NoBondSurvives(views, v, sorts);
    }
    EmptyOrMember(result);
    BondIsFrontier(views, sorts);
  }

  lemma UsableFirstLeavesOne(views: seq<CandidateView>, sorts: seq<SafeSort>)
    requires Pair(views, sorts) && Usable(views[0], SortFields(sorts))
    ensures |RankedAndFiltered(views, sorts)| == 1
  {
    OnlyFirstOnFrontier(views, sorts);
    ResultIsUsablePool(views, sorts);
    assert Filter([views[0]], UsableFor(sorts)) == [views[0]];
    SameLength(StripAll(RankedAndFiltered(views, sorts)), [views[0]]);
  }

  /** The query returns nothing for two bonds of which one is usable: the flagged
      zero dominates it, and is then filtered itself. */
  lemma ParetoPostFilterLosesEverything(sourceField: string -> string)
    ensures ParetoRequested(BOND_PLAN.sorts)
    ensures var views := CandidatesOf(Bonds(0.0), BOND_KR, MetricFields(BOND_PLAN), sourceField);
      && RankedAndFiltered(views, BOND_PLAN.sorts) == [] && Usable(views[1], SortFields(BOND_PLAN.sorts))
      && !ReturnsUsableFrontier(views, BOND_PLAN.sorts)
  {
    BondPlanFields();
    BondsArePair(0.0, sourceField);
    UnusableFirstLeavesNothing(BondCandidates(0.0, sourceField), BOND_SORTS);
  }

  lemma OnlyFirstOnFrontier(views: seq<CandidateView>, sorts: seq<SafeSort>)
    requires |views| == 2 && Dominates(views[0], views[1], sorts)
    ensures FrontierMembers(views, sorts) == [views[0]]
  {
    DominanceStrictPartialOrder(views[0], views[1], views[0], sorts);
    var undominated := (v: CandidateView) => Undominated(v, views, sorts);
    assert views[0] in views && views[1] in views && Complete(views[0], sorts);
    assert undominated(views[0]) && !undominated(views[1]);
    FilterHead(views, undominated);
    FilterHead(views[1..], undominated);
    assert views[1..][1..] == [];
  }

  /** One of two usable bonds is counted as MISSING_RANK_METRIC, because the other
      one dominates it. */
  lemma DominatedBondIsCountedAsMissing(sourceField: string -> string)
    ensures var views := CandidatesOf(Bonds(1.0), BOND_KR, MetricFields(BOND_PLAN), sourceField);
      && |views| - |RankedAndFiltered(views, BOND_PLAN.sorts)| == 1
      && Usable(views[0], SortFields(BOND_PLAN.sorts)) && Usable(views[1], SortFields(BOND_PLAN.sorts))
  {
    BondPlanFields();
    BondsArePair(1.0, sourceField);
    UsableFirstLeavesOne(BondCandidates(1.0, sourceField), BOND_SORTS);
  }

  lemma NoBondSurvives(views: seq<CandidateView>, v: CandidateView, sorts: seq<SafeSort>)
    requires |views| == 2 && Dominates(views[0], views[1], sorts) && !Usable(views[0], SortFields(sorts))
    requires v in views && Usable(v, SortFields(sorts))
    ensures exists w :: w in views && Dominates(w, v, sorts)
  {
    assert v == views[1] && views[0] in views;
  }

  lemma BondIsFrontier(views: seq<CandidateView>, sorts: seq<SafeSort>)
    requires |views| == 2 && Dominates(views[0], views[1], sorts)
    requires !Usable(views[0], SortFields(sorts)) && Usable(views[1], SortFields(sorts))
    ensures views[1] in FrontierMembers(Filter(views, UsableFor(sorts)), sorts)
  {
    UsableOnlyFrontier(views, sorts, views[1]);
    DominanceStrictPartialOrder(views[1], views[1], views[1], sorts);
  }
}
