/** From the preliminary decision to the final one: bundles are built for the
    selected candidates, validated, and the failures removed. No candidate is
    lost or answered without evidence on the way. */
module EvidencePipeline {
  import opened Text
  import opened Query
  import opened RetrievalModels
  import opened ResultMerger
  import opened PolicyEngine
  import opened EvidenceBuilder
  import opened EvidenceManager
  import ProductRepository

  // What validation checks against.
  datatype Source = Source(version: int, store: Store, rendering: Rendering)

  function Accept(s: Source): Bundle -> bool {
    Accepts(s.version, s.store, s.rendering)
  }

  function Dropped(s: Source): Bundle -> seq<Outcome> {
    OutcomesOf(s.version, s.store, s.rendering)
  }

  function ValidationOf(uids: seq<string>, m: Result, f: Formats, s: Source): Validation {
    Validated(Bundles(uids, m, f), s.version, s.store, s.rendering)
  }

  predicate Known(m: Result, uid: string) {
    HasUid(m.candidates, uid)
  }

  // The candidate exists and its bundle survives validation.
  predicate Survives(m: Result, f: Formats, s: Source, uid: string) {
    var c := LastByUid(m.candidates, uid);
    c.Some? && Accept(s)(BundleOf(c.value, m, f))
  }

  function Survivor(m: Result, f: Formats, s: Source): string -> bool {
    (uid: string) => Survives(m, f, s, uid)
  }

  // ---- Counting ----

  lemma OneBundle(uid: string, m: Result, f: Formats, s: Source)
    ensures BundleUids(Filter(BundleFor(uid, m, f), Accept(s))) == if Survives(m, f, s, uid) then [uid] else []
    ensures |FlatMap(BundleFor(uid, m, f), Dropped(s))| == if Known(m, uid) && !Survives(m, f, s, uid) then 1 else 0
  {
    LastByUidFound(m.candidates, uid);
    var bs := BundleFor(uid, m, f);
    if bs != [] {
      assert bs[..0] == [] && bs[1..] == [];
    }
  }

  lemma {:induction false} FlatMapAppend<T, U>(a: seq<T>, b: seq<T>, f: T -> seq<U>)
    ensures FlatMap(a + b, f) == FlatMap(a, f) + FlatMap(b, f)
  {
    if b == [] {
      assert a + b == a;
    } else {
      var n := |b| - 1;
      assert (a + b)[..|a + b| - 1] == a + b[..n];
      FlatMapAppend(a, b[..n], f);
    }
  }

  /** Validated bundles are the survivors in selection order, and every other
      known uid is dropped exactly once. */
  lemma {:induction false} KeptOrDropped(uids: seq<string>, m: Result, f: Formats, s: Source)
    ensures var v := ValidationOf(uids, m, f, s);
      && BundleUids(v.bundles) == Filter(uids, Survivor(m, f, s))
      && ((forall uid :: uid in uids ==> Known(m, uid)) ==> |v.bundles| + |v.outcomes| == |uids|)
  {
    if uids != [] {
      var n := |uids| - 1;
      var before, bs := Bundles(uids[..n], m, f), BundleFor(uids[n], m, f);
      KeptOrDropped(uids[..n], m, f, s);
      OneBundle(uids[n], m, f, s);
      FilterAppend(before, bs, Accept(s));
      FlatMapAppend(before, bs, Dropped(s));
      FilterSnoc(uids, n, Survivor(m, f, s));
      assert uids[..n + 1] == uids;
      UidsAppend(Filter(before, Accept(s)), Filter(bs, Accept(s)));
      forall uid | uid in uids[..n] ensures uid in uids {}
    }
  }

  lemma UidsAppend(a: seq<Bundle>, b: seq<Bundle>)
    ensures BundleUids(a + b) == BundleUids(a) + BundleUids(b)
  {
  }

  // ---- Who is blocked ----

  lemma OutcomeSource(bundles: seq<Bundle>, s: Source, uid: string) returns (b: Bundle)
    requires uid in OutcomeUids(FlatMap(bundles, Dropped(s)))
    ensures b in bundles && b.uid == uid && !Accept(s)(b)
  {
    var outcomes := FlatMap(bundles, Dropped(s));
    var k :| 0 <= k < |outcomes| && outcomes[k].uid == uid;
    assert outcomes[k] in outcomes;
    b := FlatMapSource(bundles, Dropped(s), outcomes[k]);
  }

  lemma BlockedIsDropped(uids: seq<string>, m: Result, f: Formats, s: Source, uid: string)
    requires uid in OutcomeUids(ValidationOf(uids, m, f, s).outcomes)
    ensures Known(m, uid) && !Survives(m, f, s, uid)
  {
    var b := OutcomeSource(Bundles(uids, m, f), s, uid);
    var c := BundleContents(uids, m, f, b);
    LastByUidFound(m.candidates, uid);
  }

  lemma DroppedIsBlocked(uids: seq<string>, m: Result, f: Formats, s: Source, uid: string)
    requires uid in uids && Known(m, uid) && !Survives(m, f, s, uid)
    ensures uid in OutcomeUids(ValidationOf(uids, m, f, s).outcomes)
  {
    LastByUidFound(m.candidates, uid);
    var b := BundleOf(LastByUid(m.candidates, uid).value, m, f);
    FlatMapMember(uids, BundlesOf(m, f), uid, b);
    var outcome := Dropped(s)(b)[0];
    FlatMapMember(Bundles(uids, m, f), Dropped(s), b, outcome);
    var outcomes := ValidationOf(uids, m, f, s).outcomes;
    var k :| 0 <= k < |outcomes| && outcomes[k] == outcome;
    assert OutcomeUids(outcomes)[k] == uid;
  }

  /** The uids that stay are the survivors and the unknown ones. */
  lemma RemainingExactly(uids: seq<string>, m: Result, f: Formats, s: Source)
    ensures Filter(uids, NotBlocked(ValidationOf(uids, m, f, s))) ==
            Filter(uids, (uid: string) => Survives(m, f, s, uid) || !Known(m, uid))
  {
    forall uid | uid in uids
      ensures NotBlocked(ValidationOf(uids, m, f, s))(uid) <==> Survives(m, f, s, uid) || !Known(m, uid)
    {
      if uid in OutcomeUids(ValidationOf(uids, m, f, s).outcomes) {
        BlockedIsDropped(uids, m, f, s, uid);
      } else if Known(m, uid) && !Survives(m, f, s, uid) {
        DroppedIsBlocked(uids, m, f, s, uid);
      }
    }
    FilterAgree(uids, NotBlocked(ValidationOf(uids, m, f, s)), (uid: string) => Survives(m, f, s, uid) || !Known(m, uid));
  }

  // ---- The main results ----

  // The final decision for a preliminary one, as AnswerService._finalize reaches it.
  function Finalized(p: Decision, m: Result, f: Formats, s: Source): Decision {
    FinalDecision(p, ValidationOf(p.selected, m, f, s))
  }

  /** Conservation: with candidates selected, the final selection is the
      validated bundles' uids in order, selected plus removed is the preliminary
      count, and the state is ANSWER exactly when some bundle survives. */
  lemma SelectionIsConserved(p: Decision, m: Result, f: Formats, s: Source)
    requires p.state.PRE_ANSWER? || p.state.ANSWER?
    requires forall uid :: uid in p.selected ==> Known(m, uid)
    ensures var v, final := ValidationOf(p.selected, m, f, s), Finalized(p, m, f, s);
      && final.selected == BundleUids(v.bundles)
      && |final.selected| + |v.outcomes| == |p.selected|
      && (final.state.ANSWER? <==> v.bundles != [])
      && (final.state.ABSTAIN? <==> v.bundles == [])
      && (final.state.ANSWER? ==> final.removedCount == Some(|v.outcomes|))
      && (forall uid :: uid in p.selected ==> (uid in final.selected <==> uid !in OutcomeUids(v.outcomes)))
  {
    var v := ValidationOf(p.selected, m, f, s);
    KeptOrDropped(p.selected, m, f, s);
    RemainingExactly(p.selected, m, f, s);
    FilterAgree(p.selected, (uid: string) => Survives(m, f, s, uid) || !Known(m, uid), Survivor(m, f, s));
    FilterMembers(p.selected, NotBlocked(v));
  }

  /** A uid that is answered without a bundle is exactly a selected uid that no
      candidate carries: the builder skips it and nothing blocks it. */
  lemma EveryAnswerIsEvidencedExactlyWhen(p: Decision, m: Result, f: Formats, s: Source)
    requires p.state.PRE_ANSWER? || p.state.ANSWER?
    ensures (forall uid :: uid in Finalized(p, m, f, s).selected ==> uid in BundleUids(ValidationOf(p.selected, m, f, s).bundles))
       <==> (forall uid :: uid in p.selected ==> Known(m, uid))
  {
    var v, final := ValidationOf(p.selected, m, f, s), Finalized(p, m, f, s);
    KeptOrDropped(p.selected, m, f, s);
    RemainingExactly(p.selected, m, f, s);
    FilterMembers(p.selected, Survivor(m, f, s));
    FilterMembers(p.selected, (uid: string) => Survives(m, f, s, uid) || !Known(m, uid));
    EmptyOrMember(final.selected);
    forall uid ensures uid in final.selected <==> uid in p.selected && (Survives(m, f, s, uid) || !Known(m, uid)) {}
    forall uid | uid in p.selected && !Known(m, uid) ensures uid !in BundleUids(v.bundles) {
      LastByUidFound(m.candidates, uid);
    }
  }

  /** The preliminary decision only selects merged candidates, so both results
      hold for every run that reaches validation. */
  lemma DecidedSelectionIsConserved(spec: QuerySpec, m: Result, f: Formats, s: Source)
    requires DistinctUids(m.candidates)
    requires DecidePreliminary(spec, Some(m)).selected != []
    ensures var p := DecidePreliminary(spec, Some(m));
      var v, final := ValidationOf(p.selected, m, f, s), Finalized(p, m, f, s);
      && p.selected == Uids(EligibleOf(m.candidates))
      && final.selected == BundleUids(v.bundles) && Distinct(final.selected)
      && |final.selected| + |v.outcomes| == |EligibleOf(m.candidates)|
      && (final.state.ANSWER? <==> v.bundles != []) && (final.state.ABSTAIN? <==> v.bundles == [])
  {
    var p := DecidePreliminary(spec, Some(m));
    SelectedAreCandidates(spec, m);
    PreliminaryShape(spec, m);
    SelectionIsConserved(p, m, f, s);
    FilterDistinct(p.selected, NotBlocked(ValidationOf(p.selected, m, f, s)));
  }

  lemma {:induction false} FilterDistinct<T(!new)>(s: seq<T>, keep: T -> bool)
    requires Distinct(s)
    ensures Distinct(Filter(s, keep))
  {
    if s != [] {
      assert Distinct(s[1..]);
      FilterDistinct(s[1..], keep);
      FilterMembers(s[1..], keep);
      FilterHead(s, keep);
      assert s[0] !in s[1..];
    }
  }

  // ---- Evidence of unchanged rows ----

  // The three renderings of a field's value agree as far as validation needs.
  predicate RendersAlike(field: string, v: RawValue, f: Formats, r: Rendering) {
    r.numeric(field, v) == f.text(field, v) || r.plain(field, v) == f.text(field, v)
  }

  /** Round trip: the evidence of a candidate built from a curated row that is
      still stored is accepted exactly when every reported value renders alike
      in the builder and the manager, and its relations have their documents. */
  lemma UnchangedRowIsAccepted(row: Row, family: Family, fields: seq<string>, sourceField: string -> string,
                               m: Result, f: Formats, s: Source)
    requires row.sourceTable in KNOWN_TABLES && IsFamily(Prefix(row.uid))
    requires var key := RowKey(s.version, row.sourceTable, row.uid, row.sourceKey); key in s.store.rows && s.store.rows[key] == row
    ensures var b := BundleOf(ProductRepository.CandidateOf(row, family, fields, sourceField), m, f);
      Accept(s)(b) <==>
        (forall name :: name in fields && name in row.values && !row.values[name].Missing? ==> RendersAlike(name, row.values[name], f, s.rendering))
        && DocumentsExist(ItemsOf(m.relations, row.uid), s.store)
  {
    var c := ProductRepository.CandidateOf(row, family, fields, sourceField);
    var b := BundleOf(c, m, f);
    AcceptedUnlessCrash(b, row, s);
    MetricsOfRow(row, family, fields, sourceField);
    forall e | e in b.fields
      ensures e.field in fields && e.field in row.values && !row.values[e.field].Missing? && e.value == f.text(e.field, row.values[e.field])
    {
      var k :| 0 <= k < |b.fields| && b.fields[k] == e;
      assert c.metrics[k] in c.metrics;
    }
    forall name | name in fields && name in row.values && !row.values[name].Missing?
      ensures exists e :: e in b.fields && e.field == name && e.value == f.text(name, row.values[name])
    {
      var metric :| metric in c.metrics && metric.field == name && metric.raw == row.values[name];
      var k :| 0 <= k < |c.metrics| && c.metrics[k] == metric;
      assert b.fields[k] in b.fields;
    }
  }

  lemma AcceptedUnlessCrash(b: Bundle, row: Row, s: Source)
    requires b.sourceTable in KNOWN_TABLES && IsFamily(Prefix(b.uid)) && b.name == row.name
    requires var key := RowKey(s.version, b.sourceTable, b.uid, b.sourceKey); key in s.store.rows && s.store.rows[key] == row
    ensures Accept(s)(b) <==> FieldsSupported(b.fields, row, s.rendering) && DocumentsExist(b.relations, s.store)
  {
    FieldsPassExactlyWhen(b.fields, b.uid, row, s.rendering);
    AcceptedExactlyWhen(b, s.version, s.store, s.rendering);
  }

  // A candidate's metrics are the present values of the requested fields.
  lemma MetricsOfRow(row: Row, family: Family, fields: seq<string>, sourceField: string -> string)
    ensures var metrics := ProductRepository.CandidateOf(row, family, fields, sourceField).metrics;
      && (forall k :: k in metrics ==> k.field in fields && k.field in row.values && !k.raw.Missing? && k.raw == row.values[k.field])
      && (forall name :: name in fields && name in row.values && !row.values[name].Missing? ==>
            exists k :: k in metrics && k.field == name && k.raw == row.values[name])
  {
    var of := f => ProductRepository.MetricOf(row, f, sourceField);
    var metrics := ProductRepository.CandidateOf(row, family, fields, sourceField).metrics;
    assert metrics == FlatMap(fields, of);
    forall k | k in metrics
      ensures k.field in fields && k.field in row.values && !k.raw.Missing? && k.raw == row.values[k.field]
    {
      var name := FlatMapSource(fields, of, k);
    }
    forall name | name in fields && name in row.values && !row.values[name].Missing?
      ensures exists k :: k in metrics && k.field == name && k.raw == row.values[name]
    {
      FlatMapMember(fields, of, name, of(name)[0]);
    }
  }
}
