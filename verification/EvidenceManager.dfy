/** EvidenceManager: a bundle is checked back against the curated row and the
    frozen source documents it was built from, and dropped when it disagrees. */
module EvidenceManager {
  import opened Text
  import opened Query
  import opened RetrievalModels
  import opened ResultMerger
  import opened EvidenceBuilder
  import opened PolicyEngine

  datatype RowKey = RowKey(version: int, table: string, uid: string, key: string)

  /** What the database holds: curated rows, and (document id, sha) pairs of
      source documents. */
  datatype Store = Store(rows: map<RowKey, Row>, documents: set<(string, string)>)

  // _stringify_numeric and str() of the value stored for a field.
  datatype Rendering = Rendering(numeric: (string, RawValue) -> string, plain: (string, RawValue) -> string)

  datatype Failure =
    | UnknownFamily | UnknownTable | RowMissing | NameMismatch | UnknownField(field: string) | MetricMissing(field: string) | ValueMismatch(field: string)
    | SourceIncomplete | DocumentMissing(documentId: string)

  // Crashed is the ValueError of ProductFamily(...), which nothing catches.
  datatype Check = Passed | Failed(failure: Failure) | Crashed

  const KNOWN_TABLES := {"PRBD01N001", "PREF01N001", "PREF02N001", "PRFD01N001"}

  // uid.split(":", 1)[0]
  function Prefix(uid: string): string {
    if uid == "" || uid[0] == ':' then "" else [uid[0]] + Prefix(uid[1..])
  }

  // The names that ProductFamily(...) accepts.
  predicate IsFamily(name: string) {
    name == "BOND_KR" || name == "ETF_KR" || name == "ETF_GLOBAL" || name == "FUND_PUBLIC"
  }

  // ---- One bundle ----

  predicate Agrees(field: string, stored: RawValue, value: string, r: Rendering) {
    !stored.Missing? && (r.numeric(field, stored) == value || r.plain(field, stored) == value)
  }

  function CheckField(f: EvidenceField, uid: string, row: Row, r: Rendering): Check {
    if !IsFamily(Prefix(uid)) then Crashed
    else if f.field !in row.values then Failed(UnknownField(f.field))
    else if row.values[f.field].Missing? then Failed(MetricMissing(f.field))
    else if Agrees(f.field, row.values[f.field], f.value, r) then Passed
    else Failed(ValueMismatch(f.field))
  }

  function CheckFields(fields: seq<EvidenceField>, uid: string, row: Row, r: Rendering): Check {
    if fields == [] then Passed
    else if !CheckField(fields[0], uid, row, r).Passed? then CheckField(fields[0], uid, row, r)
    else CheckFields(fields[1..], uid, row, r)
  }

  predicate NamesDiffer(a: Option<string>, b: Option<string>) {
    a.Some? && b.Some? && a.value != "" && b.value != "" && a.value != b.value
  }

  function CheckRow(b: Bundle, version: int, store: Store, r: Rendering): Check {
    var key := RowKey(version, b.sourceTable, b.uid, b.sourceKey);
    if b.sourceTable !in KNOWN_TABLES then Failed(UnknownTable)
    else if key !in store.rows then Failed(RowMissing)
    else if NamesDiffer(b.name, store.rows[key].name) then Failed(NameMismatch)
    else CheckFields(b.fields, b.uid, store.rows[key], r)
  }

  function CheckRelation(item: RelationItem, store: Store): Check {
    if item.documentId == "" || item.sha == "" then Failed(SourceIncomplete)
    else if (item.documentId, item.sha) !in store.documents then Failed(DocumentMissing(item.documentId))
    else Passed
  }

  function CheckRelations(items: seq<RelationItem>, store: Store): Check {
    if items == [] then Passed
    else if !CheckRelation(items[0], store).Passed? then CheckRelation(items[0], store)
    else CheckRelations(items[1..], store)
  }

  // validate_relationship_evidence: raises at the first item without a document.
  method ValidateRelationshipEvidence(items: seq<RelationItem>, store: Store) returns (check: Check)
    ensures check == CheckRelations(items, store)
  {
    for i := 0 to |items|
      invariant CheckRelations(items, store) == CheckRelations(items[i..], store)
    {
      if items[i].documentId == "" || items[i].sha == "" { return Failed(SourceIncomplete); }
      if (items[i].documentId, items[i].sha) !in store.documents { return Failed(DocumentMissing(items[i].documentId)); }
      assert items[i..][1..] == items[i + 1..];
    }
    check := Passed;
  }

  method ValidateBundle(b: Bundle, version: int, store: Store, r: Rendering) returns (check: Check)
    ensures check == CheckRow(b, version, store, r)
  {
    if b.sourceTable !in KNOWN_TABLES { return Failed(UnknownTable); }
    var key := RowKey(version, b.sourceTable, b.uid, b.sourceKey);
    if key !in store.rows { return Failed(RowMissing); }
    var row := store.rows[key];
    if NamesDiffer(b.name, row.name) { return Failed(NameMismatch); }
    for i := 0 to |b.fields|
      invariant CheckFields(b.fields, b.uid, row, r) == CheckFields(b.fields[i..], b.uid, row, r)
    {
      var f := b.fields[i];
      if !IsFamily(Prefix(b.uid)) { return Crashed; }
      if f.field !in row.values { return Failed(UnknownField(f.field)); }
      var stored := row.values[f.field];
      if stored.Missing? { return Failed(MetricMissing(f.field)); }
      if r.numeric(f.field, stored) != f.value && r.plain(f.field, stored) != f.value { return Failed(ValueMismatch(f.field)); }
      assert b.fields[i..][1..] == b.fields[i + 1..];
    }
    check := Passed;
  }

  // ---- All bundles ----

  datatype Outcome = Outcome(uid: string, failure: Failure)

  datatype Validation = Validation(
    outcomes: seq<Outcome>, bundles: seq<Bundle>, passed: bool, reasons: seq<ReasonCode>, warnings: seq<string>)

  // A bundle whose check raises is no accepted one; the whole run raises then.
  function FailureOf(b: Bundle, version: int, store: Store, r: Rendering): Option<Failure> {
    var row := CheckRow(b, version, store, r);
    if row.Crashed? then Some(UnknownFamily)
    else if row.Failed? then Some(row.failure)
    else
      var relations := CheckRelations(b.relations, store);
      if relations.Failed? then Some(relations.failure) else None
  }

  function Accepts(version: int, store: Store, r: Rendering): Bundle -> bool {
    (b: Bundle) => FailureOf(b, version, store, r).None?
  }

  function OutcomesOf(version: int, store: Store, r: Rendering): Bundle -> seq<Outcome> {
    (b: Bundle) => match FailureOf(b, version, store, r)
      case None => []
      case Some(failure) => [Outcome(b.uid, failure)]
  }

  // A bundle dropped for its relations, not for its row, adds a reason code.
  function ReasonsOf(version: int, store: Store, r: Rendering): Bundle -> seq<ReasonCode> {
    (b: Bundle) => if FailureOf(b, version, store, r).Some? && CheckRow(b, version, store, r).Passed?
      then [EXTERNAL_EVIDENCE_MISSING] else []
  }

  function QualityWarning(b: Bundle): string {
    "quality_flags:" + b.uid + "=" + Join(",", b.flags)
  }

  function WarningsOf(version: int, store: Store, r: Rendering): Bundle -> seq<string> {
    (b: Bundle) => if FailureOf(b, version, store, r).None? && b.flags != [] then [QualityWarning(b)] else []
  }

  // The four lists that validate appends to.
  datatype Lists = Lists(outcomes: seq<Outcome>, validated: seq<Bundle>, reasons: seq<ReasonCode>, warnings: seq<string>)

  function Tally(bundles: seq<Bundle>, version: int, store: Store, r: Rendering): Lists {
    Lists(FlatMap(bundles, OutcomesOf(version, store, r)), Filter(bundles, Accepts(version, store, r)),
          FlatMap(bundles, ReasonsOf(version, store, r)), FlatMap(bundles, WarningsOf(version, store, r)))
  }

  function Validated(bundles: seq<Bundle>, version: int, store: Store, r: Rendering): Validation {
    var t := Tally(bundles, version, store, r);
    Validation(t.outcomes, t.validated, t.validated != [] || bundles == [], Dedupe(t.reasons), t.warnings)
  }

  ghost predicate AnyCrash(bundles: seq<Bundle>, version: int, store: Store, r: Rendering) {
    exists b :: b in bundles && CheckRow(b, version, store, r).Crashed?
  }

  // Both checks of one bundle, the row first; byRow tells which one failed.
  method CheckBundle(b: Bundle, version: int, store: Store, r: Rendering) returns (crashed: bool, failure: Option<Failure>, byRow: bool)
    ensures crashed <==> CheckRow(b, version, store, r).Crashed?
    ensures !crashed ==> failure == FailureOf(b, version, store, r) && (byRow <==> CheckRow(b, version, store, r).Failed?)
  {
    var row := ValidateBundle(b, version, store, r);
    if row.Crashed? { return true, None, false; }
    if row.Failed? { return false, Some(row.failure), true; }
    var relations := ValidateRelationshipEvidence(b.relations, store);
    RelationsPassExactlyWhen(b.relations, store);
    return false, if relations.Failed? then Some(relations.failure) else None, false;
  }

  // What one more bundle adds to each of the four lists.
  lemma OneMoreBundle(bundles: seq<Bundle>, i: nat, version: int, store: Store, r: Rendering)
    requires i < |bundles|
    ensures var b, before, after := bundles[i], Tally(bundles[..i], version, store, r), Tally(bundles[..i + 1], version, store, r);
      after == match FailureOf(b, version, store, r)
        case None => Lists(before.outcomes, before.validated + [b], before.reasons,
                           before.warnings + if b.flags != [] then [QualityWarning(b)] else [])
        case Some(failure) => Lists(before.outcomes + [Outcome(b.uid, failure)], before.validated,
                                    before.reasons + (if CheckRow(b, version, store, r).Passed? then [EXTERNAL_EVIDENCE_MISSING] else []),
                                    before.warnings)
  {
    FilterSnoc(bundles, i, Accepts(version, store, r));
    FlatMapSnoc(bundles, i, OutcomesOf(version, store, r));
    FlatMapSnoc(bundles, i, ReasonsOf(version, store, r));
    FlatMapSnoc(bundles, i, WarningsOf(version, store, r));
  }

  lemma OneMoreCrash(bundles: seq<Bundle>, i: nat, version: int, store: Store, r: Rendering)
    requires i < |bundles|
    ensures CheckRow(bundles[i], version, store, r).Crashed? ==> AnyCrash(bundles, version, store, r)
    ensures AnyCrash(bundles[..i + 1], version, store, r) ==>
              AnyCrash(bundles[..i], version, store, r) || CheckRow(bundles[i], version, store, r).Crashed?
  {
    assert bundles[..i + 1] == bundles[..i] + [bundles[i]];
  }

  /** validate: None when the ValueError escapes. */
  method Validate(bundles: seq<Bundle>, version: int, store: Store, r: Rendering) returns (result: Option<Validation>)
    ensures result.None? <==> AnyCrash(bundles, version, store, r)
    ensures result.Some? ==> result.value == Validated(bundles, version, store, r)
  {
    var outcomes, validated, reasons, warnings := [], [], [], [];
    for i := 0 to |bundles|
      invariant !AnyCrash(bundles[..i], version, store, r)
      invariant Lists(outcomes, validated, reasons, warnings) == Tally(bundles[..i], version, store, r)
    {
      OneMoreBundle(bundles, i, version, store, r);
      OneMoreCrash(bundles, i, version, store, r);
      var b := bundles[i];
      var crashed, failure, byRow := CheckBundle(b, version, store, r);
      if crashed { return None; }
      if failure.Some? {
        outcomes := outcomes + [Outcome(b.uid, failure.value)];
        if !byRow {
          reasons := reasons + [EXTERNAL_EVIDENCE_MISSING];
        }
      } else {
        validated := validated + [b];
        if b.flags != [] {
          warnings := warnings + [QualityWarning(b)];
        }
      }
    }
    assert bundles[..|bundles|] == bundles;
    var codes := Deduplicate(reasons);
    result := Some(Validation(outcomes, validated, |validated| > 0 || |bundles| == 0, codes, warnings));
  }

  // ---- What acceptance means ----

  predicate FieldsSupported(fields: seq<EvidenceField>, row: Row, r: Rendering) {
    forall f :: f in fields ==> f.field in row.values && Agrees(f.field, row.values[f.field], f.value, r)
  }

  predicate RowSupports(b: Bundle, row: Row, r: Rendering) {
    && !NamesDiffer(b.name, row.name) && FieldsSupported(b.fields, row, r)
    && (b.fields == [] || IsFamily(Prefix(b.uid)))
  }

  predicate DocumentsExist(items: seq<RelationItem>, store: Store) {
    forall item :: item in items ==> item.documentId != "" && item.sha != "" && (item.documentId, item.sha) in store.documents
  }

  lemma {:induction false} FieldsPassExactlyWhen(fields: seq<EvidenceField>, uid: string, row: Row, r: Rendering)
    ensures CheckFields(fields, uid, row, r).Passed? <==>
              FieldsSupported(fields, row, r) && (fields == [] || IsFamily(Prefix(uid)))
    ensures CheckFields(fields, uid, row, r).Crashed? ==> fields != [] && !IsFamily(Prefix(uid))
  {
    if fields != [] {
      FieldsPassExactlyWhen(fields[1..], uid, row, r);
      assert fields == [fields[0]] + fields[1..];
    }
  }

  lemma {:induction false} RelationsPassExactlyWhen(items: seq<RelationItem>, store: Store)
    ensures CheckRelations(items, store).Passed? <==> DocumentsExist(items, store)
    ensures !CheckRelations(items, store).Crashed?
  {
    if items != [] {
      RelationsPassExactlyWhen(items[1..], store);
      assert items == [items[0]] + items[1..];
    }
  }

  /** A bundle survives exactly when a curated row of this version supports its
      name and every value, and every relation has its frozen document. */
  lemma AcceptedExactlyWhen(b: Bundle, version: int, store: Store, r: Rendering)
    ensures var key := RowKey(version, b.sourceTable, b.uid, b.sourceKey);
      Accepts(version, store, r)(b) <==>
        b.sourceTable in KNOWN_TABLES && key in store.rows && RowSupports(b, store.rows[key], r) && DocumentsExist(b.relations, store)
  {
    var key := RowKey(version, b.sourceTable, b.uid, b.sourceKey);
    if key in store.rows {
      FieldsPassExactlyWhen(b.fields, b.uid, store.rows[key], r);
    }
    RelationsPassExactlyWhen(b.relations, store);
  }

  /** Why a bundle is dropped: the first of the checks that fails. */
  lemma FailureExactly(b: Bundle, version: int, store: Store, r: Rendering)
    ensures var key := RowKey(version, b.sourceTable, b.uid, b.sourceKey);
      var failure, known := FailureOf(b, version, store, r), b.sourceTable in KNOWN_TABLES;
      && (failure == Some(UnknownTable) <==> !known)
      && (failure == Some(RowMissing) <==> known && key !in store.rows)
      && (failure == Some(NameMismatch) <==>
            && known && key in store.rows
            && exists x, y :: b.name == Some(x) && store.rows[key].name == Some(y) && x != y && x != "" && y != "")
      && (forall f: Failure :: f.UnknownField? || f.MetricMissing? || f.ValueMismatch? ==>
            (failure == Some(f) <==> known && key in store.rows && !NamesDiffer(b.name, store.rows[key].name) && IsFamily(Prefix(b.uid))
                                     && exists i :: FieldFault(f, b.fields, i, store.rows[key], r)))
      && (failure.Some? && (failure.value.SourceIncomplete? || failure.value.DocumentMissing?) <==>
            known && key in store.rows && RowSupports(b, store.rows[key], r) && !DocumentsExist(b.relations, store))
  {
    var key := RowKey(version, b.sourceTable, b.uid, b.sourceKey);
    RelationFailures(b.relations, store);
    RelationsPassExactlyWhen(b.relations, store);
    if key in store.rows {
      FieldsPassExactlyWhen(b.fields, b.uid, store.rows[key], r);
      forall f: Failure { FieldFailures(b.fields, b.uid, store.rows[key], r, f); }
    }
  }

  lemma {:induction false} RelationFailures(items: seq<RelationItem>, store: Store)
    ensures CheckRelations(items, store).Failed? ==>
              CheckRelations(items, store).failure.SourceIncomplete? || CheckRelations(items, store).failure.DocumentMissing?
  {
    if items != [] { RelationFailures(items[1..], store); }
  }

  // Why a field fails, and that the fields before it do not.
  predicate FieldFault(failure: Failure, fields: seq<EvidenceField>, i: int, row: Row, r: Rendering) {
    && 0 <= i < |fields| && FieldsSupported(fields[..i], row, r)
    && match failure
      case UnknownField(name) => name == fields[i].field && name !in row.values
      case MetricMissing(name) => name == fields[i].field && name in row.values && row.values[name] == Missing
      case ValueMismatch(name) =>
        && name == fields[i].field && name in row.values && row.values[name] != Missing
        && r.numeric(name, row.values[name]) != fields[i].value && r.plain(name, row.values[name]) != fields[i].value
      case _ => false
  }

  lemma FaultBehindFirst(failure: Failure, fields: seq<EvidenceField>, i: int, row: Row, r: Rendering)
    requires 0 < i < |fields|
    ensures FieldFault(failure, fields, i, row, r) <==> FieldsSupported(fields[..1], row, r) && FieldFault(failure, fields[1..], i - 1, row, r)
  {
    assert fields[..i] == fields[..1] + fields[1..][..i - 1];
  }

  lemma {:induction false} FieldFailures(fields: seq<EvidenceField>, uid: string, row: Row, r: Rendering, failure: Failure)
    ensures CheckFields(fields, uid, row, r) == Failed(failure) <==>
              IsFamily(Prefix(uid)) && exists i :: FieldFault(failure, fields, i, row, r)
  {
    if fields != [] {
      FieldFailures(fields[1..], uid, row, r, failure);
      forall i | 0 < i < |fields|
        ensures FieldFault(failure, fields, i, row, r) <==> FieldsSupported(fields[..1], row, r) && FieldFault(failure, fields[1..], i - 1, row, r)
      {
        FaultBehindFirst(failure, fields, i, row, r);
      }
      FirstField(fields, uid, row, r, failure);
      if i :| FieldFault(failure, fields[1..], i, row, r) {
        assert FieldFault(failure, fields, i + 1, row, r) <==> FieldsSupported(fields[..1], row, r);
      }
    }
  }

  lemma FirstField(fields: seq<EvidenceField>, uid: string, row: Row, r: Rendering, failure: Failure)
    requires fields != []
    ensures CheckField(fields[0], uid, row, r) == Failed(failure) <==> IsFamily(Prefix(uid)) && FieldFault(failure, fields, 0, row, r)
    ensures CheckField(fields[0], uid, row, r).Passed? <==> IsFamily(Prefix(uid)) && FieldsSupported(fields[..1], row, r)
    ensures FieldsSupported(fields[..1], row, r) ==> !FieldFault(failure, fields, 0, row, r)
  {
    assert fields[..1] == [fields[0]] && fields[0] in fields[..1];
  }

  /** Validation reports missing external evidence exactly when a bundle that its
      row supports has a relation without a document, and warns of the quality
      flags of exactly the bundles that it accepts, of which there is one
      whenever it passes with any bundle at all. */
  lemma ValidationTells(bundles: seq<Bundle>, version: int, store: Store, r: Rendering, code: ReasonCode, warning: string)
    ensures var v := Validated(bundles, version, store, r);
      && (v.passed <==> bundles == [] || exists b :: b in bundles && Accepts(version, store, r)(b))
      && (code in v.reasons <==> code == EXTERNAL_EVIDENCE_MISSING && exists b :: b in bundles && LacksDocument(b, version, store, r))
      && (warning in v.warnings <==> exists b :: b in bundles && Accepts(version, store, r)(b) && b.flags != []
                                                 && warning == "quality_flags:" + b.uid + "=" + Join(",", b.flags))
  {
    forall b ensures code in ReasonsOf(version, store, r)(b) <==> code == EXTERNAL_EVIDENCE_MISSING && LacksDocument(b, version, store, r) {
      LacksDocumentExactly(b, version, store, r);
    }
    if code in FlatMap(bundles, ReasonsOf(version, store, r)) {
      var b := FlatMapSource(bundles, ReasonsOf(version, store, r), code);
    }
    if b :| b in bundles && LacksDocument(b, version, store, r) && code == EXTERNAL_EVIDENCE_MISSING {
      FlatMapMember(bundles, ReasonsOf(version, store, r), b, code);
    }
    WarningsTell(bundles, version, store, r, warning);
    FilterMembers(bundles, Accepts(version, store, r));
    EmptyOrMember(Filter(bundles, Accepts(version, store, r)));
  }

  lemma WarningsTell(bundles: seq<Bundle>, version: int, store: Store, r: Rendering, warning: string)
    ensures warning in FlatMap(bundles, WarningsOf(version, store, r)) <==>
              exists b :: b in bundles && Accepts(version, store, r)(b) && b.flags != []
                          && warning == "quality_flags:" + b.uid + "=" + Join(",", b.flags)
  {
    if warning in FlatMap(bundles, WarningsOf(version, store, r)) {
      var b := FlatMapSource(bundles, WarningsOf(version, store, r), warning);
    }
    if b :| b in bundles && Accepts(version, store, r)(b) && b.flags != [] && warning == "quality_flags:" + b.uid + "=" + Join(",", b.flags) {
      FlatMapMember(bundles, WarningsOf(version, store, r), b, warning);
    }
  }

  ghost predicate LacksDocument(b: Bundle, version: int, store: Store, r: Rendering) {
    var key := RowKey(version, b.sourceTable, b.uid, b.sourceKey);
    b.sourceTable in KNOWN_TABLES && key in store.rows && RowSupports(b, store.rows[key], r) && !DocumentsExist(b.relations, store)
  }

  lemma LacksDocumentExactly(b: Bundle, version: int, store: Store, r: Rendering)
    ensures LacksDocument(b, version, store, r) <==> FailureOf(b, version, store, r).Some? && CheckRow(b, version, store, r).Passed?
  {
    var key := RowKey(version, b.sourceTable, b.uid, b.sourceKey);
    RelationsPassExactlyWhen(b.relations, store);
    if key in store.rows { FieldsPassExactlyWhen(b.fields, b.uid, store.rows[key], r); }
  }

  // The uid is the family's name, or begins with it and a colon.
  predicate UidNames(uid: string, family: string) {
    uid == family || family + ":" <= uid
  }

  lemma {:induction false} PrefixExactly(uid: string, family: string)
    requires ':' !in family
    ensures Prefix(uid) == family <==> UidNames(uid, family)
    decreases uid
  {
    if uid != "" && uid[0] != ':' && family != "" {
      PrefixExactly(uid[1..], family[1..]);
      assert uid == [uid[0]] + uid[1..] && family == [family[0]] + family[1..];
      if uid[0] == family[0] {
        assert family + ":" == [family[0]] + (family[1..] + ":");
        assert family + ":" <= uid <==> family[1..] + ":" <= uid[1..];
      }
    }
  }

  lemma NamesSomeFamily(uid: string)
    ensures IsFamily(Prefix(uid)) <==>
              UidNames(uid, "BOND_KR") || UidNames(uid, "ETF_KR") || UidNames(uid, "ETF_GLOBAL") || UidNames(uid, "FUND_PUBLIC")
  {
    PrefixExactly(uid, "BOND_KR");
    PrefixExactly(uid, "ETF_KR");
    PrefixExactly(uid, "ETF_GLOBAL");
    PrefixExactly(uid, "FUND_PUBLIC");
  }

  /** The check raises exactly for a bundle with a field, of a stored row of
      that name, whose uid names no family before its colon. */
  lemma CrashesExactlyWhen(b: Bundle, version: int, store: Store, r: Rendering)
    ensures var key := RowKey(version, b.sourceTable, b.uid, b.sourceKey);
      CheckRow(b, version, store, r).Crashed? <==>
        && b.sourceTable in KNOWN_TABLES && key in store.rows && !NamesDiffer(b.name, store.rows[key].name) && b.fields != []
        && !UidNames(b.uid, "BOND_KR") && !UidNames(b.uid, "ETF_KR") && !UidNames(b.uid, "ETF_GLOBAL") && !UidNames(b.uid, "FUND_PUBLIC")
  {
    var key := RowKey(version, b.sourceTable, b.uid, b.sourceKey);
    NamesSomeFamily(b.uid);
    if key in store.rows {
      FieldsPassExactlyWhen(b.fields, b.uid, store.rows[key], r);
    }
  }

  /** No ValueError when every uid names a family before its colon. */
  lemma NoCrashForFamilyUids(bundles: seq<Bundle>, version: int, store: Store, r: Rendering)
    requires forall b :: b in bundles ==> b.fields == [] || IsFamily(Prefix(b.uid))
    ensures !AnyCrash(bundles, version, store, r)
  {
    forall b | b in bundles ensures !CheckRow(b, version, store, r).Crashed? {
      var key := RowKey(version, b.sourceTable, b.uid, b.sourceKey);
      if key in store.rows {
        FieldsPassExactlyWhen(b.fields, b.uid, store.rows[key], r);
      }
    }
  }

  // ---- The final decision ----

  function OutcomeUids(outcomes: seq<Outcome>): seq<string> {
    Mapped(outcomes, (o: Outcome) => o.uid)
  }

  function NotBlocked(v: Validation): string -> bool {
    (uid: string) => uid !in OutcomeUids(v.outcomes)
  }

  method FinalizeDecision(p: Decision, v: Validation) returns (final: Decision)
    ensures final == FinalDecision(p, v)
  {
    if !p.state.PRE_ANSWER? && !p.state.ANSWER? { return p; }
    var blocked := OutcomeUids(v.outcomes);
    var remaining: seq<string> := [];
    for i := 0 to |p.selected|
      invariant remaining == Filter(p.selected[..i], NotBlocked(v))
    {
      FilterSnoc(p.selected, i, NotBlocked(v));
      if p.selected[i] !in blocked {
        remaining := remaining + [p.selected[i]];
      }
    }
    assert p.selected[..|p.selected|] == p.selected;
    if remaining != [] {
      var codes := p.reasons;
      if blocked != [] {
        codes := codes + [PARTIAL_CANDIDATE_REMOVED];
      }
      assert v.outcomes == [] ==> p.reasons + [] == p.reasons;
      codes := Deduplicate(codes + [EVIDENCE_READY]);
      return Decision(ANSWER, codes, remaining, p.warnings, Some(|blocked|));
    }
    var codes := Deduplicate(v.reasons + [QUALITY_BLOCKED]);
    final := Decision(ABSTAIN, codes, [], p.warnings, p.removedCount);
  }

  function FinalDecision(p: Decision, v: Validation): Decision {
    var remaining := Filter(p.selected, NotBlocked(v));
    if !p.state.PRE_ANSWER? && !p.state.ANSWER? then p
    else if remaining == [] then Decision(ABSTAIN, Dedupe(v.reasons + [QUALITY_BLOCKED]), [], p.warnings, p.removedCount)
    else
      var removed := if v.outcomes != [] then [PARTIAL_CANDIDATE_REMOVED] else [];
      Decision(ANSWER, Dedupe(p.reasons + removed + [EVIDENCE_READY]), remaining, p.warnings, Some(|v.outcomes|))
  }

  /** The reasons of a final decision: an ANSWER keeps the preliminary ones and
      says whether a candidate was removed; an ABSTAIN says why evidence failed. */
  lemma FinalReasons(p: Decision, v: Validation)
    requires p.state.PRE_ANSWER? || p.state.ANSWER?
    ensures var final := FinalDecision(p, v);
      && Distinct(final.reasons) && final.warnings == p.warnings
      && (final.state.ANSWER? ==> forall c :: c in final.reasons <==>
            c in p.reasons || c == EVIDENCE_READY || (c == PARTIAL_CANDIDATE_REMOVED && v.outcomes != []))
      && (final.state.ABSTAIN? ==> forall c :: c in final.reasons <==> c in v.reasons || c == QUALITY_BLOCKED)
  {
    var removed := if v.outcomes != [] then [PARTIAL_CANDIDATE_REMOVED] else [];
    DedupeDistinct(p.reasons + removed + [EVIDENCE_READY]);
    DedupeDistinct(v.reasons + [QUALITY_BLOCKED]);
  }
}
