/** What candidates and evidence bundles say of the curated row and the relation
    evidence that they come from. */
module RowEvidence {
  import opened Text
  import opened Query
  import opened RetrievalModels
  import opened ResultMerger
  import opened PolicyEngine
  import opened EvidenceBuilder
  import opened ProductRepository

  // A zero in a row that is flagged as invalid for decisions.
  predicate IsFlaggedZero(row: Row, field: string) {
    field in row.values && row.values[field] == Number(0.0) && "INVALID_FOR_DECISION" in row.flags
  }

  /** A row's candidate is blocked exactly when the row is contaminated, or when
      the query reads a flagged zero from it. */
  lemma CandidateBlockedExactlyWhen(row: Row, family: Family, fields: seq<string>, sourceField: string -> string)
    ensures IsBlocked(CandidateOf(row, family, fields, sourceField)) <==>
              "JOIN_CONTAMINATION" in row.flags || exists f :: f in fields && IsFlaggedZero(row, f)
  {
    var c := CandidateOf(row, family, fields, sourceField);
    MetricsAreFromRow(row, fields, sourceField);
    if f :| f in fields && IsFlaggedZero(row, f) {
      var m := Metric(f, sourceField(f), Number(0.0), None, ["ZERO_VALUE", "INVALID_FOR_DECISION"]);
      assert MetricFromRow(m, row, sourceField);
      assert m in c.metrics;
    }
  }

  // The evidence of one present value of the row.
  predicate ShowsValue(e: EvidenceField, row: Row, sourceField: string -> string, f: Formats) {
    && e.field in row.values && row.values[e.field] != Missing
    && e.value == f.text(e.field, row.values[e.field]) && e.unit == f.unitOf(e.field) && e.sourceField == sourceField(e.field) && e.asOf == None
    && e.flags == if IsFlaggedZero(row, e.field) then ["ZERO_VALUE", "INVALID_FOR_DECISION"] else []
  }

  /** The bundle of a row's candidate shows the row's identity, and exactly the
      present values of the requested fields, with their units and flags. */
  lemma BundleShowsRow(row: Row, family: Family, fields: seq<string>, sourceField: string -> string, m: Result, f: Formats)
    ensures var b := BundleOf(CandidateOf(row, family, fields, sourceField), m, f);
      && b.uid == row.uid && b.name == row.name && b.sourceTable == row.sourceTable && b.sourceKey == row.sourceKey && b.flags == row.flags
      && b.documents == m.documents
      && (forall e: EvidenceField :: e in b.fields <==> e.field in fields && ShowsValue(e, row, sourceField, f))
  {
    var c := CandidateOf(row, family, fields, sourceField);
    var b := BundleOf(c, m, f);
    MetricsAreFromRow(row, fields, sourceField);
    forall e: EvidenceField | e in b.fields ensures e.field in fields && ShowsValue(e, row, sourceField, f) {
      var k :| 0 <= k < |b.fields| && b.fields[k] == e;
      assert c.metrics[k] in c.metrics;
    }
    forall e: EvidenceField | e.field in fields && ShowsValue(e, row, sourceField, f) ensures e in b.fields {
      var metric := Metric(e.field, e.sourceField, row.values[e.field], None, e.flags);
      assert MetricFromRow(metric, row, sourceField) && metric in c.metrics;
      var k :| 0 <= k < |c.metrics| && c.metrics[k] == metric;
      assert b.fields[k] == e;
    }
  }

  // The item says what the evidence says.
  predicate ShowsRelation(r: RelationItem, e: RelationEvidence) {
    && r.relationType == e.relationType && r.subject == e.subject && r.object_ == e.object_
    && r.documentId == e.documentId && r.sha == e.sha && r.title == e.title && r.publisher == e.publisher && r.url == e.url && r.asOf == e.asOf
  }

  // The product that the evidence names, or else its subject.
  predicate About(e: RelationEvidence, uid: string) {
    e.productUid == Some(uid) || ((e.productUid == None || e.productUid == Some("")) && e.subject == uid)
  }

  /** The relations of a bundle are exactly the evidence about its product, and
      those of a standalone answer exactly all evidence, each as it was retrieved. */
  lemma ItemsShowRelations(relations: seq<RelationEvidence>, uid: string, r: RelationItem)
    requires uid != ""
    ensures r in ItemsOf(relations, uid) <==> exists e :: e in relations && About(e, uid) && ShowsRelation(r, e)
    ensures r in RelationItems(relations) <==> exists e :: e in relations && ShowsRelation(r, e)
  {
    ItemsMembers(relations, uid, r);
    forall e: RelationEvidence ensures r == ToItem(e) <==> ShowsRelation(r, e) {}
    forall e: RelationEvidence ensures OwnerOf(e) == uid <==> About(e, uid) {}
    if r in RelationItems(relations) {
      var k :| 0 <= k < |relations| && RelationItems(relations)[k] == r;
      assert relations[k] in relations;
    }
    if e :| e in relations && ShowsRelation(r, e) {
      var k :| 0 <= k < |relations| && relations[k] == e;
      assert RelationItems(relations)[k] == r;
    }
  }
}
