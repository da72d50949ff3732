/** Evidence bundles: one per selected uid that is a merged candidate, with the
    relation evidence of that product. */
module EvidenceBuilder {
  import opened Text
  import opened RetrievalModels
  import opened ResultMerger

  datatype EvidenceField = EvidenceField(
    field: string, sourceField: string, value: string, unit: Option<string>, asOf: Option<string>, flags: seq<string>)

  datatype RelationItem = RelationItem(
    relationType: string, subject: string, object_: string, documentId: string, title: string, publisher: string,
    url: Option<string>, sha: string, asOf: Option<string>)

  datatype Bundle = Bundle(
    uid: string, name: Option<string>, sourceTable: string, sourceKey: string, fields: seq<EvidenceField>,
    relations: seq<RelationItem>, documents: seq<DocumentEvidence>, flags: seq<string>, reasons: seq<string>)

  // Rendering of a present value of a field, and the unit the registry gives a field.
  datatype Formats = Formats(text: (string, RawValue) -> string, unitOf: string -> Option<string>)

  function ToField(m: Metric, f: Formats): EvidenceField {
    EvidenceField(m.field, m.sourceField, if m.raw.Missing? then "" else f.text(m.field, m.raw), f.unitOf(m.field), m.asOf, m.flags)
  }

  function ToItem(e: RelationEvidence): RelationItem {
    RelationItem(e.relationType, e.subject, e.object_, e.documentId, e.title, e.publisher, e.url, e.sha, e.asOf)
  }

  // build_relationship_evidence_items
  function RelationItems(relations: seq<RelationEvidence>): seq<RelationItem> {
    Mapped(relations, ToItem)
  }

  // item.product_uid or item.subject_entity_id
  function OwnerOf(e: RelationEvidence): string {
    if e.productUid.Some? && e.productUid.value != "" then e.productUid.value else e.subject
  }

  function OwnedBy(uid: string): RelationEvidence -> bool {
    (e: RelationEvidence) => OwnerOf(e) == uid
  }

  function ItemsOf(relations: seq<RelationEvidence>, uid: string): seq<RelationItem> {
    RelationItems(Filter(relations, OwnedBy(uid)))
  }

  // _index_relations: setdefault(owner, []).append(item) for each evidence.
  method IndexRelations(relations: seq<RelationEvidence>) returns (indexed: map<string, seq<RelationItem>>)
    ensures forall uid :: uid in indexed ==> indexed[uid] == ItemsOf(relations, uid)
    ensures forall uid :: uid !in indexed ==> ItemsOf(relations, uid) == []
  {
    indexed := map[];
    for i := 0 to |relations|
      invariant forall uid :: uid in indexed ==> indexed[uid] == ItemsOf(relations[..i], uid)
      invariant forall uid :: uid !in indexed ==> ItemsOf(relations[..i], uid) == []
    {
      var owner := OwnerOf(relations[i]);
      forall uid
        ensures ItemsOf(relations[..i + 1], uid) == ItemsOf(relations[..i], uid) + if uid == owner then [ToItem(relations[i])] else []
      {
        ItemsSnoc(relations, i, uid);
      }
      var before := if owner in indexed then indexed[owner] else [];
      indexed := indexed[owner := before + [ToItem(relations[i])]];
    }
    assert relations[..|relations|] == relations;
  }

  lemma ItemsSnoc(relations: seq<RelationEvidence>, i: nat, uid: string)
    requires i < |relations|
    ensures ItemsOf(relations[..i + 1], uid) ==
            ItemsOf(relations[..i], uid) + if uid == OwnerOf(relations[i]) then [ToItem(relations[i])] else []
  {
    FilterSnoc(relations, i, OwnedBy(uid));
  }

  function FieldsOf(metrics: seq<Metric>, f: Formats): (r: seq<EvidenceField>)
    ensures |r| == |metrics|
  {
    seq(|metrics|, i requires 0 <= i < |metrics| => ToField(metrics[i], f))
  }

  function BundleOf(c: CandidateView, m: Result, f: Formats): Bundle {
    Bundle(c.uid, c.name, c.sourceTable, c.sourceKey,
           FieldsOf(c.metrics, f),
           ItemsOf(m.relations, c.uid), m.documents, c.flags, c.reasons)
  }

  function BundleFor(uid: string, m: Result, f: Formats): seq<Bundle> {
    match LastByUid(m.candidates, uid)
    case None => []
    case Some(c) => [BundleOf(c, m, f)]
  }

  function Bundles(uids: seq<string>, m: Result, f: Formats): seq<Bundle> {
    FlatMap(uids, BundlesOf(m, f))
  }

  function BundlesOf(m: Result, f: Formats): string -> seq<Bundle> {
    (uid: string) => BundleFor(uid, m, f)
  }

  // {item.product_uid: item for item in candidates}
  method CandidateMap(candidates: seq<CandidateView>) returns (byUid: map<string, CandidateView>)
    ensures forall uid :: LastByUid(candidates, uid) == if uid in byUid then Some(byUid[uid]) else None
  {
    byUid := map[];
    for i := 0 to |candidates|
      invariant forall uid :: LastByUid(candidates[..i], uid) == if uid in byUid then Some(byUid[uid]) else None
    {
      assert candidates[..i + 1][..i] == candidates[..i];
      byUid := byUid[candidates[i].uid := candidates[i]];
    }
    assert candidates[..|candidates|] == candidates;
  }

  method EvidenceFields(metrics: seq<Metric>, f: Formats) returns (fields: seq<EvidenceField>)
    ensures fields == FieldsOf(metrics, f)
  {
    fields := [];
    for i := 0 to |metrics|
      invariant |fields| == i && forall j :: 0 <= j < i ==> fields[j] == ToField(metrics[j], f)
    {
      fields := fields + [ToField(metrics[i], f)];
    }
  }

  method BuildEvidenceBundles(m: Result, selected: seq<string>, f: Formats) returns (bundles: seq<Bundle>)
    ensures bundles == Bundles(selected, m, f)
  {
    var byUid := CandidateMap(m.candidates);
    var relationsOf := IndexRelations(m.relations);
    bundles := [];
    for i := 0 to |selected|
      invariant bundles == Bundles(selected[..i], m, f)
    {
      assert selected[..i + 1][..i] == selected[..i];
      LastByUidFound(m.candidates, selected[i]);
      if selected[i] in byUid {
        var c := byUid[selected[i]];
        var fields := EvidenceFields(c.metrics, f);
        var relations := if c.uid in relationsOf then relationsOf[c.uid] else [];
        assert LastByUid(m.candidates, selected[i]) == Some(c) && relations == ItemsOf(m.relations, c.uid);
        bundles := bundles + [Bundle(c.uid, c.name, c.sourceTable, c.sourceKey, fields, relations, m.documents, c.flags, c.reasons)];
        assert BundleFor(selected[i], m, f) == [bundles[|bundles| - 1]];
      }
    }
    assert selected[..|selected|] == selected;
  }

  // ---- Properties ----

  function BundleUids(bundles: seq<Bundle>): seq<string> {
    Mapped(bundles, (b: Bundle) => b.uid)
  }

  /** There is a bundle for exactly the selected uids that are candidates, in
      selection order; an unknown uid is skipped without a trace. */
  lemma {:induction false} BundlesFollowSelection(uids: seq<string>, m: Result, f: Formats)
    ensures BundleUids(Bundles(uids, m, f)) == Filter(uids, uid => HasUid(m.candidates, uid))
  {
    if uids != [] {
      var known := (uid: string) => HasUid(m.candidates, uid);
      var n := |uids| - 1;
      BundlesFollowSelection(uids[..n], m, f);
      LastByUidFound(m.candidates, uids[n]);
      FilterSnoc(uids, n, known);
      assert uids[..n + 1] == uids;
    }
  }

  /** The evidence of a product is exactly the relation evidence that names it. */
  lemma ItemsMembers(relations: seq<RelationEvidence>, uid: string, r: RelationItem)
    ensures r in ItemsOf(relations, uid) <==> exists e :: e in relations && OwnerOf(e) == uid && r == ToItem(e)
  {
    var owned, items := Filter(relations, OwnedBy(uid)), ItemsOf(relations, uid);
    FilterMembers(relations, OwnedBy(uid));
    if r in items {
      var k :| 0 <= k < |items| && items[k] == r;
      assert owned[k] in owned;
    }
    if e :| e in relations && OwnerOf(e) == uid && r == ToItem(e) {
      var k :| 0 <= k < |owned| && owned[k] == e;
      assert items[k] == r;
    }
  }

  /** Each bundle is that of a selected candidate. */
  lemma BundleContents(uids: seq<string>, m: Result, f: Formats, b: Bundle) returns (c: CandidateView)
    requires b in Bundles(uids, m, f)
    ensures b.uid in uids && c in m.candidates && c.uid == b.uid
    ensures BundleFor(b.uid, m, f) == [b] && b == BundleOf(c, m, f)
  {
    var uid := FlatMapSource(uids, BundlesOf(m, f), b);
    LastByUidFound(m.candidates, uid);
    c := LastByUid(m.candidates, uid).value;
  }
}
