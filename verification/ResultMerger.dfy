/** merge_retrieval_results: SQL, relation and document results become one.
    `setOrder` is the order in which the interpreter iterates a set of uids;
    which order that is, is not specified. */
module ResultMerger {
  import opened Text
  import opened RetrievalModels

  datatype MergeMode = SQL_PRIMARY | RELATION_INTERSECT | DOCUMENT_ONLY

  datatype RelationEvidence = RelationEvidence(
    relationType: string, subject: string, object_: string, documentId: string, title: string, publisher: string,
    url: Option<string>, sha: string, asOf: Option<string>, productUid: Option<string>)

  datatype DocumentEvidence = DocumentEvidence(
    chunkId: string, documentId: string, text: string, title: string, publisher: string, url: Option<string>, sha: string)

  // C is a candidate object, or its view.
  datatype Retrieval<C> = Retrieval(
    candidates: seq<C>, relations: seq<RelationEvidence>, documents: seq<DocumentEvidence>, warnings: seq<string>,
    countFinal: nat, aggregate: Option<real>)

  type Result = Retrieval<CandidateView>

  const EMPTY_RESULT: Result := Retrieval([], [], [], [], 0, None)

  // ---- Values ----

  function MergeStrings(left: seq<string>, right: seq<string>): seq<string> {
    if right == [] then left
    else
      var merged, last := MergeStrings(left, right[..|right| - 1]), right[|right| - 1];
      if last in merged then merged else merged + [last]
  }

  function Absorb(existing: CandidateView, c: CandidateView): CandidateView {
    existing.(reasons := MergeStrings(existing.reasons, c.reasons),
              flags := MergeStrings(existing.flags, c.flags),
              metrics := if c.metrics != [] then c.metrics else existing.metrics)
  }

  predicate HasUid(s: seq<CandidateView>, uid: string) {
    exists i :: 0 <= i < |s| && s[i].uid == uid
  }

  function AbsorbInto(d: seq<CandidateView>, c: CandidateView): (r: seq<CandidateView>)
    ensures |r| == |d|
    ensures forall i :: 0 <= i < |r| ==> r[i].uid == d[i].uid
  {
    seq(|d|, i requires 0 <= i < |d| => if d[i].uid == c.uid then Absorb(d[i], c) else d[i])
  }

  // _dedupe_candidates
  function DedupeViews(s: seq<CandidateView>): seq<CandidateView> {
    if s == [] then []
    else
      var d, c := DedupeViews(s[..|s| - 1]), s[|s| - 1];
      if HasUid(d, c.uid) then AbsorbInto(d, c) else d + [c]
  }

  ghost predicate DistinctUids(s: seq<CandidateView>) {
    forall i, j :: 0 <= i < j < |s| ==> s[i].uid != s[j].uid
  }

  /** Deduplication leaves one candidate per uid and loses no uid. */
  lemma {:induction false} DedupeByUid(s: seq<CandidateView>)
    ensures DistinctUids(DedupeViews(s))
    ensures forall uid :: HasUid(DedupeViews(s), uid) <==> HasUid(s, uid)
  {
    if s != [] {
      var before, c := s[..|s| - 1], s[|s| - 1];
      DedupeByUid(before);
      forall uid ensures HasUid(DedupeViews(s), uid) <==> HasUid(s, uid) {
        assert HasUid(s, uid) <==> HasUid(before, uid) || c.uid == uid by {
          if HasUid(before, uid) { var i :| 0 <= i < |before| && before[i].uid == uid; assert s[i].uid == uid; }
        }
        UidsAfterStep(DedupeViews(before), c, uid);
      }
    }
  }

  lemma UidsAfterStep(d: seq<CandidateView>, c: CandidateView, uid: string)
    ensures HasUid(d + [c], uid) <==> HasUid(d, uid) || c.uid == uid
    ensures HasUid(AbsorbInto(d, c), uid) <==> HasUid(d, uid)
  {
    if HasUid(d, uid) {
      var i :| 0 <= i < |d| && d[i].uid == uid;
      assert (d + [c])[i].uid == uid && AbsorbInto(d, c)[i].uid == uid;
    }
    assert (d + [c])[|d|] == c;
  }

  lemma {:induction false} DedupeOfDistinct(s: seq<CandidateView>)
    requires DistinctUids(s)
    ensures DedupeViews(s) == s
  {
    if s != [] {
      var before := s[..|s| - 1];
      assert DistinctUids(before) && !HasUid(before, s[|s| - 1].uid);
      DedupeOfDistinct(before);
      assert s == before + [s[|s| - 1]];
    }
  }

  lemma {:induction false} FilteredUidsDistinct(s: seq<CandidateView>, keep: CandidateView -> bool)
    requires DistinctUids(s)
    ensures DistinctUids(Filter(s, keep))
  {
    if s != [] {
      assert DistinctUids(s[1..]);
      FilteredUidsDistinct(s[1..], keep);
      FilterMembers(s[1..], keep);
      FilterHead(s, keep);
      var rest := Filter(s[1..], keep);
      forall j | 0 <= j < |rest| ensures rest[j].uid != s[0].uid {
        assert rest[j] in s[1..];
      }
    }
  }

  // The value a dict built from the list keeps for uid: the last one.
  function LastByUid(s: seq<CandidateView>, uid: string): Option<CandidateView> {
    if s == [] then None
    else if s[|s| - 1].uid == uid then Some(s[|s| - 1])
    else LastByUid(s[..|s| - 1], uid)
  }

  lemma {:induction false} LastByUidFound(s: seq<CandidateView>, uid: string)
    ensures LastByUid(s, uid).Some? <==> HasUid(s, uid)
    ensures LastByUid(s, uid).Some? ==> LastByUid(s, uid).value in s && LastByUid(s, uid).value.uid == uid
  {
    if s != [] {
      LastByUidFound(s[..|s| - 1], uid);
      if HasUid(s[..|s| - 1], uid) {
        var i :| 0 <= i < |s| - 1 && s[..|s| - 1][i].uid == uid;
        assert s[i].uid == uid;
      }
    }
  }

  function ProductUids(relations: seq<RelationEvidence>): set<string> {
    set e | e in relations && e.productUid.Some? && e.productUid.value != "" :: e.productUid.value
  }

  // A related candidate, with the reasons of its SQL counterpart first.
  function Enriched(c: CandidateView, sql: seq<CandidateView>): CandidateView {
    match LastByUid(sql, c.uid)
    case None => c
    case Some(s) => c.(reasons := MergeStrings(s.reasons, c.reasons))
  }

  function RelatedCandidates(order: seq<string>, related: seq<CandidateView>, sql: seq<CandidateView>): seq<CandidateView> {
    if order == [] then []
    else
      var first := LastByUid(related, order[0]);
      (if first.Some? then [Enriched(first.value, sql)] else []) + RelatedCandidates(order[1..], related, sql)
  }

  function MergedCandidates(mode: MergeMode, sql: seq<CandidateView>, relation: Option<Result>, setOrder: set<string> -> seq<string>)
    : seq<CandidateView>
  {
    if relation.None? then sql
    else
      var uids := ProductUids(relation.value.relations);
      if mode.RELATION_INTERSECT? && uids != {} then
        var related := RelatedCandidates(setOrder(uids), relation.value.candidates, sql);
        if related != [] then related else Filter(sql, (c: CandidateView) => c.uid in uids)
      else if sql == [] && relation.value.candidates != [] then relation.value.candidates
      else sql
  }

  // The merged candidates with the lists of all results, in the order SQL, relation, document.
  function Assembled<C>(base: Retrieval<C>, relation: Option<Retrieval<C>>, document: Option<Retrieval<C>>, candidates: seq<C>): Retrieval<C> {
    Retrieval(candidates,
              base.relations + (if relation.Some? then relation.value.relations else []),
              base.documents + (if document.Some? then document.value.documents else []),
              base.warnings + (if relation.Some? then relation.value.warnings else [])
                            + (if document.Some? then document.value.warnings else []),
              |candidates|, base.aggregate)
  }

  function Merge(mode: MergeMode, sql: Option<Result>, relation: Option<Result>, document: Option<Result>,
                 setOrder: set<string> -> seq<string>): Result {
    var base := if sql.Some? then sql.value else EMPTY_RESULT;
    Assembled(base, relation, document, DedupeViews(MergedCandidates(mode, base.candidates, relation, setOrder)))
  }

  // ---- Properties ----

  // setOrder lists exactly the members of s, each once.
  ghost predicate Enumerates(order: seq<string>, s: set<string>) {
    Distinct(order) && forall x :: x in order <==> x in s
  }

  lemma {:induction false} RelatedMembers(order: seq<string>, related: seq<CandidateView>, sql: seq<CandidateView>)
    requires Distinct(order)
    ensures forall v :: v in RelatedCandidates(order, related, sql) <==>
              v.uid in order && LastByUid(related, v.uid).Some? && v == Enriched(LastByUid(related, v.uid).value, sql)
    ensures DistinctUids(RelatedCandidates(order, related, sql))
  {
    if order != [] {
      var uid, rest := order[0], RelatedCandidates(order[1..], related, sql);
      assert order == [uid] + order[1..];
      RelatedMembers(order[1..], related, sql);
      LastByUidFound(related, uid);
      forall v: CandidateView | v.uid in order[1..] ensures v.uid != uid {}
      forall j | 0 <= j < |rest| ensures rest[j].uid != uid { assert rest[j] in rest; }
    }
  }

  /** Merged candidates always have pairwise distinct uids, and count_final is
      their number. */
  lemma MergedUidsDistinct(mode: MergeMode, sql: Option<Result>, relation: Option<Result>, document: Option<Result>,
                           setOrder: set<string> -> seq<string>)
    ensures DistinctUids(Merge(mode, sql, relation, document, setOrder).candidates)
    ensures Merge(mode, sql, relation, document, setOrder).countFinal == |Merge(mode, sql, relation, document, setOrder).candidates|
  {
    var base := if sql.Some? then sql.value else EMPTY_RESULT;
    DedupeByUid(MergedCandidates(mode, base.candidates, relation, setOrder));
  }

  /** In RELATION_INTERSECT mode with a relation that names a product, every
      merged candidate is backed by a merged relation evidence. */
  lemma IntersectionIsBacked(sql: Option<Result>, relation: Result, document: Option<Result>,
                             setOrder: set<string> -> seq<string>, c: CandidateView)
    requires var uids := ProductUids(relation.relations); uids != {} && Enumerates(setOrder(uids), uids)
    requires c in Merge(RELATION_INTERSECT, sql, Some(relation), document, setOrder).candidates
    ensures exists e :: e in Merge(RELATION_INTERSECT, sql, Some(relation), document, setOrder).relations && e.productUid == Some(c.uid)
  {
    var base := if sql.Some? then sql.value else EMPTY_RESULT;
    var uids := ProductUids(relation.relations);
    var all := MergedCandidates(RELATION_INTERSECT, base.candidates, Some(relation), setOrder);
    DedupeByUid(all);
    var k :| 0 <= k < |DedupeViews(all)| && DedupeViews(all)[k] == c;
    assert HasUid(DedupeViews(all), c.uid);
    var i :| 0 <= i < |all| && all[i].uid == c.uid;
    assert all[i] in all;
    RelatedMembers(setOrder(uids), relation.candidates, base.candidates);
    FilterMembers(base.candidates, (v: CandidateView) => v.uid in uids);
    assert c.uid in uids;
    var e :| e in relation.relations && e.productUid == Some(c.uid);
    assert e in base.relations + relation.relations;
  }

  lemma SameRelated(order1: seq<string>, order2: seq<string>, related: seq<CandidateView>, sql: seq<CandidateView>)
    requires Distinct(order1) && Distinct(order2) && forall uid :: uid in order1 <==> uid in order2
    ensures var a, b := RelatedCandidates(order1, related, sql), RelatedCandidates(order2, related, sql);
      (a == [] <==> b == []) && DistinctUids(a) && DistinctUids(b) && forall v :: v in a <==> v in b
  {
    var a, b := RelatedCandidates(order1, related, sql), RelatedCandidates(order2, related, sql);
    RelatedMembers(order1, related, sql);
    RelatedMembers(order2, related, sql);
    forall v ensures v in a <==> v in b {}
    EmptyOrMember(a);
    EmptyOrMember(b);
  }

  lemma SameAfterDedupe(a: seq<CandidateView>, b: seq<CandidateView>)
    requires DistinctUids(a) && DistinctUids(b) && forall v :: v in a <==> v in b
    ensures forall v :: v in DedupeViews(a) <==> v in DedupeViews(b)
  {
    DedupeOfDistinct(a);
    DedupeOfDistinct(b);
  }

  /** The merged candidates do not depend on the iteration order of the uid set:
      two orders give the same candidates, in possibly different order. */
  lemma SetOrderIrrelevant(mode: MergeMode, sql: Option<Result>, relation: Result, document: Option<Result>,
                           order1: set<string> -> seq<string>, order2: set<string> -> seq<string>)
    requires var uids := ProductUids(relation.relations); Enumerates(order1(uids), uids) && Enumerates(order2(uids), uids)
    ensures forall v :: v in Merge(mode, sql, Some(relation), document, order1).candidates
                   <==> v in Merge(mode, sql, Some(relation), document, order2).candidates
  {
    var base := if sql.Some? then sql.value else EMPTY_RESULT;
    var uids := ProductUids(relation.relations);
    var a := RelatedCandidates(order1(uids), relation.candidates, base.candidates);
    var b := RelatedCandidates(order2(uids), relation.candidates, base.candidates);
    SameRelated(order1(uids), order2(uids), relation.candidates, base.candidates);
    SameAfterDedupe(a, b);
    var all1 := MergedCandidates(mode, base.candidates, Some(relation), order1);
    var all2 := MergedCandidates(mode, base.candidates, Some(relation), order2);
    assert all1 == all2 || (all1 == a && all2 == b);
  }

  ghost predicate Backed(relations: seq<RelationEvidence>, c: CandidateView) {
    exists e :: e in relations && e.productUid == Some(c.uid)
  }

  lemma AllBackedWithUids(sql: Option<Result>, relation: Result, document: Option<Result>, setOrder: set<string> -> seq<string>)
    requires var uids := ProductUids(relation.relations); uids != {} && Enumerates(setOrder(uids), uids)
    ensures var m := Merge(RELATION_INTERSECT, sql, Some(relation), document, setOrder);
      forall c :: c in m.candidates ==> Backed(m.relations, c)
  {
    var m := Merge(RELATION_INTERSECT, sql, Some(relation), document, setOrder);
    forall c | c in m.candidates ensures Backed(m.relations, c) {
      IntersectionIsBacked(sql, relation, document, setOrder, c);
    }
  }

  lemma {:induction false} DedupeEmptyExactlyWhen(s: seq<CandidateView>)
    ensures DedupeViews(s) == [] <==> s == []
  {
    if s != [] {
      DedupeEmptyExactlyWhen(s[..|s| - 1]);
    }
  }

  /** RELATION_INTERSECT backs every merged candidate by a merged relation
      evidence exactly when some evidence names a product, or there is no
      candidate at all. Evidence between companies alone intersects nothing.
      (The SQL retriever returns no relations, and a uid begins with its family.) */
  lemma IntersectionIsBackedExactlyWhen(sql: Option<Result>, relation: Result, document: Option<Result>,
                                        setOrder: set<string> -> seq<string>)
    requires sql.Some? ==> sql.value.relations == []
    requires var uids := ProductUids(relation.relations); Enumerates(setOrder(uids), uids)
    requires forall c :: c in (if sql.Some? then sql.value.candidates else []) + relation.candidates ==> c.uid != ""
    ensures var m := Merge(RELATION_INTERSECT, sql, Some(relation), document, setOrder);
      (forall c :: c in m.candidates ==> Backed(m.relations, c)) <==>
        ProductUids(relation.relations) != {} || ((sql.None? || sql.value.candidates == []) && relation.candidates == [])
  {
    var m := Merge(RELATION_INTERSECT, sql, Some(relation), document, setOrder);
    var base := if sql.Some? then sql.value else EMPTY_RESULT;
    if ProductUids(relation.relations) != {} {
      AllBackedWithUids(sql, relation, document, setOrder);
    } else {
      var all := if base.candidates == [] then relation.candidates else base.candidates;
      assert m.candidates == DedupeViews(all) && m.relations == relation.relations;
      DedupeEmptyExactlyWhen(all);
      if all != [] {
        UnbackedWithoutUids(relation.relations, all);
      }
    }
  }

  lemma UnbackedWithoutUids(relations: seq<RelationEvidence>, all: seq<CandidateView>)
    requires ProductUids(relations) == {} && all != [] && forall c :: c in all ==> c.uid != ""
    ensures DedupeViews(all) != [] && !Backed(relations, DedupeViews(all)[0])
  {
    DedupeEmptyExactlyWhen(all);
    DedupeByUid(all);
    var c := DedupeViews(all)[0];
    assert HasUid(DedupeViews(all), c.uid);
    var i :| 0 <= i < |all| && all[i].uid == c.uid;
    assert all[i] in all;
    if e :| e in relations && e.productUid == Some(c.uid) {
      ProductUidMember(relations, e);
    }
  }

  lemma ProductUidMember(relations: seq<RelationEvidence>, e: RelationEvidence)
    requires e in relations && e.productUid.Some? && e.productUid.value != ""
    ensures e.productUid.value in ProductUids(relations)
  {
  }

  const COMPANY_RELATION := RelationEvidence("SUBSIDIARY_OF", "company:A", "company:B", "doc-1", "title", "publisher", None, "sha", None, None)
  const COMPANIES_ONLY: Result := EMPTY_RESULT.(relations := [COMPANY_RELATION])

  lemma CompaniesNameNoProduct()
    ensures ProductUids(COMPANIES_ONLY.relations) == {}
  {
  }

  function OneCandidate(c: CandidateView): Result {
    Retrieval([c], [], [], [], 1, None)
  }

  /** The failing input: one SQL candidate, and one relation between companies. */
  lemma CompanyRelationIntersectsNothing(c: CandidateView, setOrder: set<string> -> seq<string>)
    requires c.uid != "" && setOrder({}) == []
    ensures var m := Merge(RELATION_INTERSECT, Some(OneCandidate(c)), Some(COMPANIES_ONLY), None, setOrder);
      exists d :: d in m.candidates && !Backed(m.relations, d)
  {
    CompaniesNameNoProduct();
    IntersectionIsBackedExactlyWhen(Some(OneCandidate(c)), COMPANIES_ONLY, None, setOrder);
  }
}
