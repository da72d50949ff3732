/** What a whole run comes to, from the retrievers' results to the selection. */
module RunOutcomes {
  import opened Text
  import opened Query
  import opened RetrievalModels
  import opened ResultMerger
  import opened MergeMeaning
  import opened PolicyEngine
  import opened Orchestrator

  // The intents that only look for products.
  predicate SeeksProducts(spec: QuerySpec) {
    spec.intent == LOOKUP_PRODUCT || spec.intent == FILTER || spec.intent == FILTER_AND_RANK
    || spec.intent == COMPARE_PRODUCTS || spec.intent == CROSS_FAMILY_SEARCH
  }

  // The uids of the unblocked candidates, in order; an abstention without any.
  ghost predicate SelectsUnblocked(d: Decision, candidates: seq<CandidateView>) {
    var free := Filter(candidates, (c: CandidateView) => !IsBlocked(c));
    && |d.selected| == |free| && (forall i :: 0 <= i < |free| ==> d.selected[i] == free[i].uid)
    && (d.state == PRE_ANSWER <==> free != []) && (d.state == ABSTAIN <==> free == [])
    && d.reasons == [if free != [] then EVIDENCE_READY else if candidates != [] then QUALITY_BLOCKED else NO_VALID_CANDIDATE]
  }

  lemma ProductDecision(spec: QuerySpec, m: Result)
    requires SeeksProducts(spec)
    ensures SelectsUnblocked(DecidePreliminary(spec, Some(m)), m.candidates)
  {
  }

  lemma ProductPlan(spec: QuerySpec)
    requires SeeksProducts(spec)
    ensures var plans := SelectRetrievers(spec);
      && Plans(plans, SQL) && !Plans(plans, DOCUMENT) && (Plans(plans, RELATION) <==> spec.relationshipFilters != [])
      && (forall plan :: plan in plans && plan.kind == RELATION ==> spec.relationshipFilters != [])
      && (forall plan :: plan in plans ==> plan.kind != DOCUMENT)
    ensures ResolveMergeMode(spec) == if spec.relationshipFilters == [] then SQL_PRIMARY else RELATION_INTERSECT
  {
    assert SelectRetrievers(spec)[0].kind == SQL;
    assert spec.relationshipFilters != [] ==> SelectRetrievers(spec)[1].kind == RELATION;
  }

  // What the relation retriever found, if the query asks it.
  function Related(w: World, spec: QuerySpec, context: Context): Option<Result> {
    if spec.relationshipFilters == [] then None else w.retrieve(RELATION, spec, context)
  }

  lemma ProductRun(w: World, spec: QuerySpec, context: Context) returns (merged: Result)
    requires EarlyDecisionOf(w, spec).None? && SeeksProducts(spec) && w.retrieve(SQL, spec, context).Some?
    requires spec.relationshipFilters != [] ==> w.retrieve(RELATION, spec, context).Some?
    ensures Pipeline(w, spec, context).Done? && Pipeline(w, spec, context).value.merged == Some(merged)
    ensures merged == Merge(if spec.relationshipFilters == [] then SQL_PRIMARY else RELATION_INTERSECT,
                            w.retrieve(SQL, spec, context), Related(w, spec, context), None, w.setOrder)
    ensures Pipeline(w, spec, context).value.preliminary == DecidePreliminary(spec, Some(merged))
  {
    ProductPlan(spec);
    RaisesExactlyWhen(w, spec, context);
    CompletedRunMergesWhatItRead(w, spec, context);
    merged := Pipeline(w, spec, context).value.merged.value;
  }

  /** A product search without relations selects exactly the unblocked ones of
      what the SQL retriever found, in its order, and abstains when there are none. */
  lemma ProductSearchSelectsWhatSqlFound(w: World, spec: QuerySpec, context: Context, found: Result)
    requires EarlyDecisionOf(w, spec).None? && SeeksProducts(spec) && spec.relationshipFilters == []
    requires w.retrieve(SQL, spec, context) == Some(found) && DistinctUids(found.candidates)
    ensures Pipeline(w, spec, context).Done? && Pipeline(w, spec, context).value.merged.Some?
    ensures var run := Pipeline(w, spec, context).value;
      && run.merged.value.candidates == found.candidates && run.merged.value.warnings == found.warnings
      && SelectsUnblocked(run.preliminary, found.candidates)
  {
    var merged := ProductRun(w, spec, context);
    PlainMerge(SQL_PRIMARY, Some(found), None, None, w.setOrder);
    MergedLists(SQL_PRIMARY, found, EMPTY_RESULT, EMPTY_RESULT, w.setOrder);
    ProductDecision(spec, merged);
  }

  /** A product search by relations whose evidence names a product that the
      relation retriever found selects exactly the products that it found, that
      the evidence names, and that are not blocked. */
  lemma RelationSearchSelectsNamed(w: World, spec: QuerySpec, context: Context, found: Result, related: Result, uid: string)
    requires EarlyDecisionOf(w, spec).None? && SeeksProducts(spec) && spec.relationshipFilters != []
    requires w.retrieve(SQL, spec, context) == Some(found) && w.retrieve(RELATION, spec, context) == Some(related)
    requires DistinctUids(related.candidates) && NamesOwnCandidate(related)
    requires Enumerates(w.setOrder(ProductUids(related.relations)), ProductUids(related.relations))
    ensures Pipeline(w, spec, context).Done?
    ensures uid in Pipeline(w, spec, context).value.preliminary.selected <==>
              Names(related, uid) && exists c :: c in related.candidates && c.uid == uid && !IsBlocked(c)
  {
    var merged := ProductRun(w, spec, context);
    IntersectionKeepsNamed(Some(found), related, None, w.setOrder);
    ProductDecision(spec, merged);
    SelectedExactly(DecidePreliminary(spec, Some(merged)), merged.candidates, uid);
    BlockedAsFound(merged.candidates, related, found.candidates, uid);
  }

  lemma SelectedExactly(d: Decision, candidates: seq<CandidateView>, uid: string)
    requires SelectsUnblocked(d, candidates)
    ensures uid in d.selected <==> exists c :: c in candidates && c.uid == uid && !IsBlocked(c)
  {
    var free := Filter(candidates, (c: CandidateView) => !IsBlocked(c));
    FilterMembers(candidates, (c: CandidateView) => !IsBlocked(c));
    if c :| c in free && c.uid == uid {
      var i :| 0 <= i < |free| && free[i] == c;
      assert d.selected[i] == uid;
    }
    if uid in d.selected {
      var i :| 0 <= i < |d.selected| && d.selected[i] == uid;
      assert free[i] in free;
    }
  }

  // A kept candidate is blocked exactly when the relation's own one is.
  lemma BlockedAsFound(merged: seq<CandidateView>, related: Result, sql: seq<CandidateView>, uid: string)
    requires KeepsNamed(merged, related, sql) && DistinctUids(related.candidates)
    ensures (exists c :: c in merged && c.uid == uid && !IsBlocked(c)) <==>
              Names(related, uid) && exists c :: c in related.candidates && c.uid == uid && !IsBlocked(c)
  {
    UidMember(merged, uid);
    UidMember(related.candidates, uid);
    forall c | c in merged && c.uid == uid
      ensures forall r :: r in related.candidates && r.uid == uid ==> (IsBlocked(r) <==> IsBlocked(c))
    {
      var r :| LastOf(related.candidates, r) && r.uid == c.uid && EnrichedFrom(c, r, sql);
      SameUidSame(related.candidates, r);
    }
  }

  lemma SameUidSame(s: seq<CandidateView>, r: CandidateView)
    requires DistinctUids(s) && LastOf(s, r)
    ensures r in s && forall q :: q in s && q.uid == r.uid ==> q == r
  {
    var k :| 0 <= k < |s| && s[k] == r;
    forall q | q in s && q.uid == r.uid ensures q == r {
      var i :| 0 <= i < |s| && s[i] == q;
    }
  }
}
