/** Which candidates a merge keeps, and with which reasons, flags and metrics,
    in terms of the candidates that the retrievers returned. */
module MergeMeaning {
  import opened Text
  import opened RetrievalModels
  import opened ResultMerger

  // ---- Merged string lists ----

  function NewTo(left: seq<string>): string -> bool {
    (x: string) => x !in left
  }

  lemma NewAtEnd(before: seq<string>, last: string, left: seq<string>)
    ensures Filter(before + [last], NewTo(left)) == Filter(before, NewTo(left)) + if last in left then [] else [last]
  {
    FilterAppend(before, [last], NewTo(left));
    assert Filter([last], NewTo(left)) == if last in left then [] else [last];
  }

  /** The left list, followed by what is new in the right one, each item once
      and in the order of its first occurrence. */
  lemma {:induction false} MergedStrings(left: seq<string>, right: seq<string>)
    ensures MergeStrings(left, right) == left + Filter(Dedupe(right), NewTo(left))
    ensures forall x :: x in MergeStrings(left, right) <==> x in left || x in right
  {
    FilterMembers(Dedupe(right), NewTo(left));
    if right != [] {
      var n := |right| - 1;
      MergedStrings(left, right[..n]);
      FilterMembers(Dedupe(right[..n]), NewTo(left));
      NewAtEnd(Dedupe(right[..n]), right[n], left);
    }
  }

  // ---- One candidate for several of the same uid ----

  ghost predicate FirstOf(s: seq<CandidateView>, c: CandidateView) {
    exists k :: 0 <= k < |s| && s[k] == c && forall j :: 0 <= j < k ==> s[j].uid != c.uid
  }

  ghost predicate LastOf(s: seq<CandidateView>, c: CandidateView) {
    exists k :: 0 <= k < |s| && s[k] == c && forall j :: k < j < |s| ==> s[j].uid != c.uid
  }

  // The metrics of the last candidate of that uid that has any.
  ghost predicate MetricsOf(s: seq<CandidateView>, uid: string, metrics: seq<Metric>) {
    if metrics == [] then forall k :: 0 <= k < |s| && s[k].uid == uid ==> s[k].metrics == []
    else exists k :: 0 <= k < |s| && s[k].uid == uid && s[k].metrics == metrics
                     && forall j :: k < j < |s| && s[j].uid == uid ==> s[j].metrics == []
  }

  // Whether some candidate of this uid carries x among its reasons, or its flags.
  ghost predicate SomeReason(s: seq<CandidateView>, uid: string, x: string) {
    exists k :: 0 <= k < |s| && s[k].uid == uid && x in s[k].reasons
  }

  ghost predicate SomeFlag(s: seq<CandidateView>, uid: string, x: string) {
    exists k :: 0 <= k < |s| && s[k].uid == uid && x in s[k].flags
  }

  // Everything that the candidates of this uid say is in c, and nothing else.
  ghost predicate Unites(s: seq<CandidateView>, c: CandidateView) {
    && (exists f :: FirstOf(s, f) && c == f.(reasons := c.reasons, flags := c.flags, metrics := c.metrics))
    && (forall x :: x in c.reasons <==> SomeReason(s, c.uid, x)) && (forall x :: x in c.flags <==> SomeFlag(s, c.uid, x))
    && MetricsOf(s, c.uid, c.metrics)
  }

  function UidsOf(s: seq<CandidateView>): (r: seq<string>)
    ensures |r| == |s|
  {
    seq(|s|, i requires 0 <= i < |s| => s[i].uid)
  }

  // The merged list: one candidate per uid, in the order of first occurrences.
  ghost predicate UnitedFrom(merged: seq<CandidateView>, s: seq<CandidateView>) {
    UidsOf(merged) == Dedupe(UidsOf(s)) && forall i :: 0 <= i < |merged| ==> Unites(s, merged[i])
  }

  lemma AloneUnites(s: seq<CandidateView>, c: CandidateView)
    requires !HasUid(s, c.uid)
    ensures Unites(s + [c], c)
  {
    var all, n := s + [c], |s|;
    assert all[n] == c;
    forall k | 0 <= k < n ensures all[k].uid != c.uid { assert all[k] == s[k]; }
    assert FirstOf(all, c);
    if c.metrics != [] { assert MetricsOf(all, c.uid, c.metrics); }
  }

  lemma FirstStays(s: seq<CandidateView>, c: CandidateView, f: CandidateView)
    requires FirstOf(s, f)
    ensures FirstOf(s + [c], f)
  {
    var k :| 0 <= k < |s| && s[k] == f && forall j :: 0 <= j < k ==> s[j].uid != f.uid;
    assert (s + [c])[k] == f;
    forall j | 0 <= j < k ensures (s + [c])[j].uid != f.uid { assert (s + [c])[j] == s[j]; }
  }

  lemma MetricsGrow(s: seq<CandidateView>, c: CandidateView, uid: string, metrics: seq<Metric>)
    requires MetricsOf(s, uid, metrics)
    ensures MetricsOf(s + [c], uid, if c.uid == uid && c.metrics != [] then c.metrics else metrics)
  {
    var all, n := s + [c], |s|;
    assert all[n] == c && forall k :: 0 <= k < n ==> all[k] == s[k];
    if metrics != [] && !(c.uid == uid && c.metrics != []) {
      var k :| 0 <= k < n && s[k].uid == uid && s[k].metrics == metrics && forall j :: k < j < n && s[j].uid == uid ==> s[j].metrics == [];
      assert all[k] == s[k];
    }
  }

  lemma OneMoreSays(s: seq<CandidateView>, c: CandidateView, uid: string, x: string)
    ensures SomeReason(s + [c], uid, x) <==> SomeReason(s, uid, x) || (c.uid == uid && x in c.reasons)
    ensures SomeFlag(s + [c], uid, x) <==> SomeFlag(s, uid, x) || (c.uid == uid && x in c.flags)
  {
    var all, n := s + [c], |s|;
    assert all[n] == c && forall k :: 0 <= k < n ==> all[k] == s[k];
    if SomeReason(s, uid, x) {
      var k :| 0 <= k < n && s[k].uid == uid && x in s[k].reasons;
      assert all[k] == s[k];
    }
    if SomeFlag(s, uid, x) {
      var k :| 0 <= k < n && s[k].uid == uid && x in s[k].flags;
      assert all[k] == s[k];
    }
  }

  lemma OneMoreReason(s: seq<CandidateView>, d: CandidateView, c: CandidateView, x: string)
    requires x in d.reasons <==> SomeReason(s, d.uid, x)
    requires x in d.flags <==> SomeFlag(s, d.uid, x)
    ensures var e := if d.uid == c.uid then Absorb(d, c) else d;
      (x in e.reasons <==> SomeReason(s + [c], d.uid, x)) && (x in e.flags <==> SomeFlag(s + [c], d.uid, x))
  {
    OneMoreSays(s, c, d.uid, x);
    MergedStrings(d.reasons, c.reasons);
    MergedStrings(d.flags, c.flags);
  }

  lemma StillFirst(s: seq<CandidateView>, d: CandidateView, c: CandidateView)
    requires exists f :: FirstOf(s, f) && d == f.(reasons := d.reasons, flags := d.flags, metrics := d.metrics)
    ensures var e := if d.uid == c.uid then Absorb(d, c) else d;
      exists f :: FirstOf(s + [c], f) && e == f.(reasons := e.reasons, flags := e.flags, metrics := e.metrics)
  {
    var e := if d.uid == c.uid then Absorb(d, c) else d;
    var f :| FirstOf(s, f) && d == f.(reasons := d.reasons, flags := d.flags, metrics := d.metrics);
    FirstStays(s, c, f);
    assert e == f.(reasons := e.reasons, flags := e.flags, metrics := e.metrics);
  }

  // One more candidate: what it adds to d, if it is of the same uid.
  lemma StillUnites(s: seq<CandidateView>, d: CandidateView, c: CandidateView)
    requires Unites(s, d)
    ensures Unites(s + [c], if d.uid == c.uid then Absorb(d, c) else d)
  {
    StillFirst(s, d, c);
    MetricsGrow(s, c, d.uid, d.metrics);
    forall x { OneMoreReason(s, d, c, x); }
  }

  lemma UidsSnoc(s: seq<CandidateView>, c: CandidateView)
    ensures UidsOf(s + [c]) == UidsOf(s) + [c.uid]
    ensures HasUid(s, c.uid) <==> c.uid in UidsOf(s)
  {
    if HasUid(s, c.uid) {
      var i :| 0 <= i < |s| && s[i].uid == c.uid;
      assert UidsOf(s)[i] == c.uid;
    }
  }

  /** Deduplication unites the candidates of one uid: the first one stands for
      all, with every reason and flag of theirs and the last metrics there are. */
  lemma {:induction false} DedupeUnites(s: seq<CandidateView>)
    ensures UnitedFrom(DedupeViews(s), s)
  {
    if s != [] {
      var before, c := s[..|s| - 1], s[|s| - 1];
      var d := DedupeViews(before);
      assert s == before + [c];
      DedupeUnites(before);
      DedupeByUid(before);
      UidsSnoc(before, c);
      UidsSnoc(d, c);
      assert UidsOf(s)[..|before|] == UidsOf(before);
      forall i | 0 <= i < |d| ensures Unites(s, if d[i].uid == c.uid then Absorb(d[i], c) else d[i]) {
        StillUnites(before, d[i], c);
      }
      if HasUid(d, c.uid) {
        assert UidsOf(AbsorbInto(d, c)) == UidsOf(d);
      } else {
        AloneUnites(before, c);
      }
    }
  }

  // ---- What a merge keeps ----

  function SqlCandidates(sql: Option<Result>): seq<CandidateView> {
    if sql.Some? then sql.value.candidates else []
  }

  ghost predicate Names(relation: Result, uid: string) {
    uid != "" && exists e :: e in relation.relations && e.productUid == Some(uid)
  }

  // The mode and the evidence ask for an intersection.
  ghost predicate Intersects(mode: MergeMode, relation: Option<Result>) {
    mode == RELATION_INTERSECT && relation.Some? && exists uid :: Names(relation.value, uid)
  }

  lemma NamedUids(relation: Result)
    ensures forall uid :: uid in ProductUids(relation.relations) <==> Names(relation, uid)
    ensures ProductUids(relation.relations) == {} <==> forall uid :: !Names(relation, uid)
  {
    forall uid ensures uid in ProductUids(relation.relations) <==> Names(relation, uid) {
      if Names(relation, uid) {
        var e :| e in relation.relations && e.productUid == Some(uid);
      }
    }
    assert forall uid :: Names(relation, uid) ==> uid in ProductUids(relation.relations);
    if u :| u in ProductUids(relation.relations) { assert Names(relation, u); }
  }

  // The candidates that a merge keeps when it does not intersect.
  function Unintersected(sql: Option<Result>, relation: Option<Result>): seq<CandidateView> {
    if SqlCandidates(sql) != [] || relation == None then SqlCandidates(sql) else relation.value.candidates
  }

  lemma UnintersectedAreMerged(mode: MergeMode, sql: Option<Result>, relation: Option<Result>, document: Option<Result>,
                               setOrder: set<string> -> seq<string>)
    requires !Intersects(mode, relation)
    ensures Merge(mode, sql, relation, document, setOrder).candidates == DedupeViews(Unintersected(sql, relation))
  {
    if relation.Some? { NamedUids(relation.value); }
  }

  /** Without an intersection the SQL candidates are kept, or those of the
      relation when SQL found none: as they are, when their uids are distinct. */
  lemma PlainMerge(mode: MergeMode, sql: Option<Result>, relation: Option<Result>, document: Option<Result>, setOrder: set<string> -> seq<string>)
    requires !Intersects(mode, relation)
    ensures var kept, merged := Unintersected(sql, relation), Merge(mode, sql, relation, document, setOrder).candidates;
      UnitedFrom(merged, kept) && (DistinctUids(kept) ==> merged == kept)
  {
    UnintersectedAreMerged(mode, sql, relation, document, setOrder);
    DedupeUnites(Unintersected(sql, relation));
    if DistinctUids(Unintersected(sql, relation)) { ResultMerger.DedupeOfDistinct(Unintersected(sql, relation)); }
  }

  // Some candidate of the relation result is named by its evidence.
  ghost predicate NamesOwnCandidate(relation: Result) {
    exists c :: c in relation.candidates && Names(relation, c.uid)
  }

  // r, with the reasons of the last SQL candidate of its uid in front.
  ghost predicate EnrichedFrom(c: CandidateView, r: CandidateView, sql: seq<CandidateView>) {
    && c == r.(reasons := c.reasons)
    && (if exists q :: q in sql && q.uid == r.uid
        then exists q :: LastOf(sql, q) && q.uid == r.uid && c.reasons == q.reasons + Filter(Dedupe(r.reasons), NewTo(q.reasons))
        else c.reasons == r.reasons)
  }

  lemma {:induction false} LastByUidIsLast(s: seq<CandidateView>, uid: string)
    requires LastByUid(s, uid).Some?
    ensures LastOf(s, LastByUid(s, uid).value)
  {
    var n := |s| - 1;
    if s[n].uid == uid {
      assert LastOf(s, s[n]);
    } else {
      LastByUidIsLast(s[..n], uid);
      LastByUidFound(s[..n], uid);
      var c := LastByUid(s[..n], uid).value;
      var k :| 0 <= k < n && s[..n][k] == c && forall j :: k < j < n ==> s[..n][j].uid != c.uid;
      forall j | k < j < |s| ensures s[j].uid != c.uid { if j < n { assert s[..n][j] == s[j]; } }
      assert s[k] == c;
    }
  }

  lemma EnrichedIs(r: CandidateView, sql: seq<CandidateView>)
    ensures EnrichedFrom(Enriched(r, sql), r, sql)
  {
    LastByUidFound(sql, r.uid);
    if LastByUid(sql, r.uid).Some? {
      LastByUidIsLast(sql, r.uid);
      MergedStrings(LastByUid(sql, r.uid).value.reasons, r.reasons);
    } else {
      forall q | q in sql ensures q.uid != r.uid {
        var i :| 0 <= i < |sql| && sql[i] == q;
      }
    }
  }

  lemma UidMember(s: seq<CandidateView>, uid: string)
    ensures HasUid(s, uid) <==> exists c :: c in s && c.uid == uid
  {
    if c :| c in s && c.uid == uid {
      var i :| 0 <= i < |s| && s[i] == c;
    }
    if HasUid(s, uid) {
      var i :| 0 <= i < |s| && s[i].uid == uid;
      assert s[i] in s;
    }
  }

  // What an intersection keeps of the relation's candidates: exactly the named
  // uids, each once, as the last candidate of that uid.
  ghost predicate KeepsNamed(merged: seq<CandidateView>, relation: Result, sql: seq<CandidateView>) {
    && DistinctUids(merged)
    && (forall uid :: HasUid(merged, uid) <==> Names(relation, uid) && HasUid(relation.candidates, uid))
    && (forall c :: c in merged ==> exists r :: LastOf(relation.candidates, r) && r.uid == c.uid && EnrichedFrom(c, r, sql))
  }

  lemma RelatedAreNamed(order: seq<string>, relation: Result, sql: seq<CandidateView>)
    requires Distinct(order) && forall uid :: uid in order <==> Names(relation, uid)
    ensures KeepsNamed(RelatedCandidates(order, relation.candidates, sql), relation, sql)
  {
    var related := RelatedCandidates(order, relation.candidates, sql);
    RelatedMembers(order, relation.candidates, sql);
    forall c | c in related
      ensures Names(relation, c.uid) && HasUid(relation.candidates, c.uid)
      ensures exists r :: LastOf(relation.candidates, r) && r.uid == c.uid && EnrichedFrom(c, r, sql)
    {
      var r := LastByUid(relation.candidates, c.uid).value;
      LastByUidFound(relation.candidates, c.uid);
      LastByUidIsLast(relation.candidates, c.uid);
      EnrichedIs(r, sql);
    }
    forall uid ensures HasUid(related, uid) <==> Names(relation, uid) && HasUid(relation.candidates, uid) {
      UidMember(related, uid);
      LastByUidFound(relation.candidates, uid);
      if Names(relation, uid) && HasUid(relation.candidates, uid) {
        var c := Enriched(LastByUid(relation.candidates, uid).value, sql);
        assert c in related && c.uid == uid;
      }
    }
  }

  lemma RelatedAreMerged(sql: Option<Result>, relation: Result, document: Option<Result>, setOrder: set<string> -> seq<string>)
    requires var uids := ProductUids(relation.relations);
      var related := RelatedCandidates(setOrder(uids), relation.candidates, SqlCandidates(sql));
      uids != {} && related != [] && DistinctUids(related)
    ensures Merge(RELATION_INTERSECT, sql, Some(relation), document, setOrder).candidates ==
              RelatedCandidates(setOrder(ProductUids(relation.relations)), relation.candidates, SqlCandidates(sql))
  {
    ResultMerger.DedupeOfDistinct(RelatedCandidates(setOrder(ProductUids(relation.relations)), relation.candidates, SqlCandidates(sql)));
  }

  /** An intersection that finds relation candidates keeps exactly the named
      ones, with their metrics and flags, and the SQL reasons before their own. */
  lemma IntersectionKeepsNamed(sql: Option<Result>, relation: Result, document: Option<Result>, setOrder: set<string> -> seq<string>)
    requires NamesOwnCandidate(relation)
    requires Enumerates(setOrder(ProductUids(relation.relations)), ProductUids(relation.relations))
    ensures KeepsNamed(Merge(RELATION_INTERSECT, sql, Some(relation), document, setOrder).candidates, relation, SqlCandidates(sql))
  {
    var order := setOrder(ProductUids(relation.relations));
    var related := RelatedCandidates(order, relation.candidates, SqlCandidates(sql));
    NamedUids(relation);
    RelatedAreNamed(order, relation, SqlCandidates(sql));
    var c :| c in relation.candidates && Names(relation, c.uid);
    UidMember(relation.candidates, c.uid);
    assert HasUid(related, c.uid);
    RelatedAreMerged(sql, relation, document, setOrder);
  }

  /** An intersection without any keeps the named SQL candidates, in SQL order. */
  lemma IntersectionKeepsSql(sql: Option<Result>, relation: Result, document: Option<Result>, setOrder: set<string> -> seq<string>)
    requires !NamesOwnCandidate(relation) && exists uid :: Names(relation, uid)
    requires Enumerates(setOrder(ProductUids(relation.relations)), ProductUids(relation.relations))
    ensures var named := (c: CandidateView) => c.uid in ProductUids(relation.relations);
      var kept := Filter(SqlCandidates(sql), named);
      && (forall c :: c in kept <==> c in SqlCandidates(sql) && Names(relation, c.uid))
      && UnitedFrom(Merge(RELATION_INTERSECT, sql, Some(relation), document, setOrder).candidates, kept)
      && (DistinctUids(SqlCandidates(sql)) ==> Merge(RELATION_INTERSECT, sql, Some(relation), document, setOrder).candidates == kept)
  {
    var order := setOrder(ProductUids(relation.relations));
    var related := RelatedCandidates(order, relation.candidates, SqlCandidates(sql));
    var named := (c: CandidateView) => c.uid in ProductUids(relation.relations);
    NamedUids(relation);
    NoneRelated(order, relation, SqlCandidates(sql));
    FilterMembers(SqlCandidates(sql), named);
    var kept := Filter(SqlCandidates(sql), named);
    DedupeUnites(kept);
    if DistinctUids(SqlCandidates(sql)) {
      FilteredUidsDistinct(SqlCandidates(sql), named);
      ResultMerger.DedupeOfDistinct(kept);
    }
  }

  lemma NoneRelated(order: seq<string>, relation: Result, sql: seq<CandidateView>)
    requires Distinct(order) && (forall uid :: uid in order <==> Names(relation, uid)) && !NamesOwnCandidate(relation)
    ensures RelatedCandidates(order, relation.candidates, sql) == []
  {
    var related := RelatedCandidates(order, relation.candidates, sql);
    RelatedMembers(order, relation.candidates, sql);
    EmptyOrMember(related);
    if related != [] {
      LastByUidFound(relation.candidates, related[0].uid);
    }
  }

  /** Evidence, documents and warnings of all results are kept, SQL's first, and
      the aggregate is SQL's. */
  lemma MergedLists(mode: MergeMode, sql: Result, relation: Result, document: Result, setOrder: set<string> -> seq<string>)
    ensures var m := Merge(mode, Some(sql), Some(relation), Some(document), setOrder);
      && m.relations == sql.relations + relation.relations && m.documents == sql.documents + document.documents
      && m.warnings == sql.warnings + relation.warnings + document.warnings && m.aggregate == sql.aggregate
    ensures var m := Merge(mode, Some(sql), Some(relation), None, setOrder);
      m.relations == sql.relations + relation.relations && m.documents == sql.documents && m.warnings == sql.warnings + relation.warnings
    ensures var m := Merge(mode, Some(sql), None, None, setOrder);
      m.relations == sql.relations && m.documents == sql.documents && m.warnings == sql.warnings && m.aggregate == sql.aggregate
    ensures var m := Merge(mode, None, Some(relation), Some(document), setOrder);
      && m.relations == relation.relations && m.documents == document.documents
      && m.warnings == relation.warnings + document.warnings && m.aggregate == None
  {
    assert sql.relations + [] == sql.relations && [] + relation.relations == relation.relations;
    assert sql.documents + [] == sql.documents && [] + document.documents == document.documents;
    assert sql.warnings + [] + [] == sql.warnings && [] + relation.warnings == relation.warnings;
    assert sql.warnings + relation.warnings + [] == sql.warnings + relation.warnings;
  }
}
