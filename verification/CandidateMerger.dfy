/** merge_retrieval_results on the candidate objects themselves: it merges reasons,
    flags and metrics in place, and its results are the values of ResultMerger. */
module CandidateMerger {
  import opened Text
  import opened RetrievalModels
  import opened ResultMerger

  method MergeStringLists(left: seq<string>, right: seq<string>) returns (merged: seq<string>)
    ensures merged == MergeStrings(left, right)
  {
    var seen := set s | s in left;
    merged := left;
    for i := 0 to |right|
      invariant merged == MergeStrings(left, right[..i])
      invariant seen == set s | s in merged
    {
      assert right[..i + 1][..i] == right[..i];
      if right[i] !in seen {
        seen := seen + {right[i]};
        merged := merged + [right[i]];
      }
    }
    assert right[..|right|] == right;
  }

  method AbsorbCandidate(existing: Candidate, c: Candidate)
    requires existing != c
    modifies existing
    ensures existing.View() == Absorb(old(existing.View()), c.View())
  {
    var reasons := MergeStringLists(existing.selectionReasons, c.selectionReasons);
    existing.selectionReasons := reasons;
    var flags := MergeStringLists(existing.qualityFlags, c.qualityFlags);
    existing.qualityFlags := flags;
    if c.metricsUsed != [] {
      existing.metricsUsed := c.metricsUsed;
    }
  }

  // The dict and the order list of _dedupe_candidates as one list of objects.
  function Collected(order: seq<string>, merged: map<string, Candidate>): (r: seq<Candidate>)
    requires forall uid :: uid in order ==> uid in merged
    ensures |r| == |order|
  {
    seq(|order|, i requires 0 <= i < |order| => merged[order[i]])
  }

  ghost predicate ByUid(order: seq<string>, merged: map<string, Candidate>, pool: seq<Candidate>) {
    && Distinct(order) && (forall uid :: uid in order <==> uid in merged)
    && (forall uid :: uid in merged ==> merged[uid].uid == uid && merged[uid] in pool)
  }

  // The first i candidates are collected, and the others are as they were.
  ghost predicate CollectedUpTo(order: seq<string>, merged: map<string, Candidate>, candidates: seq<Candidate>, before: seq<CandidateView>, i: nat)
    reads Objects(candidates)
  {
    && i <= |candidates| == |before| && ByUid(order, merged, candidates[..i])
    && (forall uid :: uid in merged ==> merged[uid] in Objects(candidates))
    && Views(Collected(order, merged)) == DedupeViews(before[..i]) && Views(candidates[i..]) == before[i..]
  }

  method DedupeCandidates(candidates: seq<Candidate>) returns (result: seq<Candidate>)
    requires Unaliased(candidates)
    modifies Objects(candidates)
    ensures Views(result) == DedupeViews(old(Views(candidates)))
  {
    var merged: map<string, Candidate>, order: seq<string> := map[], [];
    ghost var before := Views(candidates);
    for i := 0 to |candidates|
      invariant CollectedUpTo(order, merged, candidates, before, i)
    {
      order, merged := CollectNext(order, merged, candidates, i, before);
    }
    assert before[..|candidates|] == before;
    result := Collected(order, merged);
  }

  method CollectNext(order: seq<string>, merged: map<string, Candidate>, candidates: seq<Candidate>, i: nat, ghost before: seq<CandidateView>)
    returns (newOrder: seq<string>, newMerged: map<string, Candidate>)
    requires Unaliased(candidates) && i < |candidates| && CollectedUpTo(order, merged, candidates, before, i)
    modifies Objects(candidates)
    ensures CollectedUpTo(newOrder, newMerged, candidates, before, i + 1)
  {
    DedupeSnoc(before, i);
    NotInPrefix(candidates, i);
    FirstOfRest(candidates, before, i);
    newOrder, newMerged := CollectOne(order, merged, candidates[i], candidates[..i], candidates[i + 1..]);
  }

  // One turn of the loop: a new uid is added, a known one absorbs the candidate.
  method CollectOne(order: seq<string>, merged: map<string, Candidate>, c: Candidate, ghost pool: seq<Candidate>, ghost later: seq<Candidate>)
    returns (newOrder: seq<string>, newMerged: map<string, Candidate>)
    requires ByUid(order, merged, pool) && c !in pool && forall o :: o in later ==> o !in pool
    modifies if c.uid in merged then {merged[c.uid]} else {}
    ensures ByUid(newOrder, newMerged, pool + [c])
    ensures Views(later) == old(Views(later))
    ensures var d, v := old(Views(Collected(order, merged))), old(c.View());
      Views(Collected(newOrder, newMerged)) == if HasUid(d, v.uid) then AbsorbInto(d, v) else d + [v]
  {
    UidsOfCollected(order, merged, pool, c.uid);
    if c.uid !in merged {
      AddNew(order, merged, pool, c);
      newMerged := merged[c.uid := c];
      newOrder := order + [c.uid];
    } else {
      newOrder, newMerged := order, merged;
      AbsorbExisting(order, merged, pool, c);
    }
  }

  method AbsorbExisting(order: seq<string>, merged: map<string, Candidate>, ghost pool: seq<Candidate>, c: Candidate)
    requires ByUid(order, merged, pool) && c.uid in merged && c !in pool
    modifies merged[c.uid]
    ensures ByUid(order, merged, pool + [c])
    ensures Views(Collected(order, merged)) == AbsorbInto(old(Views(Collected(order, merged))), c.View())
  {
    AbsorbCandidate(merged[c.uid], c);
  }

  lemma AddNew(order: seq<string>, merged: map<string, Candidate>, pool: seq<Candidate>, c: Candidate)
    requires ByUid(order, merged, pool) && c.uid !in merged
    ensures ByUid(order + [c.uid], merged[c.uid := c], pool + [c])
    ensures Views(Collected(order + [c.uid], merged[c.uid := c])) == Views(Collected(order, merged)) + [c.View()]
  {
  }

  lemma NotInPrefix(s: seq<Candidate>, i: nat)
    requires Unaliased(s) && i < |s|
    ensures s[i] !in s[..i] && s[..i + 1] == s[..i] + [s[i]]
    ensures forall o :: o in s[i + 1..] ==> o !in s[..i]
  {
  }

  lemma DedupeSnoc(s: seq<CandidateView>, i: nat)
    requires i < |s|
    ensures var d := DedupeViews(s[..i]);
      DedupeViews(s[..i + 1]) == if HasUid(d, s[i].uid) then AbsorbInto(d, s[i]) else d + [s[i]]
  {
    assert s[..i + 1][..i] == s[..i];
  }

  lemma FirstOfRest(s: seq<Candidate>, before: seq<CandidateView>, i: nat)
    requires i < |s| == |before| && Views(s[i..]) == before[i..]
    ensures s[i].View() == before[i] && Views(s[i + 1..]) == before[i + 1..]
  {
    assert Views(s[i..])[0] == s[i..][0].View() && before[i..][0] == before[i];
    assert s[i + 1..] == s[i..][1..] && before[i + 1..] == before[i..][1..];
    assert Views(s[i + 1..]) == Views(s[i..])[1..];
  }

  lemma UidsOfCollected(order: seq<string>, merged: map<string, Candidate>, pool: seq<Candidate>, uid: string)
    requires ByUid(order, merged, pool)
    ensures HasUid(Views(Collected(order, merged)), uid) <==> uid in merged
  {
    if uid in merged {
      var k :| 0 <= k < |order| && order[k] == uid;
      assert Views(Collected(order, merged))[k].uid == uid;
    }
  }

  // ---- The whole merge on objects ----

  type ObjectResult = Retrieval<Candidate>

  function CandidatesOf(r: Option<ObjectResult>): seq<Candidate> {
    if r.Some? then r.value.candidates else []
  }

  function ViewOf(r: ObjectResult): Result
    reads r.candidates
  {
    Retrieval(Views(r.candidates), r.relations, r.documents, r.warnings, r.countFinal, r.aggregate)
  }

  function ViewOfOption(r: Option<ObjectResult>): Option<Result>
    reads CandidatesOf(r)
  {
    match r case None => None case Some(o) => Some(ViewOf(o))
  }

  // candidate_map.get(uid)
  method LastObject(s: seq<Candidate>, uid: string) returns (c: Option<Candidate>)
    ensures LastByUid(Views(s), uid) == if c.Some? then Some(c.value.View()) else None
    ensures c.Some? ==> c.value in s && c.value.uid == uid
  {
    c := None;
    ghost var views := Views(s);
    for i := 0 to |s|
      invariant LastByUid(views[..i], uid) == if c.Some? then Some(c.value.View()) else None
      invariant c.Some? ==> c.value in s && c.value.uid == uid
    {
      assert views[..i + 1][..i] == views[..i];
      if s[i].uid == uid { c := Some(s[i]); }
    }
    assert views[..|s|] == views;
  }

  lemma {:induction false} RelatedSnoc(order: seq<string>, uid: string, related: seq<CandidateView>, sql: seq<CandidateView>)
    ensures RelatedCandidates(order + [uid], related, sql) ==
            RelatedCandidates(order, related, sql) +
            (if LastByUid(related, uid).Some? then [Enriched(LastByUid(related, uid).value, sql)] else [])
  {
    if order == [] {
      assert [] + [uid] == [uid] && [uid][1..] == [];
    } else {
      assert (order + [uid])[1..] == order[1..] + [uid] && (order + [uid])[0] == order[0];
      RelatedSnoc(order[1..], uid, related, sql);
      var head := if LastByUid(related, order[0]).Some? then [Enriched(LastByUid(related, order[0]).value, sql)] else [];
      var tail := if LastByUid(related, uid).Some? then [Enriched(LastByUid(related, uid).value, sql)] else [];
      assert head + (RelatedCandidates(order[1..], related, sql) + tail) == head + RelatedCandidates(order[1..], related, sql) + tail;
    }
  }

  method EnrichCandidate(c: Candidate, sql: seq<Candidate>)
    requires c !in sql
    modifies c
    ensures c.View() == Enriched(old(c.View()), old(Views(sql)))
  {
    var counterpart := LastObject(sql, c.uid);
    if counterpart.Some? {
      var reasons := MergeStringLists(counterpart.value.selectionReasons, c.selectionReasons);
      c.selectionReasons := reasons;
    }
  }

  // One uid of relation_product_uids: its candidate, if any, is enriched and taken.
  method EnrichOne(uid: string, related: seq<Candidate>, sql: seq<Candidate>, result: seq<Candidate>) returns (next: seq<Candidate>)
    requires forall c :: c in related ==> c !in sql
    requires forall c :: c in result ==> c.uid != uid
    modifies Objects(related)
    ensures next == result || exists c :: c in related && c.uid == uid && next == result + [c]
    ensures forall c :: c in related && c.uid != uid ==> c.View() == old(c.View())
    ensures var last := LastByUid(old(Views(related)), uid);
      Views(next) == old(Views(result)) + if last.Some? then [Enriched(last.value, old(Views(sql)))] else []
    ensures Views(sql) == old(Views(sql))
  {
    next := result;
    var c := LastObject(related, uid);
    if c.Some? {
      EnrichCandidate(c.value, sql);
      next := next + [c.value];
    }
  }

  // result holds distinct objects of `related`, whose uids come from `uids`.
  ghost predicate TakenFrom(result: seq<Candidate>, related: seq<Candidate>, uids: seq<string>) {
    Unaliased(result) && forall c :: c in result ==> c in related && c.uid in uids
  }

  lemma TakeOneMore(result: seq<Candidate>, related: seq<Candidate>, order: seq<string>, i: nat)
    requires Distinct(order) && i < |order| && TakenFrom(result, related, order[..i])
    ensures forall c :: c in result ==> c.uid != order[i]
    ensures TakenFrom(result, related, order[..i + 1])
    ensures forall c :: c in related && c.uid == order[i] ==> TakenFrom(result + [c], related, order[..i + 1])
  {
    assert order[..i + 1] == order[..i] + [order[i]];
  }

  method EnrichRelated(order: seq<string>, related: seq<Candidate>, sql: seq<Candidate>) returns (result: seq<Candidate>)
    requires Distinct(order) && Unaliased(related + sql)
    modifies Objects(related)
    ensures TakenFrom(result, related, order)
    ensures Views(result) == RelatedCandidates(order, old(Views(related)), old(Views(sql)))
    ensures Views(sql) == old(Views(sql))
  {
    result := [];
    ghost var before, sqlViews := Views(related), Views(sql);
    Separate(related, sql);
    for i := 0 to |order|
      invariant TakenFrom(result, related, order[..i])
      invariant forall k :: 0 <= k < |related| && related[k].uid !in order[..i] ==> related[k].View() == before[k]
      invariant Views(result) == RelatedCandidates(order[..i], before, sqlViews)
      invariant Views(sql) == sqlViews
    {
      RelatedSnoc(order[..i], order[i], before, sqlViews);
      assert order[..i + 1] == order[..i] + [order[i]];
      LastUntouched(Views(related), before, order[i]);
      TakeOneMore(result, related, order, i);
      result := EnrichOne(order[i], related, sql, result);
    }
    assert order[..|order|] == order;
  }

  lemma Separate(a: seq<Candidate>, b: seq<Candidate>)
    requires Unaliased(a + b)
    ensures Unaliased(a) && Unaliased(b)
    ensures forall c :: c in a ==> c !in b
  {
    forall i, j | 0 <= i < j < |a| ensures a[i] != a[j] { assert (a + b)[i] == a[i] && (a + b)[j] == a[j]; }
    forall i, j | 0 <= i < j < |b| ensures b[i] != b[j] { assert (a + b)[|a| + i] == b[i] && (a + b)[|a| + j] == b[j]; }
    forall i, j | 0 <= i < |a| && 0 <= j < |b| ensures a[i] != b[j] { assert (a + b)[i] == a[i] && (a + b)[|a| + j] == b[j]; }
  }

  lemma {:induction false} LastUntouched(now: seq<CandidateView>, before: seq<CandidateView>, uid: string)
    requires |now| == |before| && forall k :: 0 <= k < |now| ==> now[k].uid == before[k].uid
    requires forall k :: 0 <= k < |now| && now[k].uid == uid ==> now[k] == before[k]
    ensures LastByUid(now, uid) == LastByUid(before, uid)
  {
    if now != [] {
      LastUntouched(now[..|now| - 1], before[..|now| - 1], uid);
    }
  }

  // The list comprehension over product_uid in relation_product_uids.
  method KeepRelated(candidates: seq<Candidate>, uids: set<string>) returns (kept: seq<Candidate>)
    requires Unaliased(candidates)
    ensures Unaliased(kept) && forall c :: c in kept ==> c in candidates
    ensures Views(kept) == Filter(Views(candidates), (c: CandidateView) => c.uid in uids)
  {
    kept := [];
    ghost var views, keep := Views(candidates), (c: CandidateView) => c.uid in uids;
    for i := 0 to |candidates|
      invariant Unaliased(kept) && forall c :: c in kept ==> c in candidates[..i]
      invariant Views(kept) == Filter(views[..i], keep)
    {
      FilterSnoc(views, i, keep);
      NotInPrefix(candidates, i);
      if candidates[i].uid in uids {
        kept := kept + [candidates[i]];
      }
    }
    assert views[..|candidates|] == views;
  }

  method SelectCandidates(mode: MergeMode, sql: seq<Candidate>, relation: Option<ObjectResult>, setOrder: set<string> -> seq<string>)
    returns (candidates: seq<Candidate>)
    requires Unaliased(CandidatesOf(relation) + sql)
    requires relation.Some? ==> var uids := ProductUids(relation.value.relations); Enumerates(setOrder(uids), uids)
    modifies Objects(CandidatesOf(relation))
    ensures Unaliased(candidates) && forall c :: c in candidates ==> c in sql || c in CandidatesOf(relation)
    ensures Views(candidates) == MergedCandidates(mode, old(Views(sql)), old(ViewOfOption(relation)), setOrder)
  {
    candidates := sql;
    Separate(CandidatesOf(relation), sql);
    if relation.Some? {
      var uids := ProductUids(relation.value.relations);
      if mode.RELATION_INTERSECT? && uids != {} {
        candidates := EnrichRelated(setOrder(uids), relation.value.candidates, sql);
        if candidates == [] {
          candidates := KeepRelated(sql, uids);
        }
      } else if sql == [] && relation.value.candidates != [] {
        candidates := relation.value.candidates;
      }
    }
  }

  method MergeCandidates(mode: MergeMode, sql: seq<Candidate>, relation: Option<ObjectResult>, setOrder: set<string> -> seq<string>)
    returns (candidates: seq<Candidate>)
    requires Unaliased(CandidatesOf(relation) + sql)
    requires relation.Some? ==> var uids := ProductUids(relation.value.relations); Enumerates(setOrder(uids), uids)
    modifies Objects(CandidatesOf(relation)), Objects(sql)
    ensures Views(candidates) == DedupeViews(MergedCandidates(mode, old(Views(sql)), old(ViewOfOption(relation)), setOrder))
  {
    candidates := SelectCandidates(mode, sql, relation, setOrder);
    assert Objects(candidates) <= Objects(CandidatesOf(relation)) + Objects(sql);
    candidates := DedupeCandidates(candidates);
  }

  method Assemble(base: ObjectResult, relation: Option<ObjectResult>, document: Option<ObjectResult>, candidates: seq<Candidate>)
    returns (r: ObjectResult)
    ensures r == Assembled(base, relation, document, candidates)
  {
    var relations, documents, warnings := base.relations, base.documents, base.warnings;
    if relation.Some? {
      relations := relations + relation.value.relations;
      warnings := warnings + relation.value.warnings;
    }
    if document.Some? {
      documents := documents + document.value.documents;
      warnings := warnings + document.value.warnings;
    }
    r := Retrieval(candidates, relations, documents, warnings, |candidates|, base.aggregate);
  }

  method MergeRetrievalResults(mode: MergeMode, sql: Option<ObjectResult>, relation: Option<ObjectResult>,
                               document: Option<ObjectResult>, setOrder: set<string> -> seq<string>) returns (r: ObjectResult)
    requires Unaliased(CandidatesOf(relation) + CandidatesOf(sql))
    requires relation.Some? ==> var uids := ProductUids(relation.value.relations); Enumerates(setOrder(uids), uids)
    modifies Objects(CandidatesOf(relation)), Objects(CandidatesOf(sql))
    ensures ViewOf(r) == Merge(mode, old(ViewOfOption(sql)), old(ViewOfOption(relation)), old(ViewOfOption(document)), setOrder)
  {
    var base := if sql.Some? then sql.value else Retrieval([], [], [], [], 0, None);
    ghost var baseView := ViewOf(base);
    assert baseView == if sql.Some? then ViewOf(sql.value) else EMPTY_RESULT;
    var candidates := MergeCandidates(mode, base.candidates, relation, setOrder);
    r := Assemble(base, relation, document, candidates);
  }
}
