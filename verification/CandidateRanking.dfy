/** The ranking code itself, on candidate objects: it marks ranks and reasons in
    place, and its results are the values of module Ranking. */
module CandidateRanking {
  import opened Text
  import opened Query
  import opened RetrievalModels
  import opened FilterCompiler
  import opened StableSort
  import opened Ranking

  // dominates
  method ComputeDominates(a: Candidate, b: Candidate, sorts: seq<SafeSort>) returns (r: bool)
    ensures r == Dominates(a.View(), b.View(), sorts)
  {
    var notWorseAll, betterAny := true, false;
    for i := 0 to |sorts|
      invariant forall j :: 0 <= j < i ==> ValueOf(a.View(), sorts[j]).Some? && ValueOf(b.View(), sorts[j]).Some?
      invariant notWorseAll <==> forall j :: 0 <= j < i ==> !Better(b.View(), a.View(), sorts[j])
      invariant betterAny <==> exists j :: 0 <= j < i && Better(a.View(), b.View(), sorts[j])
    {
      var av, bv := MetricValue(a.metricsUsed, sorts[i].field), MetricValue(b.metricsUsed, sorts[i].field);
      if av.None? || bv.None? { return false; }
      if sorts[i].direction.ASC? {
        if av.value > bv.value { notWorseAll := false; }
        if av.value < bv.value { betterAny := true; }
      } else {
        if av.value < bv.value { notWorseAll := false; }
        if av.value > bv.value { betterAny := true; }
      }
    }
    return notWorseAll && betterAny;
  }

  // ---- Sorting objects ----

  // Objects of `whole`, none of them twice.
  ghost predicate SubListOf(part: seq<Candidate>, whole: seq<Candidate>) {
    Unaliased(part) && forall c :: c in part ==> c in whole
  }

  // sorted() over objects: sorting their values by the same keys.
  method SortObjects<K(!new)>(keys: seq<K>, objects: seq<Candidate>, le: (K, K) -> bool) returns (sorted: seq<Candidate>)
    requires TotalOrder(le) && |keys| == |objects| && Unaliased(objects)
    ensures SubListOf(sorted, objects) && |sorted| == |objects|
    ensures Views(sorted) == Items(Sort(Zip(keys, Views(objects)), le))
  {
    var pairs := Zip(keys, objects);
    var result := Sort(pairs, le);
    sorted := Items(result);
    ghost var view := map c | c in objects :: c.View();
    SortMapped(pairs, le, view);
    SortOrdered(pairs, le);
    assert MapItems(pairs, view) == Zip(keys, Views(objects));
    assert Views(sorted) == Items(MapItems(result, view));
    ItemsStayDistinct(pairs, result);
    ResultIsSubList(pairs, result, objects, sorted);
  }

  lemma ResultIsSubList<K>(pairs: seq<(K, Candidate)>, result: seq<(K, Candidate)>, objects: seq<Candidate>, sorted: seq<Candidate>)
    requires multiset(pairs) == multiset(result) && sorted == Items(result)
    requires forall i :: 0 <= i < |pairs| ==> pairs[i].1 in objects
    ensures forall c :: c in sorted ==> c in objects
  {
    forall c | c in sorted ensures c in objects {
      var i :| 0 <= i < |sorted| && sorted[i] == c;
      assert result[i] in multiset(pairs);
    }
  }

  method SortByKey(candidates: seq<Candidate>, sorts: seq<SafeSort>) returns (sorted: seq<Candidate>)
    requires Unaliased(candidates)
    ensures SubListOf(sorted, candidates) && |sorted| == |candidates|
    ensures Views(sorted) == Sorted(Views(candidates), sorts)
  {
    var keys: seq<SortKey> := [];
    for i := 0 to |candidates|
      invariant |keys| == i && forall j :: 0 <= j < i ==> keys[j] == KeyOf(candidates[j].View(), sorts)
    {
      keys := keys + [KeyOf(candidates[i].View(), sorts)];
    }
    KeyOrder();
    sorted := SortObjects(keys, candidates, KEY_ORDER);
    assert Zip(keys, Views(candidates)) == Decorate(Views(candidates), sorts);
  }

  method SortByTie(candidates: seq<Candidate>) returns (sorted: seq<Candidate>)
    requires Unaliased(candidates)
    ensures SubListOf(sorted, candidates)
    ensures Views(sorted) == Items(Sort(TiePairs(Views(candidates)), STRING_ORDER))
  {
    var keys: seq<string> := [];
    for i := 0 to |candidates|
      invariant |keys| == i && forall j :: 0 <= j < i ==> keys[j] == Tie(candidates[j].View())
    {
      keys := keys + [Tie(candidates[i].View())];
    }
    StringOrder();
    sorted := SortObjects(keys, candidates, STRING_ORDER);
    assert Zip(keys, Views(candidates)) == TiePairs(Views(candidates));
  }

  // ---- Marking objects in place ----

  method MarkRanked(ranked: seq<Candidate>)
    requires Unaliased(ranked)
    modifies Objects(ranked)
    ensures Views(ranked) == MarkAll(old(Views(ranked)))
  {
    ghost var before := Views(ranked);
    for index := 0 to |ranked|
      invariant forall j :: 0 <= j < index ==> ranked[j].View() == Marked(before[j], j + 1)
      invariant forall j :: index <= j < |ranked| ==> ranked[j].View() == before[j]
    {
      ranked[index].stableRank := Some(index + 1);
      if ranked[index].selectionReasons == [] {
        ranked[index].selectionReasons := ["LEXICOGRAPHIC_SORT"];
      }
    }
  }

  method AppendReason(candidates: seq<Candidate>, reason: string)
    requires Unaliased(candidates)
    modifies Objects(candidates)
    ensures Views(candidates) == AddReasonToAll(old(Views(candidates)), reason)
  {
    ghost var before := Views(candidates);
    for i := 0 to |candidates|
      invariant forall j :: 0 <= j < i ==> candidates[j].View() == AddReason(before[j], reason)
      invariant forall j :: i <= j < |candidates| ==> candidates[j].View() == before[j]
    {
      candidates[i].selectionReasons := candidates[i].selectionReasons + [reason];
    }
  }

  // _lexicographic_sort
  method LexicographicSort(candidates: seq<Candidate>, sorts: seq<SafeSort>) returns (ranked: seq<Candidate>)
    requires Unaliased(candidates)
    modifies Objects(candidates)
    ensures SubListOf(ranked, candidates) && |ranked| == |candidates|
    ensures Views(ranked) == LexicographicResult(old(Views(candidates)), sorts)
  {
    ranked := SortByKey(candidates, sorts);
    assert Objects(ranked) <= Objects(candidates);
    MarkRanked(ranked);
  }

  // ---- Selecting objects ----

  lemma KeepOneMore(kept: seq<Candidate>, all: seq<Candidate>, i: nat)
    requires i < |all| && Unaliased(all) && SubListOf(kept, all[..i])
    ensures SubListOf(kept, all[..i + 1]) && SubListOf(kept + [all[i]], all[..i + 1])
  {
    assert all[..i + 1] == all[..i] + [all[i]];
    assert all[i] !in all[..i];
  }

  // The list comprehension over complete candidates.
  method SelectEligible(candidates: seq<Candidate>, sorts: seq<SafeSort>) returns (eligible: seq<Candidate>)
    requires Unaliased(candidates)
    ensures SubListOf(eligible, candidates)
    ensures Views(eligible) == Eligible(Views(candidates), sorts)
  {
    eligible := [];
    ghost var views, keep := Views(candidates), (v: CandidateView) => Complete(v, sorts);
    for i := 0 to |candidates|
      invariant SubListOf(eligible, candidates[..i])
      invariant Views(eligible) == Filter(views[..i], keep)
    {
      FilterSnoc(views, i, keep);
      KeepOneMore(eligible, candidates, i);
      if Complete(candidates[i].View(), sorts) {
        eligible := eligible + [candidates[i]];
      }
    }
    assert views[..|candidates|] == views;
  }

  // any(other is not candidate and dominates(other, candidate, sorts) for other in eligible)
  method AnyDominates(eligible: seq<Candidate>, candidate: Candidate, sorts: seq<SafeSort>) returns (dominated: bool)
    ensures dominated <==> !FreeAmong(candidate.View(), Views(eligible), sorts)
  {
    for i := 0 to |eligible|
      invariant forall j :: 0 <= j < i ==> !Dominates(eligible[j].View(), candidate.View(), sorts)
    {
      if eligible[i] != candidate {
        var d := ComputeDominates(eligible[i], candidate, sorts);
        if d {
          assert Views(eligible)[i] in Views(eligible);
          return true;
        }
      }
    }
    return false;
  }

  // The loop that keeps undominated candidates.
  method SelectUndominated(eligible: seq<Candidate>, sorts: seq<SafeSort>) returns (frontier: seq<Candidate>)
    requires Unaliased(eligible)
    ensures SubListOf(frontier, eligible)
    ensures var views := Views(eligible); Views(frontier) == Filter(views, v => FreeAmong(v, views, sorts))
  {
    frontier := [];
    ghost var views := Views(eligible);
    ghost var keep := (v: CandidateView) => FreeAmong(v, views, sorts);
    for i := 0 to |eligible|
      invariant SubListOf(frontier, eligible[..i])
      invariant Views(frontier) == Filter(views[..i], keep)
    {
      FilterSnoc(views, i, keep);
      KeepOneMore(frontier, eligible, i);
      var dominated := AnyDominates(eligible, eligible[i], sorts);
      if !dominated {
        frontier := frontier + [eligible[i]];
      }
    }
    assert views[..|eligible|] == views;
  }

  // pareto_frontier
  method ParetoFrontier(candidates: seq<Candidate>, sorts: seq<SafeSort>) returns (frontier: seq<Candidate>)
    requires Unaliased(candidates)
    modifies Objects(candidates)
    ensures SubListOf(frontier, candidates)
    ensures Views(frontier) == FrontierResult(old(Views(candidates)), sorts)
  {
    var eligible := SelectEligible(candidates, sorts);
    frontier := SelectUndominated(eligible, sorts);
    FrontierAmongEligible(Views(candidates), sorts);
    frontier := SortByTie(frontier);
    assert Objects(frontier) <= Objects(candidates);
    AppendReason(frontier, "PARETO_FRONTIER");
  }

  // pareto_select
  method ParetoSelect(candidates: seq<Candidate>, sorts: seq<SafeSort>) returns (ranked: seq<Candidate>)
    requires Unaliased(candidates)
    modifies Objects(candidates)
    ensures SubListOf(ranked, candidates)
    ensures Views(ranked) == LexicographicResult(FrontierResult(old(Views(candidates)), sorts), sorts)
  {
    var frontier := ParetoFrontier(candidates, sorts);
    assert Objects(frontier) <= Objects(candidates);
    ranked := LexicographicSort(frontier, sorts);
  }

  // sort_candidates
  method SortCandidates(candidates: seq<Candidate>, sorts: seq<SafeSort>, usePareto: bool) returns (ranked: seq<Candidate>)
    requires Unaliased(candidates)
    modifies Objects(candidates)
    ensures SubListOf(ranked, candidates)
    ensures Views(ranked) == SortCandidatesResult(old(Views(candidates)), sorts, usePareto)
  {
    if candidates == [] || sorts == [] {
      return candidates;
    }
    if AnyPriority(sorts) {
      ranked := LexicographicSort(candidates, ByPriority(sorts));
    } else if usePareto && |sorts| > 1 {
      ranked := ParetoSelect(candidates, sorts);
    } else {
      ranked := LexicographicSort(candidates, sorts);
    }
  }
}
