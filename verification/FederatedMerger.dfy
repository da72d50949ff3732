/** merge_cross_family: product families take turns, one candidate each per
    round, until the limit is reached or every batch is exhausted. */
module FederatedMerger {
  import opened Text
  import opened Query
  import opened RetrievalModels
  import opened StableSort
  import opened Ranking
  import opened CandidateRanking
  import opened ProductRepository

  // A slot (f, i) takes item i of the f-th family.
  type Slot = (nat, nat)

  // One round r, for the first j families.
  function Column(sizes: seq<nat>, r: nat, j: nat): seq<Slot>
    requires j <= |sizes|
  {
    if j == 0 then [] else Column(sizes, r, j - 1) + if r < sizes[j - 1] then [(j - 1, r)] else []
  }

  function Rounds(sizes: seq<nat>, r: nat): seq<Slot> {
    if r == 0 then [] else Rounds(sizes, r - 1) + Column(sizes, r - 1, |sizes|)
  }

  // r whole rounds and then the first j families: where a run may stop.
  function Turns(sizes: seq<nat>, r: nat, j: nat): seq<Slot>
    requires j <= |sizes|
  {
    Rounds(sizes, r) + Column(sizes, r, j)
  }

  // How often family f was taken.
  function Taken(slots: seq<Slot>, f: nat): nat {
    if slots == [] then 0 else Taken(slots[..|slots| - 1], f) + if slots[|slots| - 1].0 == f then 1 else 0
  }

  function Sum(sizes: seq<nat>): nat {
    if sizes == [] then 0 else Sum(sizes[..|sizes| - 1]) + sizes[|sizes| - 1]
  }

  function Min(a: nat, b: nat): nat {
    if a <= b then a else b
  }

  lemma {:induction false} TakenAppend(a: seq<Slot>, b: seq<Slot>, f: nat)
    ensures Taken(a + b, f) == Taken(a, f) + Taken(b, f)
  {
    if b == [] {
      assert a + b == a;
    } else {
      assert (a + b)[..|a + b| - 1] == a + b[..|b| - 1];
      TakenAppend(a, b[..|b| - 1], f);
    }
  }

  lemma {:induction false} TakenInColumn(sizes: seq<nat>, r: nat, j: nat, f: nat)
    requires j <= |sizes|
    ensures Taken(Column(sizes, r, j), f) == if f < j && r < sizes[f] then 1 else 0
  {
    if j > 0 {
      TakenInColumn(sizes, r, j - 1, f);
      var last: seq<Slot> := if r < sizes[j - 1] then [(j - 1, r)] else [];
      TakenAppend(Column(sizes, r, j - 1), last, f);
      assert Taken(last, f) == if r < sizes[j - 1] && j - 1 == f then 1 else 0;
    }
  }

  lemma {:induction false} TakenInRounds(sizes: seq<nat>, r: nat, f: nat)
    requires f < |sizes|
    ensures Taken(Rounds(sizes, r), f) == Min(r, sizes[f])
  {
    if r > 0 {
      var q: nat := r - 1;
      TakenInRounds(sizes, q, f);
      OneMoreRound(sizes, q, f);
      assert Rounds(sizes, q + 1) == Rounds(sizes, r);
    }
  }

  lemma OneMoreRound(sizes: seq<nat>, r: nat, f: nat)
    requires f < |sizes|
    ensures Taken(Rounds(sizes, r + 1), f) == Taken(Rounds(sizes, r), f) + if r < sizes[f] then 1 else 0
  {
    TakenInColumn(sizes, r, |sizes|, f);
    TakenAppend(Rounds(sizes, r), Column(sizes, r, |sizes|), f);
  }

  /** After r rounds and j more turns a family was taken r times, once more if
      its turn of the next round is over, or else it is exhausted. */
  lemma TakenByTurns(sizes: seq<nat>, r: nat, j: nat, f: nat)
    requires j <= |sizes| && f < |sizes|
    ensures Taken(Turns(sizes, r, j), f) == Min(if f < j then r + 1 else r, sizes[f])
  {
    TakenInRounds(sizes, r, f);
    TakenInColumn(sizes, r, j, f);
    TakenAppend(Rounds(sizes, r), Column(sizes, r, j), f);
  }

  /** Fairness: a family taken less often than a later one, or less often than an
      earlier one by more than one, has been exhausted. */
  lemma Fair(sizes: seq<nat>, r: nat, j: nat, earlier: nat, later: nat)
    requires j <= |sizes| && earlier < later < |sizes|
    ensures var slots := Turns(sizes, r, j);
      && (Taken(slots, earlier) < Taken(slots, later) ==> Taken(slots, earlier) == sizes[earlier])
      && (Taken(slots, later) + 1 < Taken(slots, earlier) ==> Taken(slots, later) == sizes[later])
  {
    TakenByTurns(sizes, r, j, earlier);
    TakenByTurns(sizes, r, j, later);
  }

  // ---- Lengths ----

  function TakenInAll(slots: seq<Slot>, n: nat): nat {
    if n == 0 then 0 else TakenInAll(slots, n - 1) + Taken(slots, n - 1)
  }

  lemma {:induction false} OneMoreTaken(slots: seq<Slot>, last: Slot, n: nat)
    ensures TakenInAll(slots + [last], n) == TakenInAll(slots, n) + if last.0 < n then 1 else 0
  {
    if n > 0 {
      OneMoreTaken(slots, last, n - 1);
      assert (slots + [last])[..|slots|] == slots;
    }
  }

  lemma {:induction false} LengthIsTaken(slots: seq<Slot>, n: nat)
    requires forall k :: 0 <= k < |slots| ==> slots[k].0 < n
    ensures |slots| == TakenInAll(slots, n)
  {
    if slots == [] {
      NothingTaken(n);
    } else {
      var before := slots[..|slots| - 1];
      LengthIsTaken(before, n);
      OneMoreTaken(before, slots[|slots| - 1], n);
      assert slots == before + [slots[|slots| - 1]];
    }
  }

  lemma {:induction false} NothingTaken(n: nat)
    ensures TakenInAll([], n) == 0
  {
    if n > 0 { NothingTaken(n - 1); }
  }

  lemma {:induction false} TakenAtMostSizes(slots: seq<Slot>, sizes: seq<nat>, n: nat)
    requires n <= |sizes| && forall f :: 0 <= f < n ==> Taken(slots, f) <= sizes[f]
    ensures TakenInAll(slots, n) <= Sum(sizes[..n])
    ensures (forall f :: 0 <= f < n ==> Taken(slots, f) == sizes[f]) ==> TakenInAll(slots, n) == Sum(sizes[..n])
  {
    if n > 0 {
      TakenAtMostSizes(slots, sizes, n - 1);
      assert sizes[..n][..n - 1] == sizes[..n - 1];
    }
  }

  // Every slot takes the next unused item of its family.
  ghost predicate InOrder(slots: seq<Slot>, sizes: seq<nat>) {
    forall k :: 0 <= k < |slots| ==>
      slots[k].0 < |sizes| && slots[k].1 < sizes[slots[k].0] && slots[k].1 == Taken(slots[..k], slots[k].0)
  }

  lemma NextTurn(sizes: seq<nat>, r: nat, j: nat)
    requires j < |sizes|
    ensures Turns(sizes, r, j + 1) == if r < sizes[j] then Turns(sizes, r, j) + [(j, r)] else Turns(sizes, r, j)
  {
  }

  lemma TurnInOrder(sizes: seq<nat>, r: nat, j: nat, slots: seq<Slot>)
    requires j < |sizes| && slots == Turns(sizes, r, j) && InOrder(slots, sizes)
    ensures InOrder(Turns(sizes, r, j + 1), sizes)
  {
    NextTurn(sizes, r, j);
    if r < sizes[j] {
      TakenByTurns(sizes, r, j, j);
      InOrderAppend(slots, (j, r), sizes);
    }
  }

  lemma {:induction false} ColumnInOrder(sizes: seq<nat>, r: nat, j: nat)
    requires j <= |sizes| && InOrder(Rounds(sizes, r), sizes)
    ensures InOrder(Turns(sizes, r, j), sizes)
  {
    if j == 0 {
      assert Turns(sizes, r, 0) == Rounds(sizes, r);
    } else {
      ColumnInOrder(sizes, r, j - 1);
      TurnInOrder(sizes, r, j - 1, Turns(sizes, r, j - 1));
    }
  }

  lemma InOrderAppend(slots: seq<Slot>, last: Slot, sizes: seq<nat>)
    requires InOrder(slots, sizes) && last.0 < |sizes| && last.1 < sizes[last.0] && last.1 == Taken(slots, last.0)
    ensures InOrder(slots + [last], sizes)
  {
    var all := slots + [last];
    assert all[..|slots|] == slots;
    forall k | 0 <= k < |slots| ensures all[k] == slots[k] && all[..k] == slots[..k] {}
  }

  /** Each family's candidates are taken from the front of its batch, in order. */
  lemma {:induction false} TurnsInOrder(sizes: seq<nat>, r: nat, j: nat)
    requires j <= |sizes|
    ensures InOrder(Turns(sizes, r, j), sizes)
    decreases r, j
  {
    if r == 0 {
      ColumnInOrder(sizes, 0, j);
    } else {
      TurnsInOrder(sizes, r - 1, |sizes|);
      ColumnInOrder(sizes, r, j);
    }
  }

  /** No run takes more than there is, and it takes everything once no family
      has an item left for the next round. */
  lemma TurnsLength(sizes: seq<nat>, r: nat, j: nat)
    requires j <= |sizes|
    ensures |Turns(sizes, r, j)| <= Sum(sizes)
    ensures (forall f :: 0 <= f < |sizes| ==> sizes[f] <= r) ==> |Turns(sizes, r, j)| == Sum(sizes)
  {
    var slots := Turns(sizes, r, j);
    TurnsInOrder(sizes, r, j);
    LengthIsTaken(slots, |sizes|);
    forall f | 0 <= f < |sizes| ensures Taken(slots, f) == Min(if f < j then r + 1 else r, sizes[f]) {
      TakenByTurns(sizes, r, j, f);
    }
    TakenAtMostSizes(slots, sizes, |sizes|);
    assert sizes[..|sizes|] == sizes;
  }

  // ---- The merge ----

  function Sizes(lists: seq<seq<Candidate>>): (r: seq<nat>)
    ensures |r| == |lists|
  {
    seq(|lists|, f requires 0 <= f < |lists| => |lists[f]|)
  }

  // All candidates of all families are different objects.
  ghost predicate SeparateObjects(lists: seq<seq<Candidate>>) {
    forall f, g, i, k :: 0 <= f < |lists| && 0 <= g < |lists| && 0 <= i < |lists[f]| && 0 <= k < |lists[g]| && (f, i) != (g, k) ==>
      lists[f][i] != lists[g][k]
  }

  ghost function AllObjects(lists: seq<seq<Candidate>>): set<Candidate> {
    set f, i | 0 <= f < |lists| && 0 <= i < |lists[f]| :: lists[f][i]
  }

  // The candidate list that a run of slots picks.
  ghost predicate Picks(merged: seq<Candidate>, slots: seq<Slot>, lists: seq<seq<Candidate>>) {
    && |merged| == |slots|
    && forall k :: 0 <= k < |slots| ==>
         slots[k].0 < |lists| && slots[k].1 < |lists[slots[k].0]| && merged[k] == lists[slots[k].0][slots[k].1]
  }

  const ROUND_ROBIN := "CROSS_FAMILY_ROUND_ROBIN"

  // Exactly the merged candidates carry one more reason than before.
  ghost predicate ReasonsAdded(before: map<Candidate, CandidateView>, merged: seq<Candidate>)
    reads before.Keys
  {
    forall c :: c in before ==> c.View() == if c in merged then AddReason(before[c], ROUND_ROBIN) else before[c]
  }

  method AddRoundRobinReason(candidate: Candidate, ghost before: map<Candidate, CandidateView>, ghost merged: seq<Candidate>)
    requires candidate in before && candidate !in merged && ReasonsAdded(before, merged)
    modifies candidate
    ensures ReasonsAdded(before, merged + [candidate])
  {
    candidate.selectionReasons := candidate.selectionReasons + [ROUND_ROBIN];
  }

  // One turn of the outer loop; stops early when the limit is reached.
  method Round(lists: seq<seq<Candidate>>, limit: nat, ghost before: map<Candidate, CandidateView>,
               start: seq<Candidate>, startIndices: seq<nat>, ghost rounds: nat)
    returns (merged: seq<Candidate>, indices: seq<nat>, added: bool, ghost turn: nat)
    requires SeparateObjects(lists) && before.Keys == AllObjects(lists)
    requires |start| < limit && Progress(lists, start, startIndices, rounds, 0) && ReasonsAdded(before, start)
    modifies AllObjects(lists)
    ensures turn <= |lists| && Progress(lists, merged, indices, rounds, turn) && ReasonsAdded(before, merged)
    ensures |start| <= |merged| <= limit && (added <==> |merged| > |start|)
    ensures |merged| < limit ==> turn == |lists|
    ensures !added ==> forall g :: 0 <= g < |lists| ==> |lists[g]| <= rounds
  {
    merged, indices, added, turn := start, startIndices, false, 0;
    for f := 0 to |lists|
      invariant turn == f && |start| <= |merged| < limit && (added <==> |merged| > |start|)
      invariant Progress(lists, merged, indices, rounds, f) && ReasonsAdded(before, merged)
      invariant !added ==> forall g :: 0 <= g < f ==> |lists[g]| <= rounds
    {
      var items, idx := lists[f], indices[f];
      turn := f + 1;
      if idx >= |items| {
        SkipOne(lists, merged, indices, rounds, f);
        continue;
      }
      TakeOne(lists, merged, indices, rounds, f);
      AddRoundRobinReason(items[idx], before, merged);
      merged := merged + [items[idx]];
      indices := indices[f := idx + 1];
      added := true;
      if |merged| >= limit { break; }
    }
  }

  method RoundRobin(lists: seq<seq<Candidate>>, limit: nat) returns (merged: seq<Candidate>, ghost rounds: nat, ghost turn: nat)
    requires SeparateObjects(lists)
    modifies AllObjects(lists)
    ensures turn <= |lists| && Picks(merged, Turns(Sizes(lists), rounds, turn), lists)
    ensures |merged| == Min(limit, Sum(Sizes(lists)))
    ensures forall c :: c in AllObjects(lists) ==>
              c.View() == old(c.View()).(reasons := old(c.View()).reasons + if c in merged then ["CROSS_FAMILY_ROUND_ROBIN"] else [])
  {
    ghost var before := map c | c in AllObjects(lists) :: c.View();
    merged, rounds, turn := RunRounds(lists, limit, before);
    forall c | c in AllObjects(lists)
      ensures c.View() == old(c.View()).(reasons := old(c.View()).reasons + if c in merged then ["CROSS_FAMILY_ROUND_ROBIN"] else [])
    {
      assert c in before && before[c].reasons + [] == before[c].reasons;
    }
  }

  method RunRounds(lists: seq<seq<Candidate>>, limit: nat, ghost before: map<Candidate, CandidateView>)
    returns (merged: seq<Candidate>, ghost rounds: nat, ghost turn: nat)
    requires SeparateObjects(lists) && before.Keys == AllObjects(lists) && ReasonsAdded(before, [])
    modifies AllObjects(lists)
    ensures turn <= |lists| && Picks(merged, Turns(Sizes(lists), rounds, turn), lists)
    ensures |merged| == Min(limit, Sum(Sizes(lists)))
    ensures ReasonsAdded(before, merged)
  {
    merged, rounds, turn := [], 0, 0;
    var indices: seq<nat> := seq(|lists|, f => 0);
    var added := true;
    while |merged| < limit && added
      invariant |merged| <= limit && (|merged| < limit ==> turn == 0)
      invariant Progress(lists, merged, indices, rounds, turn) && ReasonsAdded(before, merged)
      invariant !added ==> forall g :: 0 <= g < |lists| ==> |lists[g]| <= rounds
      decreases limit - |merged|, added
    {
      merged, indices, added, turn := Round(lists, limit, before, merged, indices, rounds);
      if |merged| < limit {
        EndOfRound(lists, merged, indices, rounds);
        rounds, turn := rounds + 1, 0;
      }
    }
    FinalLength(lists, merged, indices, rounds, turn, limit);
  }

  lemma FinalLength(lists: seq<seq<Candidate>>, merged: seq<Candidate>, indices: seq<nat>, rounds: nat, turn: nat, limit: nat)
    requires turn <= |lists| && Progress(lists, merged, indices, rounds, turn) && |merged| <= limit
    requires |merged| == limit || forall g :: 0 <= g < |lists| ==> |lists[g]| <= rounds
    ensures |merged| == Min(limit, Sum(Sizes(lists)))
  {
    TurnsLength(Sizes(lists), rounds, turn);
  }

  // Where the loops stand after `rounds` rounds and f turns of the next.
  ghost predicate Progress(lists: seq<seq<Candidate>>, merged: seq<Candidate>, indices: seq<nat>, rounds: nat, f: nat) {
    && f <= |lists|
    && IndicesAt(indices, Sizes(lists), rounds, f)
    && Picks(merged, Turns(Sizes(lists), rounds, f), lists)
    && BelowIndices(Turns(Sizes(lists), rounds, f), indices)
  }

  ghost predicate IndicesAt(indices: seq<nat>, sizes: seq<nat>, rounds: nat, f: nat) {
    && |indices| == |sizes|
    && forall g :: 0 <= g < |sizes| ==> indices[g] == Min(if g < f then rounds + 1 else rounds, sizes[g])
  }

  ghost predicate BelowIndices(slots: seq<Slot>, indices: seq<nat>) {
    forall k :: 0 <= k < |slots| ==> slots[k].0 < |indices| && slots[k].1 < indices[slots[k].0]
  }

  lemma TakeOne(lists: seq<seq<Candidate>>, merged: seq<Candidate>, indices: seq<nat>, rounds: nat, f: nat)
    requires SeparateObjects(lists) && f < |lists| && Progress(lists, merged, indices, rounds, f) && indices[f] < |lists[f]|
    ensures Progress(lists, merged + [lists[f][indices[f]]], indices[f := indices[f] + 1], rounds, f + 1)
    ensures lists[f][indices[f]] !in merged && lists[f][indices[f]] in AllObjects(lists)
  {
    var sizes := Sizes(lists);
    NotYetTaken(lists, merged, indices, rounds, f);
    AdvanceIndices(indices, sizes, rounds, f);
    NextTurn(sizes, rounds, f);
    TakeSlot(Turns(sizes, rounds, f), merged, lists, indices, f);
  }

  lemma TakeSlot(slots: seq<Slot>, merged: seq<Candidate>, lists: seq<seq<Candidate>>, indices: seq<nat>, f: nat)
    requires f < |lists| == |indices| && indices[f] < |lists[f]| && Picks(merged, slots, lists) && BelowIndices(slots, indices)
    ensures Picks(merged + [lists[f][indices[f]]], slots + [(f, indices[f])], lists)
    ensures BelowIndices(slots + [(f, indices[f])], indices[f := indices[f] + 1])
    ensures lists[f][indices[f]] in AllObjects(lists)
  {
  }

  lemma AdvanceIndices(indices: seq<nat>, sizes: seq<nat>, rounds: nat, f: nat)
    requires f < |sizes| && IndicesAt(indices, sizes, rounds, f)
    ensures indices[f] < sizes[f] ==> indices[f] == rounds && IndicesAt(indices[f := indices[f] + 1], sizes, rounds, f + 1)
    ensures indices[f] >= sizes[f] ==> sizes[f] <= rounds && IndicesAt(indices, sizes, rounds, f + 1)
  {
  }

  lemma NotYetTaken(lists: seq<seq<Candidate>>, merged: seq<Candidate>, indices: seq<nat>, rounds: nat, f: nat)
    requires SeparateObjects(lists) && f < |lists| && Progress(lists, merged, indices, rounds, f) && indices[f] < |lists[f]|
    ensures lists[f][indices[f]] !in merged
  {
    var slots := Turns(Sizes(lists), rounds, f);
    forall k | 0 <= k < |merged| ensures merged[k] != lists[f][indices[f]] {
      assert slots[k] != (f, indices[f]);
      assert merged[k] == lists[slots[k].0][slots[k].1];
    }
  }

  lemma SkipOne(lists: seq<seq<Candidate>>, merged: seq<Candidate>, indices: seq<nat>, rounds: nat, f: nat)
    requires f < |lists| && Progress(lists, merged, indices, rounds, f) && indices[f] >= |lists[f]|
    ensures Progress(lists, merged, indices, rounds, f + 1) && |lists[f]| <= rounds
  {
    AdvanceIndices(indices, Sizes(lists), rounds, f);
    NextTurn(Sizes(lists), rounds, f);
  }

  lemma EndOfRound(lists: seq<seq<Candidate>>, merged: seq<Candidate>, indices: seq<nat>, rounds: nat)
    requires Progress(lists, merged, indices, rounds, |lists|)
    ensures Progress(lists, merged, indices, rounds + 1, 0)
  {
    assert Turns(Sizes(lists), rounds + 1, 0) == Turns(Sizes(lists), rounds, |lists|);
  }

  // ---- merge_cross_family ----

  // per_family[family]: a later batch of the same family replaces an earlier one.
  function LastBatch(batches: seq<CandidateBatch>, family: Family): Option<seq<Candidate>> {
    if batches == [] then None
    else if batches[|batches| - 1].family == family then Some(batches[|batches| - 1].candidates)
    else LastBatch(batches[..|batches| - 1], family)
  }

  // The lists in the order of `families`, without families that have no batch.
  function FamilyLists(batches: seq<CandidateBatch>, families: seq<Family>): seq<seq<Candidate>> {
    if families == [] then []
    else
      var first := LastBatch(batches, families[0]);
      (if first.Some? then [first.value] else []) + FamilyLists(batches, families[1..])
  }

  ghost predicate HasBatch(batches: seq<CandidateBatch>, family: Family) {
    exists k :: 0 <= k < |batches| && batches[k].family == family
  }

  // The candidates of the last batch of that family.
  ghost predicate LastBatchHolds(batches: seq<CandidateBatch>, family: Family, candidates: seq<Candidate>) {
    exists k :: 0 <= k < |batches| && batches[k].family == family && batches[k].candidates == candidates
                && forall j :: k < j < |batches| ==> batches[j].family != family
  }

  lemma {:induction false} LastBatchIs(batches: seq<CandidateBatch>, family: Family)
    ensures LastBatch(batches, family).Some? <==> HasBatch(batches, family)
    ensures LastBatch(batches, family).Some? ==> LastBatchHolds(batches, family, LastBatch(batches, family).value)
  {
    if batches != [] {
      var n := |batches| - 1;
      if batches[n].family == family {
        assert LastBatchHolds(batches, family, batches[n].candidates);
      } else {
        LastBatchIs(batches[..n], family);
        if HasBatch(batches[..n], family) {
          var k :| 0 <= k < n && batches[..n][k].family == family && batches[..n][k].candidates == LastBatch(batches, family).value
                   && forall j :: k < j < n ==> batches[..n][j].family != family;
          forall j | k < j < |batches| ensures batches[j].family != family { if j < n { assert batches[..n][j] == batches[j]; } }
          assert batches[k] == batches[..n][k];
        }
        if k :| 0 <= k < |batches| && batches[k].family == family {
          assert batches[..n][k] == batches[k];
        }
      }
    }
  }

  /** The families take turns in the query's order, each with its last batch, and
      families without a batch are left out. */
  lemma {:induction false} FamiliesInOrder(batches: seq<CandidateBatch>, families: seq<Family>)
    ensures var lists, present := FamilyLists(batches, families), Filter(families, (f: Family) => LastBatch(batches, f).Some?);
      && |lists| == |present| && forall i :: 0 <= i < |lists| ==> LastBatchHolds(batches, present[i], lists[i])
    ensures forall f :: LastBatch(batches, f).Some? <==> HasBatch(batches, f)
  {
    forall f { LastBatchIs(batches, f); }
    if families != [] {
      FamiliesInOrder(batches, families[1..]);
      FilterHead(families, (f: Family) => LastBatch(batches, f).Some?);
    }
  }

  function AllCandidates(batches: seq<CandidateBatch>): seq<Candidate> {
    if batches == [] then [] else AllCandidates(batches[..|batches| - 1]) + batches[|batches| - 1].candidates
  }

  lemma {:induction false} PooledFromAllBatches(batches: seq<CandidateBatch>, c: Candidate)
    ensures c in AllCandidates(batches) <==> exists b :: b in batches && c in b.candidates
  {
    if batches != [] {
      var n := |batches| - 1;
      PooledFromAllBatches(batches[..n], c);
      assert batches == batches[..n] + [batches[n]];
    }
  }

  // The tie-break key, or the source key.
  predicate OrderedBy(v: CandidateView, key: string) {
    (v.tieBreak == Some(key) && key != "") || ((v.tieBreak == None || v.tieBreak == Some("")) && key == v.sourceKey)
  }

  lemma SortedTies(views: seq<CandidateView>, sorted: seq<(string, CandidateView)>)
    requires sorted == Sort(TiePairs(views), STRING_ORDER)
    ensures multiset(sorted) == multiset(TiePairs(views)) && |sorted| == |views|
    ensures forall i :: 0 <= i < |sorted| ==> sorted[i].0 == Tie(sorted[i].1)
    ensures forall i, j :: 0 <= i < j < |sorted| ==> StringLe(sorted[i].0, sorted[j].0)
  {
    StringOrder();
    SortOrdered(TiePairs(views), STRING_ORDER);
    forall i | 0 <= i < |sorted| ensures sorted[i].0 == Tie(sorted[i].1) {
      assert sorted[i] in multiset(sorted);
      var k :| 0 <= k < |views| && TiePairs(views)[k] == sorted[i];
    }
    forall i, j | 0 <= i < j < |sorted| ensures StringLe(sorted[i].0, sorted[j].0) {
      assert STRING_ORDER(sorted[i].0, sorted[j].0);
    }
  }

  /** Pooling keeps the first candidates, up to the limit, of all of them in the
      order of their tie-break keys. */
  lemma PooledInOrder(views: seq<CandidateView>, limit: nat) returns (all: seq<CandidateView>)
    ensures multiset(all) == multiset(views)
    ensures Limited(Items(Sort(TiePairs(views), STRING_ORDER)), limit) == all[..Min(limit, |all|)]
    ensures forall i, j, a, b :: 0 <= i < j < |all| && OrderedBy(all[i], a) && OrderedBy(all[j], b) ==> StringLe(a, b)
  {
    var sorted := Sort(TiePairs(views), STRING_ORDER);
    all := Items(sorted);
    SortedTies(views, sorted);
    ItemsPermute(sorted, TiePairs(views));
    assert Items(TiePairs(views)) == views;
    forall i, j, a, b | 0 <= i < j < |all| && OrderedBy(all[i], a) && OrderedBy(all[j], b) ensures StringLe(a, b) {
      OneKey(all[i], a);
      OneKey(all[j], b);
      assert all[i] == sorted[i].1 && all[j] == sorted[j].1;
    }
  }

  lemma OneKey(v: CandidateView, key: string)
    requires OrderedBy(v, key)
    ensures key == Tie(v)
  {
  }

  /** With a single comparable metric the families are pooled and ordered by
      source key; otherwise they take turns. */
  method MergeCrossFamily(batches: seq<CandidateBatch>, families: seq<Family>, limit: nat, comparableMetric: Option<string>)
    returns (merged: seq<Candidate>)
    requires SeparateObjects(FamilyLists(batches, families)) && Unaliased(AllCandidates(batches))
    modifies AllObjects(FamilyLists(batches, families))
    ensures comparableMetric.Some? && comparableMetric.value != "" ==>
              Views(merged) == Limited(Items(Sort(TiePairs(old(Views(AllCandidates(batches)))), STRING_ORDER)), limit)
    ensures comparableMetric.None? || comparableMetric.value == "" ==>
              var lists := FamilyLists(batches, families);
              && |merged| == Min(limit, Sum(Sizes(lists)))
              && (forall c :: c in AllObjects(lists) ==>
                    c.View() == old(c.View()).(reasons := old(c.View()).reasons + if c in merged then ["CROSS_FAMILY_ROUND_ROBIN"] else []))
              && exists rounds: nat, turn: nat :: turn <= |lists| && Picks(merged, Turns(Sizes(lists), rounds, turn), lists)
  {
    if comparableMetric.Some? && comparableMetric.value != "" {
      var combined := [];
      for i := 0 to |batches|
        invariant combined == AllCandidates(batches[..i])
      {
        assert batches[..i + 1][..i] == batches[..i];
        combined := combined + batches[i].candidates;
      }
      assert batches[..|batches|] == batches;
      var sorted := SortByTie(combined);
      merged := Limited(sorted, limit);
      assert Views(merged) == Limited(Views(sorted), limit);
    } else {
      ghost var rounds, turn;
      merged, rounds, turn := RoundRobin(FamilyLists(batches, families), limit);
    }
  }

  // ---- build_retrieval_result ----

  datatype Counts = Counts(beforeFilter: nat, afterFilter: nat, afterQuality: nat, excluded: nat)

  function CountsOf(batches: seq<CandidateBatch>): Counts {
    if batches == [] then Counts(0, 0, 0, 0)
    else
      var c, b := CountsOf(batches[..|batches| - 1]), batches[|batches| - 1];
      Counts(c.beforeFilter + b.countBeforeFilter, c.afterFilter + b.countAfterFilter,
             c.afterQuality + b.countAfterQuality, c.excluded + b.excluded)
  }

  /** Every count of a federated result is the sum of its batches' counts. */
  lemma {:induction false} CountsAreSums(batches: seq<CandidateBatch>)
    ensures CountsOf(batches).beforeFilter == Sum(seq(|batches|, i requires 0 <= i < |batches| => batches[i].countBeforeFilter))
    ensures CountsOf(batches).afterFilter == Sum(seq(|batches|, i requires 0 <= i < |batches| => batches[i].countAfterFilter))
  {
    if batches != [] {
      var n := |batches| - 1;
      CountsAreSums(batches[..n]);
      var before := seq(|batches|, i requires 0 <= i < |batches| => batches[i].countBeforeFilter);
      var after := seq(|batches|, i requires 0 <= i < |batches| => batches[i].countAfterFilter);
      assert before[..n] == seq(n, i requires 0 <= i < n => batches[..n][i].countBeforeFilter);
      assert after[..n] == seq(n, i requires 0 <= i < n => batches[..n][i].countAfterFilter);
    }
  }

  // Filtered rows are either kept or reported as excluded.
  predicate Balanced(b: CandidateBatch) {
    b.countAfterFilter == b.countAfterQuality + b.excluded && |b.candidates| <= b.countAfterQuality
  }

  /** What the summed counts of a federated result conserve. */
  lemma {:induction false} SummedCountsBalance(batches: seq<CandidateBatch>)
    requires forall b :: b in batches ==> Balanced(b)
    ensures CountsOf(batches).afterFilter == CountsOf(batches).afterQuality + CountsOf(batches).excluded
    ensures |AllCandidates(batches)| <= CountsOf(batches).afterQuality
  {
    if batches != [] {
      SummedCountsBalance(batches[..|batches| - 1]);
      assert batches[|batches| - 1] in batches;
    }
  }
}
