/** Ranking of candidates: the lexicographic sort with missing values, Pareto
    dominance and the frontier, as functions of candidate values. */
module Ranking {
  import opened Text
  import opened Query
  import opened RetrievalModels
  import opened FilterCompiler
  import opened StableSort

  // _metric_value: the first metric of that field with a raw value decides.
  function MetricValue(metrics: seq<Metric>, field: string): Option<real> {
    if metrics == [] then None
    else if metrics[0].field == field && !metrics[0].raw.Missing? then
      if metrics[0].raw.Number? then Some(metrics[0].raw.value) else None
    else MetricValue(metrics[1..], field)
  }

  function ValueOf(v: CandidateView, s: SafeSort): Option<real> {
    MetricValue(v.metrics, s.field)
  }

  function Tie(v: CandidateView): string {
    if v.tieBreak.Some? && v.tieBreak.value != "" then v.tieBreak.value else v.sourceKey
  }

  // ---- Lexicographic keys ----

  datatype SortKey = SortKey(parts: seq<(int, real)>, tie: string)

  function KeyPart(v: CandidateView, s: SafeSort): (int, real) {
    match ValueOf(v, s)
    case None => (if s.direction.ASC? then 1 else 0, 0.0)
    case Some(x) => (0, if s.direction.ASC? then x else -x)
  }

  function KeyOf(v: CandidateView, sorts: seq<SafeSort>): (k: SortKey)
    ensures |k.parts| == |sorts|
  {
    SortKey(seq(|sorts|, i requires 0 <= i < |sorts| => KeyPart(v, sorts[i])), Tie(v))
  }

  predicate PartLe(p: (int, real), q: (int, real)) {
    p.0 < q.0 || (p.0 == q.0 && p.1 <= q.1)
  }

  predicate KeyLe(a: SortKey, b: SortKey) {
    if a.parts == b.parts then StringLe(a.tie, b.tie) else LexLe(a.parts, b.parts, (p, q) => PartLe(p, q))
  }

  const KEY_ORDER: (SortKey, SortKey) -> bool := (a, b) => KeyLe(a, b)

  lemma KeyOrder()
    ensures TotalOrder(KEY_ORDER)
  {
    StringOrder();
    var le := (p: (int, real), q: (int, real)) => PartLe(p, q);
    assert TotalOrder(le);
    forall a: SortKey, b: SortKey
      ensures KeyLe(a, b) || KeyLe(b, a)
      ensures KeyLe(a, b) && KeyLe(b, a) ==> a == b
    {
      StringComparable(a.tie, b.tie);
      LexTotal(a.parts, b.parts, le);
    }
    forall a: SortKey, b: SortKey, c: SortKey | KeyLe(a, b) && KeyLe(b, c)
      ensures KeyLe(a, c)
    {
      KeyTransitive(a, b, c);
    }
  }

  lemma StringComparable(a: string, b: string)
    ensures StringLe(a, b) || StringLe(b, a)
    ensures StringLe(a, b) && StringLe(b, a) ==> a == b
  {
    LexTotal(a, b, (x: char, y: char) => x <= y);
  }

  lemma KeyTransitive(a: SortKey, b: SortKey, c: SortKey)
    requires KeyLe(a, b) && KeyLe(b, c)
    ensures KeyLe(a, c)
  {
    var le := (p: (int, real), q: (int, real)) => PartLe(p, q);
    LexTotal(a.parts, a.parts, le);
    LexTotal(b.parts, b.parts, le);
    LexTransitive(a.parts, b.parts, c.parts, le);
    if a.parts == c.parts {
      LexTotal(a.parts, b.parts, le);
      LexTransitive(a.tie, b.tie, c.tie, (x: char, y: char) => x <= y);
    }
  }

  function Decorate(views: seq<CandidateView>, sorts: seq<SafeSort>): (r: seq<(SortKey, CandidateView)>)
    ensures |r| == |views|
  {
    seq(|views|, i requires 0 <= i < |views| => (KeyOf(views[i], sorts), views[i]))
  }

  // sorted(candidates, key=sort_key)
  function Sorted(views: seq<CandidateView>, sorts: seq<SafeSort>): seq<CandidateView> {
    Items(Sort(Decorate(views, sorts), KEY_ORDER))
  }

  // stable_rank from one, and a reason where there is none yet.
  function Marked(v: CandidateView, rank: nat): CandidateView {
    v.(rank := Some(rank), reasons := if v.reasons == [] then ["LEXICOGRAPHIC_SORT"] else v.reasons)
  }

  function MarkAll(views: seq<CandidateView>): (r: seq<CandidateView>)
    ensures |r| == |views|
  {
    seq(|views|, i requires 0 <= i < |views| => Marked(views[i], i + 1))
  }

  function LexicographicResult(views: seq<CandidateView>, sorts: seq<SafeSort>): seq<CandidateView> {
    MarkAll(Sorted(views, sorts))
  }

  // ---- Pareto dominance ----

  predicate Complete(v: CandidateView, sorts: seq<SafeSort>) {
    forall i :: 0 <= i < |sorts| ==> ValueOf(v, sorts[i]).Some?
  }

  // a's value is better than b's in the direction of the sort.
  predicate Better(a: CandidateView, b: CandidateView, s: SafeSort) {
    var av, bv := ValueOf(a, s), ValueOf(b, s);
    av.Some? && bv.Some? && if s.direction.ASC? then av.value < bv.value else av.value > bv.value
  }

  predicate Dominates(a: CandidateView, b: CandidateView, sorts: seq<SafeSort>) {
    && Complete(a, sorts) && Complete(b, sorts)
    && (forall i :: 0 <= i < |sorts| ==> !Better(b, a, sorts[i]))
    && (exists i :: 0 <= i < |sorts| && Better(a, b, sorts[i]))
  }

  /** Dominance is a strict partial order. */
  lemma DominanceStrictPartialOrder(a: CandidateView, b: CandidateView, c: CandidateView, sorts: seq<SafeSort>)
    ensures !Dominates(a, a, sorts)
    ensures Dominates(a, b, sorts) ==> !Dominates(b, a, sorts)
    ensures Dominates(a, b, sorts) && Dominates(b, c, sorts) ==> Dominates(a, c, sorts)
  {
    if Dominates(a, b, sorts) && Dominates(b, c, sorts) {
      var i :| 0 <= i < |sorts| && Better(a, b, sorts[i]);
      assert !Better(c, b, sorts[i]);
      assert Better(a, c, sorts[i]);
      forall j | 0 <= j < |sorts| ensures !Better(c, a, sorts[j]) {
        assert !Better(b, a, sorts[j]) && !Better(c, b, sorts[j]);
      }
    }
  }

  predicate Undominated(v: CandidateView, views: seq<CandidateView>, sorts: seq<SafeSort>) {
    Complete(v, sorts) && forall w :: w in views ==> !Dominates(w, v, sorts)
  }

  // The frontier before it is sorted, in input order.
  function FrontierMembers(views: seq<CandidateView>, sorts: seq<SafeSort>): seq<CandidateView> {
    Filter(views, v => Undominated(v, views, sorts))
  }

  function TiePairs(views: seq<CandidateView>): (r: seq<(string, CandidateView)>)
    ensures |r| == |views|
  {
    seq(|views|, i requires 0 <= i < |views| => (Tie(views[i]), views[i]))
  }

  const STRING_ORDER: (string, string) -> bool := (a, b) => StringLe(a, b)

  function AddReason(v: CandidateView, reason: string): CandidateView {
    v.(reasons := v.reasons + [reason])
  }

  function AddReasonToAll(views: seq<CandidateView>, reason: string): (r: seq<CandidateView>)
    ensures |r| == |views|
  {
    seq(|views|, i requires 0 <= i < |views| => AddReason(views[i], reason))
  }

  function FrontierResult(views: seq<CandidateView>, sorts: seq<SafeSort>): seq<CandidateView> {
    AddReasonToAll(Items(Sort(TiePairs(FrontierMembers(views, sorts)), STRING_ORDER)), "PARETO_FRONTIER")
  }

  function DominatorsOf(v: CandidateView, views: seq<CandidateView>, sorts: seq<SafeSort>): set<CandidateView> {
    set w | w in views && Dominates(w, v, sorts)
  }

  /** Every complete candidate is on the frontier or dominated by a member of it:
      finitely many candidates admit no infinite climb. */
  lemma {:induction false} FrontierCovers(v: CandidateView, views: seq<CandidateView>, sorts: seq<SafeSort>) returns (f: CandidateView)
    requires v in views && Complete(v, sorts)
    ensures f in views && Undominated(f, views, sorts)
    ensures f == v || Dominates(f, v, sorts)
    decreases |DominatorsOf(v, views, sorts)|
  {
    if Undominated(v, views, sorts) {
      return v;
    }
    var w :| w in views && Dominates(w, v, sorts);
    forall u | u in DominatorsOf(w, views, sorts) ensures u in DominatorsOf(v, views, sorts) {
      DominanceStrictPartialOrder(u, w, v, sorts);
    }
    DominanceStrictPartialOrder(w, w, w, sorts);
    assert w in DominatorsOf(v, views, sorts) && w !in DominatorsOf(w, views, sorts);
    ProperSubsetSize(DominatorsOf(w, views, sorts), DominatorsOf(v, views, sorts));
    f := FrontierCovers(w, views, sorts);
    DominanceStrictPartialOrder(f, w, v, sorts);
  }

  lemma {:induction false} ProperSubsetSize<T>(a: set<T>, b: set<T>)
    requires a < b
    ensures |a| < |b|
  {
    if x :| x in a {
      ProperSubsetSize(a - {x}, b - {x});
    }
  }

  /** The frontier is exactly the undominated complete candidates, it is empty
      only when no candidate is complete, and it covers everything left out. */
  lemma FrontierIsExact(views: seq<CandidateView>, sorts: seq<SafeSort>)
    ensures forall v :: v in FrontierMembers(views, sorts) <==> v in views && Undominated(v, views, sorts)
    ensures forall v :: v in views && Complete(v, sorts) && v !in FrontierMembers(views, sorts) ==>
              exists f :: f in FrontierMembers(views, sorts) && Dominates(f, v, sorts)
    ensures (exists v :: v in views && Complete(v, sorts)) ==> FrontierMembers(views, sorts) != []
  {
    FilterMembers(views, v => Undominated(v, views, sorts));
    forall v | v in views && Complete(v, sorts)
      ensures exists f :: f in FrontierMembers(views, sorts) && (f == v || Dominates(f, v, sorts))
    {
      var f := FrontierCovers(v, views, sorts);
    }
  }

  // ---- Dispatch ----

  predicate AnyPriority(sorts: seq<SafeSort>) {
    exists i :: 0 <= i < |sorts| && sorts[i].priority.Some?
  }

  function PriorityKey(s: SafeSort): int {
    if s.priority.Some? then s.priority.value else 10_000
  }

  function ByPriority(sorts: seq<SafeSort>): seq<SafeSort> {
    Items(Sort(seq(|sorts|, i requires 0 <= i < |sorts| => (PriorityKey(sorts[i]), sorts[i])), (a: int, b: int) => a <= b))
  }

  predicate UsesPareto(sorts: seq<SafeSort>, usePareto: bool) {
    !AnyPriority(sorts) && usePareto && |sorts| > 1
  }

  function LexicographicSorts(sorts: seq<SafeSort>): seq<SafeSort> {
    if AnyPriority(sorts) then ByPriority(sorts) else sorts
  }

  function SortCandidatesResult(views: seq<CandidateView>, sorts: seq<SafeSort>, usePareto: bool): seq<CandidateView> {
    if views == [] || sorts == [] then views
    else if UsesPareto(sorts, usePareto) then LexicographicResult(FrontierResult(views, sorts), sorts)
    else LexicographicResult(views, LexicographicSorts(sorts))
  }

  // ---- What the lexicographic order means ----

  // a comes strictly before b at the first sort where their values differ.
  predicate BeforeFrom(a: CandidateView, b: CandidateView, sorts: seq<SafeSort>, i: nat)
    requires i <= |sorts| && Complete(a, sorts) && Complete(b, sorts)
    decreases |sorts| - i
  {
    if i == |sorts| then StringLe(Tie(a), Tie(b))
    else Better(a, b, sorts[i]) || (ValueOf(a, sorts[i]) == ValueOf(b, sorts[i]) && BeforeFrom(a, b, sorts, i + 1))
  }

  lemma {:induction false} SuffixOrder(a: CandidateView, b: CandidateView, sorts: seq<SafeSort>, i: nat)
    requires i <= |sorts| && Complete(a, sorts) && Complete(b, sorts)
    ensures var p, q := KeyOf(a, sorts).parts[i..], KeyOf(b, sorts).parts[i..];
            BeforeFrom(a, b, sorts, i) <==> if p == q then StringLe(Tie(a), Tie(b)) else LexLe(p, q, (x, y) => PartLe(x, y))
    decreases |sorts| - i
  {
    var p, q := KeyOf(a, sorts).parts[i..], KeyOf(b, sorts).parts[i..];
    if i < |sorts| {
      SuffixOrder(a, b, sorts, i + 1);
      assert p[1..] == KeyOf(a, sorts).parts[i + 1..] && q[1..] == KeyOf(b, sorts).parts[i + 1..];
      assert p == [p[0]] + p[1..] && q == [q[0]] + q[1..];
      assert p[0] == KeyPart(a, sorts[i]) && q[0] == KeyPart(b, sorts[i]);
    }
  }

  /** On candidates with every sort value present, the sort keys compare exactly
      as the directed values do, in sort order, then the source keys. */
  lemma KeyOrderMeaning(a: CandidateView, b: CandidateView, sorts: seq<SafeSort>)
    requires Complete(a, sorts) && Complete(b, sorts)
    ensures KeyLe(KeyOf(a, sorts), KeyOf(b, sorts)) <==> BeforeFrom(a, b, sorts, 0)
  {
    SuffixOrder(a, b, sorts, 0);
    assert KeyOf(a, sorts).parts[0..] == KeyOf(a, sorts).parts && KeyOf(b, sorts).parts[0..] == KeyOf(b, sorts).parts;
  }

  // ---- The frontier as two passes ----

  predicate FreeAmong(v: CandidateView, eligible: seq<CandidateView>, sorts: seq<SafeSort>) {
    forall w :: w in eligible ==> !Dominates(w, v, sorts)
  }

  function Eligible(views: seq<CandidateView>, sorts: seq<SafeSort>): seq<CandidateView> {
    Filter(views, v => Complete(v, sorts))
  }

  lemma FrontierAmongEligible(views: seq<CandidateView>, sorts: seq<SafeSort>)
    ensures Filter(Eligible(views, sorts), v => FreeAmong(v, Eligible(views, sorts), sorts)) == FrontierMembers(views, sorts)
  {
    var complete := (v: CandidateView) => Complete(v, sorts);
    FilterMembers(views, complete);
    var free := (v: CandidateView) => FreeAmong(v, Eligible(views, sorts), sorts);
    FilterTwice(views, complete, free, v => Undominated(v, views, sorts));
  }
}
