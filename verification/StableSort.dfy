/** Python's sorted(items, key=...): keys are computed first, and items with
    equal keys keep their order. Items travel with their keys as pairs. */
module StableSort {
  import opened Text

  ghost predicate TotalOrder<K(!new)>(le: (K, K) -> bool) {
    && (forall a, b :: le(a, b) || le(b, a))
    && (forall a, b :: le(a, b) && le(b, a) ==> a == b)
    && (forall a, b, c :: le(a, b) && le(b, c) ==> le(a, c))
  }

  function Insert<K, T>(x: (K, T), s: seq<(K, T)>, le: (K, K) -> bool): seq<(K, T)> {
    if s == [] || le(x.0, s[0].0) then [x] + s else [s[0]] + Insert(x, s[1..], le)
  }

  function Sort<K, T>(s: seq<(K, T)>, le: (K, K) -> bool): seq<(K, T)> {
    if s == [] then [] else Insert(s[0], Sort(s[1..], le), le)
  }

  predicate Ordered<K, T>(s: seq<(K, T)>, le: (K, K) -> bool) {
    forall i, j :: 0 <= i < j < |s| ==> le(s[i].0, s[j].0)
  }

  ghost predicate KeysDistinct<K, T>(m: multiset<(K, T)>) {
    && (forall p, q :: p in m && q in m && p.0 == q.0 ==> p == q)
    && (forall p :: p in m ==> m[p] == 1)
  }

  lemma DistinctByIndex<K, T>(s: seq<(K, T)>)
    requires forall i, j :: 0 <= i < j < |s| ==> s[i].0 != s[j].0
    ensures KeysDistinct(multiset(s))
  {
    forall p | p in multiset(s) ensures multiset(s)[p] == 1 {
      var i :| 0 <= i < |s| && s[i] == p;
      CountOnce(s, i);
    }
  }

  function Items<K, T>(s: seq<(K, T)>): (r: seq<T>)
    ensures |r| == |s|
  {
    seq(|s|, i requires 0 <= i < |s| => s[i].1)
  }

  // sorted(..., key=...) decorates each item with its key.
  function Keyed<K, T>(s: seq<T>, key: T -> K): (r: seq<(K, T)>)
    ensures |r| == |s|
  {
    seq(|s|, i requires 0 <= i < |s| => (key(s[i]), s[i]))
  }

  lemma {:induction false} KeyedCount<K, T>(s: seq<T>, key: T -> K, p: (K, T))
    ensures multiset(Keyed(s, key))[p] == if key(p.1) == p.0 then multiset(s)[p.1] else 0
  {
    if s != [] {
      KeyedCount(s[1..], key, p);
      assert s == [s[0]] + s[1..];
      assert Keyed(s, key) == [(key(s[0]), s[0])] + Keyed(s[1..], key);
    }
  }

  lemma KeyedPermutes<K(!new), T(!new)>(a: seq<T>, b: seq<T>, key: T -> K)
    requires multiset(a) == multiset(b)
    ensures multiset(Keyed(a, key)) == multiset(Keyed(b, key))
  {
    forall p ensures multiset(Keyed(a, key))[p] == multiset(Keyed(b, key))[p] {
      KeyedCount(a, key, p);
      KeyedCount(b, key, p);
    }
  }

  lemma {:induction false} FilterCount<T>(s: seq<T>, keep: T -> bool, x: T)
    ensures multiset(Filter(s, keep))[x] == if keep(x) then multiset(s)[x] else 0
  {
    if s != [] {
      FilterCount(s[1..], keep, x);
      FilterHead(s, keep);
      assert s == [s[0]] + s[1..];
    }
  }

  lemma FilterPermutes<T(!new)>(a: seq<T>, b: seq<T>, keep: T -> bool)
    requires multiset(a) == multiset(b)
    ensures multiset(Filter(a, keep)) == multiset(Filter(b, keep))
  {
    forall x ensures multiset(Filter(a, keep))[x] == multiset(Filter(b, keep))[x] {
      FilterCount(a, keep, x);
      FilterCount(b, keep, x);
    }
  }

  lemma {:induction false} MappedPermutes<T, U>(a: seq<T>, b: seq<T>, f: T -> U)
    requires multiset(a) == multiset(b)
    ensures multiset(Mapped(a, f)) == multiset(Mapped(b, f))
  {
    if a == [] {
      SameLength(a, b);
    } else {
      assert a[0] in multiset(b);
      var i :| 0 <= i < |b| && b[i] == a[0];
      RemoveMatching(a, b, i);
      MappedPermutes(a[1..], b[..i] + b[i + 1..], f);
      MappedRemoved(a, 0, a[1..], f);
      MappedRemoved(b, i, b[..i] + b[i + 1..], f);
    }
  }

  lemma MappedRemoved<T, U>(s: seq<T>, i: nat, rest: seq<T>, f: T -> U)
    requires i < |s| && rest == s[..i] + s[i + 1..]
    ensures multiset(Mapped(s, f)) == multiset(Mapped(rest, f)) + multiset{f(s[i])}
  {
    var m := Mapped(s, f);
    RemoveAt(m, i);
    assert m[..i] + m[i + 1..] == Mapped(rest, f);
  }

  lemma {:induction false} InsertPermutes<K, T>(x: (K, T), s: seq<(K, T)>, le: (K, K) -> bool)
    ensures multiset(Insert(x, s, le)) == multiset{x} + multiset(s)
  {
    if s != [] && !le(x.0, s[0].0) {
      InsertPermutes(x, s[1..], le);
      assert s == [s[0]] + s[1..];
    }
  }

  lemma OrderedTail<K, T>(s: seq<(K, T)>, le: (K, K) -> bool)
    requires Ordered(s, le) && s != []
    ensures Ordered(s[1..], le)
  {
    forall i, j | 0 <= i < j < |s[1..]| ensures le(s[1..][i].0, s[1..][j].0) {
      assert le(s[i + 1].0, s[j + 1].0);
    }
  }

  lemma {:induction false} InsertOrdered<K(!new), T>(x: (K, T), s: seq<(K, T)>, le: (K, K) -> bool)
    requires TotalOrder(le) && Ordered(s, le)
    ensures Ordered(Insert(x, s, le), le)
  {
    if s != [] && !le(x.0, s[0].0) {
      var rest := Insert(x, s[1..], le);
      OrderedTail(s, le);
      InsertOrdered(x, s[1..], le);
      InsertPermutes(x, s[1..], le);
      forall j | 0 <= j < |rest| ensures le(s[0].0, rest[j].0) {
        assert rest[j] in multiset{x} + multiset(s[1..]);
        if rest[j] != x {
          var k :| 0 <= k < |s[1..]| && s[1..][k] == rest[j];
          assert s[k + 1] == rest[j];
        }
      }
    }
  }

  /** The result is ordered and a permutation of the input. */
  lemma {:induction false} SortOrdered<K(!new), T>(s: seq<(K, T)>, le: (K, K) -> bool)
    requires TotalOrder(le)
    ensures Ordered(Sort(s, le), le)
    ensures multiset(Sort(s, le)) == multiset(s)
    ensures |Sort(s, le)| == |s|
  {
    if s != [] {
      SortOrdered(s[1..], le);
      InsertOrdered(s[0], Sort(s[1..], le), le);
      InsertPermutes(s[0], Sort(s[1..], le), le);
      assert s == [s[0]] + s[1..];
      assert |multiset(Sort(s, le))| == |multiset(s)|;
    }
  }

  ghost predicate StrictlyOrdered<K, T>(s: seq<(K, T)>, le: (K, K) -> bool) {
    forall i, j :: 0 <= i < j < |s| ==> le(s[i].0, s[j].0) && s[i].0 != s[j].0
  }

  /** Strictly ordered lists with the same pairs are equal. */
  lemma {:induction false} OrderedUnique<K(!new), T>(a: seq<(K, T)>, b: seq<(K, T)>, le: (K, K) -> bool)
    requires TotalOrder(le) && StrictlyOrdered(a, le) && StrictlyOrdered(b, le) && multiset(a) == multiset(b)
    ensures a == b
  {
    SameLength(a, b);
    if a != [] {
      SameFirst(a, b, le);
      RestsMatch(a, b);
      StrictTail(a, le);
      StrictTail(b, le);
      OrderedUnique(a[1..], b[1..], le);
      assert a == [a[0]] + a[1..] && b == [b[0]] + b[1..];
    }
  }

  lemma SameLength<T>(a: seq<T>, b: seq<T>)
    requires multiset(a) == multiset(b)
    ensures |a| == |b|
  {
    assert |multiset(a)| == |a| && |multiset(b)| == |b|;
  }

  lemma RestsMatch<T>(a: seq<T>, b: seq<T>)
    requires a != [] && b != [] && a[0] == b[0] && multiset(a) == multiset(b)
    ensures multiset(a[1..]) == multiset(b[1..])
  {
    RemoveMatching(a, b, 0);
    assert b[..0] + b[1..] == b[1..];
  }

  lemma StrictTail<K, T>(s: seq<(K, T)>, le: (K, K) -> bool)
    requires StrictlyOrdered(s, le) && s != []
    ensures StrictlyOrdered(s[1..], le)
  {
    forall i, j | 0 <= i < j < |s[1..]| ensures le(s[1..][i].0, s[1..][j].0) && s[1..][i].0 != s[1..][j].0 {
      assert le(s[i + 1].0, s[j + 1].0);
    }
  }

  lemma SameFirst<K(!new), T>(a: seq<(K, T)>, b: seq<(K, T)>, le: (K, K) -> bool)
    requires TotalOrder(le) && StrictlyOrdered(a, le) && StrictlyOrdered(b, le)
    requires a != [] && b != [] && multiset(a) == multiset(b)
    ensures a[0] == b[0]
  {
    assert a[0] in multiset(b) && b[0] in multiset(a);
    var i :| 0 <= i < |a| && a[i] == b[0];
    var j :| 0 <= j < |b| && b[j] == a[0];
    assert i > 0 ==> le(a[0].0, a[i].0);
    assert j > 0 ==> le(b[0].0, b[j].0);
  }

  /** With distinct keys the result does not depend on the input order. */
  lemma SortIgnoresOrder<K(!new), T>(a: seq<(K, T)>, b: seq<(K, T)>, le: (K, K) -> bool)
    requires TotalOrder(le) && multiset(a) == multiset(b) && KeysDistinct(multiset(a))
    ensures Sort(a, le) == Sort(b, le)
  {
    SortStrict(a, le);
    SortStrict(b, le);
    OrderedUnique(Sort(a, le), Sort(b, le), le);
  }

  lemma SortStrict<K(!new), T>(s: seq<(K, T)>, le: (K, K) -> bool)
    requires TotalOrder(le) && KeysDistinct(multiset(s))
    ensures StrictlyOrdered(Sort(s, le), le) && multiset(Sort(s, le)) == multiset(s)
  {
    SortOrdered(s, le);
    var r := Sort(s, le);
    forall i, j | 0 <= i < j < |r| ensures le(r[i].0, r[j].0) && r[i].0 != r[j].0 {
      assert r[i] in multiset(s) && r[j] in multiset(s);
      if r[i] == r[j] { CountTwice(r, i, j); }
    }
  }

  lemma {:induction false} InsertFilter<K(!new), T>(x: (K, T), s: seq<(K, T)>, le: (K, K) -> bool, keep: ((K, T)) -> bool)
    requires TotalOrder(le) && Ordered(s, le)
    ensures Filter(Insert(x, s, le), keep) == if keep(x) then Insert(x, Filter(s, keep), le) else Filter(s, keep)
  {
    var r := Insert(x, s, le);
    FilterHead(r, keep);
    if s == [] || le(x.0, s[0].0) {
      assert r[1..] == s;
      FilterOrdered(s, le, keep);
      if keep(x) && Filter(s, keep) != [] {
        assert le(x.0, Filter(s, keep)[0].0);
      }
    } else {
      InsertFilter(x, s[1..], le, keep);
      FilterHead(s, keep);
      assert r[1..] == Insert(x, s[1..], le);
    }
  }

  // The first pair that a filter keeps has the least kept key.
  lemma {:induction false} FilterOrdered<K(!new), T>(s: seq<(K, T)>, le: (K, K) -> bool, keep: ((K, T)) -> bool)
    requires TotalOrder(le) && Ordered(s, le)
    ensures Filter(s, keep) != [] && s != [] ==> le(s[0].0, Filter(s, keep)[0].0)
  {
    if s != [] && !keep(s[0]) {
      FilterOrdered(s[1..], le, keep);
    }
  }

  /** Filtering before or after a stable sort gives the same list. */
  lemma {:induction false} SortFilter<K(!new), T>(s: seq<(K, T)>, le: (K, K) -> bool, keep: ((K, T)) -> bool)
    requires TotalOrder(le)
    ensures Filter(Sort(s, le), keep) == Sort(Filter(s, keep), le)
  {
    if s != [] {
      SortFilter(s[1..], le, keep);
      SortOrdered(s[1..], le);
      InsertFilter(s[0], Sort(s[1..], le), le, keep);
      FilterHead(s, keep);
    }
  }

  // ---- Equal keys ----

  lemma {:induction false} SortOfEqualKeys<K(!new), T(!new)>(s: seq<(K, T)>, le: (K, K) -> bool)
    requires TotalOrder(le) && forall i, j :: 0 <= i < |s| && 0 <= j < |s| ==> s[i].0 == s[j].0
    ensures Sort(s, le) == s
  {
    if s != [] {
      SortOfEqualKeys(s[1..], le);
      if |s| > 1 { assert le(s[0].0, s[1].0); }
      assert s == [s[0]] + s[1..];
    }
  }

  /** Items whose keys are equal keep their order. */
  lemma SortIsStable<K(!new), T(!new)>(s: seq<(K, T)>, le: (K, K) -> bool, key: K, same: ((K, T)) -> bool)
    requires TotalOrder(le) && forall p :: same(p) <==> p.0 == key
    ensures Filter(Sort(s, le), same) == Filter(s, same)
  {
    SortFilter(s, le, same);
    FilterMembers(s, same);
    var kept := Filter(s, same);
    forall i | 0 <= i < |kept| ensures kept[i].0 == key { assert kept[i] in kept; }
    SortOfEqualKeys(kept, le);
  }

  lemma {:induction false} FilterOfItems<K, T>(s: seq<(K, T)>, keep: T -> bool, keepPair: ((K, T)) -> bool)
    requires forall i :: 0 <= i < |s| ==> (keepPair(s[i]) <==> keep(s[i].1))
    ensures Filter(Items(s), keep) == Items(Filter(s, keepPair))
  {
    if s != [] {
      FilterOfItems(s[1..], keep, keepPair);
      FilterHead(s, keepPair);
      FilterHead(Items(s), keep);
      assert Items(s)[1..] == Items(s[1..]);
    }
  }

  // ---- Items seen through a map ----

  function MapItems<K, T, U>(s: seq<(K, T)>, view: map<T, U>): (r: seq<(K, U)>)
    requires forall i :: 0 <= i < |s| ==> s[i].1 in view
    ensures |r| == |s|
  {
    seq(|s|, i requires 0 <= i < |s| => (s[i].0, view[s[i].1]))
  }

  lemma {:induction false} InsertMapped<K, T, U>(x: (K, T), s: seq<(K, T)>, le: (K, K) -> bool, view: map<T, U>)
    requires x.1 in view && forall i :: 0 <= i < |s| ==> s[i].1 in view
    ensures forall i :: 0 <= i < |Insert(x, s, le)| ==> Insert(x, s, le)[i].1 in view
    ensures MapItems(Insert(x, s, le), view) == Insert((x.0, view[x.1]), MapItems(s, view), le)
  {
    if s != [] && !le(x.0, s[0].0) {
      InsertMapped(x, s[1..], le, view);
      assert MapItems(s, view)[1..] == MapItems(s[1..], view);
    }
  }

  /** Sorting looks only at the keys. */
  lemma {:induction false} SortMapped<K, T, U>(s: seq<(K, T)>, le: (K, K) -> bool, view: map<T, U>)
    requires forall i :: 0 <= i < |s| ==> s[i].1 in view
    ensures forall i :: 0 <= i < |Sort(s, le)| ==> Sort(s, le)[i].1 in view
    ensures MapItems(Sort(s, le), view) == Sort(MapItems(s, view), le)
  {
    if s != [] {
      SortMapped(s[1..], le, view);
      InsertMapped(s[0], Sort(s[1..], le), le, view);
      assert MapItems(s, view)[1..] == MapItems(s[1..], view);
    }
  }

  lemma RemoveAt<T>(s: seq<T>, i: nat)
    requires i < |s|
    ensures multiset(s) == multiset(s[..i] + s[i + 1..]) + multiset{s[i]}
  {
    assert s == s[..i] + ([s[i]] + s[i + 1..]);
  }

  // Two permutations of each other stay so without a shared element.
  lemma RemoveMatching<T>(a: seq<T>, b: seq<T>, i: nat)
    requires a != [] && i < |b| && b[i] == a[0] && multiset(a) == multiset(b)
    ensures multiset(a[1..]) == multiset(b[..i] + b[i + 1..])
  {
    RemoveAt(b, i);
    assert a == [a[0]] + a[1..];
    assert multiset(a[1..]) == multiset(a) - multiset{a[0]};
    assert multiset(b[..i] + b[i + 1..]) == multiset(b) - multiset{b[i]};
  }

  lemma CountTwice<T>(s: seq<T>, i: nat, j: nat)
    requires i < j < |s| && s[i] == s[j]
    ensures multiset(s)[s[i]] >= 2
  {
    assert s == s[..j] + s[j..];
    assert s[i] in s[..j] && s[j] in s[j..];
    assert s[..j][i] == s[i] && s[j..][0] == s[j];
  }

  lemma CountOnce<T>(s: seq<T>, i: nat)
    requires i < |s| && forall j :: 0 <= j < |s| && j != i ==> s[j] != s[i]
    ensures multiset(s)[s[i]] == 1
  {
    assert s == s[..i] + ([s[i]] + s[i + 1..]);
    assert s[i] !in s[..i] && s[i] !in s[i + 1..];
  }

  /** A permutation keeps the items pairwise distinct. */
  lemma ItemsStayDistinct<K, T>(a: seq<(K, T)>, b: seq<(K, T)>)
    requires multiset(a) == multiset(b)
    requires forall i, j :: 0 <= i < j < |a| ==> a[i].1 != a[j].1
    ensures forall i, j :: 0 <= i < j < |b| ==> b[i].1 != b[j].1
  {
    forall i, j | 0 <= i < j < |b| ensures b[i].1 != b[j].1 {
      assert b[i] in multiset(a) && b[j] in multiset(a);
      var x :| 0 <= x < |a| && a[x] == b[i];
      var y :| 0 <= y < |a| && a[y] == b[j];
      CountOnce(a, x);
      if b[i] == b[j] { CountTwice(b, i, j); }
    }
  }

  // ---- Lexicographic order of lists, as Python compares strings and tuples ----

  predicate LexLe<T(==)>(a: seq<T>, b: seq<T>, le: (T, T) -> bool) {
    a == [] || (b != [] && if a[0] == b[0] then LexLe(a[1..], b[1..], le) else le(a[0], b[0]))
  }

  lemma {:induction false} LexTotal<T(!new)>(a: seq<T>, b: seq<T>, le: (T, T) -> bool)
    requires TotalOrder(le)
    ensures LexLe(a, b, le) || LexLe(b, a, le)
    ensures LexLe(a, b, le) && LexLe(b, a, le) ==> a == b
  {
    if a != [] && b != [] {
      if a[0] == b[0] {
        LexTotal(a[1..], b[1..], le);
        assert a == [a[0]] + a[1..] && b == [b[0]] + b[1..];
      }
    }
  }

  lemma {:induction false} LexTransitive<T(!new)>(a: seq<T>, b: seq<T>, c: seq<T>, le: (T, T) -> bool)
    requires TotalOrder(le) && LexLe(a, b, le) && LexLe(b, c, le)
    ensures LexLe(a, c, le)
  {
    if a != [] && a[0] == b[0] == c[0] {
      LexTransitive(a[1..], b[1..], c[1..], le);
    }
  }

  lemma ItemsPermute<K, T>(a: seq<(K, T)>, b: seq<(K, T)>)
    requires multiset(a) == multiset(b)
    ensures multiset(Items(a)) == multiset(Items(b))
  {
    var second := (p: (K, T)) => p.1;
    MappedPermutes(a, b, second);
    assert Items(a) == Mapped(a, second) && Items(b) == Mapped(b, second);
  }

  predicate StringLe(a: string, b: string) {
    LexLe(a, b, (x, y) => x <= y)
  }

  lemma StringOrder()
    ensures TotalOrder<string>((a, b) => StringLe(a, b))
  {
    var le := (x: char, y: char) => x <= y;
    forall a: string, b: string ensures StringLe(a, b) || StringLe(b, a) { LexTotal(a, b, le); }
    forall a: string, b: string | StringLe(a, b) && StringLe(b, a) ensures a == b { LexTotal(a, b, le); }
    forall a: string, b: string, c: string | StringLe(a, b) && StringLe(b, c) ensures StringLe(a, c) { LexTransitive(a, b, c, le); }
  }
}
