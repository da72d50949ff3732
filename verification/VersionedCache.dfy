/** BoundedVersionedCache: an LRU cache over an ordered dictionary, oldest entry
    first. Its behaviour over whole traces of calls is proved on the item lists. */
module VersionedCache {
  import opened Text

  datatype CacheKey<H> = CacheKey(namespace: string, keyHash: H, versions: seq<string>)

  datatype Op<K, V> = Get(key: K) | Put(key: K, value: V) | Clear

  function Find<K(==), V>(items: seq<(K, V)>, key: K): Option<V> {
    if items == [] then None
    else if items[0].0 == key then Some(items[0].1)
    else Find(items[1..], key)
  }

  function Without<K(==), V>(items: seq<(K, V)>, key: K): seq<(K, V)> {
    if items == [] then []
    else (if items[0].0 == key then [] else [items[0]]) + Without(items[1..], key)
  }

  // The last `max` items.
  function Newest<T>(items: seq<T>, max: nat): (r: seq<T>)
    ensures |r| <= max && (|items| <= max ==> r == items)
  {
    if |items| <= max then items else items[|items| - max..]
  }

  function AfterGet<K(==), V>(items: seq<(K, V)>, key: K): seq<(K, V)> {
    match Find(items, key)
    case None => items
    case Some(v) => Without(items, key) + [(key, v)]
  }

  function AfterPut<K(==), V>(items: seq<(K, V)>, max: nat, key: K, value: V): seq<(K, V)> {
    Newest(Without(items, key) + [(key, value)], max)
  }

  function Step<K(==), V>(items: seq<(K, V)>, max: nat, op: Op<K, V>): seq<(K, V)> {
    match op
    case Get(k) => AfterGet(items, k)
    case Put(k, v) => AfterPut(items, max, k, v)
    case Clear => []
  }

  function Run<K(==), V>(max: nat, trace: seq<Op<K, V>>): seq<(K, V)> {
    if trace == [] then [] else Step(Run(max, trace[..|trace| - 1]), max, trace[|trace| - 1])
  }

  ghost predicate DistinctKeys<K(!new), V>(items: seq<(K, V)>) {
    forall i, j :: 0 <= i < j < |items| ==> items[i].0 != items[j].0
  }

  class BoundedVersionedCache<K(==), V> {
    const maxEntries: nat
    var items: seq<(K, V)>

    constructor Empty(max: nat)
      requires max >= 1
      ensures maxEntries == max && items == []
    {
      maxEntries := max;
      items := [];
    }

    // __init__ raises ValueError for a bound below one.
    static method Create(max: int) returns (cache: BoundedVersionedCache?<K, V>)
      ensures cache == null <==> max < 1
      ensures cache != null ==> fresh(cache) && cache.maxEntries == max && cache.items == []
    {
      if max < 1 { return null; }
      cache := new BoundedVersionedCache.Empty(max);
    }

    method Get(key: K) returns (value: Option<V>)
      modifies this`items
      ensures value == Find(old(items), key)
      ensures items == AfterGet(old(items), key)
    {
      value := Find(items, key);
      if value.Some? {
        items := Without(items, key) + [(key, value.value)];
      }
    }

    method Put(key: K, value: V)
      modifies this`items
      ensures items == AfterPut(old(items), maxEntries, key, value)
    {
      items := Without(items, key) + [(key, value)];
      ghost var added := items;
      while |items| > maxEntries
        invariant |items| <= |added| && items == added[|added| - |items|..]
        invariant |items| >= maxEntries || items == added
      {
        items := items[1..];
      }
    }

    method Reset()
      modifies this`items
      ensures items == []
    {
      items := [];
    }

    /** Any calls on a new cache leave the items that Run gives them: what is
        proved of Run below holds of every object of this class. */
    method Replay(trace: seq<Op<K, V>>)
      requires items == []
      modifies this`items
      ensures items == Run(maxEntries, trace)
    {
      for i := 0 to |trace|
        invariant items == Run(maxEntries, trace[..i])
      {
        assert trace[..i + 1][..i] == trace[..i];
        match trace[i]
        case Get(key) => var _ := Get(key);
        case Put(key, value) => Put(key, value);
        case Clear => Reset();
      }
      assert trace[..|trace|] == trace;
    }
  }

  // ---- Items ----

  lemma {:induction false} WithoutFacts<K(!new), V(!new)>(items: seq<(K, V)>, key: K)
    ensures forall e :: e in Without(items, key) <==> e in items && e.0 != key
    ensures |Without(items, key)| <= |items|
    ensures DistinctKeys(items) ==> DistinctKeys(Without(items, key))
  {
    if items != [] {
      WithoutFacts(items[1..], key);
      assert items == [items[0]] + items[1..];
      if DistinctKeys(items) {
        assert DistinctKeys(items[1..]);
        assert forall e :: e in items[1..] ==> e.0 != items[0].0;
      }
    }
  }

  lemma {:induction false} FindIsMember<K(!new), V(!new)>(items: seq<(K, V)>, key: K)
    requires DistinctKeys(items)
    ensures Find(items, key).None? <==> forall e :: e in items ==> e.0 != key
    ensures forall v :: Find(items, key) == Some(v) <==> (key, v) in items
    ensures Find(items, key).None? ==> Without(items, key) == items
    ensures Find(items, key).Some? ==> |Without(items, key)| == |items| - 1
  {
    if items != [] {
      assert items == [items[0]] + items[1..];
      assert DistinctKeys(items[1..]);
      FindIsMember(items[1..], key);
      if items[0].0 == key {
        assert forall e :: e in items[1..] ==> e.0 != key;
      }
    }
  }

  lemma {:induction false} RunKeysDistinct<K(!new), V(!new)>(max: nat, trace: seq<Op<K, V>>)
    ensures DistinctKeys(Run(max, trace))
    ensures |Run(max, trace)| <= max
  {
    if trace != [] {
      RunKeysDistinct(max, trace[..|trace| - 1]);
      StepKeysDistinct(Run(max, trace[..|trace| - 1]), max, trace[|trace| - 1]);
    }
  }

  lemma WithoutThenKey<K(!new), V(!new)>(items: seq<(K, V)>, key: K, value: V)
    requires DistinctKeys(items)
    ensures DistinctKeys(Without(items, key) + [(key, value)]) && |Without(items, key)| <= |items|
  {
    WithoutFacts(items, key);
    var kept := Without(items, key);
    forall i | 0 <= i < |kept| ensures kept[i].0 != key { assert kept[i] in kept; }
  }

  lemma StepKeysDistinct<K(!new), V(!new)>(items: seq<(K, V)>, max: nat, op: Op<K, V>)
    requires DistinctKeys(items) && |items| <= max
    ensures DistinctKeys(Step(items, max, op)) && |Step(items, max, op)| <= max
  {
    match op
    case Clear =>
    case Get(key) => FindIsMember(items, key);
      if Find(items, key).Some? { WithoutThenKey(items, key, Find(items, key).value); }
    case Put(key, value) => WithoutThenKey(items, key, value);
  }

  // ---- Inclusion between cache sizes ----

  predicate Subsequence<T(==)>(a: seq<T>, b: seq<T>) {
    a == [] || (b != [] && if a[0] == b[0] then Subsequence(a[1..], b[1..]) else Subsequence(a, b[1..]))
  }

  lemma {:induction false} SubsequenceDrop<T>(a: seq<T>, b: seq<T>)
    requires Subsequence(a, b) && a != []
    ensures Subsequence(a[1..], b) && Subsequence(a[1..], b[1..])
  {
    if a[0] != b[0] {
      SubsequenceDrop(a, b[1..]);
    }
    SubsequenceCons(a[1..], b);
  }

  lemma {:induction false} SubsequenceCons<T>(a: seq<T>, b: seq<T>)
    requires b != [] && Subsequence(a, b[1..])
    ensures Subsequence(a, b)
  {
    if a != [] && a[0] == b[0] {
      SubsequenceDrop(a, b[1..]);
    }
  }

  lemma {:induction false} SubsequenceAppend<T>(a: seq<T>, b: seq<T>, x: T)
    requires Subsequence(a, b)
    ensures Subsequence(a + [x], b + [x])
  {
    if b != [] {
      assert (b + [x])[1..] == b[1..] + [x];
      if a == [] {
        SubsequenceAppend([], b[1..], x);
        SubsequenceCons([] + [x], b + [x]);
      } else if a[0] == b[0] {
        assert (a + [x])[1..] == a[1..] + [x];
        SubsequenceAppend(a[1..], b[1..], x);
      } else {
        SubsequenceAppend(a, b[1..], x);
      }
    }
  }

  lemma {:induction false} SubsequenceMembers<T(!new)>(a: seq<T>, b: seq<T>)
    requires Subsequence(a, b)
    ensures forall x :: x in a ==> x in b
  {
    if a != [] {
      assert b == [b[0]] + b[1..] && a == [a[0]] + a[1..];
      if a[0] == b[0] { SubsequenceMembers(a[1..], b[1..]); } else { SubsequenceMembers(a, b[1..]); }
    }
  }

  lemma {:induction false} SubsequenceSelf<T>(a: seq<T>)
    ensures Subsequence(a, a)
  {
    if a != [] { SubsequenceSelf(a[1..]); }
  }

  lemma {:induction false} SubsequenceWithout<K, V>(a: seq<(K, V)>, b: seq<(K, V)>, key: K)
    requires Subsequence(a, b)
    ensures Subsequence(Without(a, key), Without(b, key))
  {
    if a != [] {
      var rest := Without(b[1..], key);
      if a[0] == b[0] {
        SubsequenceWithout(a[1..], b[1..], key);
        if b[0].0 != key {
          assert Without(a, key)[1..] == Without(a[1..], key) && Without(b, key)[1..] == rest;
        } else {
          assert Without(a, key) == Without(a[1..], key) && Without(b, key) == rest;
        }
      } else {
        SubsequenceWithout(a, b[1..], key);
        if b[0].0 != key {
          assert Without(b, key)[1..] == rest;
          SubsequenceCons(Without(a, key), Without(b, key));
        } else {
          assert Without(b, key) == rest;
        }
      }
    }
  }

  // What holds between the smaller and the larger cache after every trace.
  ghost predicate Included<K, V>(small: seq<(K, V)>, large: seq<(K, V)>, n: nat) {
    Subsequence(small, large) && (|small| == n || small == large)
  }

  /** LRU inclusion: on any trace, the recency list at capacity n is a
      subsequence of the one at capacity m, for n <= m. */
  lemma {:induction false} Inclusion<K(!new), V(!new)>(n: nat, m: nat, trace: seq<Op<K, V>>)
    requires 1 <= n <= m
    ensures Included(Run(n, trace), Run(m, trace), n)
  {
    if trace != [] {
      var before, op := trace[..|trace| - 1], trace[|trace| - 1];
      Inclusion(n, m, before);
      RunKeysDistinct(n, before);
      RunKeysDistinct(m, before);
      match op
      case Clear =>
      case Get(k) => InclusionGet(Run(n, before), Run(m, before), n, k);
      case Put(k, v) => InclusionPut(Run(n, before), Run(m, before), n, m, k, v);
    }
  }

  lemma InclusionGet<K(!new), V(!new)>(small: seq<(K, V)>, large: seq<(K, V)>, n: nat, k: K)
    requires Included(small, large, n) && DistinctKeys(small) && DistinctKeys(large)
    ensures Included(AfterGet(small, k), AfterGet(large, k), n)
  {
    FindIsMember(small, k);
    FindIsMember(large, k);
    SubsequenceMembers(small, large);
    if Find(large, k).Some? {
      var entry := (k, Find(large, k).value);
      SubsequenceWithout(small, large, k);
      SubsequenceAppend(Without(small, k), Without(large, k), entry);
      if Find(small, k).Some? {
        assert (k, Find(small, k).value) in large;
      } else {
        SubsequenceDropLast(small, Without(large, k), entry);
      }
    }
  }

  lemma {:induction false} SubsequenceDropLast<T>(a: seq<T>, b: seq<T>, x: T)
    requires Subsequence(a, b)
    ensures Subsequence(a, b + [x])
  {
    if a != [] {
      assert (b + [x])[1..] == b[1..] + [x];
      if a[0] == b[0] { SubsequenceDropLast(a[1..], b[1..], x); } else { SubsequenceDropLast(a, b[1..], x); }
    }
  }

  lemma InclusionPut<K(!new), V(!new)>(small: seq<(K, V)>, large: seq<(K, V)>, n: nat, m: nat, k: K, v: V)
    requires Included(small, large, n) && DistinctKeys(small) && DistinctKeys(large)
    requires 1 <= n <= m && |small| <= n && |large| <= m
    ensures Included(AfterPut(small, n, k, v), AfterPut(large, m, k, v), n)
  {
    FindIsMember(small, k);
    FindIsMember(large, k);
    SubsequenceMembers(small, large);
    SubsequenceWithout(small, large, k);
    var a, b := Without(small, k) + [(k, v)], Without(large, k) + [(k, v)];
    SubsequenceAppend(Without(small, k), Without(large, k), (k, v));
    if |a| > n {
      SubsequenceDrop(a, b);
    } else if Find(small, k).Some? {
      assert (k, Find(small, k).value) in large;
    }
  }

  // ---- Values ----

  // The value of the last put of k since the last clear.
  function LatestPut<K(==), V>(trace: seq<Op<K, V>>, k: K): Option<V> {
    if trace == [] then None
    else match trace[|trace| - 1]
      case Clear => None
      case Put(key, v) => if key == k then Some(v) else LatestPut(trace[..|trace| - 1], k)
      case Get(_) => LatestPut(trace[..|trace| - 1], k)
  }

  lemma StepMembers<K(!new), V(!new)>(items: seq<(K, V)>, max: nat, op: Op<K, V>, e: (K, V))
    requires DistinctKeys(items) && e in Step(items, max, op)
    ensures op.Put? && e.0 == op.key ==> e.1 == op.value
    ensures !(op.Put? && e.0 == op.key) ==> e in items
  {
    if !op.Clear? {
      WithoutFacts(items, op.key);
      FindIsMember(items, op.key);
      if op.Put? {
        assert e in Without(items, op.key) + [(op.key, op.value)];
      }
    }
  }

  /** A hit returns the value put last for that key. */
  lemma {:induction false} HitIsLatestPut<K(!new), V(!new)>(max: nat, trace: seq<Op<K, V>>, k: K, v: V)
    requires Find(Run(max, trace), k) == Some(v)
    ensures LatestPut(trace, k) == Some(v)
  {
    RunKeysDistinct(max, trace);
    FindIsMember(Run(max, trace), k);
    if trace != [] {
      var before, op := trace[..|trace| - 1], trace[|trace| - 1];
      RunKeysDistinct(max, before);
      StepMembers(Run(max, before), max, op, (k, v));
      if !(op.Put? && op.key == k) {
        FindIsMember(Run(max, before), k);
        HitIsLatestPut(max, before, k, v);
      }
    }
  }

  // ---- Recency ----

  // The position (from one) of the last put or hit of k; zero when there is none.
  function LastUse<K(==), V>(max: nat, trace: seq<Op<K, V>>, k: K): (n: nat)
    ensures n <= |trace|
  {
    if trace == [] then 0
    else
      var before, op := trace[..|trace| - 1], trace[|trace| - 1];
      if op.Put? && op.key == k then |trace|
      else if op.Get? && op.key == k && Find(Run(max, before), k).Some? then |trace|
      else LastUse(max, before, k)
  }

  ghost predicate ByLastUse<K, V>(items: seq<(K, V)>, max: nat, trace: seq<Op<K, V>>) {
    forall i, j :: 0 <= i < j < |items| ==> LastUse(max, trace, items[i].0) < LastUse(max, trace, items[j].0)
  }

  /** The items are always ordered by their last use, oldest first. */
  lemma {:induction false} ItemsByLastUse<K(!new), V(!new)>(max: nat, trace: seq<Op<K, V>>)
    ensures ByLastUse(Run(max, trace), max, trace)
  {
    if trace != [] {
      var before, op := trace[..|trace| - 1], trace[|trace| - 1];
      assert trace == before + [op];
      ItemsByLastUse(max, before);
      if op.Get? && Find(Run(max, before), op.key).None? {
        forall e | e in Run(max, before) ensures LastUse(max, trace, e.0) == LastUse(max, before, e.0) {}
      } else if !op.Clear? {
        UsedMovesToEnd(max, before, op);
      }
    }
  }

  // Only the used key has a new last use.
  lemma LastUseAfter<K(!new), V(!new)>(max: nat, before: seq<Op<K, V>>, op: Op<K, V>, key: K)
    requires op.Put? || (op.Get? && Find(Run(max, before), op.key).Some?)
    ensures LastUse(max, before + [op], key) == if key == op.key then |before| + 1 else LastUse(max, before, key)
  {
    assert (before + [op])[..|before|] == before;
  }

  // The kept items stay in order and the used one comes last.
  lemma UsedComesLast<K(!new), V(!new)>(max: nat, before: seq<Op<K, V>>, op: Op<K, V>, value: V)
    requires op.Put? || (op.Get? && Find(Run(max, before), op.key).Some?)
    requires ByLastUse(Run(max, before), max, before)
    ensures ByLastUse(Without(Run(max, before), op.key) + [(op.key, value)], max, before + [op])
  {
    var items := Run(max, before);
    var kept := Without(items, op.key);
    WithoutKeepsOrder(items, max, before, op.key);
    WithoutFacts(items, op.key);
    LastUseAfter(max, before, op, op.key);
    forall i | 0 <= i < |kept|
      ensures LastUse(max, before + [op], kept[i].0) == LastUse(max, before, kept[i].0) <= |before|
    {
      assert kept[i] in kept;
      LastUseAfter(max, before, op, kept[i].0);
    }
  }

  lemma NewestKeepsOrder<K, V>(items: seq<(K, V)>, n: nat, max: nat, trace: seq<Op<K, V>>)
    requires ByLastUse(items, max, trace)
    ensures ByLastUse(Newest(items, n), max, trace)
  {
  }

  lemma UsedMovesToEnd<K(!new), V(!new)>(max: nat, before: seq<Op<K, V>>, op: Op<K, V>)
    requires op.Put? || (op.Get? && Find(Run(max, before), op.key).Some?)
    requires ByLastUse(Run(max, before), max, before)
    ensures ByLastUse(Run(max, before + [op]), max, before + [op])
  {
    var trace, items := before + [op], Run(max, before);
    var value := if op.Put? then op.value else Find(items, op.key).value;
    UsedComesLast(max, before, op, value);
    NewestKeepsOrder(Without(items, op.key) + [(op.key, value)], max, max, trace);
    assert trace[..|before|] == before && Run(max, trace) == Step(items, max, op);
  }

  lemma {:induction false} WithoutKeepsOrder<K(!new), V(!new)>(items: seq<(K, V)>, max: nat, trace: seq<Op<K, V>>, key: K)
    requires ByLastUse(items, max, trace)
    ensures ByLastUse(Without(items, key), max, trace)
  {
    if items != [] {
      WithoutKeepsOrder(items[1..], max, trace, key);
      WithoutFacts(items[1..], key);
      var rest := Without(items[1..], key);
      forall j | 0 <= j < |rest|
        ensures LastUse(max, trace, items[0].0) < LastUse(max, trace, rest[j].0)
      {
        assert rest[j] in items[1..];
      }
    }
  }

  /** A put evicts at most one entry; the evicted key was used less recently
      than every other key then in the cache. */
  lemma EvictsLeastRecentlyUsed<K(!new), V(!new)>(max: nat, trace: seq<Op<K, V>>, k: K, v: V, evicted: (K, V))
    requires max >= 1
    requires evicted in Run(max, trace) && evicted.0 != k && evicted !in Run(max, trace + [Put(k, v)])
    ensures forall e :: e in Run(max, trace) && e != evicted ==>
              LastUse(max, trace, evicted.0) < LastUse(max, trace, e.0) && (e.0 == k || e in Run(max, trace + [Put(k, v)]))
  {
    var items := Run(max, trace);
    assert (trace + [Put(k, v)])[..|trace|] == trace;
    RunKeysDistinct(max, trace);
    ItemsByLastUse(max, trace);
    WithoutFacts(items, k);
    FindIsMember(items, k);
    var added := Without(items, k) + [(k, v)];
    assert evicted in added;
    assert |added| == max + 1 && Without(items, k) == items;
    assert added == [items[0]] + added[1..];
    assert evicted == items[0];
    forall e | e in items && e != evicted
      ensures LastUse(max, trace, evicted.0) < LastUse(max, trace, e.0) && (e.0 == k || e in added[1..])
    {
      var i :| 0 < i < |items| && items[i] == e;
      assert added[1..][i - 1] == e;
    }
  }
}
