/** String facts shared by the query, evidence and cache components. Strings
    are sequences of Unicode scalar values, as Python strings are. */
module Text {

  datatype Option<+T> = None | Some(value: T)

  // str.isspace(), which str.split(), str.strip() and the regex class \s share.
  predicate IsSpace(c: char) {
    || '\t' <= c <= '\r'
    || '\U{1c}' <= c <= ' '
    || c == '\U{85}' || c == '\U{a0}' || c == '\U{1680}'
    || '\U{2000}' <= c <= '\U{200a}'
    || c == '\U{2028}' || c == '\U{2029}' || c == '\U{202f}' || c == '\U{205f}' || c == '\U{3000}'
  }

  // `v in s`
  predicate IsSubstring(v: string, s: string) {
    exists i :: 0 <= i <= |s| && OccursAt(v, s, i)
  }

  predicate OccursAt(v: string, s: string, i: nat) {
    i + |v| <= |s| && s[i..i + |v|] == v
  }

  function Join(sep: string, parts: seq<string>): string {
    if parts == [] then ""
    else if |parts| == 1 then parts[0]
    else parts[0] + sep + Join(sep, parts[1..])
  }

  // Adding one part at the end, as "sep".join(lines + [line]) does.
  lemma {:induction false} JoinAppend(sep: string, parts: seq<string>, last: string)
    ensures Join(sep, parts + [last]) == if parts == [] then last else Join(sep, parts) + sep + last
  {
    if |parts| == 1 {
      assert parts + [last] == [parts[0], last];
      assert [parts[0], last][1..] == [last];
    } else if |parts| > 1 {
      JoinAppend(sep, parts[1..], last);
      assert (parts + [last])[1..] == parts[1..] + [last];
      assert parts[0] + sep + (Join(sep, parts[1..]) + sep + last) == parts[0] + sep + Join(sep, parts[1..]) + sep + last;
    }
  }

  // [f(x) for x in s]
  function Mapped<T, U>(s: seq<T>, f: T -> U): (r: seq<U>)
    ensures |r| == |s|
    ensures forall i :: 0 <= i < |s| ==> r[i] == f(s[i])
  {
    seq(|s|, i requires 0 <= i < |s| => f(s[i]))
  }

  function Zip<A, B>(a: seq<A>, b: seq<B>): (r: seq<(A, B)>)
    requires |a| == |b|
    ensures |r| == |a|
  {
    seq(|a|, i requires 0 <= i < |a| => (a[i], b[i]))
  }

  // The items of s that f maps each element to, in order.
  function FlatMap<T, U>(s: seq<T>, f: T -> seq<U>): seq<U> {
    if s == [] then [] else FlatMap(s[..|s| - 1], f) + f(s[|s| - 1])
  }

  lemma {:induction false} FlatMapEmpty<T, U>(s: seq<T>, f: T -> seq<U>)
    ensures FlatMap(s, f) == [] <==> forall x :: x in s ==> f(x) == []
  {
    if s != [] {
      FlatMapEmpty(s[..|s| - 1], f);
      assert s == s[..|s| - 1] + [s[|s| - 1]];
    }
  }

  lemma FlatMapSnoc<T, U>(s: seq<T>, i: nat, f: T -> seq<U>)
    requires i < |s|
    ensures FlatMap(s[..i + 1], f) == FlatMap(s[..i], f) + f(s[i])
  {
    assert s[..i + 1][..i] == s[..i];
  }

  // The element an item of the result came from.
  lemma {:induction false} FlatMapSource<T, U>(s: seq<T>, f: T -> seq<U>, y: U) returns (x: T)
    requires y in FlatMap(s, f)
    ensures x in s && y in f(x)
  {
    if y in f(s[|s| - 1]) {
      x := s[|s| - 1];
    } else {
      x := FlatMapSource(s[..|s| - 1], f, y);
    }
  }

  lemma {:induction false} FlatMapMember<T, U>(s: seq<T>, f: T -> seq<U>, x: T, y: U)
    requires x in s && y in f(x)
    ensures y in FlatMap(s, f)
  {
    if s[|s| - 1] != x {
      FlatMapMember(s[..|s| - 1], f, x, y);
    }
  }

  function Filter<T>(s: seq<T>, keep: T -> bool): seq<T> {
    if s == [] then [] else (if keep(s[0]) then [s[0]] else []) + Filter(s[1..], keep)
  }

  lemma FilterHead<T>(s: seq<T>, keep: T -> bool)
    requires s != []
    ensures keep(s[0]) ==> Filter(s, keep) == [s[0]] + Filter(s[1..], keep) && Filter(s, keep)[1..] == Filter(s[1..], keep)
    ensures !keep(s[0]) ==> Filter(s, keep) == Filter(s[1..], keep)
  {
  }

  lemma {:induction false} FilterMembers<T(!new)>(s: seq<T>, keep: T -> bool)
    ensures forall x :: x in Filter(s, keep) <==> x in s && keep(x)
    ensures |Filter(s, keep)| <= |s|
  {
    if s != [] {
      FilterMembers(s[1..], keep);
      assert s == [s[0]] + s[1..];
    }
  }

  lemma {:induction false} FilterAppend<T>(a: seq<T>, b: seq<T>, keep: T -> bool)
    ensures Filter(a + b, keep) == Filter(a, keep) + Filter(b, keep)
  {
    if a == [] {
      assert a + b == b;
    } else {
      FilterAppend(a[1..], b, keep);
      assert (a + b)[1..] == a[1..] + b && (a + b)[0] == a[0];
      var head := if keep(a[0]) then [a[0]] else [];
      assert head + (Filter(a[1..], keep) + Filter(b, keep)) == head + Filter(a[1..], keep) + Filter(b, keep);
    }
  }

  lemma {:induction false} FilterAgree<T>(s: seq<T>, p: T -> bool, q: T -> bool)
    requires forall i :: 0 <= i < |s| ==> (p(s[i]) <==> q(s[i]))
    ensures Filter(s, p) == Filter(s, q)
  {
    if s != [] {
      FilterAgree(s[1..], p, q);
      FilterHead(s, p);
      FilterHead(s, q);
    }
  }

  lemma {:induction false} FilterTwice<T>(s: seq<T>, p: T -> bool, q: T -> bool, both: T -> bool)
    requires forall i :: 0 <= i < |s| ==> (both(s[i]) <==> p(s[i]) && q(s[i]))
    ensures Filter(Filter(s, p), q) == Filter(s, both)
  {
    if s != [] {
      FilterTwice(s[1..], p, q, both);
      FilterHead(s, p);
      FilterHead(s, both);
      if p(s[0]) { FilterHead(Filter(s, p), q); }
    }
  }

  // One more element at the end, as an appending loop sees it.
  lemma FilterSnoc<T>(s: seq<T>, i: nat, keep: T -> bool)
    requires i < |s|
    ensures Filter(s[..i + 1], keep) == Filter(s[..i], keep) + if keep(s[i]) then [s[i]] else []
  {
    assert s[..i + 1] == s[..i] + [s[i]];
    FilterAppend(s[..i], [s[i]], keep);
    assert Filter([s[i]], keep) == if keep(s[i]) then [s[i]] else [];
  }

  lemma EmptyOrMember<T>(s: seq<T>)
    ensures s == [] || s[0] in s
  {
  }

  ghost predicate Distinct<T(!new)>(s: seq<T>) {
    forall i, j :: 0 <= i < j < |s| ==> s[i] != s[j]
  }

  // First occurrences, in order: dict.fromkeys and the dedupe helpers.
  function Dedupe<T(==, !new)>(s: seq<T>): (r: seq<T>)
    ensures forall x :: x in r <==> x in s
  {
    if s == [] then [] else
      var before := Dedupe(s[..|s| - 1]);
      var last := s[|s| - 1];
      assert s == s[..|s| - 1] + [last];
      if last in before then before else before + [last]
  }

  lemma {:induction false} DedupeDistinct<T(!new)>(s: seq<T>)
    ensures Distinct(Dedupe(s))
  {
    if s != [] {
      DedupeDistinct(s[..|s| - 1]);
    }
  }

  /** What is kept stands in the order of its first occurrences. */
  lemma {:induction false} DedupeByFirst<T(!new)>(s: seq<T>, i: nat, j: nat)
    requires i < j < |Dedupe(s)|
    ensures exists a :: 0 <= a < |s| && s[a] == Dedupe(s)[i] && forall b :: 0 <= b <= a ==> s[b] != Dedupe(s)[j]
  {
    var n := |s| - 1;
    var before := Dedupe(s[..n]);
    if j < |before| {
      DedupeByFirst(s[..n], i, j);
      var a :| 0 <= a < n && s[..n][a] == before[i] && forall b :: 0 <= b <= a ==> s[..n][b] != before[j];
      forall b | 0 <= b <= a ensures s[b] != before[j] { assert s[..n][b] != before[j]; }
      assert s[a] == before[i];
    } else {
      assert before[i] in s[..n] && s[n] !in s[..n];
      var a :| 0 <= a < n && s[..n][a] == before[i];
      forall b | 0 <= b <= a ensures s[b] != s[n] { assert s[..n][b] in s[..n]; }
    }
  }

  lemma {:induction false} DedupeOfDistinct<T(!new)>(s: seq<T>)
    requires Distinct(s)
    ensures Dedupe(s) == s
  {
    if s != [] {
      DedupeOfDistinct(s[..|s| - 1]);
    }
  }

  // The dedupe helpers: an ordered list beside the set of what was seen.
  method Deduplicate<T(==, !new)>(values: seq<T>) returns (ordered: seq<T>)
    ensures ordered == Dedupe(values)
  {
    var seen: set<T> := {};
    ordered := [];
    for i := 0 to |values|
      invariant ordered == Dedupe(values[..i])
      invariant seen == set v | v in ordered
    {
      assert values[..i + 1][..i] == values[..i];
      if values[i] !in seen {
        seen := seen + {values[i]};
        ordered := ordered + [values[i]];
      }
    }
    assert values[..|values|] == values;
  }

  // str() of a natural number.
  function Digits(n: nat): string {
    if n < 10 then ["0123456789"[n]] else Digits(n / 10) + ["0123456789"[n % 10]]
  }

  // The number that decimal digits stand for.
  function NumberOf(digits: string): int {
    if digits == "" then 0 else NumberOf(digits[..|digits| - 1]) * 10 + (digits[|digits| - 1] as int - '0' as int)
  }

  lemma {:induction false} DigitsReadBack(n: nat)
    ensures NumberOf(Digits(n)) == n && Digits(n) != ""
    ensures forall c :: c in Digits(n) ==> '0' <= c <= '9'
    ensures Digits(n)[0] == '0' ==> n == 0
  {
    if n >= 10 {
      DigitsReadBack(n / 10);
      assert Digits(n)[..|Digits(n)| - 1] == Digits(n / 10);
    } else {
      assert Digits(n)[..0] == "";
    }
  }
}
