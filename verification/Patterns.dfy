/** The guard's two regular expressions, and what the guard looks for in terms
    of them. */
module Patterns {
  import opened Text
  import opened AnswerGuard
  import opened TokenPositions

  datatype Regex =
    | Literal(text: string)
    | Class(has: char -> bool)
    | Then(first: Regex, second: Regex)
    | Or(left: Regex, right: Regex)
    | Star(body: Regex)

  // s[lo..hi] is one match of r.
  ghost predicate Matches(r: Regex, s: string, lo: nat, hi: nat)
    requires lo <= hi <= |s|
    decreases r, hi - lo
  {
    match r
    case Literal(text) => s[lo..hi] == text
    case Class(has) => hi == lo + 1 && has(s[lo])
    case Then(first, second) => exists k :: lo <= k <= hi && Matches(first, s, lo, k) && Matches(second, s, k, hi)
    case Or(left, right) => Matches(left, s, lo, hi) || Matches(right, s, lo, hi)
    case Star(body) => lo == hi || exists k :: lo < k <= hi && Matches(body, s, lo, k) && Matches(r, s, k, hi)
  }

  // re.search
  ghost predicate Finds(r: Regex, s: string) {
    exists i, j :: 0 <= i <= j <= |s| && Matches(r, s, i, j)
  }

  function Plus(r: Regex): Regex {
    Then(r, Star(r))
  }

  lemma {:induction false} StarOfClass(has: char -> bool, s: string, lo: nat, hi: nat)
    requires lo <= hi <= |s|
    ensures Matches(Star(Class(has)), s, lo, hi) <==> forall i :: lo <= i < hi ==> has(s[i])
    decreases hi - lo
  {
    if lo < hi {
      StarOfClass(has, s, lo + 1, hi);
      assert Matches(Class(has), s, lo, lo + 1) <==> has(s[lo]);
    }
  }

  lemma PlusOfClass(has: char -> bool, s: string, lo: nat, hi: nat)
    requires lo <= hi <= |s|
    ensures Matches(Plus(Class(has)), s, lo, hi) <==> lo < hi && forall i :: lo <= i < hi ==> has(s[i])
  {
    var one, more := Class(has), Star(Class(has));
    if lo < hi {
      StarOfClass(has, s, lo + 1, hi);
      assert Matches(one, s, lo, lo + 1) <==> has(s[lo]);
    }
    assert forall k :: lo <= k <= hi && Matches(one, s, lo, k) ==> k == lo + 1;
  }

  lemma Cut(first: Regex, second: Regex, s: string, lo: nat, hi: nat) returns (k: nat)
    requires lo <= hi <= |s| && Matches(Then(first, second), s, lo, hi)
    ensures lo <= k <= hi && Matches(first, s, lo, k) && Matches(second, s, k, hi)
  {
    k :| lo <= k <= hi && Matches(first, s, lo, k) && Matches(second, s, k, hi);
  }

  // ---- (오를|내릴|상승|하락).*(것|예상|전망) ----

  function AnyOf(words: seq<string>): Regex
    requires words != []
  {
    if |words| == 1 then Literal(words[0]) else Or(Literal(words[0]), AnyOf(words[1..]))
  }

  lemma {:induction false} AnyOfMatches(words: seq<string>, s: string, lo: nat, hi: nat)
    requires words != [] && lo <= hi <= |s|
    ensures Matches(AnyOf(words), s, lo, hi) <==> s[lo..hi] in words
  {
    if |words| > 1 {
      AnyOfMatches(words[1..], s, lo, hi);
      assert words == [words[0]] + words[1..];
    }
  }

  const NOT_NEWLINE: char -> bool := c => c != '\n'

  // One of some words, anything but newlines, one of other words.
  function TwoWords(starts: seq<string>, ends: seq<string>): Regex
    requires starts != [] && ends != []
  {
    Then(AnyOf(starts), Then(Star(Class(NOT_NEWLINE)), AnyOf(ends)))
  }

  const FUTURE := TwoWords(["오를", "내릴", "상승", "하락"], ["것", "예상", "전망"])

  // Where the two words stand in a match.
  ghost predicate TwoWordsAt(starts: seq<string>, ends: seq<string>, text: string, i: int, a: int, b: int, j: int) {
    0 <= i <= a <= b <= j <= |text| && text[i..a] in starts && '\n' !in text[a..b] && text[b..j] in ends
  }

  lemma TwoWordsMatch(starts: seq<string>, ends: seq<string>, text: string, i: nat, j: nat)
    requires starts != [] && ends != [] && i <= j <= |text|
    ensures Matches(TwoWords(starts, ends), text, i, j) <==> exists a, b :: TwoWordsAt(starts, ends, text, i, a, b, j)
  {
    var first, gap, last := AnyOf(starts), Star(Class(NOT_NEWLINE)), AnyOf(ends);
    if Matches(Then(first, Then(gap, last)), text, i, j) {
      var a := Cut(first, Then(gap, last), text, i, j);
      var b := Cut(gap, last, text, a, j);
      WordsAndGap(starts, ends, text, i, a, b, j);
    }
    if a, b :| TwoWordsAt(starts, ends, text, i, a, b, j) {
      WordsAndGap(starts, ends, text, i, a, b, j);
      assert Matches(Then(gap, last), text, a, j);
    }
  }

  lemma WordsAndGap(starts: seq<string>, ends: seq<string>, text: string, i: nat, a: nat, b: nat, j: nat)
    requires starts != [] && ends != [] && i <= a <= b <= j <= |text|
    ensures TwoWordsAt(starts, ends, text, i, a, b, j) <==>
              Matches(AnyOf(starts), text, i, a) && Matches(Star(Class(NOT_NEWLINE)), text, a, b) && Matches(AnyOf(ends), text, b, j)
  {
    AnyOfMatches(starts, text, i, a);
    AnyOfMatches(ends, text, b, j);
    StarOfClass(NOT_NEWLINE, text, a, b);
    assert '\n' !in text[a..b] <==> forall k :: a <= k < b ==> text[k] != '\n' by {
      forall k | a <= k < b ensures text[k] in text[a..b] { assert text[a..b][k - a] == text[k]; }
    }
  }

  lemma ForecastIsTwoWords(text: string)
    ensures FutureAssertion(text) <==> exists i, a, b, j :: TwoWordsAt(MOVES, FORECASTS, text, i, a, b, j)
  {
    if FutureAssertion(text) {
      var i, b :| 0 <= i <= b <= |text| && ForecastBetween(text, i, b);
      var m :| m in MOVES && OccursAt(m, text, i) && i + |m| <= b && '\n' !in text[i + |m|..b];
      var f :| f in FORECASTS && OccursAt(f, text, b);
      assert TwoWordsAt(MOVES, FORECASTS, text, i, i + |m|, b, b + |f|);
    }
    if i, a, b, j :| TwoWordsAt(MOVES, FORECASTS, text, i, a, b, j) {
      var m, f := text[i..a], text[b..j];
      assert OccursAt(m, text, i) && OccursAt(f, text, b);
      assert ForecastBetween(text, i, b);
    }
  }

  /** The guard sees a future assertion exactly where the expression has a match. */
  lemma FutureAssertionIsFound(text: string)
    ensures FutureAssertion(text) <==> Finds(FUTURE, text)
  {
    var starts, ends := MOVES, FORECASTS;
    ForecastIsTwoWords(text);
    assert FUTURE == TwoWords(starts, ends);
    if i, a, b, j :| TwoWordsAt(starts, ends, text, i, a, b, j) {
      TwoWordsMatch(starts, ends, text, i, j);
    }
    if i, j :| 0 <= i <= j <= |text| && Matches(FUTURE, text, i, j) {
      TwoWordsMatch(starts, ends, text, i, j);
    }
  }

  // ---- [A-Z0-9_]+:[A-Za-z0-9._-]+ ----

  const HEAD: char -> bool := c => 'A' <= c <= 'Z' || '0' <= c <= '9' || c == '_'
  const TAIL: char -> bool := c => 'A' <= c <= 'Z' || 'a' <= c <= 'z' || '0' <= c <= '9' || c == '.' || c == '_' || c == '-'
  const TOKEN := Then(Plus(Class(HEAD)), Then(Literal(":"), Plus(Class(TAIL))))

  lemma ColonBetween(head: Regex, tail: Regex, s: string, lo: nat, hi: nat)
    requires lo <= hi <= |s|
    ensures Matches(Then(head, Then(Literal(":"), tail)), s, lo, hi) <==>
              exists k :: lo <= k < hi && s[k] == ':' && Matches(head, s, lo, k) && Matches(tail, s, k + 1, hi)
  {
    var colon := Literal(":");
    if Matches(Then(head, Then(colon, tail)), s, lo, hi) {
      var k := Cut(head, Then(colon, tail), s, lo, hi);
      var n := Cut(colon, tail, s, k, hi);
      assert |s[k..n]| == 1 && s[k..n][0] == s[k];
    }
    if k :| lo <= k < hi && s[k] == ':' && Matches(head, s, lo, k) && Matches(tail, s, k + 1, hi) {
      assert s[k..k + 1] == ":" && Matches(colon, s, k, k + 1);
      assert Matches(Then(colon, tail), s, k, hi);
    }
  }

  /** The spans that tokens are made of are exactly the matches of the expression. */
  lemma SpansAreMatches(s: string, lo: nat, hi: nat)
    requires lo <= hi <= |s|
    ensures Matches(TOKEN, s, lo, hi) <==> exists k :: IsMatch(s, Span(lo, k, hi))
  {
    var head, tail := Plus(Class(HEAD)), Plus(Class(TAIL));
    ColonBetween(head, tail, s, lo, hi);
    if k :| lo <= k < hi && s[k] == ':' && Matches(head, s, lo, k) && Matches(tail, s, k + 1, hi) {
      Runs(s, lo, k, hi);
      assert IsMatch(s, Span(lo, k, hi));
    }
    if k: nat :| IsMatch(s, Span(lo, k, hi)) {
      Runs(s, lo, k, hi);
    }
  }

  // Head and tail around a colon.
  lemma Runs(s: string, lo: nat, k: nat, hi: nat)
    requires lo <= k < hi <= |s|
    ensures Matches(Plus(Class(HEAD)), s, lo, k) <==> lo < k && forall i :: lo <= i < k ==> InHead(s[i])
    ensures Matches(Plus(Class(TAIL)), s, k + 1, hi) <==> k + 1 < hi && forall i :: k < i < hi ==> InTail(s[i])
  {
    PlusOfClass(HEAD, s, lo, k);
    PlusOfClass(TAIL, s, k + 1, hi);
  }
}
