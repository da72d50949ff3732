/** Where the guard finds uid-like tokens: re.findall of
    [A-Z0-9_]+:[A-Za-z0-9._-]+ by positions in the text. */
module TokenPositions {
  import opened Text
  import opened PolicyEngine
  import opened EvidenceBuilder
  import opened AnswerGuard

  // A head from `from` to the colon, and a tail behind it up to `to`.
  datatype Span = Span(from: nat, colon: nat, to: nat)

  predicate InHead(c: char) {
    'A' <= c <= 'Z' || '0' <= c <= '9' || c == '_'
  }

  predicate InTail(c: char) {
    InHead(c) || 'a' <= c <= 'z' || c == '.' || c == '-'
  }

  predicate IsMatch(s: string, m: Span) {
    && m.from < m.colon && m.colon + 1 < m.to <= |s| && s[m.colon] == ':'
    && (forall i :: m.from <= i < m.colon ==> InHead(s[i])) && (forall i :: m.colon < i < m.to ==> InTail(s[i]))
  }

  // It cannot be made longer on either side.
  predicate IsMaximal(s: string, m: Span) {
    IsMatch(s, m) && (m.from == 0 || !InHead(s[m.from - 1])) && (m.to == |s| || !InTail(s[m.to]))
  }

  // A colon at which the expression could match.
  predicate PossibleColon(s: string, k: int) {
    0 < k < |s| - 1 && s[k] == ':' && InHead(s[k - 1]) && InTail(s[k + 1])
  }

  // The match m takes the colon at k, or ends right before it and so holds its head.
  predicate TakesColon(m: Span, k: int) {
    m.colon == k || m.to == k
  }

  ghost predicate Covered(ms: seq<Span>, k: int) {
    exists n :: 0 <= n < |ms| && TakesColon(ms[n], k)
  }

  /** Leftmost non-overlapping matches, each as long as possible, and none missed:
      every colon that could match is taken by one. */
  ghost predicate AllMatches(s: string, ms: seq<Span>) {
    && (forall n :: 0 <= n < |ms| ==> IsMaximal(s, ms[n]))
    && (forall n, m :: 0 <= n < m < |ms| ==> ms[n].to <= ms[m].from)
    && (forall k :: PossibleColon(s, k) ==> Covered(ms, k))
  }

  // ---- The tokens are these matches ----

  // The matches of s from position p on; no head reaches back over p.
  ghost predicate MatchesFrom(s: string, p: nat, ms: seq<Span>) {
    && p <= |s|
    && (forall n :: 0 <= n < |ms| ==> IsMaximal(s, ms[n]) && p <= ms[n].from)
    && (forall n, m :: 0 <= n < m < |ms| ==> ms[n].to <= ms[m].from)
    && (forall k :: PossibleColon(s, k) && p < k ==> Covered(ms, k))
  }

  ghost predicate Shows(s: string, ms: seq<Span>, tokens: seq<string>) {
    && |ms| == |tokens| && forall n :: 0 <= n < |ms| ==> ms[n].from <= ms[n].to <= |s| && tokens[n] == s[ms[n].from..ms[n].to]
  }

  // What MatchLength finds at position p.
  lemma MatchAt(s: string, p: nat) returns (m: Span)
    requires p <= |s| && MatchLength(s[p..]) > 0
    ensures m.from == p && m.to == p + MatchLength(s[p..]) && IsMatch(s, m) && (m.to == |s| || !InTail(s[m.to]))
  {
    var rest := s[p..];
    var head := RunLength(rest, HeadChar);
    var tail := RunLength(rest[head + 1..], TailChar);
    m := Span(p, p + head, p + head + 1 + tail);
    forall i | m.from <= i < m.colon ensures InHead(s[i]) { assert s[i] == rest[i - p]; }
    forall i | m.colon < i < m.to ensures InTail(s[i]) { assert s[i] == rest[head + 1..][i - p - head - 1]; }
    if m.to < |s| { assert s[m.to] == rest[head + 1..][tail]; }
    assert s[m.colon] == rest[head];
  }

  // A head run from p to a possible colon makes a match at p.
  lemma RunMakesMatch(s: string, p: nat, k: nat)
    requires p < k && PossibleColon(s, k) && forall i :: p <= i < k ==> InHead(s[i])
    ensures MatchLength(s[p..]) > 0
  {
    var rest := s[p..];
    var head := RunLength(rest, HeadChar);
    assert rest[k - p] == ':' && forall i :: 0 <= i < k - p ==> rest[i] == s[p + i] && HeadChar(rest[i]);
    assert head == k - p;
    assert rest[head + 1..][0] == s[k + 1];
  }

  // No match starts before p with a head that goes on at p.
  predicate Boundary(s: string, p: nat) {
    p <= |s| && (p == 0 || !InHead(s[p - 1]) || MatchLength(s[p..]) == 0)
  }

  lemma BoundaryAfterNoMatch(s: string, p: nat)
    requires p < |s| && MatchLength(s[p..]) == 0
    ensures Boundary(s, p + 1)
  {
    if InHead(s[p]) && MatchLength(s[p + 1..]) > 0 {
      var m := MatchAt(s, p + 1);
      RunMakesMatch(s, p, m.colon);
    }
  }

  lemma BoundaryAfterMatch(s: string, m: Span)
    requires IsMatch(s, m) && (m.to == |s| || !InTail(s[m.to]))
    ensures Boundary(s, m.to)
  {
    if m.to < |s| { assert s[m.to..][0] == s[m.to]; }
  }

  // The matches from p on, and the tokens that they show.
  ghost predicate Found(s: string, p: nat, ms: seq<Span>) {
    p <= |s| && MatchesFrom(s, p, ms) && Shows(s, ms, Tokens(s[p..]))
  }

  lemma NothingSkipped(s: string, p: nat, ms: seq<Span>)
    requires p < |s| && MatchLength(s[p..]) == 0 && MatchesFrom(s, p + 1, ms)
    ensures MatchesFrom(s, p, ms)
  {
    forall k | PossibleColon(s, k) && p < k ensures Covered(ms, k) {
      if k == p + 1 { RunMakesMatch(s, p, k); }
    }
  }

  // Moving on one character without a match.
  lemma GapStep(s: string, p: nat, ms: seq<Span>)
    requires p < |s| && MatchLength(s[p..]) == 0 && Found(s, p + 1, ms)
    ensures Found(s, p, ms)
  {
    NothingSkipped(s, p, ms);
    assert s[p..][1..] == s[p + 1..];
  }

  lemma TokensAtMatch(s: string, p: nat, to: nat)
    requires p < to <= |s| && to == p + MatchLength(s[p..])
    ensures Tokens(s[p..]) == [s[p..to]] + Tokens(s[to..])
  {
    var text := s[p..];
    assert text[to - p..] == s[to..] && text[..to - p] == s[p..to];
  }

  lemma ShowMatch(s: string, m: Span, rest: seq<Span>, tokens: seq<string>)
    requires m.from <= m.to <= |s| && Shows(s, rest, tokens)
    ensures Shows(s, [m] + rest, [s[m.from..m.to]] + tokens)
  {
  }

  lemma TakenOrLater(s: string, m: Span, rest: seq<Span>, k: int)
    requires IsMaximal(s, m) && MatchesFrom(s, m.to, rest) && PossibleColon(s, k) && m.from < k
    ensures Covered([m] + rest, k)
  {
    var ms := [m] + rest;
    if k <= m.to {
      assert TakesColon(ms[0], k);
    } else {
      var n :| 0 <= n < |rest| && TakesColon(rest[n], k);
      assert ms[n + 1] == rest[n];
    }
  }

  lemma TakeMatch(s: string, m: Span, rest: seq<Span>)
    requires IsMaximal(s, m) && MatchesFrom(s, m.to, rest)
    ensures MatchesFrom(s, m.from, [m] + rest)
  {
    forall k | PossibleColon(s, k) && m.from < k ensures Covered([m] + rest, k) {
      TakenOrLater(s, m, rest, k);
    }
  }

  lemma MatchStep(s: string, m: Span, rest: seq<Span>)
    requires IsMaximal(s, m) && m.to == m.from + MatchLength(s[m.from..]) && Found(s, m.to, rest)
    ensures Found(s, m.from, [m] + rest)
  {
    TakeMatch(s, m, rest);
    TokensAtMatch(s, m.from, m.to);
    ShowMatch(s, m, rest, Tokens(s[m.to..]));
  }

  // A match right behind a boundary is maximal on both sides.
  lemma MatchAtBoundary(s: string, p: nat) returns (m: Span)
    requires Boundary(s, p) && MatchLength(s[p..]) > 0
    ensures m.from == p && m.to == p + MatchLength(s[p..]) && IsMaximal(s, m) && Boundary(s, m.to)
  {
    m := MatchAt(s, p);
    BoundaryAfterMatch(s, m);
  }

  lemma {:induction false} TokensFrom(s: string, p: nat) returns (ms: seq<Span>)
    requires Boundary(s, p)
    ensures Found(s, p, ms)
    decreases |s| - p
  {
    if p == |s| {
      ms := [];
    } else if MatchLength(s[p..]) > 0 {
      var m := MatchAtBoundary(s, p);
      var rest := TokensFrom(s, m.to);
      MatchStep(s, m, rest);
      ms := [m] + rest;
    } else {
      BoundaryAfterNoMatch(s, p);
      ms := TokensFrom(s, p + 1);
      GapStep(s, p, ms);
    }
  }

  /** The guard's tokens are exactly the leftmost non-overlapping maximal matches
      of the whole text, in order. */
  lemma TokensAreAllMatches(s: string) returns (ms: seq<Span>)
    ensures AllMatches(s, ms) && Shows(s, ms, Tokens(s))
  {
    ms := TokensFrom(s, 0);
    assert s[0..] == s;
  }

  // ---- No other list of matches has these properties ----

  // Maximal matches of one colon are the same.
  lemma ColonDeterminesMatch(s: string, a: Span, b: Span)
    requires IsMaximal(s, a) && IsMaximal(s, b) && a.colon == b.colon
    ensures a == b
  {
  }

  lemma MatchHasColon(s: string, m: Span)
    requires IsMatch(s, m)
    ensures PossibleColon(s, m.colon)
  {
  }

  // The first matches of two such lists are the same.
  lemma SameFirstMatch(s: string, p: nat, a: seq<Span>, b: seq<Span>)
    requires MatchesFrom(s, p, a) && MatchesFrom(s, p, b) && a != [] && b != []
    ensures a[0].colon <= b[0].colon
  {
    MatchHasColon(s, b[0]);
    var n :| 0 <= n < |a| && TakesColon(a[n], b[0].colon);
    assert n == 0 || a[0].to <= a[n].from;
  }

  lemma {:induction false} MatchesAreUnique(s: string, p: nat, a: seq<Span>, b: seq<Span>)
    requires MatchesFrom(s, p, a) && MatchesFrom(s, p, b)
    ensures a == b
    decreases |a| + |b|
  {
    if a == [] && b != [] {
      MatchHasColon(s, b[0]);
    } else if b == [] && a != [] {
      MatchHasColon(s, a[0]);
    } else if a != [] {
      SameFirstMatch(s, p, a, b);
      SameFirstMatch(s, p, b, a);
      ColonDeterminesMatch(s, a[0], b[0]);
      RestMatches(s, p, a);
      RestMatches(s, p, b);
      MatchesAreUnique(s, a[0].to, a[1..], b[1..]);
      assert a == [a[0]] + a[1..] && b == [b[0]] + b[1..];
    }
  }

  lemma RestMatches(s: string, p: nat, a: seq<Span>)
    requires MatchesFrom(s, p, a) && a != []
    ensures MatchesFrom(s, a[0].to, a[1..])
  {
    forall k | PossibleColon(s, k) && a[0].to < k ensures Covered(a[1..], k) {
      var n :| 0 <= n < |a| && TakesColon(a[n], k);
      assert a[1..][n - 1] == a[n];
    }
  }

  /** These properties leave no choice: any list of spans that has them shows the
      guard's tokens. */
  lemma AllMatchesAreTokens(s: string, ms: seq<Span>)
    requires AllMatches(s, ms)
    ensures Shows(s, ms, Tokens(s))
  {
    var found := TokensAreAllMatches(s);
    MatchesAreUnique(s, 0, ms, found);
  }

  // ---- Runs that stand alone ----

  // A maximal match with no colon and no tail character right in front of it, so
  // that no earlier match can hold its head.
  predicate StandsAlone(s: string, m: Span) {
    IsMaximal(s, m) && (m.from == 0 || (!InTail(s[m.from - 1]) && s[m.from - 1] != ':'))
  }

  lemma NoMatchEndsInside(s: string, m: Span, earlier: Span)
    requires StandsAlone(s, m) && IsMaximal(s, earlier)
    ensures earlier.to != m.colon
  {
  }

  /** A run that stands alone is a token, wherever it stands. */
  lemma StandaloneRunIsToken(s: string, m: Span)
    requires StandsAlone(s, m)
    ensures s[m.from..m.to] in Tokens(s)
  {
    var ms := TokensAreAllMatches(s);
    MatchHasColon(s, m);
    var n :| 0 <= n < |ms| && TakesColon(ms[n], m.colon);
    NoMatchEndsInside(s, m, ms[n]);
    ColonDeterminesMatch(s, ms[n], m);
    assert Tokens(s)[n] == s[m.from..m.to];
  }

  // ---- The guard ----

  // The uid of a bundle, or an end of a relation.
  ghost predicate MayBeNamed(t: string, bundles: seq<Bundle>, relations: seq<RelationItem>) {
    || (exists b :: b in bundles && b.uid == t)
    || (exists r :: r in relations && (r.subject == t || r.object_ == t))
  }

  /** A text that names anything else passes in no state, wherever the name
      stands. */
  lemma UnknownUidIsRefused(text: string, state: DecisionState, bundles: seq<Bundle>, relations: seq<RelationItem>, m: Span)
    requires StandsAlone(text, m) && !MayBeNamed(text[m.from..m.to], bundles, relations)
    ensures !Acceptable(text, state, bundles, relations)
  {
    StandaloneRunIsToken(text, m);
    AllowedNames(bundles, relations, text[m.from..m.to]);
  }

  lemma AllowedNames(bundles: seq<Bundle>, relations: seq<RelationItem>, t: string)
    ensures t in Allowed(bundles, relations) <==> MayBeNamed(t, bundles, relations)
  {
  }

  /** The guard finds no invented product exactly when every match is a name that
      the evidence allows. */
  lemma TokensAllowedExactlyWhen(text: string, bundles: seq<Bundle>, relations: seq<RelationItem>, ms: seq<Span>)
    requires AllMatches(text, ms)
    ensures (forall t :: t in Tokens(text) ==> t in Allowed(bundles, relations)) <==>
              forall n :: 0 <= n < |ms| ==> MayBeNamed(text[ms[n].from..ms[n].to], bundles, relations)
  {
    AllMatchesAreTokens(text, ms);
    forall t { AllowedNames(bundles, relations, t); }
    forall n | 0 <= n < |ms| ensures Tokens(text)[n] == text[ms[n].from..ms[n].to] && Tokens(text)[n] in Tokens(text) {}
  }
}
