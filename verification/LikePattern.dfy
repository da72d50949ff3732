/** Escaping of user text for SQL LIKE, and the LIKE matcher it is meant for
    (section 8.5 of SQL-92, <like predicate> with ESCAPE). */
module LikePattern {
  import opened Text

  const ESCAPE: char := '\\'

  predicate IsSpecial(c: char) {
    c == '\\' || c == '%' || c == '_'
  }

  // LIKE_ESCAPE.sub(r"\\\1", value)
  function EscapeLikePattern(v: string): string {
    if v == "" then "" else EscapeChar(v[0]) + EscapeLikePattern(v[1..])
  }

  function EscapeChar(c: char): string {
    if IsSpecial(c) then [ESCAPE, c] else [c]
  }

  function ContainsPattern(v: string): string {
    "%" + EscapeLikePattern(v) + "%"
  }

  datatype Token = AnyString | AnyChar | Literal(c: char)

  // A pattern read with ESCAPE '\'. Anything else is the data exception
  // "invalid escape sequence".
  predicate WellFormed(p: string) {
    p == "" ||
    if p[0] == ESCAPE then |p| > 1 && IsSpecial(p[1]) && WellFormed(p[2..]) else WellFormed(p[1..])
  }

  function Tokens(p: string): seq<Token>
    requires WellFormed(p)
  {
    if p == "" then []
    else if p[0] == ESCAPE then [Literal(p[1])] + Tokens(p[2..])
    else [if p[0] == '%' then AnyString else if p[0] == '_' then AnyChar else Literal(p[0])] + Tokens(p[1..])
  }

  // `fold` is applied to both sides: the identity for LIKE, case folding for ILIKE.
  predicate Accepts(ts: seq<Token>, s: string, fold: char -> char) {
    if ts == [] then s == ""
    else match ts[0]
      case AnyString => exists k :: 0 <= k <= |s| && Accepts(ts[1..], s[k..], fold)
      case AnyChar => s != "" && Accepts(ts[1..], s[1..], fold)
      case Literal(c) => s != "" && fold(s[0]) == fold(c) && Accepts(ts[1..], s[1..], fold)
  }

  predicate Like(s: string, pattern: string, fold: char -> char) {
    WellFormed(pattern) && Accepts(Tokens(pattern), s, fold)
  }

  function Folded(s: string, fold: char -> char): string {
    Mapped(s, fold)
  }

  function Literals(v: string): (ts: seq<Token>)
    ensures |ts| == |v|
  {
    seq(|v|, i requires 0 <= i < |v| => Literal(v[i]))
  }

  lemma {:induction false} EscapedTokens(v: string, rest: string)
    requires WellFormed(rest)
    ensures WellFormed(EscapeLikePattern(v) + rest)
    ensures Tokens(EscapeLikePattern(v) + rest) == Literals(v) + Tokens(rest)
  {
    if v == "" {
      assert EscapeLikePattern(v) + rest == rest;
    } else {
      EscapedTokens(v[1..], rest);
      var tail := EscapeLikePattern(v[1..]) + rest;
      EscapedHead(v[0], tail);
      assert EscapeLikePattern(v) + rest == EscapeChar(v[0]) + tail;
      LiteralsHead(v, Tokens(rest));
    }
  }

  lemma LiteralsHead(v: string, ts: seq<Token>)
    requires v != ""
    ensures Literals(v) + ts == [Literal(v[0])] + (Literals(v[1..]) + ts)
  {
  }

  lemma EscapedHead(c: char, rest: string)
    requires WellFormed(rest)
    ensures WellFormed(EscapeChar(c) + rest)
    ensures Tokens(EscapeChar(c) + rest) == [Literal(c)] + Tokens(rest)
  {
    assert IsSpecial(c) ==> (EscapeChar(c) + rest)[2..] == rest;
    assert !IsSpecial(c) ==> (EscapeChar(c) + rest)[1..] == rest;
  }

  predicate FoldedPrefix(v: string, s: string, fold: char -> char) {
    |v| <= |s| && forall i :: 0 <= i < |v| ==> fold(s[i]) == fold(v[i])
  }

  lemma {:induction false} LiteralsThenAnything(v: string, s: string, fold: char -> char)
    ensures Accepts(Literals(v) + [AnyString], s, fold) <==> FoldedPrefix(v, s, fold)
  {
    var ts := Literals(v) + [AnyString];
    if v == "" {
      assert ts[1..] == [] && Accepts(ts[1..], s[|s|..], fold);
    } else {
      assert ts[0] == Literal(v[0]);
      assert ts[1..] == Literals(v[1..]) + [AnyString];
      if s != "" {
        LiteralsThenAnything(v[1..], s[1..], fold);
        FoldedPrefixHead(v, s, fold);
      }
    }
  }

  lemma FoldedPrefixHead(v: string, s: string, fold: char -> char)
    requires v != "" && s != ""
    ensures FoldedPrefix(v, s, fold) <==> fold(s[0]) == fold(v[0]) && FoldedPrefix(v[1..], s[1..], fold)
  {
    if fold(s[0]) == fold(v[0]) && FoldedPrefix(v[1..], s[1..], fold) {
      forall i | 0 <= i < |v| ensures fold(s[i]) == fold(v[i]) {
        if i > 0 { assert s[i] == s[1..][i - 1] && v[i] == v[1..][i - 1]; }
      }
    }
  }

  lemma FoldedPrefixIsOccurrence(v: string, s: string, fold: char -> char, k: nat)
    requires k <= |s|
    ensures FoldedPrefix(v, s[k..], fold) <==> OccursAt(Folded(v, fold), Folded(s, fold), k)
  {
    var fv, fs := Folded(v, fold), Folded(s, fold);
    if k + |v| <= |s| {
      assert forall i :: 0 <= i < |v| ==> fs[k..k + |fv|][i] == fold(s[k..][i]);
    }
  }

  /** The escaped pattern is always well formed, and it matches a text exactly
      when the user's string occurs in it: every %, _ and \ is literal. */
  lemma EscapedPatternMatchesSubstrings(v: string, s: string, fold: char -> char)
    ensures WellFormed(ContainsPattern(v))
    ensures Like(s, ContainsPattern(v), fold) <==> IsSubstring(Folded(v, fold), Folded(s, fold))
  {
    var p := ContainsPattern(v);
    assert "%"[1..] == "";
    EscapedTokens(v, "%");
    assert p[1..] == EscapeLikePattern(v) + "%";
    var body := Literals(v) + [AnyString];
    var ts := Tokens(p);
    assert ts[1..] == body;
    forall k | 0 <= k <= |s|
      ensures Accepts(ts[1..], s[k..], fold) <==> OccursAt(Folded(v, fold), Folded(s, fold), k)
    {
      LiteralsThenAnything(v, s[k..], fold);
      FoldedPrefixIsOccurrence(v, s, fold, k);
    }
  }

  // ---- Without the escaping ----

  predicate Plain(v: string) {
    forall c :: c in v ==> !IsSpecial(c)
  }

  lemma {:induction false} PlainTextEscapesToItself(v: string)
    requires Plain(v)
    ensures EscapeLikePattern(v) == v
  {
    if v != "" { PlainTextEscapesToItself(v[1..]); }
  }

  // A text that the tokens accept: nothing for %, an 'a' for _.
  function Instance(ts: seq<Token>): string {
    if ts == [] then ""
    else (match ts[0] case AnyString => "" case AnyChar => "a" case Literal(c) => [c]) + Instance(ts[1..])
  }

  lemma {:induction false} InstanceIsAccepted(ts: seq<Token>, fold: char -> char)
    ensures Accepts(ts, Instance(ts), fold)
  {
    if ts != [] {
      InstanceIsAccepted(ts[1..], fold);
      var s := Instance(ts);
      assert s[0..] == s;
      if !ts[0].AnyString? { assert s[1..] == Instance(ts[1..]); }
    }
  }

  // When v has a special character, the instance of v followed by % is not v.
  lemma {:induction false} InstanceDiffers(v: string, fold: char -> char)
    requires fold('%') != fold('\\') && fold('_') != fold('a') && WellFormed(v + "%")
    ensures var s := Instance(Tokens(v + "%"));
      |s| <= |v| && (!Plain(v) ==> Folded(s, fold) != Folded(v, fold))
  {
    var p := v + "%";
    var ts := Tokens(p);
    if v == "" {
      PercentToken("");
      assert p == "%" + "";
    } else if v[0] == ESCAPE {
      assert ts == [Literal(p[1])] + Tokens(p[2..]);
      if |v| == 1 {
        assert p[2..] == "";
        assert Folded(Instance(ts), fold)[0] == fold('%') && Folded(v, fold)[0] == fold('\\');
      } else {
        assert p[2..] == v[2..] + "%";
        InstanceDiffers(v[2..], fold);
      }
    } else {
      assert p[1..] == v[1..] + "%";
      InstanceDiffers(v[1..], fold);
      var s, rest := Instance(ts), Instance(Tokens(p[1..]));
      if v[0] != '%' {
        assert ts[1..] == Tokens(p[1..]);
        assert Folded(s, fold)[0] == fold(s[0]) && Folded(v, fold)[0] == fold(v[0]);
        assert Folded(s, fold)[1..] == Folded(rest, fold) && Folded(v, fold)[1..] == Folded(v[1..], fold);
        assert v == [v[0]] + v[1..];
      }
    }
  }

  /** A pattern made without the escaping means containment exactly for the
      texts without a special character, for every folding that keeps the
      escape from % and the underscore from some letter. */
  lemma EscapingNeededExactlyWhen(v: string, fold: char -> char)
    requires fold('%') != fold('\\') && fold('_') != fold('a')
    ensures (forall s :: Like(s, "%" + v + "%", fold) <==> IsSubstring(Folded(v, fold), Folded(s, fold))) <==> Plain(v)
  {
    var p := "%" + v + "%";
    if Plain(v) {
      PlainTextEscapesToItself(v);
      forall s ensures Like(s, p, fold) <==> IsSubstring(Folded(v, fold), Folded(s, fold)) {
        EscapedPatternMatchesSubstrings(v, s, fold);
      }
    } else if !WellFormed(p) {
      assert OccursAt(Folded(v, fold), Folded(v, fold), 0);
      assert !Like(v, p, fold);
    } else {
      assert p == "%" + (v + "%") && p[1..] == v + "%";
      PercentToken(v + "%");
      var s := Instance(Tokens(v + "%"));
      InstanceIsAccepted(Tokens(p), fold);
      InstanceDiffers(v, fold);
      assert Instance(Tokens(p)) == s;
      assert !IsSubstring(Folded(v, fold), Folded(s, fold));
      assert Like(s, p, fold);
    }
  }

  lemma PercentToken(rest: string)
    requires WellFormed(rest)
    ensures WellFormed("%" + rest) && Tokens("%" + rest) == [AnyString] + Tokens(rest)
  {
    assert ("%" + rest)[1..] == rest;
  }
}
