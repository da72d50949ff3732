/** The two whitespace normal forms of a question: the cache key's
    split-and-join and the Korean rule parser's collapse-and-strip. */
module QuestionText {
  import opened Text

  // The length of the run of characters at the start of s for which IsSpace is `space`.
  function Run(s: string, space: bool): (n: nat)
    ensures n <= |s|
    ensures forall i :: 0 <= i < n ==> IsSpace(s[i]) == space
    ensures n < |s| ==> IsSpace(s[n]) != space
  {
    if s == "" || IsSpace(s[0]) != space then 0 else 1 + Run(s[1..], space)
  }

  // question.split()
  function Split(s: string): seq<string>
    decreases |s|
  {
    if s == "" then []
    else if IsSpace(s[0]) then Split(s[1..])
    else
      var n := Run(s, false);
      assert n > 0;
      [s[..n]] + Split(s[n..])
  }

  // " ".join(question.split())
  function CacheNormal(s: string): string {
    Join(" ", Split(s))
  }

  // re.sub(r"\s+", " ", question)
  function Collapse(s: string): string
    decreases |s|
  {
    if s == "" then ""
    else if IsSpace(s[0]) then
      var n := Run(s, true);
      assert n > 0;
      " " + Collapse(s[n..])
    else [s[0]] + Collapse(s[1..])
  }

  function LStrip(s: string): string {
    s[Run(s, true)..]
  }

  function RStrip(s: string): string {
    if s == "" || !IsSpace(s[|s| - 1]) then s else RStrip(s[..|s| - 1])
  }

  // _normalize
  function RuleNormal(s: string): string {
    RStrip(LStrip(Collapse(s)))
  }

  // ---- Equality of the two normal forms ----

  lemma {:induction false} CollapseWord(s: string, n: nat)
    requires n <= |s| && forall i :: 0 <= i < n ==> !IsSpace(s[i])
    ensures Collapse(s) == s[..n] + Collapse(s[n..])
  {
    if n > 0 {
      CollapseWord(s[1..], n - 1);
      assert s[1..][n - 1..] == s[n..];
      assert s[..n] == [s[0]] + s[1..][..n - 1];
    } else {
      assert s[..n] + Collapse(s[n..]) == Collapse(s) by { assert s[n..] == s; }
    }
  }

  lemma {:induction false} SplitSkipsSpaces(s: string, n: nat)
    requires n <= |s| && forall i :: 0 <= i < n ==> IsSpace(s[i])
    ensures Split(s) == Split(s[n..])
  {
    if n > 0 {
      SplitSkipsSpaces(s[1..], n - 1);
      assert s[1..][n - 1..] == s[n..];
    } else {
      assert s[n..] == s;
    }
  }

  lemma SpaceIsSpace()
    ensures IsSpace(' ')
  {
  }

  // A word-first string is its first word, then its later words: `rest` is the
  // text from the second word on.
  function FirstWord(s: string): string {
    s[..Run(s, false)]
  }

  function AfterFirstWord(s: string): string {
    var gap := s[Run(s, false)..];
    gap[Run(gap, true)..]
  }

  lemma SplitFirstWord(s: string)
    requires s != "" && !IsSpace(s[0])
    ensures FirstWord(s) != ""
    ensures Split(s) == [FirstWord(s)] + Split(AfterFirstWord(s))
    ensures |AfterFirstWord(s)| < |s|
    ensures AfterFirstWord(s) != "" ==> !IsSpace(AfterFirstWord(s)[0])
  {
    var gap := s[Run(s, false)..];
    SplitSkipsSpaces(gap, Run(gap, true));
  }

  lemma CollapseFirstWord(s: string)
    requires s != "" && !IsSpace(s[0])
    ensures var n := Run(s, false);
            Collapse(s) == FirstWord(s) + (if n < |s| then " " + Collapse(AfterFirstWord(s)) else "")
  {
    CollapseWord(s, Run(s, false));
  }

  lemma CacheNormalFirstWord(s: string)
    requires s != "" && !IsSpace(s[0])
    ensures CacheNormal(s) ==
            FirstWord(s) + (if AfterFirstWord(s) == "" then "" else " " + CacheNormal(AfterFirstWord(s)))
  {
    SplitFirstWord(s);
    var rest := AfterFirstWord(s);
    if rest != "" {
      SplitFirstWord(rest);
      assert Split(s)[1..] == Split(rest);
    }
  }

  ghost predicate WordAtBothEnds(s: string) {
    s != "" && !IsSpace(s[0]) && !IsSpace(s[|s| - 1])
  }

  lemma WordThenNormal(word: string, t: string)
    requires word != "" && forall i :: 0 <= i < |word| ==> !IsSpace(word[i])
    requires WordAtBothEnds(t)
    ensures WordAtBothEnds(word) && WordAtBothEnds(word + " " + t)
  {
  }

  function TrailingSpace(s: string): string
    requires s != ""
  {
    if IsSpace(s[|s| - 1]) then " " else ""
  }

  // A string that starts with a word collapses to its joined words, followed by
  // one space exactly when it ends in whitespace.
  lemma {:induction false} CollapseFromWord(s: string)
    requires s != "" && !IsSpace(s[0])
    ensures WordAtBothEnds(CacheNormal(s))
    ensures Collapse(s) == CacheNormal(s) + TrailingSpace(s)
    decreases |s|
  {
    var word, rest := FirstWord(s), AfterFirstWord(s);
    SplitFirstWord(s);
    CacheNormalFirstWord(s);
    if rest != "" {
      CollapseFromWord(rest);
      WordThenNormal(word, CacheNormal(rest));
      CollapseSeveralWords(s);
    } else {
      CollapseLastWord(s);
    }
  }

  lemma CollapseSeveralWords(s: string)
    requires s != "" && !IsSpace(s[0]) && AfterFirstWord(s) != ""
    requires Collapse(AfterFirstWord(s)) == CacheNormal(AfterFirstWord(s)) + TrailingSpace(AfterFirstWord(s))
    ensures Collapse(s) == FirstWord(s) + " " + CacheNormal(AfterFirstWord(s)) + TrailingSpace(s)
  {
    var rest := AfterFirstWord(s);
    assert TrailingSpace(rest) == TrailingSpace(s) by { SuffixTrailingSpace(s); }
    assert Collapse(s) == FirstWord(s) + (" " + Collapse(rest)) by { CollapseFirstWord(s); }
    Regroup(FirstWord(s), CacheNormal(rest), TrailingSpace(s));
  }

  lemma SuffixTrailingSpace(s: string)
    requires AfterFirstWord(s) != ""
    ensures TrailingSpace(AfterFirstWord(s)) == TrailingSpace(s)
  {
    var rest := AfterFirstWord(s);
    assert rest[|rest| - 1] == s[|s| - 1];
  }

  lemma Regroup(a: string, b: string, c: string)
    ensures a + (" " + (b + c)) == a + " " + b + c
  {
  }

  lemma CollapseLastWord(s: string)
    requires s != "" && !IsSpace(s[0]) && AfterFirstWord(s) == ""
    ensures WordAtBothEnds(FirstWord(s))
    ensures Collapse(s) == FirstWord(s) + TrailingSpace(s)
  {
    assert WordAtBothEnds(FirstWord(s)) by { SplitFirstWord(s); }
    assert " " + Collapse(AfterFirstWord(s)) == " ";
    assert Collapse(s) == FirstWord(s) + (if Run(s, false) < |s| then " " else "") by { CollapseFirstWord(s); }
    OnlyWordTrailingSpace(s);
  }

  lemma OnlyWordTrailingSpace(s: string)
    requires s != "" && !IsSpace(s[0]) && AfterFirstWord(s) == ""
    ensures TrailingSpace(s) == if Run(s, false) < |s| then " " else ""
  {
    var gap := s[Run(s, false)..];
    assert gap != "" ==> gap[|gap| - 1] == s[|s| - 1];
  }

  lemma {:induction false} RStripNothing(s: string)
    requires s != "" && !IsSpace(s[|s| - 1])
    ensures RStrip(s) == s && RStrip(s + " ") == s
  {
    SpaceIsSpace();
    assert (s + " ")[..|s|] == s;
  }

  /** The cache's normal form is the rule parser's, on every string. */
  lemma NormalFormsAgree(s: string)
    ensures CacheNormal(s) == RuleNormal(s)
  {
    var m := Run(s, true);
    var tail := s[m..];
    assert CacheNormal(s) == CacheNormal(tail) by { SplitSkipsSpaces(s, m); }
    var c := Collapse(tail);
    assert Collapse(s) == (if m > 0 then " " else "") + c by {
      if m == 0 { assert tail == s; }
    }
    StripFromWord(tail);
    LStripLead(c);
  }

  lemma StripFromWord(s: string)
    requires s == "" || !IsSpace(s[0])
    ensures RStrip(Collapse(s)) == CacheNormal(s)
    ensures Collapse(s) == "" || !IsSpace(Collapse(s)[0])
  {
    if s != "" {
      CollapseFromWord(s);
      RStripNothing(CacheNormal(s));
    }
  }

  lemma LStripLead(c: string)
    requires c == "" || !IsSpace(c[0])
    ensures LStrip(c) == c && LStrip(" " + c) == c
  {
    SpaceIsSpace();
    assert (" " + c)[1..] == c && c[0..] == c;
    assert Run(" " + c, true) == 1 + Run(c, true);
  }

  /** Normalising twice changes nothing. */
  lemma NormalFormIdempotent(s: string)
    ensures CacheNormal(CacheNormal(s)) == CacheNormal(s)
  {
    var m := Run(s, true);
    SplitSkipsSpaces(s, m);
    if s[m..] != "" {
      CollapseFromWord(s[m..]);
      NormalIsFixed(s[m..]);
    }
  }

  lemma {:induction false} NormalIsFixed(s: string)
    requires s != "" && !IsSpace(s[0])
    ensures Split(CacheNormal(s)) == Split(s)
    decreases |s|
  {
    var word, rest := FirstWord(s), AfterFirstWord(s);
    SplitFirstWord(s);
    CacheNormalFirstWord(s);
    if rest == "" {
      WordAlone(word);
    } else {
      NormalIsFixed(rest);
      CollapseFromWord(rest);
      WordThenText(word, CacheNormal(rest));
    }
  }

  lemma WordThenText(word: string, t: string)
    requires word != "" && forall i :: 0 <= i < |word| ==> !IsSpace(word[i])
    ensures Split(word + (" " + t)) == [word] + Split(t)
  {
    var j := word + (" " + t);
    RunOfWord(word, " " + t);
    assert j[|word|..] == " " + t && j[..|word|] == word;
    assert (" " + t)[1..] == t;
  }

  lemma {:induction false} RunOfWord(word: string, rest: string)
    requires forall i :: 0 <= i < |word| ==> !IsSpace(word[i])
    requires rest == "" || IsSpace(rest[0])
    ensures Run(word + rest, false) == |word|
  {
    if word == "" {
      assert word + rest == rest;
    } else {
      RunOfWord(word[1..], rest);
      assert (word + rest)[1..] == word[1..] + rest;
    }
  }

  lemma WordAlone(word: string)
    requires word != "" && forall i :: 0 <= i < |word| ==> !IsSpace(word[i])
    ensures Split(word) == [word]
  {
    RunOfWord(word, "");
    assert word + "" == word;
    assert word[..|word|] == word && Split(word[|word|..]) == [];
  }

  /** parse_korean_finance_question: the rules see only the normal form, so two
      questions with the same cache hash input get the same parse. */
  function ParseByRules<R>(question: string, rules: string -> Option<R>): Option<R> {
    var text := RuleNormal(question);
    if text == "" then None else rules(text)
  }

  // The rules are given the normal form that the cache hashes, unless it is empty.
  lemma RulesSeeNormalForm<R>(question: string, rules: string -> Option<R>)
    ensures ParseByRules(question, rules) == if CacheNormal(question) == "" then None else rules(CacheNormal(question))
  {
    NormalFormsAgree(question);
  }

  lemma SameCacheKeySameParse<R>(q1: string, q2: string, rules: string -> Option<R>)
    requires CacheNormal(q1) == CacheNormal(q2)
    ensures ParseByRules(q1, rules) == ParseByRules(q2, rules)
  {
    RulesSeeNormalForm(q1, rules);
    RulesSeeNormalForm(q2, rules);
  }
}
