/** guard_answer: the checks a generated text must pass before it is shown, and
    the fixed texts used when two generated ones fail. */
module AnswerGuard {
  import opened Text
  import opened PolicyEngine
  import opened EvidenceBuilder
  import opened QuestionText

  const FORBIDDEN_PHRASES := [
    "추천합니다", "가장 좋은 상품입니다", "안전합니다", "지금 사는 것이 좋습니다",
    "앞으로 오를 것입니다", "높은 수익이 기대됩니다"]

  const MOVES := ["오를", "내릴", "상승", "하락"]
  const FORECASTS := ["것", "예상", "전망"]

  datatype GuardResult = GuardResult(passed: bool, offending: seq<string>, reasons: seq<string>)

  predicate HasPrefix(text: string, state: DecisionState) {
    StateName(state) + ":" <= LStrip(text)
  }

  // (오를|내릴|상승|하락).*(것|예상|전망), where the dot matches all but a newline
  predicate FutureAssertion(text: string) {
    exists i, j :: 0 <= i <= j <= |text| && ForecastBetween(text, i, j)
  }

  predicate ForecastBetween(text: string, i: nat, j: nat)
    requires i <= j <= |text|
  {
    && (exists m :: m in MOVES && OccursAt(m, text, i) && i + |m| <= j && '\n' !in text[i + |m|..j])
    && (exists f :: f in FORECASTS && OccursAt(f, text, j))
  }

  // ---- Uid-like tokens: [A-Z0-9_]+:[A-Za-z0-9._-]+ ----

  predicate HeadChar(c: char) {
    'A' <= c <= 'Z' || '0' <= c <= '9' || c == '_'
  }

  predicate TailChar(c: char) {
    HeadChar(c) || 'a' <= c <= 'z' || c == '.' || c == '-'
  }

  // The length of the longest prefix whose characters all satisfy p.
  function RunLength(s: string, p: char -> bool): (n: nat)
    ensures n <= |s| && (forall i :: 0 <= i < n ==> p(s[i])) && (n < |s| ==> !p(s[n]))
  {
    if s == "" || !p(s[0]) then 0 else 1 + RunLength(s[1..], p)
  }

  // The length of a match at the start of s; zero when there is none.
  function MatchLength(s: string): (n: nat)
    ensures n <= |s|
  {
    var head := RunLength(s, HeadChar);
    if head == 0 || head == |s| || s[head] != ':' then 0
    else
      var tail := RunLength(s[head + 1..], TailChar);
      if tail == 0 then 0 else head + 1 + tail
  }

  // re.findall: leftmost matches that do not overlap, each as long as possible.
  function Tokens(s: string): seq<string>
    decreases |s|
  {
    if s == "" then []
    else if MatchLength(s) > 0 then [s[..MatchLength(s)]] + Tokens(s[MatchLength(s)..])
    else Tokens(s[1..])
  }

  predicate TokenColon(s: string, k: nat) {
    0 < k < |s| - 1 && s[k] == ':' && HeadChar(s[k - 1]) && TailChar(s[k + 1])
  }

  /** The text has a uid-like token exactly when some colon stands directly
      between a head and a tail character. */
  lemma {:induction false} TokensExistExactlyWhen(s: string)
    ensures Tokens(s) != [] <==> exists k :: TokenColon(s, k)
    decreases |s|
  {
    if s == "" {
    } else if MatchLength(s) > 0 {
      var head := RunLength(s, HeadChar);
      assert s[head + 1..][0] == s[head + 1];
      assert TokenColon(s, head);
    } else {
      TokensExistExactlyWhen(s[1..]);
      if k: nat :| TokenColon(s[1..], k) {
        assert TokenColon(s, k + 1);
      }
      if k: nat :| TokenColon(s, k) {
        ColonAfterFirst(s, k);
        assert TokenColon(s[1..], k - 1);
      }
    }
  }

  lemma ColonAfterFirst(s: string, k: nat)
    requires TokenColon(s, k) && MatchLength(s) == 0
    ensures k > 1
  {
  }

  // ---- The guard ----

  function Allowed(bundles: seq<Bundle>, relations: seq<RelationItem>): set<string> {
    (set b | b in bundles :: b.uid) + (set r | r in relations :: r.subject) + (set r | r in relations :: r.object_)
  }

  predicate Silent(state: DecisionState) {
    state.ASK? || state.ABSTAIN?
  }

  predicate NameShown(b: Bundle, text: string) {
    b.name.Some? && b.name.value != "" && IsSubstring(b.name.value, text)
  }

  /** What a text must satisfy. */
  predicate Acceptable(text: string, state: DecisionState, bundles: seq<Bundle>, relations: seq<RelationItem>) {
    && HasPrefix(text, state)
    && (forall p :: p in FORBIDDEN_PHRASES ==> !IsSubstring(p, text))
    && !FutureAssertion(text)
    && (forall t :: t in Tokens(text) ==> t in Allowed(bundles, relations))
    && (Silent(state) ==> forall b :: b in bundles ==> !NameShown(b, text))
  }

  // One appended span and the reason code appended with it.
  datatype Finding = Finding(span: string, code: string)

  function Found<T>(items: seq<T>, bad: T -> bool, span: T -> string, code: string): seq<Finding> {
    FlatMap(items, Check(bad, span, code))
  }

  function Check<T>(bad: T -> bool, span: T -> string, code: string): T -> seq<Finding> {
    (x: T) => if bad(x) then [Finding(span(x), code)] else []
  }

  // One checking loop of the guard.
  method Collect<T>(items: seq<T>, bad: T -> bool, span: T -> string, code: string, before: seq<Finding>) returns (findings: seq<Finding>)
    ensures findings == before + Found(items, bad, span, code)
  {
    findings := before;
    for i := 0 to |items|
      invariant findings == before + Found(items[..i], bad, span, code)
    {
      FlatMapSnoc(items, i, Check(bad, span, code));
      if bad(items[i]) {
        findings := findings + [Finding(span(items[i]), code)];
      }
    }
    assert items[..|items|] == items;
  }

  lemma NothingFoundExactlyWhen<T>(items: seq<T>, bad: T -> bool, span: T -> string, code: string)
    ensures Found(items, bad, span, code) == [] <==> forall x :: x in items ==> !bad(x)
  {
    FlatMapEmpty(items, Check(bad, span, code));
  }

  // ---- guard_answer ----

  function PhraseFound(text: string): string -> bool {
    (p: string) => IsSubstring(p, text)
  }

  function NotAllowed(allowed: set<string>): string -> bool {
    (t: string) => t !in allowed
  }

  function NameFound(text: string): Bundle -> bool {
    (b: Bundle) => NameShown(b, text)
  }

  const ITSELF: string -> string := (s: string) => s
  const NAME_OF: Bundle -> string := (b: Bundle) => if b.name.Some? then b.name.value else ""

  function If(condition: bool, span: string, code: string): seq<Finding> {
    if condition then [Finding(span, code)] else []
  }

  function PhraseFindings(text: string, state: DecisionState): seq<Finding> {
    If(!HasPrefix(text, state), StateName(state) + ":", "STATE_PREFIX_MISMATCH")
    + Found(FORBIDDEN_PHRASES, PhraseFound(text), ITSELF, "FORBIDDEN_PHRASE")
    + If(FutureAssertion(text), "future_assertion", "FUTURE_ASSERTION")
  }

  function Findings(text: string, state: DecisionState, bundles: seq<Bundle>, relations: seq<RelationItem>): seq<Finding> {
    PhraseFindings(text, state)
    + Found(Tokens(text), NotAllowed(Allowed(bundles, relations)), ITSELF, "HALLUCINATED_PRODUCT")
    + (if Silent(state) then Found(bundles, NameFound(text), NAME_OF, "UNEXPECTED_CANDIDATE_IN_NON_ANSWER") else [])
  }

  function SpansOf(findings: seq<Finding>): seq<string> {
    Mapped(findings, (f: Finding) => f.span)
  }

  function CodesOf(findings: seq<Finding>): seq<string> {
    Mapped(findings, (f: Finding) => f.code)
  }

  method CollectPhraseFindings(text: string, state: DecisionState) returns (findings: seq<Finding>)
    ensures findings == PhraseFindings(text, state)
  {
    findings := [];
    if !HasPrefix(text, state) {
      findings := [Finding(StateName(state) + ":", "STATE_PREFIX_MISMATCH")];
    }
    findings := Collect(FORBIDDEN_PHRASES, PhraseFound(text), ITSELF, "FORBIDDEN_PHRASE", findings);
    if FutureAssertion(text) {
      findings := findings + [Finding("future_assertion", "FUTURE_ASSERTION")];
    }
  }

  method CollectFindings(text: string, state: DecisionState, bundles: seq<Bundle>, relations: seq<RelationItem>)
    returns (findings: seq<Finding>)
    ensures findings == Findings(text, state, bundles, relations)
  {
    findings := CollectPhraseFindings(text, state);
    findings := Collect(Tokens(text), NotAllowed(Allowed(bundles, relations)), ITSELF, "HALLUCINATED_PRODUCT", findings);
    if Silent(state) {
      findings := Collect(bundles, NameFound(text), NAME_OF, "UNEXPECTED_CANDIDATE_IN_NON_ANSWER", findings);
    }
  }

  method GuardAnswer(text: string, state: DecisionState, bundles: seq<Bundle>, relations: seq<RelationItem>) returns (r: GuardResult)
    ensures r.passed <==> Acceptable(text, state, bundles, relations)
    ensures var findings := Findings(text, state, bundles, relations);
      r.offending == SpansOf(findings) && r.reasons == Dedupe(CodesOf(findings))
    ensures forall code :: code in r.reasons <==> exists span :: Breaks(Finding(span, code), text, state, bundles, relations)
    ensures forall span :: span in r.offending <==> exists code :: Breaks(Finding(span, code), text, state, bundles, relations)
  {
    var findings := CollectFindings(text, state, bundles, relations);
    PassesExactlyWhen(text, state, bundles, relations);
    ReportsExactly(text, state, bundles, relations);
    var codes := Deduplicate(CodesOf(findings));
    r := GuardResult(findings == [], SpansOf(findings), codes);
  }

  // The rule that each reason code reports, and what it shows of the text.
  ghost predicate Breaks(f: Finding, text: string, state: DecisionState, bundles: seq<Bundle>, relations: seq<RelationItem>) {
    || BreaksPhrasing(f, text, state)
    || (f.code == "HALLUCINATED_PRODUCT" && f.span in Tokens(text) && f.span !in Allowed(bundles, relations))
    || (f.code == "UNEXPECTED_CANDIDATE_IN_NON_ANSWER" && (state == ASK || state == ABSTAIN)
        && f.span != "" && IsSubstring(f.span, text) && exists b :: b in bundles && b.name == Some(f.span))
  }

  // What a text in this state begins with, behind white space.
  predicate IsPrefixOf(prefix: string, state: DecisionState) {
    match state
    case ANSWER => prefix == "ANSWER:"
    case ASK => prefix == "ASK:"
    case ABSTAIN => prefix == "ABSTAIN:"
    case PRE_ANSWER => prefix == "PRE_ANSWER:"
  }

  predicate BreaksPhrasing(f: Finding, text: string, state: DecisionState) {
    || (f.code == "STATE_PREFIX_MISMATCH" && IsPrefixOf(f.span, state) && !(f.span <= LStrip(text)))
    || (f.code == "FORBIDDEN_PHRASE" && f.span in FORBIDDEN_PHRASES && IsSubstring(f.span, text))
    || (f == Finding("future_assertion", "FUTURE_ASSERTION") && FutureAssertion(text))
  }

  lemma FoundMembers<T(!new)>(items: seq<T>, bad: T -> bool, span: T -> string, code: string, f: Finding)
    ensures f in Found(items, bad, span, code) <==> exists x :: x in items && bad(x) && f == Finding(span(x), code)
  {
    var check := Check(bad, span, code);
    if x :| x in items && bad(x) && f == Finding(span(x), code) {
      FlatMapMember(items, check, x, f);
    }
    if f in Found(items, bad, span, code) {
      var x := FlatMapSource(items, check, f);
    }
  }

  lemma PhrasesFound(text: string, f: Finding)
    ensures f in Found(FORBIDDEN_PHRASES, PhraseFound(text), ITSELF, "FORBIDDEN_PHRASE") <==>
              f.code == "FORBIDDEN_PHRASE" && f.span in FORBIDDEN_PHRASES && IsSubstring(f.span, text)
  {
    var phrases := FORBIDDEN_PHRASES;
    FoundMembers(phrases, PhraseFound(text), ITSELF, "FORBIDDEN_PHRASE", f);
  }

  lemma PhraseFindingsAre(text: string, state: DecisionState, f: Finding)
    ensures f in PhraseFindings(text, state) <==> BreaksPhrasing(f, text, state)
  {
    PhrasesFound(text, f);
    assert IsPrefixOf(StateName(state) + ":", state);
  }

  lemma UnknownTokens(text: string, allowed: set<string>, f: Finding)
    ensures f in Found(Tokens(text), NotAllowed(allowed), ITSELF, "HALLUCINATED_PRODUCT") <==>
              f.code == "HALLUCINATED_PRODUCT" && f.span in Tokens(text) && f.span !in allowed
  {
    FoundMembers(Tokens(text), NotAllowed(allowed), ITSELF, "HALLUCINATED_PRODUCT", f);
  }

  lemma NamesFound(text: string, bundles: seq<Bundle>, f: Finding)
    ensures f in Found(bundles, NameFound(text), NAME_OF, "UNEXPECTED_CANDIDATE_IN_NON_ANSWER") <==>
              f.code == "UNEXPECTED_CANDIDATE_IN_NON_ANSWER" && f.span != "" && IsSubstring(f.span, text)
              && exists b :: b in bundles && b.name == Some(f.span)
  {
    FoundMembers(bundles, NameFound(text), NAME_OF, "UNEXPECTED_CANDIDATE_IN_NON_ANSWER", f);
  }

  lemma FindingsAre(text: string, state: DecisionState, bundles: seq<Bundle>, relations: seq<RelationItem>, f: Finding)
    ensures f in Findings(text, state, bundles, relations) <==> Breaks(f, text, state, bundles, relations)
  {
    PhraseFindingsAre(text, state, f);
    UnknownTokens(text, Allowed(bundles, relations), f);
    NamesFound(text, bundles, f);
  }

  lemma ReportsExactly(text: string, state: DecisionState, bundles: seq<Bundle>, relations: seq<RelationItem>)
    ensures var findings := Findings(text, state, bundles, relations);
      && (forall code :: code in CodesOf(findings) <==> exists span :: Breaks(Finding(span, code), text, state, bundles, relations))
      && (forall span :: span in SpansOf(findings) <==> exists code :: Breaks(Finding(span, code), text, state, bundles, relations))
  {
    var findings := Findings(text, state, bundles, relations);
    forall span, code ensures Finding(span, code) in findings <==> Breaks(Finding(span, code), text, state, bundles, relations) {
      FindingsAre(text, state, bundles, relations, Finding(span, code));
    }
    FindingParts(findings);
  }

  lemma FindingParts(findings: seq<Finding>)
    ensures forall code :: code in CodesOf(findings) <==> exists span :: Finding(span, code) in findings
    ensures forall span :: span in SpansOf(findings) <==> exists code :: Finding(span, code) in findings
  {
    forall span, code | Finding(span, code) in findings ensures code in CodesOf(findings) && span in SpansOf(findings) {
      var i :| 0 <= i < |findings| && findings[i] == Finding(span, code);
      assert CodesOf(findings)[i] == code && SpansOf(findings)[i] == span;
    }
    forall i | 0 <= i < |findings| ensures Finding(SpansOf(findings)[i], CodesOf(findings)[i]) in findings {
      assert findings[i] == Finding(SpansOf(findings)[i], CodesOf(findings)[i]);
    }
  }

  lemma PassesExactlyWhen(text: string, state: DecisionState, bundles: seq<Bundle>, relations: seq<RelationItem>)
    ensures Findings(text, state, bundles, relations) == [] <==> Acceptable(text, state, bundles, relations)
  {
    NothingFoundExactlyWhen(FORBIDDEN_PHRASES, PhraseFound(text), ITSELF, "FORBIDDEN_PHRASE");
    NothingFoundExactlyWhen(Tokens(text), NotAllowed(Allowed(bundles, relations)), ITSELF, "HALLUCINATED_PRODUCT");
    NothingFoundExactlyWhen(bundles, NameFound(text), NAME_OF, "UNEXPECTED_CANDIDATE_IN_NON_ANSWER");
  }

  // ---- The fixed texts ----

  // _safe_answer_fallback
  function SafeFallback(state: DecisionState): string {
    match state
    case ANSWER => StateName(ANSWER) + ": " + ANSWER_BODY
    case ASK => StateName(ASK) + ": " + ASK_BODY
    case _ => StateName(ABSTAIN) + ": " + ABSTAIN_BODY
  }

  const ANSWER_BODY := "제공된 근거 데이터 기준의 조회 결과입니다."
  const ASK_BODY := "조회 조건을 조금 더 구체적으로 알려주세요."
  const ABSTAIN_BODY := "제공된 데이터와 근거 범위에서는 확인할 수 없습니다."

  // Each forbidden phrase and each word for a move needs one of these characters.
  predicate Telltale(c: char) {
    c == '추' || c == '좋' || c == '안' || c == '앞' || c == '높' || c == '오' || c == '내' || c == '승' || c == '락'
  }

  predicate Harmless(s: string) {
    forall c :: c in s ==> !Telltale(c) && c != ':'
  }

  lemma AnswerBodyIsHarmless()
    ensures Harmless(ANSWER_BODY)
  {
  }

  lemma AskBodyIsHarmless()
    ensures Harmless(ASK_BODY)
  {
  }

  lemma AbstainBodyIsHarmless()
    ensures Harmless(ABSTAIN_BODY)
  {
  }

  lemma PhrasesAreTelling(p: string)
    requires p in FORBIDDEN_PHRASES
    ensures exists c :: c in p && Telltale(c)
  {
    var c := if p == FORBIDDEN_PHRASES[1] then p[3] else if p == FORBIDDEN_PHRASES[3] then p[9] else p[0];
    assert c in p;
  }

  lemma MovesAreTelling(m: string)
    requires m in MOVES
    ensures exists c :: c in m && Telltale(c)
  {
    var c := if m == "오를" || m == "내릴" then m[0] else m[1];
    assert c in m;
  }

  lemma SubstringChars(v: string, s: string, i: nat, c: char)
    requires OccursAt(v, s, i) && c in v
    ensures c in s
  {
    var k :| 0 <= k < |v| && v[k] == c;
    assert s[i..i + |v|][k] == s[i + k];
  }

  lemma NoPhraseWithoutTelltale(text: string, p: string)
    requires p in FORBIDDEN_PHRASES && forall c :: c in text ==> !Telltale(c)
    ensures !IsSubstring(p, text)
  {
    PhrasesAreTelling(p);
    var c :| c in p && Telltale(c);
    if i :| 0 <= i <= |text| && OccursAt(p, text, i) { SubstringChars(p, text, i, c); }
  }

  lemma NoForecastWithoutTelltale(text: string)
    requires forall c :: c in text ==> !Telltale(c)
    ensures !FutureAssertion(text)
  {
    forall m, i: nat | m in MOVES ensures !OccursAt(m, text, i) {
      MovesAreTelling(m);
      var c :| c in m && Telltale(c);
      if OccursAt(m, text, i) { SubstringChars(m, text, i, c); }
    }
  }

  // A text of the form STATE: body, with nothing telling in it.
  lemma HarmlessText(state: DecisionState, body: string)
    requires Harmless(body)
    ensures var text := StateName(state) + ": " + body;
      && (forall p :: p in FORBIDDEN_PHRASES ==> !IsSubstring(p, text))
      && !FutureAssertion(text) && Tokens(text) == [] && HasPrefix(text, state)
  {
    var text := StateName(state) + ": " + body;
    HarmlessChars(state, body);
    forall p | p in FORBIDDEN_PHRASES ensures !IsSubstring(p, text) {
      NoPhraseWithoutTelltale(text, p);
    }
    NoForecastWithoutTelltale(text);
    TokensExistExactlyWhen(text);
    PrefixStands(state, body);
  }

  lemma PrefixStands(state: DecisionState, body: string)
    ensures HasPrefix(StateName(state) + ": " + body, state)
  {
    var text := StateName(state) + ": " + body;
    assert StateName(state) + ":" <= text && LStrip(text) == text;
  }

  lemma HarmlessChars(state: DecisionState, body: string)
    requires Harmless(body)
    ensures var text := StateName(state) + ": " + body;
      && (forall c :: c in text ==> !Telltale(c)) && (forall k :: !TokenColon(text, k))
  {
    var name, text := StateName(state), StateName(state) + ": " + body;
    assert forall c :: c in name ==> !Telltale(c) && c != ':';
    forall k: nat | k < |text| ensures !Telltale(text[k]) && (text[k] == ':' ==> k == |name|) {
      if k < |name| { assert text[k] == name[k] && name[k] in name; }
      else if k >= |name| + 2 { assert text[k] == body[k - |name| - 2]; assert text[k] in body; }
    }
    assert text[|name| + 1] == ' ';
  }

  /** The fixed text passes exactly in the states ANSWER, ASK and ABSTAIN, the
      latter two unless it happens to contain the name of a bundled product. */
  lemma FallbackPassesExactlyWhen(state: DecisionState, bundles: seq<Bundle>, relations: seq<RelationItem>)
    ensures Acceptable(SafeFallback(state), state, bundles, relations) <==>
              !state.PRE_ANSWER? && (Silent(state) ==> forall b :: b in bundles ==> !NameShown(b, SafeFallback(state)))
  {
    AnswerBodyIsHarmless();
    AskBodyIsHarmless();
    AbstainBodyIsHarmless();
    match state
    case ANSWER => HarmlessText(state, ANSWER_BODY);
    case ASK => HarmlessText(state, ASK_BODY);
    case ABSTAIN => HarmlessText(state, ABSTAIN_BODY);
    case PRE_ANSWER =>
      var text := SafeFallback(state);
      assert text[0] == 'A' && LStrip(text) == text;
  }

  /** No fixed text contains a uid-like token. */
  lemma FallbackHasNoTokens(state: DecisionState)
    ensures Tokens(SafeFallback(state)) == []
  {
    AnswerBodyIsHarmless();
    AskBodyIsHarmless();
    AbstainBodyIsHarmless();
    match state
    case ANSWER => HarmlessText(ANSWER, ANSWER_BODY);
    case ASK => HarmlessText(ASK, ASK_BODY);
    case _ => HarmlessText(ABSTAIN, ABSTAIN_BODY);
  }
}
