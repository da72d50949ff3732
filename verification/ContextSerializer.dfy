/** serialize_retrieved_context: the evidence text an answer is phrased from,
    cut to a byte budget. */
module ContextSerializer {
  import opened Text
  import opened StableSort
  import opened ResultMerger
  import opened EvidenceBuilder

  // ---- Bytes: UTF-8, section 3 of RFC 3629 ----

  function CharBytes(c: char): nat {
    if c < '\U{80}' then 1 else if c < '\U{800}' then 2 else if c < '\U{10000}' then 3 else 4
  }

  function Utf8Length(s: string): nat {
    if s == "" then 0 else CharBytes(s[0]) + Utf8Length(s[1..])
  }

  lemma {:induction false} Utf8Append(a: string, b: string)
    ensures Utf8Length(a + b) == Utf8Length(a) + Utf8Length(b)
  {
    if a == "" {
      assert a + b == b;
    } else {
      Utf8Append(a[1..], b);
      assert (a + b)[1..] == a[1..] + b;
    }
  }

  // ---- Escaping ----

  // value.replace(c, r) for a single character c
  function Replace(s: string, c: char, r: string): string {
    if s == "" then "" else (if s[0] == c then r else [s[0]]) + Replace(s[1..], c, r)
  }

  // _escape
  function Escape(value: string): string {
    Replace(Replace(Replace(value, '|', "\\|"), '\n', "\\n"), ';', "\\;")
  }

  // ---- One bundle ----

  // `x or default`, for an optional string
  function OrElse(x: Option<string>, default: string): string {
    if x.Some? && x.value != "" then x.value else default
  }

  function JoinOr(sep: string, parts: seq<string>, default: string): string {
    if parts == [] then default else Join(sep, parts)
  }

  function FieldPart(f: EvidenceField): string {
    f.field + "(" + f.sourceField + "):" + f.value + OrElse(f.unit, "")
      + ":as_of=" + OrElse(f.asOf, "none") + ":quality=" + JoinOr(",", f.flags, "none")
  }

  function RelationDoc(r: RelationItem): string {
    Join("|", [r.documentId, Escape(r.title), Escape(r.publisher), OrElse(r.asOf, "none"), OrElse(r.url, "none"), r.sha])
  }

  function DocumentDoc(d: DocumentEvidence): string {
    Join("|", [d.documentId, Escape(d.title), Escape(d.publisher), "none", OrElse(d.url, "none"), d.sha])
  }

  function Header(b: Bundle): string {
    "[" + b.sourceTable + "|key=" + Escape(b.sourceKey) + "|uid=" + b.uid + "|name=" + Escape(OrElse(b.name, "")) + "]"
  }

  function SourceDocs(b: Bundle): string {
    JoinOr(";", Mapped(b.relations, RelationDoc) + Mapped(b.documents, DocumentDoc), "none")
  }

  function BundleLine(b: Bundle): string {
    var quality := Join(",", b.flags);
    Header(b) + "\nfields=" + JoinOr(";", Mapped(b.fields, FieldPart), "none")
      + ";\nquality=" + (if quality == "" then "none" else quality)
      + ";\nreason=" + JoinOr(",", b.reasons, "none")
      + ";\nsource_docs=" + SourceDocs(b)
  }

  function RelationLine(r: RelationItem): string {
    "[RELATION" + "|type=" + r.relationType + "|subject=" + Escape(r.subject) + "|object=" + Escape(r.object_) + "]"
      + "\nsource_docs=" + RelationDoc(r)
  }

  method SerializeSourceDocs(b: Bundle) returns (text: string)
    ensures text == SourceDocs(b)
  {
    var docs: seq<string> := [];
    for i := 0 to |b.relations|
      invariant docs == Mapped(b.relations[..i], RelationDoc)
    {
      docs := docs + [RelationDoc(b.relations[i])];
    }
    assert b.relations[..|b.relations|] == b.relations;
    for i := 0 to |b.documents|
      invariant docs == Mapped(b.relations, RelationDoc) + Mapped(b.documents[..i], DocumentDoc)
    {
      docs := docs + [DocumentDoc(b.documents[i])];
    }
    assert b.documents[..|b.documents|] == b.documents;
    text := if docs != [] then Join(";", docs) else "none";
  }

  method SerializeBundle(b: Bundle) returns (line: string)
    ensures line == BundleLine(b)
  {
    var parts: seq<string> := [];
    for i := 0 to |b.fields|
      invariant parts == Mapped(b.fields[..i], FieldPart)
    {
      parts := parts + [FieldPart(b.fields[i])];
    }
    assert b.fields[..|b.fields|] == b.fields;
    var fields := if parts != [] then Join(";", parts) else "none";
    var reasons := if b.reasons != [] then Join(",", b.reasons) else "none";
    var docs := SerializeSourceDocs(b);
    var joined := Join(",", b.flags);
    var quality := if joined != "" then joined else "none";
    line := Header(b) + "\nfields=" + fields + ";\nquality=" + quality + ";\nreason=" + reasons + ";\nsource_docs=" + docs;
  }

  // ---- The budget ----

  // The default of char_budget, which counts bytes.
  const CHAR_BUDGET := 8000

  predicate Fits(lines: seq<string>, budget: int) {
    Utf8Length(Join("\n", lines)) <= budget
  }

  // The lines after trying `more` in turn, stopping at the first that does not fit.
  function Greedy(lines: seq<string>, more: seq<string>, budget: int): (r: seq<string>)
    ensures |lines| <= |r| <= |lines| + |more|
    decreases |more|
  {
    if more == [] || !Fits(lines + [more[0]], budget) then lines else Greedy(lines + [more[0]], more[1..], budget)
  }

  lemma JoinGrows(sep: string, lines: seq<string>, x: string)
    ensures Utf8Length(Join(sep, lines)) <= Utf8Length(Join(sep, lines + [x]))
  {
    JoinAppend(sep, lines, x);
    if lines != [] {
      Utf8Append(Join(sep, lines) + sep, x);
      Utf8Append(Join(sep, lines), sep);
    }
  }

  lemma {:induction false} LongerDoesNotFit(lines: seq<string>, more: seq<string>, budget: int)
    requires !Fits(lines, budget)
    ensures !Fits(lines + more, budget)
    decreases |more|
  {
    if more == [] {
      assert lines + more == lines;
    } else {
      JoinGrows("\n", lines, more[0]);
      LongerDoesNotFit(lines + [more[0]], more[1..], budget);
      assert lines + [more[0]] + more[1..] == lines + more;
    }
  }

  ghost predicate LongestPrefix(result: seq<string>, lines: seq<string>, more: seq<string>, budget: int) {
    var k := |result| - |lines|;
    && 0 <= k <= |more| && result == lines + more[..k]
    && forall j :: 1 <= j <= |more| ==> (Fits(lines + more[..j], budget) <==> j <= k)
  }

  /** Greedy inclusion takes the longest prefix that fits: a prefix fits exactly
      when it is no longer than what was taken. */
  lemma {:induction false} GreedyIsLongestPrefix(lines: seq<string>, more: seq<string>, budget: int)
    ensures LongestPrefix(Greedy(lines, more, budget), lines, more, budget)
    decreases |more|
  {
    var result := Greedy(lines, more, budget);
    if more == [] {
      assert lines + more[..0] == lines;
    } else if !Fits(lines + [more[0]], budget) {
      assert lines + more[..0] == lines;
      forall j | 1 <= j <= |more| ensures !Fits(lines + more[..j], budget) {
        LongerDoesNotFit(lines + [more[0]], more[1..j], budget);
        assert lines + [more[0]] + more[1..j] == lines + more[..j];
      }
    } else {
      GreedyIsLongestPrefix(lines + [more[0]], more[1..], budget);
      GreedyStep(lines, more, budget);
    }
  }

  lemma PrefixShift(lines: seq<string>, more: seq<string>, j: nat)
    requires 1 <= j <= |more|
    ensures (lines + [more[0]]) + more[1..][..j - 1] == lines + more[..j]
  {
  }

  lemma GreedyStep(lines: seq<string>, more: seq<string>, budget: int)
    requires more != [] && Fits(lines + [more[0]], budget)
    requires LongestPrefix(Greedy(lines + [more[0]], more[1..], budget), lines + [more[0]], more[1..], budget)
    ensures LongestPrefix(Greedy(lines, more, budget), lines, more, budget)
  {
    var k := |Greedy(lines, more, budget)| - |lines|;
    PrefixShift(lines, more, k);
    forall j | 1 <= j <= |more| ensures Fits(lines + more[..j], budget) <==> j <= k {
      PrefixShift(lines, more, j);
      if j == 1 {
        assert more[1..][..0] == [] && lines + [more[0]] + [] == lines + [more[0]];
      }
    }
  }

  // ---- The context ----

  function UidKey(): Bundle -> string {
    (b: Bundle) => b.uid
  }

  const BY_UID: (string, string) -> bool := (a, b) => StringLe(a, b)

  function SortedBundles(bundles: seq<Bundle>): (r: seq<Bundle>)
  {
    Items(Sort(Keyed(bundles, UidKey()), BY_UID))
  }

  function TruncatedMeta(original: nat, included: nat): string {
    "meta=truncated;original_count=" + Digits(original) + ";included_count=" + Digits(included)
  }

  const EMPTY_META := "meta=empty;original_count=0"

  function BundleLines(bundles: seq<Bundle>): seq<string> {
    Mapped(SortedBundles(bundles), BundleLine)
  }

  function Content(bundles: seq<Bundle>, relations: seq<RelationItem>, budget: int): seq<string> {
    Greedy(Greedy([], BundleLines(bundles), budget), Mapped(relations, RelationLine), budget)
  }

  function WithMeta(content: seq<string>, original: nat, offered: nat): seq<string> {
    if |content| < offered then content + [TruncatedMeta(original, |content|)]
    else if content == [] then [EMPTY_META]
    else content
  }

  function Context(bundles: seq<Bundle>, relations: seq<RelationItem>, budget: int): string {
    Join("\n", WithMeta(Content(bundles, relations, budget), |bundles|, |bundles| + |relations|))
  }

  lemma SortedLength(bundles: seq<Bundle>)
    ensures |SortedBundles(bundles)| == |bundles|
  {
    StringOrder();
    SortOrdered(Keyed(bundles, UidKey()), BY_UID);
  }

  /** The bundles are written in the order of their uids, each once. */
  lemma BundlesInUidOrder(bundles: seq<Bundle>)
    ensures multiset(SortedBundles(bundles)) == multiset(bundles)
    ensures forall i, j :: 0 <= i < j < |bundles| ==> |SortedBundles(bundles)| == |bundles| && StringLe(SortedBundles(bundles)[i].uid, SortedBundles(bundles)[j].uid)
  {
    var pairs := Keyed(bundles, UidKey());
    var sorted := Sort(pairs, BY_UID);
    StringOrder();
    SortOrdered(pairs, BY_UID);
    ItemsPermute(sorted, pairs);
    assert Items(pairs) == bundles;
    forall i | 0 <= i < |sorted| ensures sorted[i].0 == sorted[i].1.uid {
      assert sorted[i] in multiset(sorted);
      var k :| 0 <= k < |pairs| && pairs[k] == sorted[i];
    }
    forall i, j | 0 <= i < j < |bundles| ensures StringLe(sorted[i].1.uid, sorted[j].1.uid) {
      assert BY_UID(sorted[i].0, sorted[j].0);
    }
  }

  method AppendBundles(ordered: seq<Bundle>, budget: int) returns (lines: seq<string>, truncated: bool)
    ensures lines == Greedy([], Mapped(ordered, BundleLine), budget)
    ensures truncated <==> |lines| < |ordered|
  {
    lines, truncated := [], false;
    ghost var more := Mapped(ordered, BundleLine);
    for i := 0 to |ordered|
      invariant |lines| == i && Greedy([], more, budget) == Greedy(lines, more[i..], budget)
    {
      var line := SerializeBundle(ordered[i]);
      if Utf8Length(Join("\n", lines + [line])) > budget {
        return lines, true;
      }
      assert more[i..][1..] == more[i + 1..];
      lines := lines + [line];
    }
  }

  method AppendRelations(before: seq<string>, relations: seq<RelationItem>, budget: int) returns (lines: seq<string>, truncated: bool)
    ensures lines == Greedy(before, Mapped(relations, RelationLine), budget)
    ensures truncated <==> |lines| < |before| + |relations|
  {
    lines, truncated := before, false;
    ghost var more := Mapped(relations, RelationLine);
    for i := 0 to |relations|
      invariant |lines| == |before| + i && Greedy(before, more, budget) == Greedy(lines, more[i..], budget)
    {
      var line := RelationLine(relations[i]);
      if Utf8Length(Join("\n", lines + [line])) > budget {
        return lines, true;
      }
      assert more[i..][1..] == more[i + 1..];
      lines := lines + [line];
    }
  }

  method SerializeRetrievedContext(bundles: seq<Bundle>, relations: seq<RelationItem>, budget: int) returns (text: string)
    ensures text == Context(bundles, relations, budget)
  {
    SortedLength(bundles);
    var lines, truncated := AppendBundles(SortedBundles(bundles), budget);
    var relationsTruncated;
    lines, relationsTruncated := AppendRelations(lines, relations, budget);
    truncated := truncated || relationsTruncated;
    if truncated {
      lines := lines + [TruncatedMeta(|bundles|, |lines|)];
    } else if lines == [] {
      lines := lines + [EMPTY_META];
    }
    text := Join("\n", lines);
  }

  // ---- Properties ----

  /** The bundles in the context are the longest prefix, in uid order, that fits
      the budget; the relations are the longest prefix that fits behind them. */
  lemma ContentIsLongestPrefix(bundles: seq<Bundle>, relations: seq<RelationItem>, budget: int)
    ensures var included := Greedy([], BundleLines(bundles), budget);
      && LongestPrefix(included, [], BundleLines(bundles), budget)
      && LongestPrefix(Content(bundles, relations, budget), included, Mapped(relations, RelationLine), budget)
  {
    GreedyIsLongestPrefix([], BundleLines(bundles), budget);
    GreedyIsLongestPrefix(Greedy([], BundleLines(bundles), budget), Mapped(relations, RelationLine), budget);
  }

  /** What precedes the meta line never exceeds the budget. */
  lemma {:induction false} GreedyFits(lines: seq<string>, more: seq<string>, budget: int)
    requires lines == [] || Fits(lines, budget)
    ensures Greedy(lines, more, budget) == [] || Fits(Greedy(lines, more, budget), budget)
    decreases |more|
  {
    if more != [] && Fits(lines + [more[0]], budget) {
      GreedyFits(lines + [more[0]], more[1..], budget);
    }
  }

  lemma ContentWithinBudget(bundles: seq<Bundle>, relations: seq<RelationItem>, budget: nat)
    ensures Utf8Length(Join("\n", Content(bundles, relations, budget))) <= budget
  {
    GreedyFits([], BundleLines(bundles), budget);
    GreedyFits(Greedy([], BundleLines(bundles), budget), Mapped(relations, RelationLine), budget);
  }

  /** The context does not depend on the order of bundles with distinct uids. */
  lemma BundleOrderIrrelevant(a: seq<Bundle>, b: seq<Bundle>, relations: seq<RelationItem>, budget: int)
    requires multiset(a) == multiset(b)
    requires forall i, j :: 0 <= i < j < |a| ==> a[i].uid != a[j].uid
    ensures Context(a, relations, budget) == Context(b, relations, budget)
  {
    StringOrder();
    DistinctByIndex(Keyed(a, UidKey()));
    KeyedPermutes(a, b, UidKey());
    SortIgnoresOrder(Keyed(a, UidKey()), Keyed(b, UidKey()), BY_UID);
    SameLength(a, b);
  }

  lemma JoinStart(sep: string, lines: seq<string>)
    requires lines != [] && lines[0] != ""
    ensures |Join(sep, lines)| > 0 && Join(sep, lines)[0] == lines[0][0]
  {
  }

  lemma MetaOf(content: seq<string>, original: nat, offered: nat)
    requires |content| <= offered
    requires content != [] ==> content[0] != "" && content[0][0] == '['
    ensures Join("\n", WithMeta(content, original, offered)) == EMPTY_META <==> offered == 0
  {
    if content != [] {
      JoinStart("\n", WithMeta(content, original, offered));
    } else if offered > 0 {
      assert Join("\n", WithMeta(content, original, offered)) == TruncatedMeta(original, 0);
      assert TruncatedMeta(original, 0)[5] == 't' && EMPTY_META[5] == 'e';
    }
  }

  /** The empty context is exactly that of no bundle and no relation. */
  lemma EmptyContextExactlyWhen(bundles: seq<Bundle>, relations: seq<RelationItem>, budget: int)
    ensures Context(bundles, relations, budget) == EMPTY_META <==> bundles == [] && relations == []
  {
    SortedLength(bundles);
    if Content(bundles, relations, budget) != [] {
      FirstLine(bundles, relations, budget);
    }
    MetaOf(Content(bundles, relations, budget), |bundles|, |bundles| + |relations|);
  }

  lemma FirstLine(bundles: seq<Bundle>, relations: seq<RelationItem>, budget: int)
    requires Content(bundles, relations, budget) != []
    ensures |Content(bundles, relations, budget)[0]| > 0 && Content(bundles, relations, budget)[0][0] == '['
  {
    ContentIsLongestPrefix(bundles, relations, budget);
    var included := Greedy([], BundleLines(bundles), budget);
    if included != [] {
      assert included[0] == BundleLine(SortedBundles(bundles)[0]);
    } else {
      assert Content(bundles, relations, budget)[0] == RelationLine(relations[0]);
    }
  }

  lemma GreedyIsPrefix(lines: seq<string>, more: seq<string>, budget: int) returns (k: nat)
    ensures k <= |more| && Greedy(lines, more, budget) == lines + more[..k]
  {
    GreedyIsLongestPrefix(lines, more, budget);
    k := |Greedy(lines, more, budget)| - |lines|;
  }

  /** The content is the first i bundle lines and the first j relation lines. */
  lemma ContentIsBundlesThenRelations(bundles: seq<Bundle>, relations: seq<RelationItem>, budget: int) returns (i: nat, j: nat)
    ensures |BundleLines(bundles)| == |bundles| && i <= |bundles| && j <= |relations|
    ensures Content(bundles, relations, budget) == BundleLines(bundles)[..i] + Mapped(relations, RelationLine)[..j]
  {
    SortedLength(bundles);
    i := GreedyIsPrefix([], BundleLines(bundles), budget);
    assert [] + BundleLines(bundles)[..i] == BundleLines(bundles)[..i];
    j := GreedyIsPrefix(BundleLines(bundles)[..i], Mapped(relations, RelationLine), budget);
  }

  // Every line that is offered, bundles before relations.
  function Offered(bundles: seq<Bundle>, relations: seq<RelationItem>): seq<string> {
    BundleLines(bundles) + Mapped(relations, RelationLine)
  }

  lemma PrefixFits(lines: seq<string>, more: seq<string>, j: nat, budget: int)
    requires j <= |more| && Fits(lines + more, budget)
    ensures Fits(lines + more[..j], budget)
  {
    assert lines + more[..j] + more[j..] == lines + more;
    if !Fits(lines + more[..j], budget) {
      LongerDoesNotFit(lines + more[..j], more[j..], budget);
    }
  }

  lemma GreedyTakesAll(lines: seq<string>, more: seq<string>, budget: int)
    requires Fits(lines + more, budget)
    ensures Greedy(lines, more, budget) == lines + more
  {
    GreedyIsLongestPrefix(lines, more, budget);
    if more != [] {
      assert more[..|more|] == more;
    } else {
      assert lines + more == lines;
    }
  }

  /** Nothing is cut exactly when everything offered fits the budget together. */
  lemma NothingIsCutExactlyWhen(bundles: seq<Bundle>, relations: seq<RelationItem>, budget: int)
    ensures Content(bundles, relations, budget) == Offered(bundles, relations) <==>
              Offered(bundles, relations) == [] || Fits(Offered(bundles, relations), budget)
  {
    var more, rest := BundleLines(bundles), Mapped(relations, RelationLine);
    if Fits(more + rest, budget) {
      PrefixFits(more, rest, 0, budget);
      assert more + rest[..0] == more && [] + more == more;
      GreedyTakesAll([], more, budget);
      GreedyTakesAll(more, rest, budget);
    }
    GreedyFits([], more, budget);
    GreedyFits(Greedy([], more, budget), rest, budget);
  }

  function CutMeta(bundles: seq<Bundle>, relations: seq<RelationItem>, budget: int): string {
    TruncatedMeta(|bundles|, |Content(bundles, relations, budget)|)
  }

  /** The whole context: everything offered when it fits, else the content that
      does and one line with the counts of what was offered and taken. */
  lemma ContextIsWholeOrCut(bundles: seq<Bundle>, relations: seq<RelationItem>, budget: int)
    ensures var all, content := Offered(bundles, relations), Content(bundles, relations, budget);
      var cut := "meta=truncated;original_count=" + Digits(|bundles|) + ";included_count=" + Digits(|content|);
      Context(bundles, relations, budget) ==
        if all == [] then "meta=empty;original_count=0"
        else if Fits(all, budget) then Join("\n", all)
        else if content == [] then cut
        else Join("\n", content) + "\n" + cut
  {
    var all, content := Offered(bundles, relations), Content(bundles, relations, budget);
    SortedLength(bundles);
    NothingIsCutExactlyWhen(bundles, relations, budget);
    var i, j := ContentIsBundlesThenRelations(bundles, relations, budget);
    if content != all {
      ShorterThanOffered(BundleLines(bundles), Mapped(relations, RelationLine), i, j, content);
      JoinAppend("\n", content, CutMeta(bundles, relations, budget));
    }
  }

  lemma ShorterThanOffered(a: seq<string>, b: seq<string>, i: nat, j: nat, content: seq<string>)
    requires i <= |a| && j <= |b| && content == a[..i] + b[..j] && content != a + b
    ensures |content| < |a| + |b|
  {
    assert a[..|a|] == a && b[..|b|] == b;
  }

  // The bytes of a context from which something is cut.
  lemma CutContextBytes(bundles: seq<Bundle>, relations: seq<RelationItem>, budget: nat)
    requires (bundles != [] || relations != []) && !Fits(Offered(bundles, relations), budget)
    ensures var content := Content(bundles, relations, budget);
      Utf8Length(Context(bundles, relations, budget)) ==
        Utf8Length(Join("\n", content)) + (if content == [] then 0 else 1) + Utf8Length(CutMeta(bundles, relations, budget))
  {
    SortedLength(bundles);
    ContextIsWholeOrCut(bundles, relations, budget);
    NextLineBytes(Join("\n", Content(bundles, relations, budget)), CutMeta(bundles, relations, budget));
  }

  lemma WholeContextFits(bundles: seq<Bundle>, relations: seq<RelationItem>, budget: nat)
    requires (bundles != [] || relations != []) && Fits(Offered(bundles, relations), budget)
    ensures Utf8Length(Context(bundles, relations, budget)) <= budget
  {
    SortedLength(bundles);
    ContextIsWholeOrCut(bundles, relations, budget);
  }

  /** The truncation line is not budgeted: a text is larger than its budget
      exactly when something was cut and the line does not fit behind the rest. */
  lemma OverBudgetExactlyWhen(bundles: seq<Bundle>, relations: seq<RelationItem>, budget: nat)
    requires bundles != [] || relations != []
    ensures var all, content := Offered(bundles, relations), Content(bundles, relations, budget);
      Utf8Length(Context(bundles, relations, budget)) > budget <==>
        && !Fits(all, budget)
        && Utf8Length(Join("\n", content)) + (if content == [] then 0 else 1) + Utf8Length(CutMeta(bundles, relations, budget)) > budget
  {
    if Fits(Offered(bundles, relations), budget) {
      WholeContextFits(bundles, relations, budget);
    } else {
      CutContextBytes(bundles, relations, budget);
    }
  }

  predicate Ascii(s: string) {
    forall i :: 0 <= i < |s| ==> s[i] < '\U{80}'
  }

  lemma {:induction false} AsciiBytes(s: string)
    requires Ascii(s)
    ensures Utf8Length(s) == |s|
  {
    if s != "" {
      AsciiBytes(s[1..]);
    }
  }

  lemma {:induction false} DigitsAreAscii(n: nat)
    ensures Ascii(Digits(n))
  {
    if n >= 10 {
      DigitsAreAscii(n / 10);
    }
  }

  lemma {:induction false} DigitsGrow(n: nat, larger: nat)
    requires n <= larger
    ensures 1 <= |Digits(n)| <= |Digits(larger)|
  {
    if larger >= 10 {
      DigitsGrow(n / 10, larger / 10);
    }
  }

  lemma AsciiAppend(a: string, b: string)
    requires Ascii(a) && Ascii(b)
    ensures Ascii(a + b)
  {
  }

  lemma MetaTexts()
    ensures Ascii("meta=truncated;original_count=") && Ascii(";included_count=")
  {
  }

  lemma MetaBytes(original: nat, included: nat)
    ensures var meta := TruncatedMeta(original, included);
      Utf8Length(meta) == |meta| == 46 + |Digits(original)| + |Digits(included)|
  {
    var start, o, i := "meta=truncated;original_count=", Digits(original), Digits(included);
    MetaTexts();
    DigitsAreAscii(original);
    DigitsAreAscii(included);
    AsciiAppend(start, o);
    AsciiAppend(start + o, ";included_count=");
    AsciiAppend(start + o + ";included_count=", i);
    AsciiBytes(TruncatedMeta(original, included));
  }

  // One more line costs its bytes and a newline.
  lemma NextLineBytes(before: string, line: string)
    ensures Utf8Length(before + "\n" + line) == Utf8Length(before) + 1 + Utf8Length(line)
  {
    Utf8Append(before + "\n", line);
    Utf8Append(before, "\n");
    assert Utf8Length("\n") == 1 by { assert "\n"[1..] == ""; }
  }

  lemma MetaAtMost(original: nat, included: nat, larger: nat)
    requires included <= larger
    ensures Utf8Length(TruncatedMeta(original, included)) <= |TruncatedMeta(original, larger)|
  {
    MetaBytes(original, included);
    MetaBytes(original, larger);
    DigitsGrow(included, larger);
  }

  /** How far a text can exceed its budget, in terms of what the caller passes:
      by one byte and a truncation line that counts everything as included.
      Without bundles and relations the text is EMPTY_META, whatever the budget. */
  lemma ExcessIsBounded(bundles: seq<Bundle>, relations: seq<RelationItem>, budget: nat)
    requires bundles != [] || relations != []
    ensures Utf8Length(Context(bundles, relations, budget)) <=
              budget + 1 + |TruncatedMeta(|bundles|, |bundles| + |relations|)|
  {
    if Fits(Offered(bundles, relations), budget) {
      WholeContextFits(bundles, relations, budget);
    } else {
      CutContextBytes(bundles, relations, budget);
      ContentWithinBudget(bundles, relations, budget);
      MetaAtMost(|bundles|, |Content(bundles, relations, budget)|, |bundles| + |relations|);
    }
  }

  // ---- What escaping keeps ----

  // _escape in one pass.
  function EscapeOnce(s: string): string {
    if s == "" then ""
    else (match s[0] case '|' => "\\|" case '\n' => "\\n" case ';' => "\\;" case c => [c]) + EscapeOnce(s[1..])
  }

  lemma {:induction false} ReplaceAppend(a: string, b: string, c: char, r: string)
    ensures Replace(a + b, c, r) == Replace(a, c, r) + Replace(b, c, r)
  {
    if a == "" {
      assert a + b == b;
    } else {
      ReplaceAppend(a[1..], b, c, r);
      assert (a + b)[1..] == a[1..] + b && (a + b)[0] == a[0];
      var head := if a[0] == c then r else [a[0]];
      assert head + (Replace(a[1..], c, r) + Replace(b, c, r)) == head + Replace(a[1..], c, r) + Replace(b, c, r);
    }
  }

  /** The three replacements do not disturb each other: they act as one pass. */
  lemma {:induction false} EscapeIsOnePass(s: string)
    ensures Escape(s) == EscapeOnce(s)
  {
    if s != "" {
      EscapeIsOnePass(s[1..]);
      EscapeFirst(s);
    }
  }

  lemma EscapeFirst(s: string)
    requires s != ""
    ensures Escape(s) == Escape([s[0]]) + Escape(s[1..])
    ensures Escape([s[0]]) == match s[0] case '|' => "\\|" case '\n' => "\\n" case ';' => "\\;" case c => [c]
  {
    var one, rest := Replace([s[0]], '|', "\\|"), Replace(s[1..], '|', "\\|");
    assert s == [s[0]] + s[1..];
    ReplaceAppend([s[0]], s[1..], '|', "\\|");
    ReplaceAppend(one, rest, '\n', "\\n");
    ReplaceAppend(Replace(one, '\n', "\\n"), Replace(rest, '\n', "\\n"), ';', "\\;");
    EscapeChar(s[0]);
  }

  lemma EscapeChar(c: char)
    ensures Escape([c]) == match c case '|' => "\\|" case '\n' => "\\n" case ';' => "\\;" case _ => [c]
  {
    assert [c][1..] == "" && "\\|"[1..] == "|" && "\\n"[1..] == "n" && "|"[1..] == "" && "n"[1..] == "";
    if c == '|' {
      assert Replace([c], '|', "\\|") == "\\|" && Replace("\\|", '\n', "\\n") == "\\|" && Replace("\\|", ';', "\\;") == "\\|";
    } else if c == '\n' {
      assert Replace([c], '|', "\\|") == [c] && Replace([c], '\n', "\\n") == "\\n" && Replace("\\n", ';', "\\;") == "\\n";
    }
  }

  // The reader's inverse: a backslash before '|', ';' or 'n' is an escape.
  function Unescape(s: string): string {
    if s == "" then ""
    else if s[0] == '\\' && |s| > 1 && s[1] in "|;n" then
      [if s[1] == 'n' then '\n' else s[1]] + Unescape(s[2..])
    else [s[0]] + Unescape(s[1..])
  }

  // Contains a backslash that is followed by an n.
  predicate BackslashN(s: string) {
    |s| >= 2 && ((s[0] == '\\' && s[1] == 'n') || BackslashN(s[1..]))
  }

  /** Escaping is undone exactly for the strings in which no backslash precedes
      an n. _escape leaves backslashes as they are, so those are read as newlines. */
  lemma EscapeRoundTripExactlyWhen(s: string)
    ensures Unescape(Escape(s)) == s <==> !BackslashN(s)
  {
    EscapeIsOnePass(s);
    OnePassRoundTrip(s);
  }

  lemma {:induction false} OnePassRoundTrip(s: string)
    ensures Unescape(EscapeOnce(s)) == s <==> !BackslashN(s)
  {
    if s != "" {
      OnePassRoundTrip(s[1..]);
      var e := EscapeOnce(s);
      assert s == [s[0]] + s[1..];
      if s[0] in "|\n;" {
        assert e[2..] == EscapeOnce(s[1..]);
      } else {
        assert e[1..] == EscapeOnce(s[1..]);
        if s[0] == '\\' && |s| > 1 {
          assert EscapeOnce(s[1..])[0] == if s[1] in "|\n;" then '\\' else s[1];
          assert e[1] == EscapeOnce(s[1..])[0];
        }
      }
    }
  }

  /** A backslash and an n come back as a newline. */
  lemma BackslashNIsLost()
    ensures Unescape(Escape("\\n")) == "\n" != "\\n"
  {
    EscapeIsOnePass("\\n");
    assert "\\n"[1..] == "n" && "n"[1..] == "" && "\\n"[2..] == "";
  }

  // Newlines written out as a backslash and an n.
  function NewlinesWritten(s: string): string {
    if s == "" then "" else (if s[0] == '\n' then "\\n" else [s[0]]) + NewlinesWritten(s[1..])
  }

  // Escaping of the separators alone, and its inverse.
  function EscapeSeparators(s: string): string {
    if s == "" then "" else (if s[0] in "|;" then ['\\', s[0]] else [s[0]]) + EscapeSeparators(s[1..])
  }

  function UnescapeSeparators(s: string): string {
    if s == "" then ""
    else if s[0] == '\\' && |s| > 1 && s[1] in "|;" then [s[1]] + UnescapeSeparators(s[2..])
    else [s[0]] + UnescapeSeparators(s[1..])
  }

  lemma {:induction false} SeparatorsRoundTrip(s: string)
    ensures UnescapeSeparators(EscapeSeparators(s)) == s
  {
    if s != "" {
      var e := EscapeSeparators(s);
      SeparatorsRoundTrip(s[1..]);
      if s[0] in "|;" {
        assert e[2..] == EscapeSeparators(s[1..]);
      } else {
        assert e[1..] == EscapeSeparators(s[1..]);
        if |s| > 1 {
          assert EscapeSeparators(s[1..])[0] == if s[1] in "|;" then '\\' else s[1];
          assert e[1] == EscapeSeparators(s[1..])[0];
        }
      }
      assert s == [s[0]] + s[1..];
    }
  }

  lemma {:induction false} EscapeInTwoSteps(s: string)
    ensures EscapeOnce(s) == EscapeSeparators(NewlinesWritten(s))
  {
    if s != "" {
      EscapeInTwoSteps(s[1..]);
      var w := NewlinesWritten(s);
      if s[0] == '\n' {
        assert w[1..][1..] == NewlinesWritten(s[1..]) && w[0] == '\\' && w[1..][0] == 'n';
        assert EscapeSeparators(w) == "\\" + ("n" + EscapeSeparators(w[1..][1..]));
      } else {
        assert w[1..] == NewlinesWritten(s[1..]);
      }
    }
  }

  /** What escaping confuses: two strings look the same in the context exactly
      when they are the same once newlines are written as backslash n. */
  lemma EscapedAlikeExactlyWhen(s: string, t: string)
    ensures Escape(s) == Escape(t) <==> NewlinesWritten(s) == NewlinesWritten(t)
  {
    EscapeIsOnePass(s);
    EscapeIsOnePass(t);
    EscapeInTwoSteps(s);
    EscapeInTwoSteps(t);
    SeparatorsRoundTrip(NewlinesWritten(s));
    SeparatorsRoundTrip(NewlinesWritten(t));
  }
}
