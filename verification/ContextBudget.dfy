/** The default budget of the context can be exceeded: eight relations with long
    links for which the code returns more than 8000 bytes. */
module ContextBudget {
  import opened Text
  import opened ResultMerger
  import opened EvidenceBuilder
  import opened ContextSerializer

  // Eight subsidiaries of one company, each with its document.
  const SUBSIDIARIES := "ABCDEFGH"

  function Subsidiary(link: string, sha: string): char -> RelationEvidence {
    (c: char) =>
      RelationEvidence("SUBSIDIARY_OF", "company:" + [c], "company:Z", "doc-" + [c], "title", "publisher", Some(link), sha, None, None)
  }

  // ---- The bytes of one line ----

  lemma {:induction false} PlainIsNotEscaped(s: string)
    requires Plain(s)
    ensures Escape(s) == s
  {
    EscapeIsOnePass(s);
    if s != "" {
      PlainIsNotEscaped(s[1..]);
      EscapeIsOnePass(s[1..]);
    }
  }

  lemma JoinFrom(a: string, more: seq<string>)
    requires more != [] && Ascii(a) && Ascii(Join("|", more))
    ensures Ascii(Join("|", [a] + more)) && |Join("|", [a] + more)| == |a| + 1 + |Join("|", more)|
  {
    assert ([a] + more)[1..] == more;
  }

  lemma JoinSix(a: string, b: string, c: string, d: string, e: string, f: string)
    requires Ascii(a) && Ascii(b) && Ascii(c) && Ascii(d) && Ascii(e) && Ascii(f)
    ensures var s := Join("|", [a, b, c, d, e, f]); Ascii(s) && |s| == |a| + |b| + |c| + |d| + |e| + |f| + 5
  {
    assert [e] + [f] == [e, f] && [d] + [e, f] == [d, e, f] && [c] + [d, e, f] == [c, d, e, f];
    assert [b] + [c, d, e, f] == [b, c, d, e, f] && [a] + [b, c, d, e, f] == [a, b, c, d, e, f];
    JoinFrom(e, [f]);
    JoinFrom(d, [e, f]);
    JoinFrom(c, [d, e, f]);
    JoinFrom(b, [c, d, e, f]);
    JoinFrom(a, [b, c, d, e, f]);
  }

  predicate Plain(s: string) {
    forall i :: 0 <= i < |s| ==> s[i] !in "|\n;"
  }

  // An item whose texts take one byte a character and need no escape.
  predicate Simple(r: RelationItem) {
    && Ascii(r.relationType) && Ascii(r.subject) && Ascii(r.object_) && Ascii(r.documentId) && Ascii(r.title) && Ascii(r.publisher)
    && Plain(r.subject) && Plain(r.object_) && Plain(r.title) && Plain(r.publisher)
    && r.url.Some? && r.url.value != "" && Ascii(r.url.value) && Ascii(r.sha) && r.asOf.None?
  }

  function Characters(r: RelationItem): nat
    requires r.url.Some?
  {
    |r.relationType| + |r.subject| + |r.object_| + |r.documentId| + |r.title| + |r.publisher| + |r.url.value| + |r.sha|
  }

  lemma DocBytes(r: RelationItem)
    requires Simple(r)
    ensures Ascii(RelationDoc(r)) && |RelationDoc(r)| == |r.documentId| + |r.title| + |r.publisher| + |r.url.value| + |r.sha| + 9
  {
    PlainIsNotEscaped(r.title);
    PlainIsNotEscaped(r.publisher);
    JoinSix(r.documentId, r.title, r.publisher, "none", r.url.value, r.sha);
  }

  lemma Labelled(before: string, tag: string, value: string)
    requires Ascii(before) && Ascii(tag) && Ascii(value)
    ensures Ascii(before + tag + value) && |before + tag + value| == |before| + |tag| + |value|
  {
    AsciiAppend(before, tag);
    AsciiAppend(before + tag, value);
  }

  lemma Tags()
    ensures Ascii("[RELATION") && Ascii("|type=") && Ascii("|subject=") && Ascii("|object=") && Ascii("]") && Ascii("\nsource_docs=")
  {
  }

  lemma LineBytes(r: RelationItem)
    requires Simple(r)
    ensures Utf8Length(RelationLine(r)) == Characters(r) + 55
  {
    Tags();
    PlainIsNotEscaped(r.subject);
    PlainIsNotEscaped(r.object_);
    DocBytes(r);
    var typed := "[RELATION" + "|type=" + r.relationType;
    Labelled("[RELATION", "|type=", r.relationType);
    Labelled(typed, "|subject=", r.subject);
    Labelled(typed + "|subject=" + r.subject, "|object=", r.object_);
    AsciiAppend(typed + "|subject=" + r.subject + "|object=" + r.object_, "]");
    Labelled(typed + "|subject=" + r.subject + "|object=" + r.object_ + "]", "\nsource_docs=", RelationDoc(r));
    AsciiBytes(RelationLine(r));
  }

  // ---- Lines of equal length ----

  lemma {:induction false} EqualLines(lines: seq<string>)
    requires lines != [] && forall i :: 0 <= i < |lines| ==> Utf8Length(lines[i]) == 1142
    ensures Utf8Length(Join("\n", lines)) == 1143 * |lines| - 1
  {
    if |lines| == 1 {
      assert Join("\n", lines) == lines[0];
    } else {
      var n := |lines| - 1;
      assert lines == lines[..n] + [lines[n]];
      EqualLines(lines[..n]);
      JoinAppend("\n", lines[..n], lines[n]);
      NextLineBytes(Join("\n", lines[..n]), lines[n]);
    }
  }

  lemma SevenFit(lines: seq<string>, j: nat)
    requires |lines| == 8 && 1 <= j <= 8 && forall i :: 0 <= i < 8 ==> Utf8Length(lines[i]) == 1142
    ensures Fits(lines[..j], CHAR_BUDGET) <==> j <= 7
    ensures j == 7 ==> Utf8Length(Join("\n", lines[..j])) == CHAR_BUDGET
  {
    EqualLines(lines[..j]);
  }

  ghost predicate EightLines(items: seq<RelationItem>) {
    |items| == 8 && forall i :: 0 <= i < 8 ==> Utf8Length(RelationLine(items[i])) == 1142
  }

  lemma SevenAreTaken(items: seq<RelationItem>)
    requires EightLines(items)
    ensures |Content([], items, CHAR_BUDGET)| == 7 && Utf8Length(Join("\n", Content([], items, CHAR_BUDGET))) == CHAR_BUDGET
  {
    var lines, content := Mapped(items, RelationLine), Content([], items, CHAR_BUDGET);
    SortedLength([]);
    ContentIsLongestPrefix([], items, CHAR_BUDGET);
    assert [] + lines[..7] == lines[..7] && [] + lines[..8] == lines[..8];
    SevenFit(lines, 7);
    SevenFit(lines, 8);
    assert content == [] + lines[..|content|];
  }

  lemma OneIsCut(items: seq<RelationItem>)
    requires EightLines(items)
    ensures Utf8Length(Context([], items, CHAR_BUDGET)) == 8049
  {
    SevenAreTaken(items);
    SortedLength([]);
    NothingIsCutExactlyWhen([], items, CHAR_BUDGET);
    ContextIsWholeOrCut([], items, CHAR_BUDGET);
    assert |Offered([], items)| == 8;
    MetaBytes(0, 7);
    NextLineBytes(Join("\n", Content([], items, CHAR_BUDGET)), TruncatedMeta(0, 7));
  }

  lemma ShortTexts(c: char)
    requires 'A' <= c <= 'Z'
    ensures Ascii("company:" + [c]) && Plain("company:" + [c]) && Ascii("doc-" + [c])
  {
  }

  lemma FixedTexts()
    ensures Ascii("SUBSIDIARY_OF") && Ascii("company:Z") && Plain("company:Z")
    ensures Ascii("title") && Plain("title") && Ascii("publisher") && Plain("publisher")
  {
  }

  lemma SubsidiaryBytes(link: string, sha: string, c: char)
    requires 'A' <= c <= 'Z' && Ascii(link) && Ascii(sha) && |link| == 973 && |sha| == 64
    ensures Utf8Length(RelationLine(ToItem(Subsidiary(link, sha)(c)))) == 1142
  {
    ShortTexts(c);
    FixedTexts();
    LineBytes(ToItem(Subsidiary(link, sha)(c)));
  }

  lemma LongLink() returns (link: string)
    ensures Ascii(link) && |link| == 973
  {
    var path := seq(953, _ => 'x');
    AsciiAppend("https://example.com/", path);
    link := "https://example.com/" + path;
  }

  /** Eight relations whose context is larger than the default budget: the links
      are shorter than the 1024 characters a document's may have, and a query
      returns up to ten relations. */
  lemma DefaultBudgetIsExceeded() returns (relations: seq<RelationEvidence>)
    ensures |relations| == 8 && forall i :: 0 <= i < 8 ==> relations[i].url.Some? && |relations[i].url.value| == 973
    ensures Utf8Length(Context([], RelationItems(relations), CHAR_BUDGET)) == 8049
  {
    var link := LongLink();
    var sha := seq(64, _ => 'a');
    relations := Mapped(SUBSIDIARIES, Subsidiary(link, sha));
    var items := RelationItems(relations);
    forall i | 0 <= i < 8 ensures Utf8Length(RelationLine(items[i])) == 1142 {
      SubsidiaryBytes(link, sha, SUBSIDIARIES[i]);
    }
    OneIsCut(items);
  }
}
