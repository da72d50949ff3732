/** Reading a bundle's or a relation's lines back from the context: sections,
    lists, fields and document references. */
module ContextLines {
  import opened Text
  import opened Splitting
  import opened ResultMerger
  import opened EvidenceBuilder
  import opened ContextSerializer
  import opened ContextHeader

  // The text that stands for an optional one.
  predicate Shows(x: Option<string>, default: string, text: string) {
    if x == None || x == Some("") then text == default else x == Some(text)
  }

  // The text of a list: "none" for the empty one; otherwise it reads back
  // exactly when no item holds the separator.
  predicate Lists(items: seq<string>, sep: char, text: string) {
    if items == [] then text == "none" else Pieces(text, sep) == items <==> Free(items, sep)
  }

  lemma JoinedList(items: seq<string>, sep: char)
    ensures Lists(items, sep, JoinOr([sep], items, "none"))
  {
    if items != [] { CutBackExactlyWhen(items, sep); }
  }

  // ---- A field ----

  /** A field reads back as its name and column, its value and unit, its date and
      its flags exactly when none of these holds a colon. */
  lemma FieldReadsBackExactlyWhen(f: EvidenceField) returns (unit: string, asOf: string, quality: string)
    ensures Shows(f.unit, "", unit) && Shows(f.asOf, "none", asOf) && Lists(f.flags, ',', quality)
    ensures var shown := [f.field + "(" + f.sourceField + ")", f.value + unit, "as_of=" + asOf, "quality=" + quality];
      Pieces(FieldPart(f), ':') == shown <==> Free(shown, ':')
  {
    unit, asOf, quality := OrElse(f.unit, ""), OrElse(f.asOf, "none"), JoinOr(",", f.flags, "none");
    var name, value := f.field + "(" + f.sourceField + ")", f.value + unit;
    JoinedList(f.flags, ',');
    FourByColons(name, value, asOf, quality);
    FieldText(f.field, f.sourceField, f.value, unit, asOf, quality);
    CutBackExactlyWhen([name, value, "as_of=" + asOf, "quality=" + quality], ':');
  }

  /** A time of day is no value that reads back. */
  lemma TimeDoesNotReadBack(f: EvidenceField, unit: string, asOf: string, quality: string)
    requires f.value == "2026-07-11T09:00:00"
    requires Shows(f.unit, "", unit) && Shows(f.asOf, "none", asOf) && quality == JoinOr(",", f.flags, "none")
    ensures Pieces(FieldPart(f), ':') != [f.field + "(" + f.sourceField + ")", f.value + unit, "as_of=" + asOf, "quality=" + quality]
  {
    var shown := [f.field + "(" + f.sourceField + ")", f.value + unit, "as_of=" + asOf, "quality=" + quality];
    FieldText(f.field, f.sourceField, f.value, unit, asOf, quality);
    FourByColons(shown[0], shown[1], asOf, quality);
    CutBackExactlyWhen(shown, ':');
    assert shown[1][13] == ':';
  }

  lemma FourByColons(a: string, b: string, c: string, d: string)
    ensures Join(":", [a, b, "as_of=" + c, "quality=" + d]) == a + ":" + (b + ":" + ("as_of=" + c + ":" + ("quality=" + d)))
  {
    JoinOf("as_of=" + c, ["quality=" + d], ":");
    JoinOf(b, ["as_of=" + c, "quality=" + d], ":");
    JoinOf(a, [b, "as_of=" + c, "quality=" + d], ":");
    assert [a] + [b, "as_of=" + c, "quality=" + d] == [a, b, "as_of=" + c, "quality=" + d];
    assert [b] + ["as_of=" + c, "quality=" + d] == [b, "as_of=" + c, "quality=" + d];
    assert ["as_of=" + c] + ["quality=" + d] == ["as_of=" + c, "quality=" + d];
  }

  lemma FieldText(field: string, column: string, value: string, unit: string, asOf: string, quality: string)
    ensures field + "(" + column + "):" + value + unit + ":as_of=" + asOf + ":quality=" + quality ==
            (field + "(" + column + ")") + ":" + ((value + unit) + ":" + ("as_of=" + asOf + ":" + ("quality=" + quality)))
  {
    assert "):" == ")" + ":" && ":as_of=" == ":" + "as_of=" && ":quality=" == ":" + "quality=";
  }

  // ---- A document reference ----

  // Its six parts read back exactly when the unescaped ones hold no separator
  // and no bar stands behind a backslash.
  ghost predicate ReadsBack(text: string, id: string, title: string, publisher: string, asOf: string, url: string, sha: string) {
    Parts(text, '|') == [id, Escape(title), Escape(publisher), asOf, url, sha] <==>
      && OnePart(id, '|') && OnePart(asOf, '|') && OnePart(url, '|') && OnePart(sha, '|')
      && !EndsInBackslash(id) && !EndsInBackslash(title) && !EndsInBackslash(publisher) && !EndsInBackslash(asOf) && !EndsInBackslash(url)
  }

  lemma SixPartsReadBack(id: string, title: string, publisher: string, asOf: string, url: string, sha: string)
    ensures ReadsBack(Join("|", [id, Escape(title), Escape(publisher), asOf, url, sha]), id, title, publisher, asOf, url, sha)
  {
    var parts := [id, Escape(title), Escape(publisher), asOf, url, sha];
    EscapeIsOnePass(title);
    EscapeIsOnePass(publisher);
    EscapedIsOnePart(title, '|');
    EscapedIsOnePart(publisher, '|');
    PartsBackExactlyWhen(parts, '|');
    assert parts[0] == id && parts[1] == Escape(title) && parts[2] == Escape(publisher) && parts[3] == asOf && parts[4] == url && parts[5] == sha;
  }

  lemma RelationDocReadsBackExactlyWhen(r: RelationItem) returns (asOf: string, url: string)
    ensures Shows(r.asOf, "none", asOf) && Shows(r.url, "none", url)
    ensures ReadsBack(RelationDoc(r), r.documentId, r.title, r.publisher, asOf, url, r.sha)
  {
    asOf, url := OrElse(r.asOf, "none"), OrElse(r.url, "none");
    SixPartsReadBack(r.documentId, r.title, r.publisher, asOf, url, r.sha);
  }

  lemma DocumentDocReadsBackExactlyWhen(d: DocumentEvidence) returns (url: string)
    ensures Shows(d.url, "none", url)
    ensures ReadsBack(DocumentDoc(d), d.documentId, d.title, d.publisher, "none", url, d.sha)
  {
    url := OrElse(d.url, "none");
    SixPartsReadBack(d.documentId, d.title, d.publisher, "none", url, d.sha);
  }

  // ---- The sections of a bundle's line ----

  // A list of texts that may hold escaped separators.
  ghost predicate ListsEscaped(items: seq<string>, sep: char, text: string) {
    if items == [] then text == "none"
    else
      Parts(text, sep) == items <==>
        (forall i :: 0 <= i < |items| ==> OnePart(items[i], sep)) && forall i :: 0 <= i < |items| - 1 ==> !EndsInBackslash(items[i])
  }

  lemma JoinedEscapedList(items: seq<string>, sep: char)
    requires sep != '\\'
    ensures ListsEscaped(items, sep, JoinOr([sep], items, "none"))
  {
    if items != [] { PartsBackExactlyWhen(items, sep); }
  }

  // The flags of a bundle, of which the empty text is none as well.
  predicate ListsFlags(flags: seq<string>, text: string) {
    if flags == [] || flags == [""] then text == "none" else Pieces(text, ',') == flags <==> Free(flags, ',')
  }

  lemma JoinedFlags(flags: seq<string>)
    ensures ListsFlags(flags, if Join(",", flags) == "" then "none" else Join(",", flags))
  {
    if flags != [] {
      CutBackExactlyWhen(flags, ',');
      if |flags| > 1 { JoinOf(flags[0], flags[1..], ","); assert [flags[0]] + flags[1..] == flags; }
    }
  }

  // The references of a bundle: its relations' documents, then its own.
  predicate References(b: Bundle, docs: seq<string>) {
    && |docs| == |b.relations| + |b.documents|
    && (forall i :: 0 <= i < |b.relations| ==> docs[i] == RelationDoc(b.relations[i]))
    && (forall i :: 0 <= i < |b.documents| ==> docs[|b.relations| + i] == DocumentDoc(b.documents[i]))
  }

  predicate FieldTexts(b: Bundle, texts: seq<string>) {
    |texts| == |b.fields| && forall i :: 0 <= i < |texts| ==> texts[i] == FieldPart(b.fields[i])
  }

  // Header, fields, flags, reasons and references, each on a line of its own.
  function Sections(header: string, fields: string, quality: string, reason: string, docs: string): seq<string> {
    [header, "fields=" + fields + ";", "quality=" + quality + ";", "reason=" + reason + ";", "source_docs=" + docs]
  }

  lemma JoinFive(a: string, b: string, c: string, d: string, e: string)
    ensures Join("\n", [a, b, c, d, e]) == a + "\n" + (b + "\n" + (c + "\n" + (d + "\n" + e)))
  {
    JoinOf(d, [e], "\n");
    JoinOf(c, [d, e], "\n");
    JoinOf(b, [c, d, e], "\n");
    JoinOf(a, [b, c, d, e], "\n");
    assert [a] + [b, c, d, e] == [a, b, c, d, e] && [b] + [c, d, e] == [b, c, d, e] && [c] + [d, e] == [c, d, e] && [d] + [e] == [d, e];
  }

  lemma LineText(h: string, f: string, q: string, r: string, d: string)
    ensures h + "\nfields=" + f + ";\nquality=" + q + ";\nreason=" + r + ";\nsource_docs=" + d ==
            h + "\n" + ("fields=" + f + ";" + "\n" + ("quality=" + q + ";" + "\n" + ("reason=" + r + ";" + "\n" + ("source_docs=" + d))))
  {
    assert "\nfields=" == "\n" + "fields=" && ";\nquality=" == ";" + "\n" + "quality=" && ";\nreason=" == ";" + "\n" + "reason=";
    assert ";\nsource_docs=" == ";" + "\n" + "source_docs=";
  }

  /** A bundle's text has five lines exactly when no newline stands in what is
      written unescaped. They are its header, and the lists of its fields, flags,
      reasons and document references, each of which reads back on its own. */
  lemma BundleReadsBackExactlyWhen(b: Bundle)
    returns (fields: string, quality: string, reason: string, docs: string, fieldTexts: seq<string>, references: seq<string>)
    ensures FieldTexts(b, fieldTexts) && ListsEscaped(fieldTexts, ';', fields)
    ensures ListsFlags(b.flags, quality) && Lists(b.reasons, ',', reason)
    ensures References(b, references) && ListsEscaped(references, ';', docs)
    ensures var sections := Sections(Header(b), fields, quality, reason, docs);
      Pieces(BundleLine(b), '\n') == sections <==> Free(sections, '\n')
  {
    fieldTexts, references := Mapped(b.fields, FieldPart), Mapped(b.relations, RelationDoc) + Mapped(b.documents, DocumentDoc);
    fields, reason, docs := JoinOr(";", fieldTexts, "none"), JoinOr(",", b.reasons, "none"), JoinOr(";", references, "none");
    quality := if Join(",", b.flags) == "" then "none" else Join(",", b.flags);
    JoinedEscapedList(fieldTexts, ';');
    JoinedFlags(b.flags);
    JoinedList(b.reasons, ',');
    JoinedEscapedList(references, ';');
    LineIsJoined(Header(b), fields, quality, reason, docs);
  }

  lemma LineIsJoined(h: string, f: string, q: string, r: string, d: string)
    ensures var line := h + "\nfields=" + f + ";\nquality=" + q + ";\nreason=" + r + ";\nsource_docs=" + d;
      Pieces(line, '\n') == Sections(h, f, q, r, d) <==> Free(Sections(h, f, q, r, d), '\n')
  {
    JoinFive(h, "fields=" + f + ";", "quality=" + q + ";", "reason=" + r + ";", "source_docs=" + d);
    LineText(h, f, q, r, d);
    CutBackExactlyWhen(Sections(h, f, q, r, d), '\n');
  }

  // ---- A relation's lines ----

  lemma TwoLines(first: string, second: string)
    ensures Pieces(first + "\n" + second, '\n') == [first, second] <==> Free([first, second], '\n')
  {
    JoinOf(first, [second], "\n");
    assert [first] + [second] == [first, second];
    CutBackExactlyWhen([first, second], '\n');
  }

  lemma HeadReadsBack(r: RelationItem, head: string)
    requires head == "[RELATION" + "|type=" + r.relationType + "|subject=" + Escape(r.subject) + "|object=" + Escape(r.object_) + "]"
    ensures Parts(head, '|') == ["[RELATION", "type=" + r.relationType, "subject=" + Escape(r.subject), "object=" + Escape(r.object_) + "]"] <==>
              OnePart(r.relationType, '|') && !EndsInBackslash(r.relationType) && !EndsInBackslash(r.subject)
  {
    var p1, p2, p3 := "type=" + r.relationType, "subject=" + Escape(r.subject), "object=" + Escape(r.object_) + "]";
    HeadIsJoined(r.relationType, Escape(r.subject), Escape(r.object_));
    HeadParts(r);
    FourParts("[RELATION", p1, p2, p3);
  }

  lemma FourParts(p0: string, p1: string, p2: string, p3: string)
    ensures Parts(Join("|", [p0, p1, p2, p3]), '|') == [p0, p1, p2, p3] <==>
              && OnePart(p0, '|') && OnePart(p1, '|') && OnePart(p2, '|') && OnePart(p3, '|')
              && !EndsInBackslash(p0) && !EndsInBackslash(p1) && !EndsInBackslash(p2)
  {
    var parts := [p0, p1, p2, p3];
    PartsBackExactlyWhen(parts, '|');
    assert parts[0] == p0 && parts[1] == p1 && parts[2] == p2 && parts[3] == p3;
  }

  /** A relation's text has two lines exactly when neither holds a newline: its
      type and ends, and its document reference. */
  lemma RelationReadsBackExactlyWhen(r: RelationItem) returns (head: string)
    ensures Pieces(RelationLine(r), '\n') == [head, "source_docs=" + RelationDoc(r)] <==> Free([head, "source_docs=" + RelationDoc(r)], '\n')
    ensures Parts(head, '|') == ["[RELATION", "type=" + r.relationType, "subject=" + Escape(r.subject), "object=" + Escape(r.object_) + "]"] <==>
              OnePart(r.relationType, '|') && !EndsInBackslash(r.relationType) && !EndsInBackslash(r.subject)
  {
    head := "[RELATION" + "|type=" + r.relationType + "|subject=" + Escape(r.subject) + "|object=" + Escape(r.object_) + "]";
    HeadReadsBack(r, head);
    assert "\nsource_docs=" == "\n" + "source_docs=";
    assert RelationLine(r) == head + "\n" + ("source_docs=" + RelationDoc(r));
    TwoLines(head, "source_docs=" + RelationDoc(r));
  }

  lemma HeadIsJoined(kind: string, subject: string, object_: string)
    ensures "[RELATION" + "|type=" + kind + "|subject=" + subject + "|object=" + object_ + "]" ==
            Join("|", ["[RELATION", "type=" + kind, "subject=" + subject, "object=" + object_ + "]"])
  {
    JoinFour("[RELATION", "type=" + kind, "subject=" + subject, "object=" + object_ + "]");
    assert "|type=" == "|" + "type=" && "|subject=" == "|" + "subject=" && "|object=" == "|" + "object=";
  }

  lemma TypeIsPart(kind: string)
    ensures OnePart("type=" + kind, '|') <==> OnePart(kind, '|')
    ensures EndsInBackslash("type=" + kind) <==> EndsInBackslash(kind)
  {
    if OnePart(kind, '|') { Tagged("type=", kind, '|'); }
    if OnePart("type=" + kind, '|') { UntaggedIsOnePart("type=", kind, '|'); }
  }

  lemma HeadParts(r: RelationItem)
    ensures OnePart("[RELATION", '|') && OnePart("object=" + Escape(r.object_) + "]", '|') && OnePart("subject=" + Escape(r.subject), '|')
    ensures OnePart("type=" + r.relationType, '|') <==> OnePart(r.relationType, '|')
    ensures EndsInBackslash("type=" + r.relationType) <==> EndsInBackslash(r.relationType)
    ensures EndsInBackslash("subject=" + Escape(r.subject)) <==> EndsInBackslash(r.subject)
  {
    TypeIsPart(r.relationType);
    EscapeIsOnePass(r.subject);
    EscapeIsOnePass(r.object_);
    EscapedIsOnePart(r.subject, '|');
    EscapedIsOnePart(r.object_, '|');
    FreeIsOnePart("[RELATION", '|');
    Tagged("subject=", Escape(r.subject), '|');
    ClosedIsOnePart(Escape(r.object_), '|');
    Tagged("object=", Escape(r.object_) + "]", '|');
    assert "object=" + (Escape(r.object_) + "]") == "object=" + Escape(r.object_) + "]";
  }
}
