/** What the key of a source row is, and which rows have the same key. */
module SourceKeys {
  import opened Text
  import opened QuestionText
  import opened SourceFiles
  import opened Splitting
  import opened SourceValidator

  // ---- One part ----

  // t is the text without the white space around it.
  ghost predicate StripsTo(text: string, t: string) {
    exists i, j :: 0 <= i <= j <= |text| && IsCore(text, i, j) && t == text[i..j]
  }

  predicate IsCore(text: string, i: nat, j: nat)
    requires i <= j <= |text|
  {
    && (forall k :: 0 <= k < i ==> IsSpace(text[k])) && (forall k :: j <= k < |text| ==> IsSpace(text[k]))
    && (i < j ==> !IsSpace(text[i]) && !IsSpace(text[j - 1]))
  }

  // The part that a cell gives to a key; a blank one gives none.
  ghost predicate PartIs(cell: Cell, t: string) {
    match cell
    case Blank => false
    case Words(text) => t != "" && StripsTo(text, t)
    case Plain(text) => t == text
  }

  lemma {:induction false} RStripIsPrefix(s: string)
    ensures |RStrip(s)| <= |s| && RStrip(s) == s[..|RStrip(s)|]
    ensures forall k :: |RStrip(s)| <= k < |s| ==> IsSpace(s[k])
    ensures RStrip(s) != "" ==> !IsSpace(RStrip(s)[|RStrip(s)| - 1])
  {
    if s != "" && IsSpace(s[|s| - 1]) {
      var n := |s| - 1;
      RStripIsPrefix(s[..n]);
      forall k | |RStrip(s)| <= k < |s| ensures IsSpace(s[k]) {
        if k < n { assert s[k] == s[..n][k]; }
      }
    }
  }

  lemma StripMeaning(text: string)
    ensures StripsTo(text, RStrip(LStrip(text)))
  {
    var i := Run(text, true);
    var left := LStrip(text);
    RStripIsPrefix(left);
    var j := i + |RStrip(left)|;
    assert left == text[i..];
    forall k | j <= k < |text| ensures IsSpace(text[k]) { assert text[k] == left[k - i]; }
    if i < j {
      assert text[i] == left[0] && text[j - 1] == RStrip(left)[|RStrip(left)| - 1];
      assert !IsSpace(text[i]);
    }
    assert IsCore(text, i, j) && text[i..j] == RStrip(left);
  }

  lemma SameCore(text: string, i: nat, j: nat, k: nat, l: nat)
    requires i < j <= |text| && k <= l <= |text| && IsCore(text, i, j) && IsCore(text, k, l)
    ensures i == k && j == l
  {
    assert k <= i && j <= l;
  }

  lemma StrippedOnce(text: string, t: string, u: string)
    requires StripsTo(text, t) && StripsTo(text, u)
    ensures t == u
  {
    var i, j :| 0 <= i <= j <= |text| && IsCore(text, i, j) && t == text[i..j];
    var k, l :| 0 <= k <= l <= |text| && IsCore(text, k, l) && u == text[k..l];
    if i < j { SameCore(text, i, j, k, l); }
  }

  /** The part of a key is the cell's text without white space around it, and
      there is none for a blank cell or blank text. */
  lemma KeyPartExactly(cell: Cell, t: string)
    ensures KeyPart(cell) == Some(t) <==> PartIs(cell, t)
  {
    if cell.Words? {
      StripMeaning(cell.text);
      if StripsTo(cell.text, t) { StrippedOnce(cell.text, t, RStrip(LStrip(cell.text))); }
    }
  }

  // ---- The whole key ----

  // The parts of a row, field by field.
  ghost predicate PartsAre(fields: seq<string>, payload: Payload, parts: seq<string>) {
    |parts| == |fields| && forall i :: 0 <= i < |fields| ==> fields[i] in payload && PartIs(payload[fields[i]], parts[i])
  }

  lemma {:induction false} KeyPartsAre(fields: seq<string>, payload: Payload, parts: seq<string>)
    ensures KeyParts(fields, payload) == Some(parts) <==> PartsAre(fields, payload, parts)
  {
    if fields == [] {
    } else if parts == [] {
      assert KeyParts(fields, payload) != Some(parts);
    } else {
      var n, m := |fields| - 1, |parts| - 1;
      KeyPartsAre(fields[..n], payload, parts[..m]);
      if fields[n] in payload { KeyPartExactly(payload[fields[n]], parts[m]); }
      assert parts == parts[..m] + [parts[m]];
      if PartsAre(fields, payload, parts) {
        assert PartsAre(fields[..n], payload, parts[..m]);
      }
      if KeyParts(fields, payload) == Some(parts) {
        var before := KeyParts(fields[..n], payload).value;
        assert parts[..m] == before;
      }
    }
  }

  lemma KeyIsJoined(fields: seq<string>, payload: Payload, parts: seq<string>)
    requires fields != [] && PartsAre(fields, payload, parts)
    ensures SourceKey(fields, payload) == Some(Join("|", parts))
  {
    KeyPartsAre(fields, payload, parts);
  }

  /** The key of one field is its part, and each further field adds a bar and its
      part; a field without a part leaves no key. */
  lemma KeyGrowsByField(fields: seq<string>, f: string, payload: Payload, parts: seq<string>, t: string)
    requires PartsAre(fields, payload, parts)
    ensures fields != [] ==> SourceKey(fields, payload).Some?
    ensures (f in payload && PartIs(payload[f], t)) ==>
              SourceKey(fields + [f], payload) == Some(if fields == [] then t else SourceKey(fields, payload).value + "|" + t)
    ensures (f !in payload || forall u :: !PartIs(payload[f], u)) ==> SourceKey(fields + [f], payload).None?
  {
    var all := fields + [f];
    if fields != [] { KeyIsJoined(fields, payload, parts); }
    if f in payload && PartIs(payload[f], t) {
      assert PartsAre(all, payload, parts + [t]);
      KeyIsJoined(all, payload, parts + [t]);
      JoinAppend("|", parts, t);
    }
    if KeyParts(all, payload).Some? {
      KeyPartsAre(all, payload, KeyParts(all, payload).value);
      assert all[|fields|] == f && PartIs(payload[f], KeyParts(all, payload).value[|fields|]);
    }
  }

  // ---- Which parts give the same key ----

  /** Two rows have the same key exactly when their parts, cut at the bars in
      them, are the same pieces; without bars, exactly when all parts agree. */
  lemma KeysAgreeExactlyWhen(fields: seq<string>, p: Payload, q: Payload, a: seq<string>, b: seq<string>)
    requires fields != [] && PartsAre(fields, p, a) && PartsAre(fields, q, b)
    ensures SourceKey(fields, p) == SourceKey(fields, q) <==> AllPieces(a, '|') == AllPieces(b, '|')
    ensures Free(a, '|') && Free(b, '|') ==> (SourceKey(fields, p) == SourceKey(fields, q) <==> a == b)
  {
    KeyIsJoined(fields, p, a);
    KeyIsJoined(fields, q, b);
    JoinsAgreeExactlyWhen(a, b, '|');
    if Free(a, '|') && Free(b, '|') {
      FreePieces(a, '|');
      FreePieces(b, '|');
    }
  }

  // A text that strip() leaves alone.
  predicate IsWord(t: string) {
    t != "" && !IsSpace(t[0]) && !IsSpace(t[|t| - 1])
  }

  lemma TwoFieldKey(f: string, g: string, payload: Payload, t: string, u: string)
    requires IsWord(t) && IsWord(u) && f in payload && g in payload && payload[f] == Words(t) && payload[g] == Words(u)
    ensures SourceKey([f, g], payload) == Some(t + "|" + u)
  {
    WordIsPart(t);
    WordIsPart(u);
    KeyIsJoined([f, g], payload, [t, u]);
    assert [t, u][1..] == [u];
  }

  /** With a bar in a part, rows that differ in every field can have one key. */
  lemma BarsCollide(f: string, g: string, x: string, y: string, z: string)
    requires f != g && IsWord(x) && IsWord(y) && IsWord(z)
    ensures var p, q := map[f := Words(x + "|" + y), g := Words(z)], map[f := Words(x), g := Words(y + "|" + z)];
      p[f] != q[f] && p[g] != q[g] && SourceKey([f, g], p) == SourceKey([f, g], q) == Some(x + "|" + y + "|" + z)
  {
    var p, q := map[f := Words(x + "|" + y), g := Words(z)], map[f := Words(x), g := Words(y + "|" + z)];
    TwoFieldKey(f, g, p, x + "|" + y, z);
    TwoFieldKey(f, g, q, x, y + "|" + z);
    assert |x + "|" + y| > |x| && |y + "|" + z| > |z|;
    assert x + "|" + (y + "|" + z) == x + "|" + y + "|" + z;
  }

  lemma WordIsPart(t: string)
    requires IsWord(t)
    ensures PartIs(Words(t), t)
  {
    assert IsCore(t, 0, |t|) && t[0..|t|] == t;
  }

  // ---- Files whose rows have keys of their own ----

  ghost predicate HasParts(payload: Payload, fields: seq<string>) {
    forall f :: f in fields ==> f in payload && exists t :: PartIs(payload[f], t)
  }

  ghost predicate SamePart(c: Cell, d: Cell) {
    exists t :: PartIs(c, t) && PartIs(d, t)
  }

  // The rows differ in the part of some key field.
  ghost predicate Differ(p: Payload, q: Payload, fields: seq<string>)
    requires HasParts(p, fields) && HasParts(q, fields)
  {
    exists f :: f in fields && !SamePart(p[f], q[f])
  }

  ghost predicate NoBars(rows: seq<ParsedRow>, fields: seq<string>) {
    forall i, f, t :: 0 <= i < |rows| && f in fields && f in rows[i].payload && PartIs(rows[i].payload[f], t) ==> '|' !in t
  }

  lemma PartsExist(payload: Payload, fields: seq<string>) returns (parts: seq<string>)
    requires HasParts(payload, fields)
    ensures PartsAre(fields, payload, parts)
  {
    KeyPartsExistExactlyWhen(fields, payload);
    forall f | f in fields ensures KeyPart(payload[f]).Some? {
      var t :| PartIs(payload[f], t);
      KeyPartExactly(payload[f], t);
    }
    parts := KeyParts(fields, payload).value;
    KeyPartsAre(fields, payload, parts);
  }

  lemma KeyExistsExactlyWhen(payload: Payload, fields: seq<string>)
    requires fields != []
    ensures SourceKey(fields, payload).Some? <==> HasParts(payload, fields)
  {
    if HasParts(payload, fields) {
      var parts := PartsExist(payload, fields);
      KeyIsJoined(fields, payload, parts);
    }
    if SourceKey(fields, payload).Some? {
      var parts := KeyParts(fields, payload).value;
      KeyPartsAre(fields, payload, parts);
      forall f | f in fields ensures f in payload && exists t :: PartIs(payload[f], t) {
        var i :| 0 <= i < |fields| && fields[i] == f;
        assert PartIs(payload[fields[i]], parts[i]);
      }
    }
  }

  lemma PartIsOnly(c: Cell, t: string, u: string)
    requires PartIs(c, t) && PartIs(c, u)
    ensures t == u
  {
    KeyPartExactly(c, t);
    KeyPartExactly(c, u);
  }

  lemma DifferExactlyWhen(p: Payload, q: Payload, fields: seq<string>, a: seq<string>, b: seq<string>)
    requires HasParts(p, fields) && HasParts(q, fields) && PartsAre(fields, p, a) && PartsAre(fields, q, b)
    ensures Differ(p, q, fields) <==> a != b
  {
    if a == b {
      forall f | f in fields ensures SamePart(p[f], q[f]) {
        var i :| 0 <= i < |fields| && fields[i] == f;
        assert PartIs(p[f], a[i]) && PartIs(q[f], a[i]);
      }
    } else {
      var i :| 0 <= i < |fields| && a[i] != b[i];
      if SamePart(p[fields[i]], q[fields[i]]) {
        var t :| PartIs(p[fields[i]], t) && PartIs(q[fields[i]], t);
        PartIsOnly(p[fields[i]], t, a[i]);
        PartIsOnly(q[fields[i]], t, b[i]);
      }
      assert fields[i] in fields;
    }
  }

  lemma RowsDiffer(rows: seq<ParsedRow>, fields: seq<string>, i: nat, j: nat)
    requires fields != [] && NoBars(rows, fields) && i < |rows| && j < |rows|
    requires HasParts(rows[i].payload, fields) && HasParts(rows[j].payload, fields)
    ensures SourceKey(fields, rows[i].payload) != SourceKey(fields, rows[j].payload) <==> Differ(rows[i].payload, rows[j].payload, fields)
  {
    var p, q := rows[i].payload, rows[j].payload;
    var a := PartsExist(p, fields);
    var b := PartsExist(q, fields);
    forall k | 0 <= k < |fields| ensures '|' !in a[k] && '|' !in b[k] {
      assert fields[k] in fields && PartIs(p[fields[k]], a[k]) && PartIs(q[fields[k]], b[k]);
    }
    KeysAgreeExactlyWhen(fields, p, q, a, b);
    DifferExactlyWhen(p, q, fields, a, b);
  }

  /** Validation finds no fault with the keys of a file without bars exactly when
      every key field of every row has a part and any two rows differ in one. */
  lemma RowsStayApartExactlyWhen(rows: seq<ParsedRow>, e: Entry)
    requires e.keyFields != [] && NoBars(rows, e.keyFields)
    ensures ScanRows(rows, e).errors == [] <==>
              && (forall i :: 0 <= i < |rows| ==> HasParts(rows[i].payload, e.keyFields))
              && (forall i, j :: 0 <= i < j < |rows| ==> Differ(rows[i].payload, rows[j].payload, e.keyFields))
  {
    var fields := e.keyFields;
    ScanIsCleanExactlyWhen(rows, e);
    forall i | 0 <= i < |rows| ensures SourceKey(fields, rows[i].payload).Some? <==> HasParts(rows[i].payload, fields) {
      KeyExistsExactlyWhen(rows[i].payload, fields);
    }
    if forall i :: 0 <= i < |rows| ==> HasParts(rows[i].payload, fields) {
      forall i: nat, j: nat | i < j < |rows|
        ensures SourceKey(fields, rows[i].payload) != SourceKey(fields, rows[j].payload) <==> Differ(rows[i].payload, rows[j].payload, fields)
      {
        RowsDiffer(rows, fields, i, j);
      }
    }
  }
}
