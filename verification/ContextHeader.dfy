/** Reading a bundle header back from the context: where its fields begin. */
module ContextHeader {
  import opened Text
  import opened Splitting
  import opened EvidenceBuilder
  import opened ContextSerializer

  // What one character is escaped to, in front of an escaped rest.
  lemma EscapedCharIsOnePart(c: char, rest: string, sep: char)
    requires OnePart(rest, '|') && (rest != "" ==> rest[0] != '|')
    ensures var e := (match c case '|' => "\\|" case '\n' => "\\n" case ';' => "\\;" case _ => [c]) + rest;
      OnePart(e, '|') && e[0] != '|' && (EndsInBackslash(e) <==> if rest == "" then c == '\\' else EndsInBackslash(rest))
  {
    if c == '|' {
      assert ("\\|" + rest)[2..] == rest && ("\\|" + rest)[..2] == "\\|";
    } else if c == '\n' || c == ';' {
      var last := if c == '\n' then 'n' else ';';
      PlainCharIsOnePart(last, rest, '|');
      PlainCharIsOnePart('\\', [last] + rest, '|');
      assert ['\\'] + ([last] + rest) == ['\\', last] + rest;
    } else {
      PlainCharIsOnePart(c, rest, '|');
    }
  }

  lemma {:induction false} EscapedIsOnePart(v: string, sep: char)
    ensures OnePart(EscapeOnce(v), '|') && (v != "" ==> EscapeOnce(v) != "" && EscapeOnce(v)[0] != '|')
    ensures EndsInBackslash(EscapeOnce(v)) <==> EndsInBackslash(v)
  {
    if v != "" {
      EscapedIsOnePart(v[1..], '|');
      EscapedCharIsOnePart(v[0], EscapeOnce(v[1..]), '|');
    }
  }

  // The four fields of a header, as labelled.
  function HeaderPieces(b: Bundle): seq<string> {
    ["[" + b.sourceTable, "key=" + Escape(b.sourceKey), "uid=" + b.uid, "name=" + Escape(if b.name.Some? then b.name.value else "") + "]"]
  }

  lemma HeaderIsFourPieces(b: Bundle)
    requires OnePart(b.sourceTable, '|') && OnePart(b.uid, '|')
    ensures var p := HeaderPieces(b);
      && OnePart(p[0], '|') && OnePart(p[1], '|') && OnePart(p[2], '|') && OnePart(p[3], '|')
      && (EndsInBackslash(p[0]) <==> EndsInBackslash(b.sourceTable)) && (EndsInBackslash(p[1]) <==> EndsInBackslash(b.sourceKey))
      && (EndsInBackslash(p[2]) <==> EndsInBackslash(b.uid))
  {
    var key, name := Escape(b.sourceKey), Escape(OrElse(b.name, ""));
    EscapeIsOnePass(b.sourceKey);
    EscapeIsOnePass(OrElse(b.name, ""));
    EscapedIsOnePart(b.sourceKey, '|');
    EscapedIsOnePart(OrElse(b.name, ""), '|');
    ClosedIsOnePart(name, '|');
    TaggedPieces(b.sourceTable, key, b.uid, name + "]");
    assert "name=" + (name + "]") == "name=" + name + "]";
  }

  lemma TaggedPieces(table: string, key: string, uid: string, name: string)
    requires OnePart(table, '|') && OnePart(key, '|') && OnePart(uid, '|') && OnePart(name, '|')
    ensures OnePart("[" + table, '|') && OnePart("key=" + key, '|') && OnePart("uid=" + uid, '|') && OnePart("name=" + name, '|')
    ensures EndsInBackslash("[" + table) <==> EndsInBackslash(table)
    ensures EndsInBackslash("key=" + key) <==> EndsInBackslash(key)
    ensures EndsInBackslash("uid=" + uid) <==> EndsInBackslash(uid)
  {
    Tagged("[", table, '|');
    Tagged("key=", key, '|');
    Tagged("uid=", uid, '|');
    Tagged("name=", name, '|');
  }

  lemma JoinFour(p0: string, p1: string, p2: string, p3: string)
    ensures Join("|", [p0, p1, p2, p3]) == p0 + "|" + (p1 + "|" + (p2 + "|" + p3))
  {
    JoinOf(p2, [p3], "|");
    JoinOf(p1, [p2, p3], "|");
    JoinOf(p0, [p1, p2, p3], "|");
    assert [p0] + [p1, p2, p3] == [p0, p1, p2, p3] && [p1] + [p2, p3] == [p1, p2, p3] && [p2] + [p3] == [p2, p3];
  }

  lemma JoinedHeader(table: string, key: string, uid: string, name: string)
    ensures "[" + table + "|key=" + key + "|uid=" + uid + "|name=" + name + "]" ==
            Join("|", ["[" + table, "key=" + key, "uid=" + uid, "name=" + name + "]"])
  {
    JoinFour("[" + table, "key=" + key, "uid=" + uid, "name=" + name + "]");
    assert "|key=" == "|" + "key=" && "|uid=" == "|" + "uid=" && "|name=" == "|" + "name=";
  }

  lemma {:induction false} ClosedIsOnePart(s: string, sep: char)
    requires OnePart(s, '|')
    ensures OnePart(s + "]", '|')
  {
    if s == "" {
      FreeIsOnePart("]", '|');
      assert s + "]" == "]";
    } else {
      var n := Step(s, '|');
      RestIsOnePart(s, n, '|');
      ClosedIsOnePart(s[n..], '|');
      assert (s + "]")[n..] == s[n..] + "]";
      GluedIsOnePart(s + "]", n, '|');
    }
  }

  lemma HeaderIsJoined(b: Bundle)
    ensures Header(b) == Join("|", HeaderPieces(b))
  {
    JoinedHeader(b.sourceTable, Escape(b.sourceKey), b.uid, Escape(OrElse(b.name, "")));
  }

  /** A header reads back as its table, key, uid and name exactly when the table
      and the uid, which are not escaped, hold no bar that separates, and neither
      of them nor the key ends in a backslash, which would hide the bar behind it. */
  lemma HeaderReadsBackExactlyWhen(b: Bundle)
    ensures Parts(Header(b), '|') == HeaderPieces(b) <==>
              && OnePart(b.sourceTable, '|') && OnePart(b.uid, '|')
              && !EndsInBackslash(b.sourceTable) && !EndsInBackslash(b.sourceKey) && !EndsInBackslash(b.uid)
  {
    var p := HeaderPieces(b);
    HeaderIsJoined(b);
    PartsBackExactlyWhen(p, '|');
    if OnePart(p[0], '|') && OnePart(p[2], '|') {
      UntaggedIsOnePart("[", b.sourceTable, '|');
      UntaggedIsOnePart("uid=", b.uid, '|');
    }
    if OnePart(b.sourceTable, '|') && OnePart(b.uid, '|') {
      HeaderIsFourPieces(b);
    }
  }

  /** A uid is its family and a product number, and the number is not escaped: an
      ETF whose number holds a bar has a header that does not read back. */
  lemma UidWithBarDoesNotReadBack(b: Bundle)
    requires b.uid == "ETF_KR:A|B"
    ensures Parts(Header(b), '|') != HeaderPieces(b)
  {
    HeaderReadsBackExactlyWhen(b);
    var before := "ETF_KR:A";
    FreeIsOnePart(before, '|');
    assert b.uid == before + "|" + "B";
    PartsAtSeparator(before, "B", '|');
    assert |Parts(b.uid, '|')| > 1;
  }
}
