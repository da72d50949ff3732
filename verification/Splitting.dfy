/** Texts joined by a separator, and how they are cut apart again: at every
    separator, or at those that no backslash precedes. */
module Splitting {
  import opened Text

  // ---- At every separator ----

  // The pieces of a text with one more character in front.
  function Fronted(c: char, pieces: seq<string>, sep: char): (r: seq<string>)
    requires |pieces| > 0
    ensures |r| > 0
  {
    if c == sep then [""] + pieces else [[c] + pieces[0]] + pieces[1..]
  }

  // The texts between separators.
  function Pieces(s: string, sep: char): (r: seq<string>)
    ensures |r| > 0
  {
    if s == "" then [""] else Fronted(s[0], Pieces(s[1..], sep), sep)
  }

  function AllPieces(parts: seq<string>, sep: char): seq<string> {
    if parts == [] then [] else Pieces(parts[0], sep) + AllPieces(parts[1..], sep)
  }

  lemma PiecesOf(c: char, s: string, sep: char)
    ensures Pieces([c] + s, sep) == Fronted(c, Pieces(s, sep), sep)
  {
    assert ([c] + s)[1..] == s;
  }

  lemma FrontedAppend(c: char, p: seq<string>, q: seq<string>, sep: char)
    requires |p| > 0
    ensures Fronted(c, p + q, sep) == Fronted(c, p, sep) + q
  {
    assert (p + q)[1..] == p[1..] + q;
  }

  lemma {:induction false} PiecesAtSeparator(a: string, b: string, sep: char)
    ensures Pieces(a + [sep] + b, sep) == Pieces(a, sep) + Pieces(b, sep)
  {
    if a == "" {
      PiecesOf(sep, b, sep);
      assert a + [sep] + b == [sep] + b;
    } else {
      var c, rest := a[0], a[1..];
      PiecesAtSeparator(rest, b, sep);
      PiecesOf(c, rest + [sep] + b, sep);
      FrontedAppend(c, Pieces(rest, sep), Pieces(b, sep), sep);
      assert a + [sep] + b == [c] + (rest + [sep] + b);
    }
  }

  lemma {:induction false} JoinOfPieces(s: string, sep: char)
    ensures Join([sep], Pieces(s, sep)) == s
  {
    if s != "" {
      var rest := Pieces(s[1..], sep);
      JoinOfPieces(s[1..], sep);
      JoinFronted(s[0], rest, sep);
    }
  }

  lemma JoinOf(first: string, rest: seq<string>, sep: string)
    ensures Join(sep, [first] + rest) == if rest == [] then first else first + sep + Join(sep, rest)
  {
    assert ([first] + rest)[1..] == rest;
  }

  lemma JoinOfEmpty(pieces: seq<string>, sep: string)
    requires |pieces| > 0
    ensures Join(sep, [""] + pieces) == sep + Join(sep, pieces)
  {
    JoinOf("", pieces, sep);
    assert "" + sep == sep;
  }

  lemma JoinMovesChar(c: char, first: string, rest: seq<string>, sep: string)
    ensures Join(sep, [[c] + first] + rest) == [c] + Join(sep, [first] + rest)
  {
    JoinOf(first, rest, sep);
    JoinOf([c] + first, rest, sep);
    assert [c] + first + sep + Join(sep, rest) == [c] + (first + sep + Join(sep, rest));
  }

  lemma JoinFronted(c: char, pieces: seq<string>, sep: char)
    requires |pieces| > 0
    ensures Join([sep], Fronted(c, pieces, sep)) == [c] + Join([sep], pieces)
  {
    var first, rest := pieces[0], pieces[1..];
    assert [first] + rest == pieces;
    JoinOfEmpty(pieces, [sep]);
    JoinMovesChar(c, first, rest, [sep]);
  }

  lemma {:induction false} PiecesOfJoin(parts: seq<string>, sep: char)
    requires parts != []
    ensures Pieces(Join([sep], parts), sep) == AllPieces(parts, sep)
  {
    if |parts| > 1 {
      PiecesOfJoin(parts[1..], sep);
      PiecesAtSeparator(parts[0], Join([sep], parts[1..]), sep);
    } else {
      assert AllPieces(parts[1..], sep) == [];
    }
  }

  lemma JoinsAgreeExactlyWhen(a: seq<string>, b: seq<string>, sep: char)
    requires a != [] && b != []
    ensures Join([sep], a) == Join([sep], b) <==> AllPieces(a, sep) == AllPieces(b, sep)
  {
    PiecesOfJoin(a, sep);
    PiecesOfJoin(b, sep);
    JoinOfPieces(Join([sep], a), sep);
    JoinOfPieces(Join([sep], b), sep);
  }

  lemma {:induction false} PiecesAreFree(s: string, sep: char)
    ensures forall k :: 0 <= k < |Pieces(s, sep)| ==> sep !in Pieces(s, sep)[k]
  {
    if s != "" {
      PiecesAreFree(s[1..], sep);
    }
  }

  lemma {:induction false} OnePieceExactlyWhen(s: string, sep: char)
    ensures Pieces(s, sep) == [s] <==> sep !in s
  {
    PiecesAreFree(s, sep);
    if Pieces(s, sep) == [s] {
      assert sep !in Pieces(s, sep)[0];
    }
    if s != "" && sep !in s {
      OnePieceExactlyWhen(s[1..], sep);
      assert s == [s[0]] + s[1..];
    }
  }

  // No text holds the separator.
  predicate Free(parts: seq<string>, sep: char) {
    forall i :: 0 <= i < |parts| ==> sep !in parts[i]
  }

  lemma {:induction false} FreePieces(parts: seq<string>, sep: char)
    requires Free(parts, sep)
    ensures AllPieces(parts, sep) == parts
  {
    if parts != [] {
      OnePieceExactlyWhen(parts[0], sep);
      FreePieces(parts[1..], sep);
    }
  }

  /** Joined texts are cut into the same texts again exactly when none of them
      holds the separator. */
  lemma CutBackExactlyWhen(parts: seq<string>, sep: char)
    requires parts != []
    ensures Pieces(Join([sep], parts), sep) == parts <==> Free(parts, sep)
  {
    PiecesOfJoin(parts, sep);
    PiecesAreFree(Join([sep], parts), sep);
    if Free(parts, sep) { FreePieces(parts, sep); }
  }

  // ---- At the separators that no backslash precedes ----

  // The texts between separators that no backslash precedes.
  function Parts(s: string, sep: char): (r: seq<string>)
    ensures |r| > 0
  {
    if s == "" then [""]
    else if s[0] == sep then [""] + Parts(s[1..], sep)
    else if s[0] == '\\' && |s| > 1 && s[1] == sep then Glue(s[..2], Parts(s[2..], sep))
    else Glue(s[..1], Parts(s[1..], sep))
  }

  function Glue(start: string, pieces: seq<string>): seq<string>
    requires pieces != []
  {
    [start + pieces[0]] + pieces[1..]
  }

  predicate EndsInBackslash(s: string) {
    s != "" && s[|s| - 1] == '\\'
  }

  // Nothing in s is read as a separator.
  predicate OnePart(s: string, sep: char) {
    Parts(s, sep) == [s]
  }

  lemma PlainCharIsOnePart(c: char, rest: string, sep: char)
    requires c != sep && OnePart(rest, sep) && (rest != "" ==> rest[0] != sep)
    ensures OnePart([c] + rest, sep)
  {
    assert ([c] + rest)[1..] == rest && ([c] + rest)[..1] == [c];
  }

  lemma {:induction false} FreeIsOnePart(s: string, sep: char)
    requires sep !in s
    ensures OnePart(s, sep)
  {
    if s != "" {
      FreeIsOnePart(s[1..], sep);
      assert s == [s[0]] + s[1..];
    }
  }

  // A separator behind a part separates, unless the part ends in a backslash.
  lemma {:induction false} PartsAtSeparator(a: string, b: string, sep: char)
    requires OnePart(a, sep)
    ensures Parts(a + [sep] + b, sep) == if EndsInBackslash(a) then Glue(a + [sep], Parts(b, sep)) else [a] + Parts(b, sep)
  {
    var s := a + [sep] + b;
    if a == "" {
      assert s[0] == sep && s[1..] == b;
    } else if a == "\\" {
      assert s[..2] == ['\\', sep] && s[2..] == b;
    } else {
      var n := Step(a, sep);
      RestIsOnePart(a, n, sep);
      PartsAtSeparator(a[n..], b, sep);
      assert s[n..] == a[n..] + [sep] + b && s[..n] == a[..n];
      PartsStep(s, n, sep);
      GlueTwice(a[..n], a[n..], Parts(b, sep), sep);
      assert a == a[..n] + a[n..];
    }
  }

  // How much of s is glued at once: an escaped separator, or one character.
  function Step(s: string, sep: char): (n: nat)
    requires s != ""
    ensures 1 <= n <= |s|
  {
    if s[0] == '\\' && |s| > 1 && s[1] == sep then 2 else 1
  }

  // The first character, or the escaped separator, is glued to the first part of the rest.
  lemma PartsStep(s: string, n: nat, sep: char)
    requires s != "" && s[0] != sep && n == Step(s, sep)
    ensures Parts(s, sep) == Glue(s[..n], Parts(s[n..], sep))
  {
  }

  lemma RestIsOnePart(a: string, n: nat, sep: char)
    requires a != "" && OnePart(a, sep) && n == Step(a, sep)
    ensures a[0] != sep && n <= |a| && OnePart(a[n..], sep)
  {
    if a[0] == sep {
      assert false;
    } else {
      PartsStep(a, n, sep);
      var rest := Parts(a[n..], sep);
      assert |Glue(a[..n], rest)| == 1 && Glue(a[..n], rest)[0] == a;
      assert rest == [rest[0]] && (a[..n] + rest[0])[n..] == rest[0];
    }
  }

  lemma GluedIsOnePart(s: string, n: nat, sep: char)
    requires s != "" && s[0] != sep && n == Step(s, sep) && OnePart(s[n..], sep)
    ensures OnePart(s, sep)
  {
    PartsStep(s, n, sep);
    assert s[..n] + s[n..] == s;
  }

  lemma GlueTwice(x: string, y: string, pieces: seq<string>, sep: char)
    requires pieces != []
    ensures Glue(x, Glue(y + [sep], pieces)) == Glue(x + y + [sep], pieces)
    ensures Glue(x, [y] + pieces) == [x + y] + pieces
  {
    assert x + (y + [sep] + pieces[0]) == x + y + [sep] + pieces[0];
  }

  lemma Tagged(tag: string, piece: string, sep: char)
    requires sep !in tag && tag != "" && tag[|tag| - 1] != '\\' && OnePart(piece, sep)
    ensures OnePart(tag + piece, sep)
    ensures EndsInBackslash(tag + piece) <==> EndsInBackslash(piece)
  {
    TagGlued(tag, piece, sep);
  }

  lemma {:induction false} TagGlued(tag: string, piece: string, sep: char)
    requires sep !in tag && (tag != "" ==> tag[|tag| - 1] != '\\') && OnePart(piece, sep)
    ensures OnePart(tag + piece, sep)
  {
    if tag == "" {
      assert tag + piece == piece;
    } else {
      TagGlued(tag[1..], piece, sep);
      var s := tag + piece;
      assert s[1..] == tag[1..] + piece && tag[0] in tag;
      assert |tag| > 1 ==> tag[1] in tag;
      GluedIsOnePart(s, 1, sep);
    }
  }

  lemma {:induction false} PartsAreWhole(s: string, sep: char)
    ensures forall k :: 0 <= k < |Parts(s, sep)| ==> OnePart(Parts(s, sep)[k], sep)
  {
    if s == "" {
    } else if s[0] == sep {
      PartsAreWhole(s[1..], sep);
    } else {
      var n := Step(s, sep);
      PartsAreWhole(s[n..], sep);
      PartsStep(s, n, sep);
      FirstPartGrows(s, n, sep);
    }
  }

  // What is glued to the first piece of the rest leaves it one piece.
  lemma FirstPartGrows(s: string, n: nat, sep: char)
    requires s != "" && s[0] != sep && n == Step(s, sep) && OnePart(Parts(s[n..], sep)[0], sep)
    ensures OnePart(s[..n] + Parts(s[n..], sep)[0], sep)
  {
    var first := Parts(s[n..], sep)[0];
    var piece := s[..n] + first;
    assert piece[n..] == first && piece[..n] == s[..n];
    if n == 1 && s[0] == '\\' && first != "" {
      FirstPartStart(s[1..], sep);
    }
    assert Step(piece, sep) == n;
    GluedIsOnePart(piece, n, sep);
  }

  lemma FirstPartStart(s: string, sep: char)
    ensures Parts(s, sep)[0] != "" ==> s != "" && s[0] != sep && Parts(s, sep)[0][0] == s[0]
  {
  }

  lemma {:induction false} UntaggedIsOnePart(tag: string, piece: string, sep: char)
    requires sep !in tag && '\\' !in tag && OnePart(tag + piece, sep)
    ensures OnePart(piece, sep)
  {
    var s := tag + piece;
    if tag == "" {
      assert s == piece;
    } else {
      assert s[0] in tag && s[1..] == tag[1..] + piece;
      RestIsOnePart(s, 1, sep);
      UntaggedIsOnePart(tag[1..], piece, sep);
    }
  }

  /** Joined texts are cut into the same texts again exactly when nothing in them
      is read as a separator, and none but the last ends in a backslash. */
  lemma {:induction false} PartsBackExactlyWhen(parts: seq<string>, sep: char)
    requires parts != [] && sep != '\\'
    ensures Parts(Join([sep], parts), sep) == parts <==>
              && (forall i :: 0 <= i < |parts| ==> OnePart(parts[i], sep))
              && (forall i :: 0 <= i < |parts| - 1 ==> !EndsInBackslash(parts[i]))
  {
    if Parts(Join([sep], parts), sep) == parts {
      PartsAreWhole(Join([sep], parts), sep);
    }
    if |parts| > 1 && OnePart(parts[0], sep) {
      PartsAtSeparator(parts[0], Join([sep], parts[1..]), sep);
      PartsBackExactlyWhen(parts[1..], sep);
    }
  }
}
