/** The two texts of a stored Decimal: format(value, "f"), which the evidence
    builder writes, and str(value), which the evidence manager compares with. */
module DecimalText {
  import opened Text
  import opened Query
  import opened RetrievalModels
  import opened ResultMerger
  import opened EvidenceBuilder
  import opened EvidenceManager
  import opened EvidencePipeline
  import ProductRepository

  // A finite Decimal: sign, coefficient digits, exponent.
  datatype Dec = Dec(negative: bool, digits: string, exponent: int)

  predicate IsDigits(s: string) {
    s != "" && forall c :: c in s ==> '0' <= c <= '9'
  }

  predicate Valid(d: Dec) {
    IsDigits(d.digits)
  }

  function Zeros(n: int): (r: string)
    ensures forall c :: c in r ==> c == '0'
  {
    if n <= 0 then "" else "0" + Zeros(n - 1)
  }

  // Digits with the point behind the first `place` of them.
  function Placed(digits: string, place: int): string {
    if place <= 0 then "0." + Zeros(-place) + digits
    else if place >= |digits| then digits + Zeros(place - |digits|)
    else digits[..place] + "." + digits[place..]
  }

  function Sign(d: Dec): string {
    if d.negative then "-" else ""
  }

  function LeftDigits(d: Dec): int {
    d.exponent + |d.digits|
  }

  // "%+d" of the exponent in scientific notation
  function SignedNumber(n: int): string {
    if n < 0 then "-" + Digits(-n) else "+" + Digits(n)
  }

  // str() keeps plain notation for these, and switches to an exponent otherwise.
  predicate PrintsPlain(d: Dec) {
    d.exponent <= 0 && LeftDigits(d) > -6
  }

  function Str(d: Dec): string {
    if PrintsPlain(d) then Sign(d) + Placed(d.digits, LeftDigits(d))
    else Sign(d) + Placed(d.digits, 1) + "E" + SignedNumber(LeftDigits(d) - 1)
  }

  // A zero with a positive exponent is rescaled first.
  function FormatF(d: Dec): string {
    if d.exponent > 0 && (forall c :: c in d.digits ==> c == '0') then Sign(d) + "0" else Sign(d) + Placed(d.digits, LeftDigits(d))
  }

  predicate NoExponent(s: string) {
    'E' !in s
  }

  lemma PlacedHasNoExponent(digits: string, place: int)
    requires IsDigits(digits)
    ensures NoExponent(Placed(digits, place))
  {
    if 0 < place < |digits| {
      assert forall c :: c in digits[..place] ==> c in digits;
      assert forall c :: c in digits[place..] ==> c in digits;
    }
  }

  lemma StrHasExponentExactlyWhen(d: Dec)
    requires Valid(d)
    ensures NoExponent(Str(d)) <==> PrintsPlain(d)
  {
    PlacedHasNoExponent(d.digits, LeftDigits(d));
    if !PrintsPlain(d) {
      var start := Sign(d) + Placed(d.digits, 1);
      assert Str(d)[|start|] == 'E';
    }
  }

  lemma FormatFHasNoExponent(d: Dec)
    requires Valid(d)
    ensures NoExponent(FormatF(d))
  {
    PlacedHasNoExponent(d.digits, LeftDigits(d));
  }

  /** The two texts agree exactly for the values that str() prints plainly:
      without a positive exponent, and with at most five zeros behind the point
      before the digits. */
  lemma TextsAgreeExactlyWhen(d: Dec)
    requires Valid(d)
    ensures Str(d) == FormatF(d) <==> d.exponent <= 0 && d.exponent + |d.digits| >= -5
  {
    StrHasExponentExactlyWhen(d);
    FormatFHasNoExponent(d);
  }

  // ---- What the texts say ----

  function Power10(n: int): int {
    if n <= 0 then 1 else 10 * Power10(n - 1)
  }

  lemma NumberSnoc(s: string, c: char)
    ensures NumberOf(s + [c]) == NumberOf(s) * 10 + (c as int - '0' as int)
  {
    assert (s + [c])[..|s|] == s;
  }

  lemma {:induction false} ZerosSnoc(n: int)
    requires n > 0
    ensures Zeros(n) == Zeros(n - 1) + ['0']
  {
    if n > 1 {
      ZerosSnoc(n - 1);
      assert "0" + (Zeros(n - 2) + ['0']) == ("0" + Zeros(n - 2)) + ['0'];
    }
  }

  lemma TimesTen(x: int, power: int)
    ensures x * (10 * power) == (x * power) * 10
  {
  }

  lemma {:induction false} TrailingZeros(s: string, n: int)
    ensures NumberOf(s + Zeros(n)) == NumberOf(s) * Power10(n)
    decreases n
  {
    if n <= 0 {
      assert s + Zeros(n) == s;
    } else {
      var before := s + Zeros(n - 1);
      TrailingZeros(s, n - 1);
      ZerosSnoc(n);
      NumberSnoc(before, '0');
      assert s + Zeros(n) == before + ['0'];
      TimesTen(NumberOf(s), Power10(n - 1));
    }
  }

  lemma {:induction false} LeadingZeros(n: int, s: string)
    ensures NumberOf(Zeros(n) + s) == NumberOf(s)
    decreases |s|, n
  {
    if s == "" {
      TrailingZeros("", n);
      assert "" + Zeros(n) == Zeros(n) + s;
    } else {
      var k := |s| - 1;
      LeadingZeros(n, s[..k]);
      NumberSnoc(Zeros(n) + s[..k], s[k]);
      assert Zeros(n) + s == (Zeros(n) + s[..k]) + [s[k]];
    }
  }

  lemma {:induction false} ZerosLength(n: int)
    ensures |Zeros(n)| == if n <= 0 then 0 else n
  {
    if n > 0 { ZerosLength(n - 1); }
  }

  lemma {:induction false} ZeroNumber(s: string)
    requires forall c :: c in s ==> c == '0'
    ensures NumberOf(s) == 0
  {
    if s != "" {
      var before := s[..|s| - 1];
      assert s == before + [s[|s| - 1]] && s[|s| - 1] in s;
      forall c | c in before ensures c == '0' { assert c in s; }
      ZeroNumber(before);
    }
  }

  /** Digits, and those behind the point if there are any: together they are the
      number, counted in units of the last place. */
  ghost predicate Reads(text: string, whole: string, fraction: string, number: int, places: nat) {
    && text == whole + (if fraction == "" then "" else "." + fraction)
    && whole != "" && |fraction| == places && NumberOf(whole + fraction) == number
  }

  lemma PlacedReads(digits: string, place: int) returns (whole: string, fraction: string)
    requires IsDigits(digits)
    ensures place <= |digits| ==> Reads(Placed(digits, place), whole, fraction, NumberOf(digits), |digits| - place)
    ensures place > |digits| ==> Reads(Placed(digits, place), whole, fraction, NumberOf(digits) * Power10(place - |digits|), 0)
  {
    if place <= 0 {
      whole, fraction := "0", Zeros(-place) + digits;
      LeadingZeros(1 - place, digits);
      ZerosLength(-place);
      assert "0" + fraction == Zeros(1 - place) + digits;
      assert "0." + Zeros(-place) + digits == "0" + ("." + fraction);
    } else if place >= |digits| {
      whole, fraction := digits + Zeros(place - |digits|), "";
      TrailingZeros(digits, place - |digits|);
      assert whole + fraction == whole;
    } else {
      whole, fraction := digits[..place], digits[place..];
      assert whole + fraction == digits;
      assert digits[..place] + "." + digits[place..] == whole + ("." + fraction);
    }
  }

  /** format(value, "f") writes the value itself: behind a minus sign if it is
      negative, its coefficient with as many places as the exponent says, or
      times the power of ten that a positive exponent says. */
  lemma FormatFDenotes(d: Dec) returns (text: string, whole: string, fraction: string)
    requires Valid(d)
    ensures FormatF(d) == (if d.negative then "-" else "") + text
    ensures d.exponent <= 0 ==> Reads(text, whole, fraction, NumberOf(d.digits), -d.exponent)
    ensures d.exponent > 0 ==> Reads(text, whole, fraction, NumberOf(d.digits) * Power10(d.exponent), 0)
  {
    if d.exponent > 0 && forall c :: c in d.digits ==> c == '0' {
      text, whole, fraction := "0", "0", "";
      ZeroNumber(d.digits);
      NumberSnoc("", '0');
      assert whole + fraction == "" + ['0'];
    } else {
      text := Placed(d.digits, LeftDigits(d));
      whole, fraction := PlacedReads(d.digits, LeftDigits(d));
    }
  }

  // The power of ten behind an E.
  predicate ShowsPower(text: string, power: int) {
    text == if power < 0 then "-" + Digits(-power) else "+" + Digits(power)
  }

  lemma ScientificDenotes(d: Dec) returns (text: string, whole: string, fraction: string, power: string)
    requires Valid(d) && !PrintsPlain(d)
    ensures Str(d) == Sign(d) + text + "E" + power && ShowsPower(power, d.exponent + |fraction|)
    ensures Reads(text, whole, fraction, NumberOf(d.digits), |d.digits| - 1)
  {
    text, power := Placed(d.digits, 1), SignedNumber(LeftDigits(d) - 1);
    whole, fraction := PlacedReads(d.digits, 1);
  }

  /** str(value) writes the same, or one digit before the point, all others
      behind it, and the power of ten that makes up for it. */
  lemma StrDenotes(d: Dec) returns (text: string, whole: string, fraction: string, power: string)
    requires Valid(d)
    ensures var plain, sign := d.exponent <= 0 && d.exponent + |d.digits| >= -5, if d.negative then "-" else "";
      && (plain ==> Str(d) == sign + text && Reads(text, whole, fraction, NumberOf(d.digits), -d.exponent))
      && (!plain ==> Str(d) == sign + text + "E" + power && ShowsPower(power, d.exponent + |fraction|)
                     && Reads(text, whole, fraction, NumberOf(d.digits), |d.digits| - 1))
  {
    if PrintsPlain(d) {
      text, power := Placed(d.digits, LeftDigits(d)), "";
      whole, fraction := PlacedReads(d.digits, LeftDigits(d));
    } else {
      text, whole, fraction, power := ScientificDenotes(d);
    }
  }

  // ---- Curated rows ----

  // What a column hands out for a number, with the places of that column.
  type Columns = (string, real) -> Dec

  // The curated columns are NUMERIC with at most six places, integers or text.
  ghost predicate AtMostSixPlaces(dec: Columns) {
    forall field, x :: Valid(dec(field, x)) && -6 <= dec(field, x).exponent <= 0
  }

  function BuilderText(dec: Columns): (string, RawValue) -> string {
    (field: string, v: RawValue) => match v case Number(x) => FormatF(dec(field, x)) case NotNumeric(t) => t case Missing => ""
  }

  function ManagerText(dec: Columns): (string, RawValue) -> string {
    (field: string, v: RawValue) => match v case Number(x) => Str(dec(field, x)) case NotNumeric(t) => t case Missing => ""
  }

  function CodeFormats(dec: Columns, unitOf: string -> Option<string>): Formats {
    Formats(BuilderText(dec), unitOf)
  }

  function CodeRendering(dec: Columns): Rendering {
    Rendering(ManagerText(dec), ManagerText(dec))
  }

  lemma SixPlacesRenderAlike(dec: Columns, unitOf: string -> Option<string>, field: string, v: RawValue)
    requires AtMostSixPlaces(dec) && !v.Missing?
    ensures RendersAlike(field, v, CodeFormats(dec, unitOf), CodeRendering(dec))
  {
    if v.Number? {
      var d := dec(field, v.value);
      assert Valid(d) && -6 <= d.exponent <= 0;
      TextsAgreeExactlyWhen(d);
    }
  }

  /** With the code's renderings and columns, the evidence of a row that is still
      stored is accepted exactly when its relations have their documents: no
      unchanged value is ever taken for a mismatch. */
  lemma UnchangedRowIsAcceptedExactlyWhen(row: Row, family: Family, fields: seq<string>, sourceField: string -> string, m: Result,
                                          dec: Columns, unitOf: string -> Option<string>, version: int, store: Store)
    requires AtMostSixPlaces(dec)
    requires row.sourceTable in KNOWN_TABLES && IsFamily(Prefix(row.uid))
    requires var key := RowKey(version, row.sourceTable, row.uid, row.sourceKey); key in store.rows && store.rows[key] == row
    ensures var b := BundleOf(ProductRepository.CandidateOf(row, family, fields, sourceField), m, CodeFormats(dec, unitOf));
      Accepts(version, store, CodeRendering(dec))(b) <==> DocumentsExist(ItemsOf(m.relations, row.uid), store)
  {
    var f, s := CodeFormats(dec, unitOf), Source(version, store, CodeRendering(dec));
    forall name | name in fields && name in row.values && !row.values[name].Missing?
      ensures RendersAlike(name, row.values[name], f, s.rendering)
    {
      SixPlacesRenderAlike(dec, unitOf, name, row.values[name]);
    }
    UnchangedRowIsAccepted(row, family, fields, sourceField, m, f, s);
  }
}
