/** The manifest, the source files it names, and the key of a source row. */
module SourceFiles {
  import opened Text
  import opened QuestionText

  // A cell as the reader hands it on; Plain stands for numbers, dates and
  // booleans, whose text is never empty.
  datatype Cell = Blank | Words(text: string) | Plain(text: string)

  type Payload = map<string, Cell>

  datatype ParsedRow = ParsedRow(number: nat, payload: Payload)

  datatype Entry = Entry(
    rawTable: string, schemaFile: string, dataFile: string, schemaSha: string, dataSha: string,
    expectedRows: int, expectedColumns: int, keyFields: seq<string>)

  datatype Manifest = Manifest(version: string, datasets: seq<Entry>, expectedTotal: int)

  // `columns` is None when the reader raises ExcelValidationError.
  datatype SchemaFile = SchemaFile(sha: string, columns: Option<seq<string>>)
  datatype DataFile = DataFile(sha: string, headers: Option<seq<string>>, rows: seq<ParsedRow>)
  datatype Disk = Disk(schemas: map<string, SchemaFile>, data: map<string, DataFile>)

  // _normalize_key_part; None is the SourceKeyError.
  function KeyPart(cell: Cell): Option<string> {
    match cell
    case Blank => None
    case Plain(text) => Some(text)
    case Words(text) => var stripped := RStrip(LStrip(text)); if stripped == "" then None else Some(stripped)
  }

  function KeyParts(fields: seq<string>, payload: Payload): Option<seq<string>> {
    if fields == [] then Some([])
    else
      var last := fields[|fields| - 1];
      if last !in payload || KeyPart(payload[last]).None? then None
      else
        var before := KeyParts(fields[..|fields| - 1], payload);
        if before.None? then None else Some(before.value + [KeyPart(payload[last]).value])
  }

  // build_source_key
  function SourceKey(fields: seq<string>, payload: Payload): Option<string> {
    if fields == [] then None
    else
      var parts := KeyParts(fields, payload);
      if parts.None? then None else Some(Join("|", parts.value))
  }

  method BuildSourceKey(fields: seq<string>, payload: Payload) returns (key: Option<string>)
    ensures key == SourceKey(fields, payload)
  {
    if fields == [] { return None; }
    var parts: seq<string> := [];
    for i := 0 to |fields|
      invariant KeyParts(fields[..i], payload) == Some(parts)
    {
      assert fields[..i + 1][..i] == fields[..i];
      if fields[i] !in payload || KeyPart(payload[fields[i]]).None? {
        KeyPartsMissing(fields, payload, i);
        return None;
      }
      parts := parts + [KeyPart(payload[fields[i]]).value];
    }
    assert fields[..|fields|] == fields;
    key := Some(Join("|", parts));
  }

  /** A key exists exactly when every key field holds a value that is not blank. */
  lemma {:induction false} KeyPartsExistExactlyWhen(fields: seq<string>, payload: Payload)
    ensures KeyParts(fields, payload).Some? <==> forall f :: f in fields ==> f in payload && KeyPart(payload[f]).Some?
  {
    if fields != [] {
      KeyPartsExistExactlyWhen(fields[..|fields| - 1], payload);
      assert fields == fields[..|fields| - 1] + [fields[|fields| - 1]];
    }
  }

  lemma KeyPartsMissing(fields: seq<string>, payload: Payload, i: nat)
    requires i < |fields| && (fields[i] !in payload || KeyPart(payload[fields[i]]).None?)
    ensures KeyParts(fields, payload).None?
  {
    KeyPartsExistExactlyWhen(fields, payload);
    assert fields[i] in fields;
  }
}
