/** Curated rows and candidates: the objects that ranking, federation and merging update in
    place, and their value at one moment. */
module RetrievalModels {
  import opened Text
  import opened Query

  // A metric's raw value: None, something Decimal(str(raw)) accepts, or other text.
  datatype RawValue = Missing | Number(value: real) | NotNumeric(text: string)

  datatype Metric = Metric(field: string, sourceField: string, raw: RawValue, asOf: Option<string>, flags: seq<string>)

  const INVALID_FOR_DECISION := "INVALID_FOR_DECISION"

  // A curated row; `values` holds the fields whose column resolves.
  datatype Row = Row(uid: string, sourceTable: string, sourceKey: string, name: Option<string>, flags: seq<string>,
                     values: map<string, RawValue>)

  datatype CandidateView = CandidateView(
    uid: string, family: Family, sourceTable: string, sourceKey: string, name: Option<string>, tieBreak: Option<string>,
    metrics: seq<Metric>, reasons: seq<string>, flags: seq<string>, rank: Option<nat>)

  class Candidate {
    const uid: string
    const family: Family
    const sourceTable: string
    const sourceKey: string
    const name: Option<string>
    const tieBreak: Option<string>
    var metricsUsed: seq<Metric>
    var selectionReasons: seq<string>
    var qualityFlags: seq<string>
    var stableRank: Option<nat>

    constructor (v: CandidateView)
      ensures View() == v
    {
      uid, family, sourceTable, sourceKey, name, tieBreak := v.uid, v.family, v.sourceTable, v.sourceKey, v.name, v.tieBreak;
      metricsUsed, selectionReasons, qualityFlags, stableRank := v.metrics, v.reasons, v.flags, v.rank;
    }

    function View(): CandidateView
      reads this
    {
      CandidateView(uid, family, sourceTable, sourceKey, name, tieBreak, metricsUsed, selectionReasons, qualityFlags, stableRank)
    }
  }

  function Views(s: seq<Candidate>): (r: seq<CandidateView>)
    reads s
    ensures |r| == |s|
    ensures forall i :: 0 <= i < |s| ==> r[i] == s[i].View()
  {
    seq(|s|, i requires 0 <= i < |s| reads s => s[i].View())
  }

  ghost function Objects(s: seq<Candidate>): set<object> {
    set c: Candidate | c in s
  }

  // No object occurs twice: candidates are separate objects, one per row.
  ghost predicate Unaliased(s: seq<Candidate>) {
    forall i, j :: 0 <= i < j < |s| ==> s[i] != s[j]
  }
}
