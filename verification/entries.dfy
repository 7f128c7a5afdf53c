/**
 The two record shapes of the analyser: a dictionary entry (`BiasItem`) and a
 found match (`AnalysisResult`), which is an entry extended with its count.
 */
module Entries {

  datatype BiasItem = BiasItem(
    term: string,
    category: string,
    severity: string,
    suggestion: string,
    explanation: string)

  /** `{ ...item, count }`: every field of the entry plus the occurrence count. */
  datatype AnalysisResult = AnalysisResult(
    term: string,
    category: string,
    severity: string,
    suggestion: string,
    explanation: string,
    count: nat)
  {
    /** The dictionary fields of a result, without its count. */
    function Entry(): BiasItem {
      BiasItem(term, category, severity, suggestion, explanation)
    }
  }

  function WithCount(item: BiasItem, count: nat): (r: AnalysisResult)
    ensures r.Entry() == item && r.count == count
  {
    AnalysisResult(item.term, item.category, item.severity, item.suggestion, item.explanation, count)
  }

  /** Terms are literal, non-empty strings. */
  predicate WellFormedDictionary(dict: seq<BiasItem>) {
    forall i :: 0 <= i < |dict| ==> |dict[i].term| > 0
  }

  predicate WellFormedResults(rs: seq<AnalysisResult>) {
    forall i :: 0 <= i < |rs| ==> |rs[i].term| > 0
  }

  /** Both halves of well-formed results are well formed. */
  lemma WellFormedSlices(rs: seq<AnalysisResult>, i: nat)
    requires WellFormedResults(rs) && i <= |rs|
    ensures WellFormedResults(rs[..i]) && WellFormedResults(rs[i..])
  {
  }
}
