/**
 The analysis engine behind the Analyze button: every dictionary term is
 counted as a whole word in the lower-cased input, the entries with at least
 one match are collected in dictionary order with their counts, and the
 collection is sorted by severity.
 */
module Scanner {
  import opened Chars
  import opened Entries
  import opened Matching
  import opened Ranking

  /** One step of the `forEach`: `{ ...item, count }` when the count is positive, else nothing. */
  function Report(lowered: string, item: BiasItem): (found: seq<AnalysisResult>)
    requires |item.term| > 0
    ensures |found| <= 1
  {
    var n := MatchCount(lowered, item.term);
    if n > 0 then [WithCount(item, n)] else []
  }

  /** The `forEach` over the dictionary, pushing each entry's report in turn. */
  function Collect(lowered: string, dict: seq<BiasItem>): (found: seq<AnalysisResult>)
    requires WellFormedDictionary(dict)
    ensures |found| <= |dict|
  {
    if |dict| == 0 then [] else Report(lowered, dict[0]) + Collect(lowered, dict[1..])
  }

  /** Collecting over two halves of the dictionary collects over each half, in order. */
  lemma {:induction false} CollectAppend(lowered: string, d1: seq<BiasItem>, d2: seq<BiasItem>)
    requires WellFormedDictionary(d1) && WellFormedDictionary(d2)
    ensures WellFormedDictionary(d1 + d2)
    ensures Collect(lowered, d1 + d2) == Collect(lowered, d1) + Collect(lowered, d2)
    decreases |d1|
  {
    if |d1| > 0 {
      var d := d1 + d2;
      assert d[0] == d1[0];
      assert d[1..] == d1[1..] + d2;
      CollectAppend(lowered, d1[1..], d2);
    } else {
      assert d1 + d2 == d2;
    }
  }

  /**
   A result is collected exactly when it is a dictionary entry whose term
   occurs, carrying that term's match count.
   */
  lemma {:induction false} CollectMembers(lowered: string, dict: seq<BiasItem>, r: AnalysisResult)
    requires WellFormedDictionary(dict)
    ensures r in Collect(lowered, dict) <==>
              r.Entry() in dict && r.count > 0 && r.count == MatchCount(lowered, r.term)
    decreases |dict|
  {
    if |dict| > 0 {
      CollectMembers(lowered, dict[1..], r);
      assert dict == [dict[0]] + dict[1..];
      if r.Entry() == dict[0] {
        assert r.term == dict[0].term;
        assert r == WithCount(dict[0], r.count);
      }
      assert r in Report(lowered, dict[0]) <==>
               r.Entry() == dict[0] && r.count > 0 && r.count == MatchCount(lowered, r.term);
    }
  }

  /** `handleAnalyze` on a non-blank input: scan the lower-cased text, then sort by severity. */
  function Scan(text: string, dict: seq<BiasItem>): (results: seq<AnalysisResult>)
    requires WellFormedDictionary(dict)
    ensures |results| <= |dict|
  {
    SortByRank(Collect(Lower(text), dict))
  }

  /**
   What the results list holds: each entry of the dictionary whose term occurs
   in the input as a whole word, ignoring case, together with its number of
   occurrences; and nothing else.
   */
  lemma ScanMembers(text: string, dict: seq<BiasItem>, r: AnalysisResult)
    requires WellFormedDictionary(dict)
    ensures r in Scan(text, dict) <==>
              r.Entry() in dict && |r.term| > 0 && r.count > 0 && r.count == MatchCount(text, r.term)
  {
    var found := Collect(Lower(text), dict);
    SortByRankPermutes(found);
    assert r in Scan(text, dict) <==> r in multiset(found);
    CollectMembers(Lower(text), dict, r);
    if r.Entry() in dict {
      var j :| 0 <= j < |dict| && dict[j] == r.Entry();
      assert |r.term| > 0;
      MatchCountOfLowered(text, r.term);
    }
  }

  /** Every flagged entry carries a count of at least one: a zero-count entry never appears. */
  lemma ScanCountsPositive(text: string, dict: seq<BiasItem>)
    requires WellFormedDictionary(dict)
    ensures WellFormedResults(Scan(text, dict))
    ensures forall k :: 0 <= k < |Scan(text, dict)| ==>
              Scan(text, dict)[k].count >= 1 && Scan(text, dict)[k].count == MatchCount(text, Scan(text, dict)[k].term)
  {
    forall k | 0 <= k < |Scan(text, dict)|
      ensures |Scan(text, dict)[k].term| > 0
      ensures Scan(text, dict)[k].count >= 1 && Scan(text, dict)[k].count == MatchCount(text, Scan(text, dict)[k].term)
    {
      ScanMembers(text, dict, Scan(text, dict)[k]);
    }
  }

  /**
   The order of the results: critical first, and within one severity rank the
   order of the dictionary. No other order has both properties.
   */
  lemma ScanOrder(text: string, dict: seq<BiasItem>)
    requires WellFormedDictionary(dict)
    ensures IsStableSortOf(Scan(text, dict), Collect(Lower(text), dict))
  {
    SortByRankIsTheStableSort(Collect(Lower(text), dict), Scan(text, dict));
  }

  /** How many dictionary entries have at least one whole-word match in the text. */
  function Flagged(text: string, dict: seq<BiasItem>): nat
    requires WellFormedDictionary(dict)
  {
    if |dict| == 0 then 0
    else (if MatchCount(text, dict[0].term) > 0 then 1 else 0) + Flagged(text, dict[1..])
  }

  lemma {:induction false} CollectLength(text: string, dict: seq<BiasItem>)
    requires WellFormedDictionary(dict)
    ensures |Collect(Lower(text), dict)| == Flagged(text, dict)
    decreases |dict|
  {
    if |dict| > 0 {
      MatchCountOfLowered(text, dict[0].term);
      CollectLength(text, dict[1..]);
    }
  }

  /** The "Issues Found" badge counts the dictionary entries the text matches, each once. */
  lemma IssuesFound(text: string, dict: seq<BiasItem>)
    requires WellFormedDictionary(dict)
    ensures |Scan(text, dict)| == Flagged(text, dict)
  {
    SortByRankPermutes(Collect(Lower(text), dict));
    assert |multiset(Scan(text, dict))| == |multiset(Collect(Lower(text), dict))|;
    CollectLength(text, dict);
  }

  /** An input in which no term occurs flags nothing. */
  lemma ScanNothingFound(text: string, dict: seq<BiasItem>)
    requires WellFormedDictionary(dict)
    requires forall i :: 0 <= i < |dict| ==> MatchCount(text, dict[i].term) == 0
    ensures Scan(text, dict) == []
  {
    if |Scan(text, dict)| > 0 {
      ScanMembers(text, dict, Scan(text, dict)[0]);
    }
  }
}
