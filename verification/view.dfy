/**
 The page's state and its event handlers: the input text, whether the text has
 been analysed, and the results list. While editing, the page shows a text box
 and the Analyze button; once analysed, it shows the highlighted text, the
 results and the Edit Original Text button, which resets the analysis.
 */
module View {
  import opened Chars
  import opened Entries
  import opened Matching
  import opened Scanner
  import opened Highlight

  datatype State = State(inputText: string, isAnalyzed: bool, results: seq<AnalysisResult>)

  /** The three `useState` initial values. */
  const Initial: State := State("", false, [])

  /** The text box's `maxLength`: the browser accepts no longer input. */
  const MaxLength: nat := 5000

  /** `handleAnalyze`: a blank input is ignored; otherwise the results replace the old ones. */
  function Analyze(st: State, dict: seq<BiasItem>): (next: State)
    requires WellFormedDictionary(dict)
    ensures next.inputText == st.inputText
    ensures IsBlank(st.inputText) ==> next == st
    ensures !IsBlank(st.inputText) ==> next.isAnalyzed && next.results == Scan(st.inputText, dict)
  {
    TrimEmptyIffBlank(st.inputText);
    if Trim(st.inputText) == "" then st else State(st.inputText, true, Scan(st.inputText, dict))
  }

  /** `handleReset`: back to editing, with the results cleared and the text kept. */
  function Reset(st: State): (next: State)
    ensures !next.isAnalyzed && next.results == [] && next.inputText == st.inputText
  {
    State(st.inputText, false, [])
  }

  /** The text box's `onChange`: only the input text changes. */
  function Edit(st: State, text: string): (next: State)
    ensures next.inputText == text && next.isAnalyzed == st.isAnalyzed && next.results == st.results
  {
    st.(inputText := text)
  }

  /** What the user can do: type into the text box, press Analyze, or press Edit Original Text. */
  datatype Event = Type(text: string) | PressAnalyze | PressEdit

  /**
   The text box and the Analyze button exist only while editing, the text box
   takes at most `MaxLength` characters, and Analyze is disabled on a blank
   input; the Edit Original Text button exists only after an analysis.
   */
  predicate Enabled(st: State, ev: Event) {
    match ev
    case Type(text) => !st.isAnalyzed && |text| <= MaxLength
    case PressAnalyze => !st.isAnalyzed && Trim(st.inputText) != ""
    case PressEdit => st.isAnalyzed
  }

  /** The handler an event runs: only typing changes the text, and only Analyze produces results. */
  function Step(st: State, ev: Event, dict: seq<BiasItem>): (next: State)
    requires WellFormedDictionary(dict)
    ensures next.inputText == (if ev.Type? then ev.text else st.inputText)
    ensures !ev.PressAnalyze? ==> |next.results| <= |st.results|
  {
    match ev
    case Type(text) => Edit(st, text)
    case PressAnalyze => Analyze(st, dict)
    case PressEdit => Reset(st)
  }

  /**
   The invariant of the page: the input fits the text box; while editing there
   are no results; after an analysis the input is not blank and the results
   are exactly the scan of the input text.
   */
  predicate Consistent(st: State, dict: seq<BiasItem>)
    requires WellFormedDictionary(dict)
  {
    && |st.inputText| <= MaxLength
    && (if st.isAnalyzed then !IsBlank(st.inputText) && st.results == Scan(st.inputText, dict)
        else st.results == [])
  }

  lemma StepConsistent(st: State, ev: Event, dict: seq<BiasItem>)
    requires WellFormedDictionary(dict) && Consistent(st, dict) && Enabled(st, ev)
    ensures Consistent(Step(st, ev, dict), dict)
  {
  }

  /** Apply the enabled events in order; a disabled event changes nothing. */
  function Run(st: State, evs: seq<Event>, dict: seq<BiasItem>): State
    requires WellFormedDictionary(dict)
    decreases |evs|
  {
    if |evs| == 0 then st
    else Run(if Enabled(st, evs[0]) then Step(st, evs[0], dict) else st, evs[1..], dict)
  }

  /** Every state the page can reach from its initial state is consistent. */
  lemma {:induction false} RunConsistent(st: State, evs: seq<Event>, dict: seq<BiasItem>)
    requires WellFormedDictionary(dict) && Consistent(st, dict)
    ensures Consistent(Run(st, evs, dict), dict)
    decreases |evs|
  {
    if |evs| > 0 {
      var next := if Enabled(st, evs[0]) then Step(st, evs[0], dict) else st;
      if Enabled(st, evs[0]) {
        StepConsistent(st, evs[0], dict);
      }
      RunConsistent(next, evs[1..], dict);
    }
  }

  lemma ReachableConsistent(evs: seq<Event>, dict: seq<BiasItem>)
    requires WellFormedDictionary(dict)
    ensures Consistent(Run(Initial, evs, dict), dict)
  {
    RunConsistent(Initial, evs, dict);
  }

  /** Analysing and then pressing Edit Original Text returns to the same editing state. */
  lemma AnalyzeThenReset(st: State, dict: seq<BiasItem>)
    requires WellFormedDictionary(dict) && Consistent(st, dict) && !st.isAnalyzed
    ensures Reset(Analyze(st, dict)) == st
  {
  }

  /** Analysing an unchanged text again gives the same results. */
  lemma AnalyzeIdempotent(st: State, dict: seq<BiasItem>)
    requires WellFormedDictionary(dict)
    ensures Analyze(Analyze(st, dict), dict) == Analyze(st, dict)
  {
  }

  /**
   In an analysed state the text panel renders the input text itself, and
   every highlighted span names one of the listed results and shows that
   result's term up to case.
   */
  lemma AnalyzedRendering(st: State, dict: seq<BiasItem>)
    requires WellFormedDictionary(dict) && Consistent(st, dict) && st.isAnalyzed
    ensures WellFormedResults(st.results)
    ensures Render(st.inputText, st.results).Shown?
    ensures Joined(Render(st.inputText, st.results).parts) == st.inputText
    ensures HighlightsFrom(Render(st.inputText, st.results).parts, st.results)
  {
    ScanCountsPositive(st.inputText, dict);
    RenderShowsText(st.inputText, st.results);
    RenderHighlightsAreTerms(st.inputText, st.results);
  }

  /**
   "No Biases Detected!" is shown after an analysis exactly when no term of the
   dictionary occurs in the text as a whole word.
   */
  lemma NothingDetectedIff(st: State, dict: seq<BiasItem>)
    requires WellFormedDictionary(dict) && Consistent(st, dict) && st.isAnalyzed
    ensures |st.results| == 0 <==> forall i :: 0 <= i < |dict| ==> MatchCount(st.inputText, dict[i].term) == 0
  {
    if forall i :: 0 <= i < |dict| ==> MatchCount(st.inputText, dict[i].term) == 0 {
      ScanNothingFound(st.inputText, dict);
    } else {
      var i :| 0 <= i < |dict| && MatchCount(st.inputText, dict[i].term) != 0;
      var n := MatchCount(st.inputText, dict[i].term);
      ScanMembers(st.inputText, dict, WithCount(dict[i], n));
    }
  }

  /**
   When no term occurs, the analysed page lists nothing and shows the input
   text as it is, without any highlight.
   */
  lemma NothingDetectedRendering(st: State, dict: seq<BiasItem>)
    requires WellFormedDictionary(dict) && Consistent(st, dict) && st.isAnalyzed
    requires forall i :: 0 <= i < |dict| ==> MatchCount(st.inputText, dict[i].term) == 0
    ensures st.results == []
    ensures Render(st.inputText, st.results) == Shown([Plain(st.inputText)])
  {
    ScanNothingFound(st.inputText, dict);
    assert IsBlank("");
    RenderNoResults(st.inputText);
  }
}
