# Bias decoder: a Dafny model of the analyser page

This project models the single page of the job-description bias decoder
(`src/app/page.tsx`). Dafny proves properties of that model.

The page keeps three pieces of state: the input text, whether the text has been
analysed, and the list of results. The model covers:

- **Scan** (`handleAnalyze`). Every dictionary term is counted in the
  lower-cased text as a whole word, ignoring case (the regular expression
  `\bterm\b` with flags `gi`). The entries with a positive count are collected
  in dictionary order, each with its count. The collection is then sorted by
  severity: critical, high, medium, then low or unknown. The sort is stable.
- **Highlight** (`renderHighlightedText`). The text starts as one plain part.
  Each result, in list order, splits every still-plain part on its term with a
  capturing split. A piece that equals the term up to case becomes a highlight
  that carries the result. Highlights are never split again.
- **View**. Typing, the Analyze button (disabled on blank input) and the
  Edit Original Text button (`handleReset`). The model states which of these
  exist in which state, and the invariant that links the results to the text.

The modules:

| file | module | what it holds |
|---|---|---|
| `chars.dfy` | `Chars` | the `\w` class, ASCII lower-casing, `trim` whitespace, joining strings |
| `entries.dfy` | `Entries` | `BiasItem`, `AnalysisResult` |
| `matching.dfy` | `Matching` | `\b`, whole-word match positions, `match(...).length`, capturing `split` |
| `ranking.dfy` | `Ranking` | the severity table and the stable sort |
| `scanner.dfy` | `Scanner` | the body of `handleAnalyze` |
| `highlight.dfy` | `Highlight` | the split-and-wrap loop of `renderHighlightedText` |
| `view.dfy` | `View` | page state, event handlers, reachable-state invariant |

Modelling decisions:

- Text is `seq<char>`.
- Case folding and the word class are ASCII. JavaScript's `\w` is ASCII without
  the `u` flag.
- `\b` holds at a position exactly when the characters on its two sides differ
  in wordness; the ends of the string count as non-word. For a term that does
  not start or end with a word character, this is not the same as "the
  neighbours are non-word characters". `WholeWordForWordTerm` shows the two
  readings agree for terms that do start and end with word characters.
- `match` with `g` and a capturing `split` both find the leftmost match and
  resume after it, as long as the pattern cannot match the empty string.
  `Occurrences` computes that list of match positions once. `MatchCount` is its
  length. `Split` cuts the text at the same positions, so captured matches sit
  at odd indices and plain text at even ones.
- Highlighting splits each plain *part*, not the whole text, so `\b` at the
  edges of a part looks only inside that part.
- Pieces are classified by lower-case equality with the term, as the code
  does. A plain piece that happens to equal the term is therefore highlighted
  too (`PlainPieceEqualToTermExample`).
- Two behaviours of the code to note:
  - An input of only whitespace leaves the state unchanged; it does not give
    an empty result list.
  - `renderHighlightedText` returns nothing for an empty input.
- The dictionary is a parameter. The JSON file it comes from is not part of
  this model.

## Model

| member | source | states |
|---|---|---|
| Entries.WithCount | src/app/page.tsx:16-19 | a result carries every field of its dictionary entry unchanged, plus the count |
| Chars.TrimStart | src/app/page.tsx:28 | what is removed from the front is whitespace, what is kept is a suffix, and the kept text does not start with whitespace |
| Chars.TrimEnd | src/app/page.tsx:28 | what is removed from the back is whitespace, what is kept is a prefix, and the kept text does not end with whitespace |
| Chars.Trim | src/app/page.tsx:28 | the trimmed text is no longer than the input and neither starts nor ends with whitespace; `TrimEmptyIffBlank` relates it to a blank input |
| Chars.TrimEmptyIffBlank | src/app/page.tsx:28 | `trim()` gives the empty string exactly when every character is ECMAScript whitespace or a line terminator |
| Chars.Lower | src/app/page.tsx:31 | lower-casing keeps the length; `LowerCharFacts`, `LowerIdempotent` and `EqIgnoreCaseIff` characterise it |
| Chars.LowerCharFacts | src/app/page.tsx:31 | lower-casing a character keeps it in or out of the word class, and lower-casing twice changes nothing more |
| Chars.LowerIdempotent | src/app/page.tsx:31 | lower-casing an already lower-cased text changes nothing |
| Chars.EqIgnoreCaseIff | src/app/page.tsx:79 | `a.toLowerCase() === b.toLowerCase()` holds exactly when the strings have equal length and agree position by position up to ASCII case |
| Matching.IsBoundary | src/app/page.tsx:36 | `\b` at a position: the characters on its two sides differ in wordness, string ends counting as non-word; `WholeWordForWordTerm` relates it to "the neighbours are not word characters" |
| Matching.WholeWordAt | src/app/page.tsx:36 | `\bterm\b` matches at a position: the term matches there up to case with `\b` on both sides; `WholeWordForWordTerm` and `WholeWordAtIgnoresCase` characterise it |
| Matching.MatchesAtIff | src/app/page.tsx:36 | the literal term matches at `i` exactly when it fits in the text and each character agrees up to case |
| Matching.NextMatch | src/app/page.tsx:36-37 | a found position is at or after the search start and is a whole-word match |
| Matching.NextMatchLeftmost | src/app/page.tsx:36-37 | whenever some whole-word match exists at or after the start, one is found, and it lies no later than that match |
| Matching.Occurrences | src/app/page.tsx:36-37 | the positions `match` with flag `g` finds: characterised by `OccurrencesOrdered`, `OccurrencesSound` and `OccurrencesComplete` |
| Matching.OccurrencesOrdered | src/app/page.tsx:36-37 | matches lie inside the text, are listed left to right, and never overlap |
| Matching.OccurrencesSound | src/app/page.tsx:36-37 | every listed position is a whole-word, case-insensitive occurrence of the term |
| Matching.OccurrencesComplete | src/app/page.tsx:36-37 | every whole-word occurrence is either listed or overlaps a listed match that starts before it |
| Matching.MatchCount | src/app/page.tsx:37 | the length of the `match` result, 0 when it is `null`: the number of listed positions; `MatchCountIgnoresCase` and `MatchCountOfLowered` state its properties |
| Matching.MatchCountIgnoresCase | src/app/page.tsx:36-37 | the count does not change when the text or the term changes ASCII case |
| Matching.MatchCountOfLowered | src/app/page.tsx:31-37 | counting in the lower-cased text gives the same count as counting in the text as typed |
| Matching.WholeWordForWordTerm | src/app/page.tsx:35-36 | for a term that starts and ends with a word character, a whole-word match is one whose neighbours are string ends or non-word characters |
| Matching.MaleNotInsideFemale | src/app/page.tsx:35-37 | "male" is counted 0 times in "female" and once in "male" |
| Matching.DashTermOccurrences | src/app/page.tsx:36-37 | the term "-x" is found in "-x-x" only at position 2, because `\b` before "-" needs a word character on its left |
| Matching.Split | src/app/page.tsx:74-75 | the split has two pieces per counted match, plus one |
| Matching.SplitJoin | src/app/page.tsx:74-75 | joining the split pieces gives back the text |
| Matching.SplitCaptures | src/app/page.tsx:74-79 | the `k`-th odd piece is the text of the `k`-th counted match, equals the term up to case, and the pieces before it join to the text before that match |
| Matching.DashTermSplit | src/app/page.tsx:74-75 | "-x-x" split on "-x" gives the pieces "-x", "-x" and "" |
| Ranking.Rank | src/app/page.tsx:46-49 | a severity's rank is at most 3 |
| Ranking.SeverityRanks | src/app/page.tsx:46-49 | critical ranks 3, high 2, medium 1, low 0 |
| Ranking.UnknownSeverityRanksLow | src/app/page.tsx:46-49 | a severity outside the table ranks 0, the same as `low` (the fallback to 0) |
| Ranking.Insert | src/app/page.tsx:45-51 | a result goes in front of the first result whose rank it reaches (equal or lower); `InsertSorted`, `InsertWithRank` and `InsertPermutes` state that it keeps the order, the stability and the contents |
| Ranking.SortByRank | src/app/page.tsx:45-51 | the stable severity sort; `SortByRankSorted`, `SortByRankWithRank`, `SortByRankPermutes` and `SortByRankIsTheStableSort` characterise it |
| Ranking.SortByRankSorted | src/app/page.tsx:45-51 | after the sort, ranks never increase from left to right |
| Ranking.SortByRankWithRank | src/app/page.tsx:45-51 | the sort is stable: the results of each rank keep their input order |
| Ranking.SortByRankPermutes | src/app/page.tsx:45-51 | the sort only rearranges: the multiset of results is unchanged |
| Ranking.SortedUnique | src/app/page.tsx:45-51 | two rank-sorted lists that list each rank's results in the same order are equal |
| Ranking.SortByRankIsTheStableSort | src/app/page.tsx:44-51 | a list is rank-sorted and keeps each rank's input order exactly when it is the result of the sort |
| Ranking.SeverityOrderExample | src/app/page.tsx:44-51 | results found as medium, critical, low, high, high come out as critical, high, high, medium, low, with the two high results in their found order |
| Scanner.Report | src/app/page.tsx:36-41 | one entry is reported at most once, with its count, when the count is positive; `CollectMembers` states which results appear |
| Scanner.Collect | src/app/page.tsx:34-42 | no more results than dictionary entries, since `Report` gives at most one per entry and `CollectAppend` concatenates them; `CollectAppend`, `CollectMembers` and `CollectLength` characterise it |
| Scanner.CollectAppend | src/app/page.tsx:34-42 | the `forEach` reports the entries in dictionary order: collecting over two halves gives the first half's reports, then the second half's |
| Scanner.CollectMembers | src/app/page.tsx:34-42 | a result is collected exactly when it is a dictionary entry with a positive count equal to its term's count in the text |
| Scanner.Scan | src/app/page.tsx:27-55 | no more results than dictionary entries; `ScanMembers`, `ScanCountsPositive`, `ScanOrder` and `IssuesFound` characterise it |
| Scanner.ScanMembers | src/app/page.tsx:27-55 | a result is listed exactly when it is a dictionary entry whose term occurs in the text as a whole word, ignoring case, carrying that number of occurrences |
| Scanner.ScanCountsPositive | src/app/page.tsx:37-40 | every listed result has a count of at least one, equal to its term's count in the text |
| Scanner.ScanOrder | src/app/page.tsx:44-51 | the results are the stable severity sort of the dictionary-order collection |
| Scanner.ScanNothingFound | src/app/page.tsx:34-42 | when no term occurs in the text, the results list is empty |
| Scanner.CollectLength | src/app/page.tsx:34-42 | the `forEach` pushes one result for each dictionary entry whose term occurs in the text, and no other |
| Scanner.IssuesFound | src/app/page.tsx:227 | the "Issues Found" number is the count of dictionary entries whose term occurs in the text as a whole word, each counted once however often it occurs |
| Highlight.Mark | src/app/page.tsx:78-97 | a piece becomes a highlight of the result exactly when it equals the term up to case, and its text is kept either way |
| Highlight.PassPart | src/app/page.tsx:71-102 | a highlight from an earlier pass is passed on untouched |
| Highlight.MarkAll | src/app/page.tsx:78-98 | one part per split piece; `MarkAllJoined` and `SplitShows` state what the parts show |
| Highlight.MarkAllJoined | src/app/page.tsx:78-98 | marking the pieces never changes the text they show |
| Highlight.Pass | src/app/page.tsx:71-104 | a pass never lowers the number of parts; `PassJoined`, `PassKeepsShows` and `PassShowsMatches` characterise it |
| Highlight.PassJoined | src/app/page.tsx:69-105 | one pass over the parts shows exactly the same text as before |
| Highlight.ComposeFrom | src/app/page.tsx:69-105 | the passes of the results in list order; `ComposeKeepsShows`, `ComposeShowsMatches` and `ComposeSplit` characterise it |
| Highlight.Render | src/app/page.tsx:63-66 | the rendering is `null` exactly when the input is the empty string |
| Highlight.RenderShowsText | src/app/page.tsx:63-112 | the rendered parts join back to the input text |
| Highlight.RenderHighlightsAreTerms | src/app/page.tsx:69-105 | every highlight names a result from the list and shows text equal to that result's term up to case |
| Highlight.PassKeepsShows | src/app/page.tsx:99-102 | a later pass keeps an existing highlight whole, with the same text, result and text position |
| Highlight.ComposeKeepsShows | src/app/page.tsx:69-105 | no later result takes back or moves text that an earlier result highlighted |
| Highlight.SplitShows | src/app/page.tsx:74-97 | marking the split text highlights the `k`-th counted match at its position in the text |
| Highlight.FirstResultFullyHighlighted | src/app/page.tsx:69-105 | every counted match of the first, highest-ranked result is highlighted in the final rendering, at its own position |
| Highlight.PassShowsMatches | src/app/page.tsx:71-97 | one pass highlights the `m`-th counted match of its term in every plain part, at that match's position in the whole text |
| Highlight.ComposeShowsMatches | src/app/page.tsx:69-105 | the matches the first of a list of results highlights stay highlighted, at the same position, after all the passes |
| Highlight.ComposeSplit | src/app/page.tsx:69-105 | the passes over a list of results are the passes over its first `i` results followed by the passes over the rest |
| Highlight.LaterResultShowsMatches | src/app/page.tsx:69-105 | from any starting parts, each match the pass of `rs[i]` finds in a part left plain by the results before it is a highlight of `rs[i]` after all the passes |
| Highlight.EveryResultHighlightsPlainMatches | src/app/page.tsx:63-105 | in the rendering, every result highlights each counted match of its term in the text that the results before it left plain, at that match's position |
| Highlight.RenderNoResults | src/app/page.tsx:63-66 | with no results the rendering is the non-empty input as one plain part |
| Highlight.PlainPieceEqualToTermExample | src/app/page.tsx:74-97 | in "-x-x" the term "-x" is counted once, yet both copies are highlighted, because an unmatched piece equal to the term is wrapped too |
| View.Analyze | src/app/page.tsx:27-55 | a blank input leaves the state unchanged; otherwise the page is analysed and the results are the scan of the text; the text is always kept |
| View.Reset | src/app/page.tsx:57-60 | pressing Edit Original Text returns to editing with no results and the text kept |
| View.Edit | src/app/page.tsx:186-188 | typing changes the text and nothing else |
| View.Enabled | src/app/page.tsx:168-205 | which controls exist in which state; `StepConsistent` shows the enabled actions keep the page invariant |
| View.Step | src/app/page.tsx:168-205 | only typing changes the text, and only Analyze can add results; `StepConsistent` states what each action preserves |
| View.Consistent | src/app/page.tsx:22-60 | the page invariant; `ReachableConsistent` proves every reachable state meets it |
| View.StepConsistent | src/app/page.tsx:168-205 | every action the page offers keeps the page invariant |
| View.RunConsistent | src/app/page.tsx:22-60 | any sequence of actions from a state that meets the invariant keeps it |
| View.ReachableConsistent | src/app/page.tsx:22-24 | every state reachable from the initial state fits the 5000-character box, has no results while editing, and after analysis holds exactly the scan of a non-blank text |
| View.AnalyzeThenReset | src/app/page.tsx:27-60 | analysing and then pressing Edit Original Text returns to the same editing state |
| View.AnalyzeIdempotent | src/app/page.tsx:27-55 | analysing the same text twice gives the same state as analysing it once |
| View.AnalyzedRendering | src/app/page.tsx:180-182 | after an analysis the text panel shows the input text exactly, and every highlight comes from the results list and shows that result's term |
| View.NothingDetectedIff | src/app/page.tsx:243-248 | "No Biases Detected!" shows after an analysis exactly when no dictionary term occurs in the text as a whole word |
| View.NothingDetectedRendering | src/app/page.tsx:180-182 | when no term occurs, the analysed page lists nothing and shows the input text as it is, with no highlight |

## Left out

- Regular-expression syntax in terms: the code puts each term into a `RegExp`
  unescaped. The model treats every term as literal text.
- Empty terms: for an empty term the code would build `\b\b`, whose empty
  matches make `match` count word boundaries and make `split` cut at them. The
  model requires every term to be non-empty (`WellFormedDictionary`).
- Non-ASCII text: `toLowerCase` and the `i` flag fold Unicode case, and
  lower-casing can change the length of some strings. The model folds ASCII
  only, and strings are sequences of characters rather than UTF-16 code units.
- Severity names inherited from `Object.prototype` (such as "toString"): in the
  code they give the comparator a `NaN` instead of 0. The model ranks every
  unknown severity as 0.
- The JSX markup, the CSS classes of each severity, the span `title`, the
  `Math.random()` keys, and the result cards: these are presentation and have
  no effect on which text is shown or highlighted.
- React's `useState` scheduling: each handler is modelled as one atomic state
  change.
- The dictionary file `bias_dictionary.json` is not part of this model. The
  dictionary is a parameter of every operation that uses it.
- Ranking.Rank: its contract states only the range; `SeverityRanks` gives the
  table itself, and `UnknownSeverityRanksLow` the fallback to 0 for any other
  severity.
