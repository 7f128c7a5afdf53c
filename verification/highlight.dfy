/**
 The highlighted rendering of the analysed text. The text starts as one plain
 part; for each result, in the order of the results list, every plain part is
 split on the result's term and each piece that equals the term up to case
 becomes a highlight carrying that result. Highlights are never split again,
 so where matches of two results overlap the earlier result keeps the text.
 */
module Highlight {
  import opened Chars
  import opened Entries
  import opened Matching

  /** A rendered part: a plain string, or a span showing `text` for `result`. */
  datatype Part = Plain(text: string) | Highlighted(text: string, result: AnalysisResult)

  /** The text the parts display, in order. */
  function Joined(parts: seq<Part>): string {
    if |parts| == 0 then "" else parts[0].text + Joined(parts[1..])
  }

  lemma {:induction false} JoinedAppend(a: seq<Part>, b: seq<Part>)
    ensures Joined(a + b) == Joined(a) + Joined(b)
    decreases |a|
  {
    if |a| == 0 {
      assert a + b == b;
    } else {
      assert (a + b)[1..] == a[1..] + b;
      JoinedAppend(a[1..], b);
    }
  }

  /** The test on each split piece: wrap it when it equals the term, ignoring case. */
  function Mark(piece: string, r: AnalysisResult): (part: Part)
    ensures part.text == piece
    ensures part.Highlighted? <==> EqIgnoreCase(piece, r.term)
    ensures part.Highlighted? ==> part.result == r
  {
    if Lower(piece) == Lower(r.term) then Highlighted(piece, r) else Plain(piece)
  }

  /** `split.forEach(...)`: mark every piece, keeping their order. */
  function MarkAll(pieces: seq<string>, r: AnalysisResult): (parts: seq<Part>)
    ensures |parts| == |pieces|
  {
    if |pieces| == 0 then [] else [Mark(pieces[0], r)] + MarkAll(pieces[1..], r)
  }

  lemma {:induction false} MarkAllIndex(pieces: seq<string>, r: AnalysisResult, k: nat)
    requires k < |pieces|
    ensures MarkAll(pieces, r)[k] == Mark(pieces[k], r)
    decreases k
  {
    if k > 0 {
      MarkAllIndex(pieces[1..], r, k - 1);
    }
  }

  lemma {:induction false} MarkAllAppend(a: seq<string>, b: seq<string>, r: AnalysisResult)
    ensures MarkAll(a + b, r) == MarkAll(a, r) + MarkAll(b, r)
    decreases |a|
  {
    if |a| == 0 {
      assert a + b == b;
    } else {
      assert (a + b)[1..] == a[1..] + b;
      MarkAllAppend(a[1..], b, r);
    }
  }

  /** Marking changes how pieces are shown, never which text is shown. */
  lemma {:induction false} MarkAllJoined(pieces: seq<string>, r: AnalysisResult)
    ensures Joined(MarkAll(pieces, r)) == Concat(pieces)
    decreases |pieces|
  {
    if |pieces| > 0 {
      MarkAllJoined(pieces[1..], r);
    }
  }

  /** What one pass does to one part: split a plain string, keep a highlight as it is. */
  function PassPart(part: Part, r: AnalysisResult): (parts: seq<Part>)
    requires |r.term| > 0
    ensures part.Highlighted? ==> parts == [part]
  {
    match part
    case Plain(s) => MarkAll(Split(s, r.term), r)
    case Highlighted(_, _) => [part]
  }

  /** One iteration of `results.forEach`: the new parts of every part, concatenated. */
  function Pass(parts: seq<Part>, r: AnalysisResult): (next: seq<Part>)
    requires |r.term| > 0
    ensures |next| >= |parts|
  {
    if |parts| == 0 then [] else PassPart(parts[0], r) + Pass(parts[1..], r)
  }

  lemma {:induction false} PassAppend(a: seq<Part>, b: seq<Part>, r: AnalysisResult)
    requires |r.term| > 0
    ensures Pass(a + b, r) == Pass(a, r) + Pass(b, r)
    decreases |a|
  {
    if |a| == 0 {
      assert a + b == b;
    } else {
      assert (a + b)[1..] == a[1..] + b;
      PassAppend(a[1..], b, r);
    }
  }

  /** A pass shows the same text as before. */
  lemma {:induction false} PassJoined(parts: seq<Part>, r: AnalysisResult)
    requires |r.term| > 0
    ensures Joined(Pass(parts, r)) == Joined(parts)
    decreases |parts|
  {
    if |parts| > 0 {
      PassJoined(parts[1..], r);
      JoinedAppend(PassPart(parts[0], r), Pass(parts[1..], r));
      match parts[0]
      case Plain(s) =>
        MarkAllJoined(Split(s, r.term), r);
        SplitJoin(s, r.term);
      case Highlighted(_, _) =>
        assert Joined([parts[0]]) == parts[0].text + Joined([]);
    }
  }

  /** Apply the passes of `rs` in order. */
  function ComposeFrom(parts: seq<Part>, rs: seq<AnalysisResult>): seq<Part>
    requires WellFormedResults(rs)
    decreases |rs|
  {
    if |rs| == 0 then parts else ComposeFrom(Pass(parts, rs[0]), rs[1..])
  }

  /** The value of `renderHighlightedText`: `null` for an empty input, else the parts. */
  datatype Rendering = Nothing | Shown(parts: seq<Part>)

  function Render(text: string, rs: seq<AnalysisResult>): (out: Rendering)
    requires WellFormedResults(rs)
    ensures out.Nothing? <==> text == ""
  {
    if text == "" then Nothing else Shown(ComposeFrom([Plain(text)], rs))
  }

  lemma {:induction false} ComposeJoined(parts: seq<Part>, rs: seq<AnalysisResult>)
    requires WellFormedResults(rs)
    ensures Joined(ComposeFrom(parts, rs)) == Joined(parts)
    decreases |rs|
  {
    if |rs| > 0 {
      PassJoined(parts, rs[0]);
      ComposeJoined(Pass(parts, rs[0]), rs[1..]);
    }
  }

  /** The rendering shows the input text exactly: nothing is lost, added or reordered. */
  lemma RenderShowsText(text: string, rs: seq<AnalysisResult>)
    requires WellFormedResults(rs)
    ensures Render(text, rs).Shown? ==> Joined(Render(text, rs).parts) == text
  {
    if text != "" {
      ComposeJoined([Plain(text)], rs);
      assert Joined([Plain(text)]) == text + Joined([]);
    }
  }

  /** Every highlight shows text equal to its result's term up to case, for a result in `rs`. */
  predicate HighlightsFrom(parts: seq<Part>, rs: seq<AnalysisResult>) {
    forall k :: 0 <= k < |parts| && parts[k].Highlighted? ==>
      parts[k].result in rs && EqIgnoreCase(parts[k].text, parts[k].result.term)
  }

  lemma {:induction false} MarkAllHighlights(pieces: seq<string>, r: AnalysisResult, rs: seq<AnalysisResult>)
    requires r in rs
    ensures HighlightsFrom(MarkAll(pieces, r), rs)
  {
    forall k | 0 <= k < |pieces|
      ensures MarkAll(pieces, r)[k] == Mark(pieces[k], r)
    {
      MarkAllIndex(pieces, r, k);
    }
  }

  lemma HighlightsFromAppend(a: seq<Part>, b: seq<Part>, rs: seq<AnalysisResult>)
    requires HighlightsFrom(a, rs) && HighlightsFrom(b, rs)
    ensures HighlightsFrom(a + b, rs)
  {
    forall k | 0 <= k < |a + b| && (a + b)[k].Highlighted?
      ensures (a + b)[k].result in rs && EqIgnoreCase((a + b)[k].text, (a + b)[k].result.term)
    {
      if k >= |a| {
        assert (a + b)[k] == b[k - |a|];
      }
    }
  }

  lemma {:induction false} PassHighlights(parts: seq<Part>, r: AnalysisResult, rs: seq<AnalysisResult>)
    requires |r.term| > 0 && r in rs && HighlightsFrom(parts, rs)
    ensures HighlightsFrom(Pass(parts, r), rs)
    decreases |parts|
  {
    if |parts| > 0 {
      assert HighlightsFrom(parts[1..], rs) by {
        forall k | 0 <= k < |parts[1..]| && parts[1..][k].Highlighted?
          ensures parts[1..][k].result in rs && EqIgnoreCase(parts[1..][k].text, parts[1..][k].result.term)
        {
          assert parts[1..][k] == parts[k + 1];
        }
      }
      PassHighlights(parts[1..], r, rs);
      match parts[0]
      case Plain(s) =>
        MarkAllHighlights(Split(s, r.term), r, rs);
      case Highlighted(_, _) =>
        assert PassPart(parts[0], r)[0] == parts[0];
      HighlightsFromAppend(PassPart(parts[0], r), Pass(parts[1..], r), rs);
    }
  }

  lemma {:induction false} ComposeHighlights(parts: seq<Part>, todo: seq<AnalysisResult>, rs: seq<AnalysisResult>)
    requires WellFormedResults(todo) && HighlightsFrom(parts, rs)
    requires forall j :: 0 <= j < |todo| ==> todo[j] in rs
    ensures HighlightsFrom(ComposeFrom(parts, todo), rs)
    decreases |todo|
  {
    if |todo| > 0 {
      PassHighlights(parts, todo[0], rs);
      ComposeHighlights(Pass(parts, todo[0]), todo[1..], rs);
    }
  }

  /**
   Every highlighted span names one of the results and shows text that equals
   that result's term up to case.
   */
  lemma RenderHighlightsAreTerms(text: string, rs: seq<AnalysisResult>)
    requires WellFormedResults(rs)
    ensures Render(text, rs).Shown? ==> HighlightsFrom(Render(text, rs).parts, rs)
  {
    if text != "" {
      ComposeHighlights([Plain(text)], rs, rs);
    }
  }

  /** Part `k` is a highlight of `h` for result `r`, and starts at character `pos` of the text. */
  predicate ShowsAt(parts: seq<Part>, k: nat, pos: nat, h: string, r: AnalysisResult) {
    k < |parts| && parts[k] == Highlighted(h, r) && |Joined(parts[..k])| == pos
  }

  /** A pass leaves a highlight as it is, between the passes over the parts around it. */
  lemma PassAround(parts: seq<Part>, r: AnalysisResult, k: nat)
    requires |r.term| > 0 && k < |parts| && parts[k].Highlighted?
    ensures Pass(parts, r) == Pass(parts[..k], r) + ([parts[k]] + Pass(parts[k + 1..], r))
  {
    assert parts == parts[..k] + ([parts[k]] + parts[k + 1..]);
    PassAppend(parts[..k], [parts[k]] + parts[k + 1..], r);
    assert ([parts[k]] + parts[k + 1..])[1..] == parts[k + 1..];
  }

  /** A pass never splits or moves a highlight that is already there. */
  lemma PassKeepsShows(parts: seq<Part>, r: AnalysisResult, k: nat, pos: nat, h: string, owner: AnalysisResult)
      returns (k': nat)
    requires |r.term| > 0 && ShowsAt(parts, k, pos, h, owner)
    ensures ShowsAt(Pass(parts, r), k', pos, h, owner)
  {
    var before := Pass(parts[..k], r);
    k' := |before|;
    PassAround(parts, r, k);
    assert Pass(parts, r)[..k'] == before;
    PassJoined(parts[..k], r);
  }

  /** A pass treats part `k` on its own, between the passes over the parts around it. */
  lemma PassAt(parts: seq<Part>, r: AnalysisResult, k: nat)
    requires |r.term| > 0 && k < |parts|
    ensures Pass(parts, r) == Pass(parts[..k], r) + PassPart(parts[k], r) + Pass(parts[k + 1..], r)
  {
    var tail := [parts[k]] + parts[k + 1..];
    assert parts == parts[..k] + tail;
    PassAppend(parts[..k], tail, r);
    assert tail[0] == parts[k] && tail[1..] == parts[k + 1..];
    assert Pass(tail, r) == PassPart(parts[k], r) + Pass(parts[k + 1..], r);
  }

  /** A pass replaces part `k` by its own new parts and keeps the length of the text before it. */
  lemma PassSplice(parts: seq<Part>, r: AnalysisResult, k: nat) returns (before: seq<Part>, after: seq<Part>)
    requires |r.term| > 0 && k < |parts|
    ensures Pass(parts, r) == before + PassPart(parts[k], r) + after
    ensures |Joined(before)| == |Joined(parts[..k])|
  {
    before, after := Pass(parts[..k], r), Pass(parts[k + 1..], r);
    PassAt(parts, r, k);
    PassJoined(parts[..k], r);
  }

  /** The same, for a sequence known to be `a + b + c` and a known length of the text of `a`. */
  lemma ShowsAtSplice(whole: seq<Part>, a: seq<Part>, b: seq<Part>, c: seq<Part>, i: nat, pos: nat, h: string, r: AnalysisResult, pre: nat)
    requires whole == a + b + c && |Joined(a)| == pre && ShowsAt(b, i, pos, h, r)
    ensures ShowsAt(whole, |a| + i, pre + pos, h, r)
  {
    ShowsAtShift(a, b, c, i, pos, h, r);
  }

  /** A highlight inside `b` stays one inside `a + b + c`, moved by the parts and text of `a`. */
  lemma ShowsAtShift(a: seq<Part>, b: seq<Part>, c: seq<Part>, i: nat, pos: nat, h: string, r: AnalysisResult)
    requires ShowsAt(b, i, pos, h, r)
    ensures ShowsAt(a + b + c, |a| + i, |Joined(a)| + pos, h, r)
  {
    assert (a + b + c)[..|a| + i] == a + b[..i];
    assert (a + b + c)[|a| + i] == b[i];
    JoinedAppend(a, b[..i]);
  }

  /** Later passes keep every highlight in place; `k'` is where it ends up. */
  lemma {:induction false} ComposeKeepsShows(parts: seq<Part>, rs: seq<AnalysisResult>, k: nat, pos: nat, h: string, owner: AnalysisResult)
      returns (k': nat)
    requires WellFormedResults(rs) && ShowsAt(parts, k, pos, h, owner)
    ensures ShowsAt(ComposeFrom(parts, rs), k', pos, h, owner)
    decreases |rs|
  {
    if |rs| == 0 {
      k' := k;
    } else {
      var j := PassKeepsShows(parts, rs[0], k, pos, h, owner);
      k' := ComposeKeepsShows(Pass(parts, rs[0]), rs[1..], j, pos, h, owner);
    }
  }

  lemma {:induction false} MarkAllPrefixJoined(pieces: seq<string>, r: AnalysisResult, m: nat)
    requires m <= |pieces|
    ensures Joined(MarkAll(pieces, r)[..m]) == Concat(pieces[..m])
  {
    MarkAllAppend(pieces[..m], pieces[m..], r);
    assert pieces == pieces[..m] + pieces[m..];
    assert MarkAll(pieces, r)[..m] == MarkAll(pieces[..m], r);
    MarkAllJoined(pieces[..m], r);
  }

  /** A piece equal to the term up to case is shown as a highlight, after the text of the pieces before it. */
  lemma MarkAllShows(pieces: seq<string>, r: AnalysisResult, j: nat, pos: nat, h: string)
    requires j < |pieces| && pieces[j] == h && EqIgnoreCase(h, r.term)
    requires |Concat(pieces[..j])| == pos
    ensures ShowsAt(MarkAll(pieces, r), j, pos, h, r)
  {
    MarkAllIndex(pieces, r, j);
    MarkAllPrefixJoined(pieces, r, j);
  }

  /** The first pass over the whole text marks the pieces of the text split on the term. */
  lemma FirstPass(text: string, r: AnalysisResult)
    requires |r.term| > 0
    ensures Pass([Plain(text)], r) == MarkAll(Split(text, r.term), r)
  {
    assert [Plain(text)][1..] == [];
  }

  /** Marking the split text highlights the `k`-th counted match of the term, at position `o`. */
  lemma SplitShows(text: string, r: AnalysisResult, k: nat) returns (o: nat)
    requires |r.term| > 0 && k < MatchCount(text, r.term)
    ensures o == Occurrences(text, r.term, 0)[k] && o + |r.term| <= |text|
    ensures ShowsAt(MarkAll(Split(text, r.term), r), 2 * k + 1, o, text[o..o + |r.term|], r)
  {
    o := SplitCaptures(text, r.term, k);
    assert |text[..o]| == o;
    MarkAllShows(Split(text, r.term), r, 2 * k + 1, o, text[o..o + |r.term|]);
  }

  lemma RenderFirstPass(text: string, rs: seq<AnalysisResult>)
    requires WellFormedResults(rs) && |rs| > 0 && text != ""
    ensures Render(text, rs).parts == ComposeFrom(MarkAll(Split(text, rs[0].term), rs[0]), rs[1..])
  {
    FirstPass(text, rs[0]);
  }

  /**
   The first pass highlights every match of the first result's term that the
   scan counted, and no later result can take that text back: the top-ranked
   result wins wherever its matches overlap those of results after it.
   */
  lemma FirstResultFullyHighlighted(text: string, rs: seq<AnalysisResult>, k: nat) returns (o: nat, j: nat)
    requires WellFormedResults(rs) && |rs| > 0 && text != ""
    requires k < MatchCount(text, rs[0].term)
    ensures o == Occurrences(text, rs[0].term, 0)[k] && o + |rs[0].term| <= |text|
    ensures ShowsAt(Render(text, rs).parts, j, o, text[o..o + |rs[0].term|], rs[0])
  {
    o := SplitShows(text, rs[0], k);
    var h := text[o..o + |rs[0].term|];
    j := ComposeKeepsShows(MarkAll(Split(text, rs[0].term), rs[0]), rs[1..], 2 * k + 1, o, h, rs[0]);
    RenderFirstPass(text, rs);
  }

  /** A highlight among the new parts of part `k` is a highlight of the whole pass, moved by the text before the part. */
  lemma PassShowsPart(parts: seq<Part>, r: AnalysisResult, k: nat, i: nat, pos: nat, h: string, owner: AnalysisResult)
      returns (j: nat)
    requires |r.term| > 0 && k < |parts| && ShowsAt(PassPart(parts[k], r), i, pos, h, owner)
    ensures ShowsAt(Pass(parts, r), j, |Joined(parts[..k])| + pos, h, owner)
  {
    var before, after := PassSplice(parts, r, k);
    j := |before| + i;
    ShowsAtSplice(Pass(parts, r), before, PassPart(parts[k], r), after, i, pos, h, owner, |Joined(parts[..k])|);
  }

  /**
   One pass highlights every match of its term in every plain part: the
   `m`-th match in plain part `k`, found at `o` within that part, is shown
   at `o` plus the length of the text before the part.
   */
  lemma PassShowsMatches(parts: seq<Part>, r: AnalysisResult, k: nat, m: nat) returns (o: nat, j: nat)
    requires |r.term| > 0 && k < |parts| && parts[k].Plain?
    requires m < MatchCount(parts[k].text, r.term)
    ensures o == Occurrences(parts[k].text, r.term, 0)[m] && o + |r.term| <= |parts[k].text|
    ensures ShowsAt(Pass(parts, r), j, |Joined(parts[..k])| + o, parts[k].text[o..o + |r.term|], r)
  {
    o := SplitShows(parts[k].text, r, m);
    assert PassPart(parts[k], r) == MarkAll(Split(parts[k].text, r.term), r);
    j := PassShowsPart(parts, r, k, 2 * m + 1, o, parts[k].text[o..o + |r.term|], r);
  }

  /** The matches the first result `r` of `rs` highlights in `parts` stay highlighted through all the later passes. */
  lemma ComposeShowsMatches(parts: seq<Part>, rs: seq<AnalysisResult>, r: AnalysisResult, k: nat, m: nat) returns (o: nat, j: nat)
    requires WellFormedResults(rs) && |rs| > 0 && rs[0] == r && k < |parts| && parts[k].Plain?
    requires m < MatchCount(parts[k].text, r.term)
    ensures o == Occurrences(parts[k].text, r.term, 0)[m] && o + |r.term| <= |parts[k].text|
    ensures ShowsAt(ComposeFrom(parts, rs), j, |Joined(parts[..k])| + o, parts[k].text[o..o + |r.term|], r)
  {
    var j0;
    o, j0 := PassShowsMatches(parts, r, k, m);
    j := ComposeKeepsShows(Pass(parts, r), rs[1..], j0, |Joined(parts[..k])| + o, parts[k].text[o..o + |r.term|], r);
  }

  /** Composing over `rs` is composing over its first `i` results, then over the rest. */
  lemma {:induction false} ComposeSplit(parts: seq<Part>, rs: seq<AnalysisResult>, i: nat)
    requires WellFormedResults(rs) && i <= |rs|
    ensures WellFormedResults(rs[..i]) && WellFormedResults(rs[i..])
    ensures ComposeFrom(parts, rs) == ComposeFrom(ComposeFrom(parts, rs[..i]), rs[i..])
    decreases i
  {
    if i > 0 {
      ComposeSplit(Pass(parts, rs[0]), rs[1..], i - 1);
      assert rs[..i][0] == rs[0] && rs[..i][1..] == rs[1..][..i - 1];
      assert rs[1..][i - 1..] == rs[i..];
    } else {
      assert rs[..0] == [] && rs[0..] == rs;
    }
  }

  /**
   Every result highlights each of its matches in the text that the results
   before it left plain: when the pass of `rs[i]` begins with `parts`, the
   `m`-th match of its term in plain part `k` is a highlight of `rs[i]` in the
   final rendering, at that match's position in the text.
   */
  lemma EveryResultHighlightsPlainMatches(text: string, rs: seq<AnalysisResult>, i: nat, parts: seq<Part>, k: nat, m: nat)
      returns (o: nat, j: nat)
    requires WellFormedResults(rs) && text != "" && i < |rs|
    requires WellFormedResults(rs[..i]) && parts == ComposeFrom([Plain(text)], rs[..i])
    requires k < |parts| && parts[k].Plain? && m < MatchCount(parts[k].text, rs[i].term)
    ensures o == Occurrences(parts[k].text, rs[i].term, 0)[m] && o + |rs[i].term| <= |parts[k].text|
    ensures ShowsAt(Render(text, rs).parts, j, |Joined(parts[..k])| + o, parts[k].text[o..o + |rs[i].term|], rs[i])
  {
    o, j := LaterResultShowsMatches([Plain(text)], rs, i, parts, k, m);
  }

  /** The same for passes that start from any parts: the pass of `rs[i]` highlights its matches for good. */
  lemma LaterResultShowsMatches(start: seq<Part>, rs: seq<AnalysisResult>, i: nat, parts: seq<Part>, k: nat, m: nat)
      returns (o: nat, j: nat)
    requires WellFormedResults(rs) && i < |rs|
    requires WellFormedResults(rs[..i]) && parts == ComposeFrom(start, rs[..i])
    requires k < |parts| && parts[k].Plain? && m < MatchCount(parts[k].text, rs[i].term)
    ensures o == Occurrences(parts[k].text, rs[i].term, 0)[m] && o + |rs[i].term| <= |parts[k].text|
    ensures ShowsAt(ComposeFrom(start, rs), j, |Joined(parts[..k])| + o, parts[k].text[o..o + |rs[i].term|], rs[i])
  {
    WellFormedSlices(rs, i);
    o, j := ComposeShowsMatches(parts, rs[i..], rs[i], k, m);
    ComposeSplitShows(start, rs, i, j, |Joined(parts[..k])| + o, parts[k].text[o..o + |rs[i].term|], rs[i]);
  }

  /** A highlight shown after the passes of `rs[i..]` over what `rs[..i]` left is shown after all of `rs`. */
  lemma ComposeSplitShows(start: seq<Part>, rs: seq<AnalysisResult>, i: nat, j: nat, pos: nat, h: string, r: AnalysisResult)
    requires WellFormedResults(rs) && i <= |rs|
    requires WellFormedResults(rs[..i]) && WellFormedResults(rs[i..])
    requires ShowsAt(ComposeFrom(ComposeFrom(start, rs[..i]), rs[i..]), j, pos, h, r)
    ensures ShowsAt(ComposeFrom(start, rs), j, pos, h, r)
  {
    ComposeSplit(start, rs, i);
  }

  /** With no results the rendering is the text as one plain part. */
  lemma RenderNoResults(text: string)
    requires text != ""
    ensures Render(text, []) == Shown([Plain(text)])
  {
  }

  /**
   A plain piece that equals the term is highlighted too, although the regex
   did not match there: in "-x-x" the term "-x" occurs once as a whole word,
   yet both copies are shown as highlights.
   */
  lemma PlainPieceEqualToTermExample(x: AnalysisResult)
    requires x.term == "-x"
    ensures MatchCount("-x-x", x.term) == 1
    ensures Render("-x-x", [x]) == Shown([Highlighted("-x", x), Highlighted("-x", x), Plain("")])
  {
    DashTermOccurrences();
    DashTermSplit();
    RenderFirstPass("-x-x", [x]);
    var pieces := ["-x", "-x", ""];
    var parts := MarkAll(pieces, x);
    assert ComposeFrom(parts, [x][1..]) == parts by {
      assert [x][1..] == [];
    }
    MarkAllIndex(pieces, x, 0);
    MarkAllIndex(pieces, x, 1);
    MarkAllIndex(pieces, x, 2);
    assert Lower("") != Lower("-x");
    assert parts == [Highlighted("-x", x), Highlighted("-x", x), Plain("")];
  }
}
