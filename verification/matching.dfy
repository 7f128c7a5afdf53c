/**
 Whole-word, case-insensitive matching of a literal term, as the regular
 expression `\bterm\b` with the `g` and `i` flags behaves on ASCII text:
 the match count of `String.prototype.match` and the capturing split of
 `String.prototype.split`. Both scan leftmost-first and never overlap.
 */
module Matching {
  import opened Chars

  /** A word character at index `j`; positions outside `s` count as non-word. */
  predicate WordAt(s: string, j: int) {
    0 <= j < |s| && IsWordChar(s[j])
  }

  /** The assertion `\b` holds at position `p`: wordness differs on its two sides. */
  predicate IsBoundary(s: string, p: int) {
    WordAt(s, p - 1) != WordAt(s, p)
  }

  /**
   The literal `t` (flag `i`) matches `s` at position `i`, ignoring ASCII case:
   the regex engine compares the pattern with the text character by character.
   */
  predicate MatchesAt(s: string, i: nat, t: string)
    decreases |t|
  {
    && i + |t| <= |s|
    && (|t| == 0 || (LowerChar(s[i]) == LowerChar(t[0]) && MatchesAt(s, i + 1, t[1..])))
  }

  /** Pointwise reading of `MatchesAt`. */
  lemma {:induction false} MatchesAtIff(s: string, i: nat, t: string)
    ensures MatchesAt(s, i, t) <==>
              i + |t| <= |s| && forall j :: 0 <= j < |t| ==> LowerChar(s[i + j]) == LowerChar(t[j])
    decreases |t|
  {
    if |t| > 0 {
      MatchesAtIff(s, i + 1, t[1..]);
      if i + |t| <= |s| && forall j :: 0 <= j < |t| ==> LowerChar(s[i + j]) == LowerChar(t[j]) {
        assert LowerChar(s[i + 0]) == LowerChar(t[0]);
        forall j | 0 <= j < |t| - 1
          ensures LowerChar(s[i + 1 + j]) == LowerChar(t[1..][j])
        {
          assert LowerChar(s[i + (j + 1)]) == LowerChar(t[j + 1]);
        }
      }
      if MatchesAt(s, i, t) {
        forall j | 0 <= j < |t|
          ensures LowerChar(s[i + j]) == LowerChar(t[j])
        {
          if j > 0 {
            assert LowerChar(s[i + 1 + (j - 1)]) == LowerChar(t[1..][j - 1]);
          }
        }
      }
    }
  }

  /** `\bterm\b` (flag `i`) matches `s` starting exactly at position `i`. */
  predicate WholeWordAt(s: string, i: nat, t: string) {
    MatchesAt(s, i, t) && IsBoundary(s, i) && IsBoundary(s, i + |t|)
  }

  /** The outcome of searching for the next match. */
  datatype Search = NoMatch | MatchAt(pos: nat)

  /**
   The leftmost match of `t` at or after `q`. Both `match` (which searches
   forward from `lastIndex`) and `split` (which tries a sticky match at
   `q`, `q + 1`, ...) find their next match this way.
   */
  function NextMatch(s: string, t: string, q: nat): (r: Search)
    decreases |s| - q
    ensures r.MatchAt? ==> q <= r.pos && WholeWordAt(s, r.pos, t)
  {
    if q + |t| > |s| then NoMatch
    else if WholeWordAt(s, q, t) then MatchAt(q)
    else NextMatch(s, t, q + 1)
  }

  /** No whole-word occurrence at or after `q` lies before the one found. */
  lemma {:induction false} NextMatchLeftmost(s: string, t: string, q: nat, i: nat)
    requires q <= i && WholeWordAt(s, i, t)
    ensures NextMatch(s, t, q).MatchAt? && NextMatch(s, t, q).pos <= i
    decreases |s| - q
  {
    if q < i && !WholeWordAt(s, q, t) {
      NextMatchLeftmost(s, t, q + 1, i);
    }
  }

  /**
   Start positions of the leftmost, non-overlapping matches of `t` at or after
   `from`: after a match at `i` the search resumes at `i + |t|`.
   */
  function Occurrences(s: string, t: string, from: nat): (occ: seq<nat>)
    requires |t| > 0
    decreases |s| - from
  {
    match NextMatch(s, t, from)
    case NoMatch => []
    case MatchAt(i) => [i] + Occurrences(s, t, i + |t|)
  }

  /** Matches lie within the text and are listed left to right, each ending before the next begins. */
  lemma {:induction false} OccurrencesOrdered(s: string, t: string, from: nat)
    requires |t| > 0
    ensures forall k :: 0 <= k < |Occurrences(s, t, from)| ==>
              from <= Occurrences(s, t, from)[k] && Occurrences(s, t, from)[k] + |t| <= |s|
    ensures forall j, k :: 0 <= j < k < |Occurrences(s, t, from)| ==>
              Occurrences(s, t, from)[j] + |t| <= Occurrences(s, t, from)[k]
    decreases |s| - from
  {
    var occ := Occurrences(s, t, from);
    if NextMatch(s, t, from).MatchAt? {
      var i := NextMatch(s, t, from).pos;
      var rest := Occurrences(s, t, i + |t|);
      OccurrencesOrdered(s, t, i + |t|);
      assert occ == [i] + rest;
      assert i + |t| <= |s|;
      assert forall k :: 1 <= k < |occ| ==> occ[k] == rest[k - 1];
      forall j, k | 0 <= j < k < |occ|
        ensures occ[j] + |t| <= occ[k]
      {
        if j > 0 {
          assert occ[j] == rest[j - 1] && occ[k] == rest[k - 1];
        } else {
          assert occ[k] == rest[k - 1];
        }
      }
    }
  }

  /** Every reported position is a whole-word, case-insensitive occurrence of the term. */
  lemma {:induction false} OccurrencesSound(s: string, t: string, from: nat)
    requires |t| > 0
    ensures forall k :: 0 <= k < |Occurrences(s, t, from)| ==> WholeWordAt(s, Occurrences(s, t, from)[k], t)
    decreases |s| - from
  {
    var occ := Occurrences(s, t, from);
    if NextMatch(s, t, from).MatchAt? {
      var i := NextMatch(s, t, from).pos;
      var rest := Occurrences(s, t, i + |t|);
      OccurrencesSound(s, t, i + |t|);
      assert occ == [i] + rest;
      assert forall k :: 1 <= k < |occ| ==> occ[k] == rest[k - 1];
    }
  }

  /** Position `i` lies inside one of the matches listed in `occ`, each `n` long. */
  predicate Covers(occ: seq<nat>, i: nat, n: nat) {
    exists k :: 0 <= k < |occ| && occ[k] <= i < occ[k] + n
  }

  /**
   No whole-word occurrence is missed: each one either is a reported match or
   overlaps a reported match that starts before it. With `OccurrencesOrdered`
   this pins the list down as the greedy leftmost one.
   */
  lemma {:induction false} OccurrencesComplete(s: string, t: string, from: nat, i: nat)
    requires |t| > 0 && from <= i && WholeWordAt(s, i, t)
    ensures Covers(Occurrences(s, t, from), i, |t|)
    decreases |s| - from
  {
    NextMatchLeftmost(s, t, from, i);
    var occ := Occurrences(s, t, from);
    var m := NextMatch(s, t, from).pos;
    var rest := Occurrences(s, t, m + |t|);
    assert occ == [m] + rest;
    if i < m + |t| {
      assert occ[0] <= i < occ[0] + |t|;
    } else {
      OccurrencesComplete(s, t, m + |t|, i);
      var k :| 0 <= k < |rest| && rest[k] <= i < rest[k] + |t|;
      assert occ[k + 1] == rest[k];
    }
  }

  /** `(s.match(/\bt\b/gi) || []).length`. */
  function MatchCount(s: string, t: string): nat
    requires |t| > 0
  {
    |Occurrences(s, t, 0)|
  }

  /**
   Cut position `i` of a split at the matches `occ`, each `n` long, of a text
   of length `len`: the start of the text, then before and after each match in
   turn, then the end of the text. Piece `j` runs from cut `j` to cut `j + 1`.
   */
  function Cut(occ: seq<nat>, n: nat, len: nat, i: nat): nat
    requires i <= 2 * |occ| + 1
  {
    if i == 0 then 0
    else if i == 2 * |occ| + 1 then len
    else if i % 2 == 1 then occ[i / 2]
    else occ[i / 2 - 1] + n
  }

  /** Matches `n` long that lie within a text of length `len` and end before the next one begins. */
  predicate Separated(occ: seq<nat>, n: nat, len: nat) {
    && (forall k :: 0 <= k < |occ| ==> occ[k] + n <= len)
    && (forall j, k :: 0 <= j < k < |occ| ==> occ[j] + n <= occ[k])
  }

  lemma OccurrencesSeparated(s: string, t: string)
    requires |t| > 0
    ensures Separated(Occurrences(s, t, 0), |t|, |s|)
  {
    OccurrencesOrdered(s, t, 0);
  }

  /** All cut positions, in order. */
  function Cuts(occ: seq<nat>, n: nat, len: nat): (c: seq<nat>)
    ensures |c| == 2 * |occ| + 2
  {
    seq(2 * |occ| + 2, i requires 0 <= i <= 2 * |occ| + 1 => Cut(occ, n, len, i))
  }

  /** A list of cut positions into a text of length `len`, in order. */
  predicate CutList(c: seq<nat>, len: nat) {
    && |c| > 0
    && (forall i :: 0 <= i < |c| ==> c[i] <= len)
    && (forall i, j :: 0 <= i <= j < |c| ==> c[i] <= c[j])
  }

  lemma CutOrdered(occ: seq<nat>, n: nat, len: nat, i: nat, j: nat)
    requires Separated(occ, n, len) && i <= j <= 2 * |occ| + 1
    ensures Cut(occ, n, len, i) <= Cut(occ, n, len, j) <= len
  {
    if 0 < j < 2 * |occ| + 1 {
      var kb := if j % 2 == 1 then j / 2 else j / 2 - 1;
      assert Cut(occ, n, len, j) <= occ[kb] + n;
      if 0 < i < j {
        var ka := if i % 2 == 1 then i / 2 else i / 2 - 1;
        assert ka <= kb;
        if ka < kb {
          assert occ[ka] + n <= occ[kb];
        }
      }
    }
  }

  /** Separated matches give cuts that run from the start to the end of the text without going back. */
  lemma CutsValid(occ: seq<nat>, n: nat, len: nat)
    requires Separated(occ, n, len)
    ensures CutList(Cuts(occ, n, len), len)
    ensures Cuts(occ, n, len)[0] == 0 && Cuts(occ, n, len)[2 * |occ| + 1] == len
  {
    var c := Cuts(occ, n, len);
    forall i, j | 0 <= i <= j < |c|
      ensures c[i] <= c[j] <= len
    {
      CutOrdered(occ, n, len, i, j);
    }
  }

  /** The pieces of `s` between consecutive cuts. */
  function Slices(s: string, c: seq<nat>): (pieces: seq<string>)
    requires CutList(c, |s|)
    ensures |pieces| == |c| - 1
  {
    seq(|c| - 1, j requires 0 <= j < |c| - 1 => s[c[j]..c[j + 1]])
  }

  /** The first `m` pieces join to the text from the first cut to cut `m`. */
  lemma {:induction false} SlicesPrefix(s: string, c: seq<nat>, m: nat)
    requires CutList(c, |s|) && m < |c|
    ensures Concat(Slices(s, c)[..m]) == s[c[0]..c[m]]
  {
    var pieces := Slices(s, c);
    if m == 0 {
      assert pieces[..0] == [];
    } else {
      SlicesPrefix(s, c, m - 1);
      assert pieces[..m] == pieces[..m - 1] + [pieces[m - 1]];
      ConcatAppend(pieces[..m - 1], [pieces[m - 1]]);
      ConcatOne(pieces[m - 1]);
      assert s[c[0]..c[m - 1]] + s[c[m - 1]..c[m]] == s[c[0]..c[m]];
    }
  }

  /**
   `s.split(/(\bt\b)/gi)`: the text is cut at the same leftmost,
   non-overlapping matches that `match` counts, giving plain text at even
   indices and the captured matches at odd ones. On the empty string nothing
   matches and the result is `[""]`, as in JavaScript.
   */
  function Split(s: string, t: string): (pieces: seq<string>)
    requires |t| > 0
    ensures |pieces| == 2 * MatchCount(s, t) + 1
  {
    var occ := Occurrences(s, t, 0);
    OccurrencesSeparated(s, t);
    CutsValid(occ, |t|, |s|);
    Slices(s, Cuts(occ, |t|, |s|))
  }

  /** Splitting loses no text: the pieces join back to the input. */
  lemma SplitJoin(s: string, t: string)
    requires |t| > 0
    ensures Concat(Split(s, t)) == s
  {
    var occ := Occurrences(s, t, 0);
    var c := Cuts(occ, |t|, |s|);
    OccurrencesSeparated(s, t);
    CutsValid(occ, |t|, |s|);
    SlicesPrefix(s, c, |c| - 1);
    assert Split(s, t)[..|c| - 1] == Split(s, t);
  }

  /** Match `k` runs from cut `2k + 1` to cut `2k + 2`. */
  lemma CutsAround(occ: seq<nat>, n: nat, len: nat, k: nat)
    requires k < |occ|
    ensures Cuts(occ, n, len)[2 * k + 1] == occ[k] && Cuts(occ, n, len)[2 * k + 2] == occ[k] + n
  {
    assert (2 * k + 1) / 2 == k && (2 * k + 1) % 2 == 1;
    assert (2 * k + 2) / 2 - 1 == k && (2 * k + 2) % 2 == 0;
  }

  /** Piece `2k + 1` of a split at separated matches is the text of match `k`. */
  lemma SlicesCapture(s: string, occ: seq<nat>, n: nat, k: nat)
    requires Separated(occ, n, |s|) && k < |occ|
    ensures CutList(Cuts(occ, n, |s|), |s|)
    ensures Slices(s, Cuts(occ, n, |s|))[2 * k + 1] == s[occ[k]..occ[k] + n]
  {
    CutsValid(occ, n, |s|);
    CutsAround(occ, n, |s|, k);
  }

  /** The pieces before match `k` join to the text before it. */
  lemma SlicesBefore(s: string, occ: seq<nat>, n: nat, k: nat)
    requires Separated(occ, n, |s|) && k < |occ|
    ensures CutList(Cuts(occ, n, |s|), |s|)
    ensures Concat(Slices(s, Cuts(occ, n, |s|))[..2 * k + 1]) == s[..occ[k]]
  {
    CutsValid(occ, n, |s|);
    CutsAround(occ, n, |s|, k);
    SlicesPrefix(s, Cuts(occ, n, |s|), 2 * k + 1);
  }

  /**
   The `k`-th captured piece of a split is the text of the `k`-th counted match,
   at position `o`, so it equals the term up to case; and the pieces before it
   join to the text before that match.
   */
  lemma SplitCaptures(s: string, t: string, k: nat) returns (o: nat)
    requires |t| > 0 && k < MatchCount(s, t)
    ensures o == Occurrences(s, t, 0)[k] && o + |t| <= |s|
    ensures Split(s, t)[2 * k + 1] == s[o..o + |t|]
    ensures EqIgnoreCase(Split(s, t)[2 * k + 1], t)
    ensures Concat(Split(s, t)[..2 * k + 1]) == s[..o]
  {
    var occ := Occurrences(s, t, 0);
    o := occ[k];
    OccurrencesSeparated(s, t);
    SlicesCapture(s, occ, |t|, k);
    SlicesBefore(s, occ, |t|, k);
    OccurrencesSound(s, t, 0);
    MatchedText(s, o, t);
  }

  /** The text a match covers equals the term up to case. */
  lemma MatchedText(s: string, o: nat, t: string)
    requires MatchesAt(s, o, t)
    ensures o + |t| <= |s| && EqIgnoreCase(s[o..o + |t|], t)
  {
    var piece := s[o..o + |t|];
    MatchesAtIff(s, o, t);
    assert SameUpToCase(piece, t) by {
      forall j | 0 <= j < |t|
        ensures LowerChar(piece[j]) == LowerChar(t[j])
      {
        assert piece[j] == s[o + j];
      }
    }
    EqIgnoreCaseIff(piece, t);
  }

  lemma {:induction false} MatchesAtIgnoresCase(s1: string, s2: string, t1: string, t2: string, i: nat)
    requires SameUpToCase(s1, s2) && SameUpToCase(t1, t2)
    ensures MatchesAt(s1, i, t1) == MatchesAt(s2, i, t2)
    decreases |t1|
  {
    if |t1| > 0 && i + |t1| <= |s1| {
      assert LowerChar(s1[i]) == LowerChar(s2[i]);
      assert LowerChar(t1[0]) == LowerChar(t2[0]);
      assert SameUpToCase(t1[1..], t2[1..]) by {
        forall j | 0 <= j < |t1| - 1
          ensures LowerChar(t1[1..][j]) == LowerChar(t2[1..][j])
        {
          assert LowerChar(t1[j + 1]) == LowerChar(t2[j + 1]);
        }
      }
      MatchesAtIgnoresCase(s1, s2, t1[1..], t2[1..], i + 1);
    }
  }

  /** A match position depends on the text and the term only up to ASCII case. */
  lemma WholeWordAtIgnoresCase(s1: string, s2: string, t1: string, t2: string, i: nat)
    requires SameUpToCase(s1, s2) && SameUpToCase(t1, t2)
    ensures WholeWordAt(s1, i, t1) == WholeWordAt(s2, i, t2)
  {
    forall j | 0 <= j < |s1|
      ensures IsWordChar(s1[j]) == IsWordChar(s2[j])
    {
      LowerCharFacts(s1[j]);
      LowerCharFacts(s2[j]);
    }
    assert WordAt(s1, i - 1) == WordAt(s2, i - 1);
    assert WordAt(s1, i) == WordAt(s2, i);
    assert WordAt(s1, i + |t1|) == WordAt(s2, i + |t1|);
    MatchesAtIgnoresCase(s1, s2, t1, t2, i);
  }

  lemma {:induction false} NextMatchIgnoresCase(s1: string, s2: string, t1: string, t2: string, q: nat)
    requires SameUpToCase(s1, s2) && SameUpToCase(t1, t2)
    ensures NextMatch(s1, t1, q) == NextMatch(s2, t2, q)
    decreases |s1| - q
  {
    if q + |t1| <= |s1| {
      WholeWordAtIgnoresCase(s1, s2, t1, t2, q);
      if !WholeWordAt(s1, q, t1) {
        NextMatchIgnoresCase(s1, s2, t1, t2, q + 1);
      }
    }
  }

  lemma {:induction false} OccurrencesIgnoreCase(s1: string, s2: string, t1: string, t2: string, from: nat)
    requires |t1| > 0
    requires SameUpToCase(s1, s2) && SameUpToCase(t1, t2)
    ensures |t2| > 0 && Occurrences(s1, t1, from) == Occurrences(s2, t2, from)
    decreases |s1| - from
  {
    NextMatchIgnoresCase(s1, s2, t1, t2, from);
    var m := NextMatch(s1, t1, from);
    if m.MatchAt? {
      OccurrencesIgnoreCase(s1, s2, t1, t2, m.pos + |t1|);
      assert Occurrences(s1, t1, from) == [m.pos] + Occurrences(s1, t1, m.pos + |t1|);
      assert Occurrences(s2, t2, from) == [m.pos] + Occurrences(s2, t2, m.pos + |t2|);
    }
  }

  /** Changing the ASCII case of the text or of the term leaves the count unchanged. */
  lemma MatchCountIgnoresCase(s1: string, s2: string, t1: string, t2: string)
    requires |t1| > 0
    requires Lower(s1) == Lower(s2) && Lower(t1) == Lower(t2)
    ensures |t2| > 0 && MatchCount(s1, t1) == MatchCount(s2, t2)
  {
    EqIgnoreCaseIff(s1, s2);
    EqIgnoreCaseIff(t1, t2);
    OccurrencesIgnoreCase(s1, s2, t1, t2, 0);
  }

  /** Counting in the lower-cased text, as the scanner does, counts the same matches. */
  lemma MatchCountOfLowered(s: string, t: string)
    requires |t| > 0
    ensures MatchCount(Lower(s), t) == MatchCount(s, t)
  {
    LowerIdempotent(s);
    MatchCountIgnoresCase(Lower(s), s, t, t);
  }

  /**
   For a term that begins and ends with a word character, `\b` on both sides
   means exactly: the neighbours are string edges or non-word characters.
   */
  lemma WholeWordForWordTerm(s: string, i: nat, t: string)
    requires |t| > 0 && IsWordChar(t[0]) && IsWordChar(t[|t| - 1])
    ensures WholeWordAt(s, i, t) <==>
              && MatchesAt(s, i, t)
              && (i == 0 || !IsWordChar(s[i - 1]))
              && (i + |t| == |s| || !IsWordChar(s[i + |t|]))
  {
    MatchesAtIff(s, i, t);
    if MatchesAt(s, i, t) {
      LowerCharFacts(s[i]);
      LowerCharFacts(t[0]);
      LowerCharFacts(s[i + |t| - 1]);
      LowerCharFacts(t[|t| - 1]);
      assert LowerChar(s[i + 0]) == LowerChar(t[0]);
      assert LowerChar(s[i + (|t| - 1)]) == LowerChar(t[|t| - 1]);
      assert WordAt(s, i) && WordAt(s, i + |t| - 1);
    }
  }

  /** "male" is not found inside "female", and is found when it stands alone. */
  lemma MaleNotInsideFemale()
    ensures MatchCount("female", "male") == 0
    ensures MatchCount("male", "male") == 1
  {
    var f, m := "female", "male";
    assert !MatchesAt(f, 0, m) && !MatchesAt(f, 1, m);
    assert !IsBoundary(f, 2);
    assert NextMatch(f, m, 2) == NoMatch;
    assert NextMatch(f, m, 0) == NoMatch;
    assert MatchesAt(m, 0, m) by {
      assert MatchesAt(m, 3, m[3..]);
    }
    assert NextMatch(m, m, 0) == MatchAt(0);
    assert Occurrences(m, m, 4) == [];
  }

  /**
   The term "-x" starts with a non-word character, so `\b` before it needs a
   word character on its left: in "-x-x" it matches only at position 2.
   */
  lemma DashTermOccurrences()
    ensures Occurrences("-x-x", "-x", 0) == [2]
  {
    var s, t := "-x-x", "-x";
    assert !IsBoundary(s, 0);
    assert !MatchesAt(s, 1, t);
    assert MatchesAt(s, 2, t) by {
      assert MatchesAt(s, 4, t[2..]);
    }
    assert IsBoundary(s, 2) && IsBoundary(s, 4);
    assert NextMatch(s, t, 0) == MatchAt(2);
    assert Occurrences(s, t, 4) == [];
  }

  /** Splitting "-x-x" on "-x" leaves the unmatched first "-x" as a plain piece. */
  lemma DashTermSplit()
    ensures Split("-x-x", "-x") == ["-x", "-x", ""]
  {
    var s, t := "-x-x", "-x";
    DashTermOccurrences();
    var c := Cuts([2], 2, 4);
    assert c == [0, 2, 4, 4];
    assert Split(s, t) == [s[0..2], s[2..4], s[4..4]];
    assert s[0..2] == "-x" && s[2..4] == "-x" && s[4..4] == "";
  }
}
