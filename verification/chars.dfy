/**
 Character classes and string helpers shared by the scanner and the highlight
 composer: the ASCII word class that JavaScript's `\b` is defined on, ASCII
 lower-casing, and the whitespace set that `String.prototype.trim` removes.
 */
module Chars {

  /** The `\w` class `[A-Za-z0-9_]` that a `\b` assertion compares on either side. */
  predicate IsWordChar(c: char) {
    ('a' <= c <= 'z') || ('A' <= c <= 'Z') || ('0' <= c <= '9') || c == '_'
  }

  /** ASCII lower-casing of one character; every other character is left alone. */
  function LowerChar(c: char): char {
    if 'A' <= c <= 'Z' then (c as int + 32) as char else c
  }

  /** Lower-casing keeps a character in or out of the word class, and is idempotent. */
  lemma LowerCharFacts(c: char)
    ensures IsWordChar(LowerChar(c)) == IsWordChar(c)
    ensures LowerChar(LowerChar(c)) == LowerChar(c)
  {
  }

  /** `toLowerCase()` restricted to ASCII. */
  function Lower(s: string): (r: string)
    ensures |r| == |s|
  {
    if |s| == 0 then "" else [LowerChar(s[0])] + Lower(s[1..])
  }

  /** Case-insensitive equality, as `a.toLowerCase() === b.toLowerCase()` on ASCII. */
  predicate EqIgnoreCase(a: string, b: string) {
    Lower(a) == Lower(b)
  }

  /** Pointwise form of case-insensitive equality. */
  predicate SameUpToCase(a: string, b: string) {
    |a| == |b| && forall j :: 0 <= j < |a| ==> LowerChar(a[j]) == LowerChar(b[j])
  }

  lemma {:induction false} LowerIndex(s: string, i: nat)
    requires i < |s|
    ensures Lower(s)[i] == LowerChar(s[i])
    decreases i
  {
    if i > 0 {
      LowerIndex(s[1..], i - 1);
    }
  }

  lemma LowerPointwise(s: string, r: string)
    requires |r| == |s|
    requires forall i :: 0 <= i < |s| ==> r[i] == LowerChar(s[i])
    ensures Lower(s) == r
  {
    forall i | 0 <= i < |s|
      ensures Lower(s)[i] == r[i]
    {
      LowerIndex(s, i);
    }
  }

  lemma LowerIdempotent(s: string)
    ensures Lower(Lower(s)) == Lower(s)
  {
    forall k | 0 <= k < |s|
      ensures Lower(s)[k] == LowerChar(Lower(s)[k])
    {
      LowerIndex(s, k);
      LowerCharFacts(s[k]);
    }
    LowerPointwise(Lower(s), Lower(s));
  }

  lemma EqIgnoreCaseIff(a: string, b: string)
    ensures EqIgnoreCase(a, b) <==> SameUpToCase(a, b)
  {
    if EqIgnoreCase(a, b) {
      forall j | 0 <= j < |a|
        ensures LowerChar(a[j]) == LowerChar(b[j])
      {
        LowerIndex(a, j);
        LowerIndex(b, j);
      }
    }
    if SameUpToCase(a, b) {
      forall j | 0 <= j < |a|
        ensures Lower(a)[j] == Lower(b)[j]
      {
        LowerIndex(a, j);
        LowerIndex(b, j);
      }
    }
  }

  /** The characters `trim` removes: ECMAScript WhiteSpace and LineTerminator. */
  predicate IsJsSpace(c: char) {
    || c == '\t' || c == '\n' || c == '\U{B}' || c == '\U{C}' || c == '\r' || c == ' '
    || c == '\U{A0}' || c == '\U{1680}' || ('\U{2000}' <= c <= '\U{200A}')
    || c == '\U{2028}' || c == '\U{2029}' || c == '\U{202F}' || c == '\U{205F}'
    || c == '\U{3000}' || c == '\U{FEFF}'
  }

  function TrimStart(s: string): (r: string)
    ensures |r| <= |s|
    ensures r == s[|s| - |r|..]
    ensures |r| > 0 ==> !IsJsSpace(r[0])
    ensures forall i :: 0 <= i < |s| - |r| ==> IsJsSpace(s[i])
  {
    if |s| > 0 && IsJsSpace(s[0]) then TrimStart(s[1..]) else s
  }

  function TrimEnd(s: string): (r: string)
    ensures |r| <= |s|
    ensures r == s[..|r|]
    ensures |r| > 0 ==> !IsJsSpace(r[|r| - 1])
    ensures forall i :: |r| <= i < |s| ==> IsJsSpace(s[i])
  {
    if |s| > 0 && IsJsSpace(s[|s| - 1]) then TrimEnd(s[..|s| - 1]) else s
  }

  /** `String.prototype.trim`: strip whitespace from both ends. */
  function Trim(s: string): (r: string)
    ensures |r| <= |s|
    ensures |r| > 0 ==> !IsJsSpace(r[0]) && !IsJsSpace(r[|r| - 1])
  {
    TrimEnd(TrimStart(s))
  }

  /** Reference definition of a blank input: every character is whitespace. */
  predicate IsBlank(s: string) {
    forall i :: 0 <= i < |s| ==> IsJsSpace(s[i])
  }

  /** `!s.trim()` holds exactly when the input is blank. */
  lemma TrimEmptyIffBlank(s: string)
    ensures Trim(s) == "" <==> IsBlank(s)
  {
    var t := TrimStart(s);
    if Trim(s) != "" {
      var u := Trim(s);
      assert !IsJsSpace(u[0]);
      assert u[0] == s[|s| - |t|];
    }
  }

  /** Concatenation of a list of strings, `pieces.join("")`. */
  function Concat(pieces: seq<string>): string {
    if |pieces| == 0 then "" else pieces[0] + Concat(pieces[1..])
  }

  lemma ConcatOne(x: string)
    ensures Concat([x]) == x
  {
    assert [x][1..] == [];
  }

  lemma {:induction false} ConcatAppend(a: seq<string>, b: seq<string>)
    ensures Concat(a + b) == Concat(a) + Concat(b)
    decreases |a|
  {
    if |a| == 0 {
      assert a + b == b;
    } else {
      assert (a + b)[1..] == a[1..] + b;
      ConcatAppend(a[1..], b);
    }
  }
}
