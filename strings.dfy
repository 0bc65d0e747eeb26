/**
 * The string helpers of lib/utils/strings.ts: `slugify`, which turns a heading
 * text or a topic name into a URL fragment, and `capitalizeFirstLetter`.
 *
 * Characters are Unicode scalar values. `trim` and the regular-expression
 * class `\s` use the exact ECMAScript white-space set; `toLowerCase` and
 * `toUpperCase` are modelled on ASCII letters only.
 */
module Strings {
  import opened Wrappers
  import opened Seqs

  /** ECMAScript WhiteSpace and LineTerminator: what `trim()` removes and
      what `\s` matches. */
  predicate IsWhitespace(c: char)
  {
    || c == '\t' || c == '\n' || c == '\U{B}' || c == '\U{C}' || c == '\r'
    || c == ' ' || c == '\U{A0}' || c == '\U{1680}' || '\U{2000}' <= c <= '\U{200A}'
    || c == '\U{2028}' || c == '\U{2029}' || c == '\U{202F}' || c == '\U{205F}'
    || c == '\U{3000}' || c == '\U{FEFF}'
  }

  /** ECMAScript LineTerminator: the characters `.` in a regular expression
      does not match. Every one of them is also white space. */
  predicate IsLineTerminator(c: char)
    ensures IsLineTerminator(c) ==> IsWhitespace(c)
  {
    c == '\n' || c == '\r' || c == '\U{2028}' || c == '\U{2029}'
  }

  predicate IsAsciiUpper(c: char) { 'A' <= c <= 'Z' }

  predicate IsAsciiLower(c: char) { 'a' <= c <= 'z' }

  predicate IsDigit(c: char) { '0' <= c <= '9' }

  //---------------------------------------------------------------------------
  // trim
  //---------------------------------------------------------------------------

  function TrimStart(s: string): (r: string)
    ensures |r| <= |s|
  {
    if s != [] && IsWhitespace(s[0]) then TrimStart(s[1..]) else s
  }

  function TrimEnd(s: string): (r: string)
    ensures |r| <= |s|
  {
    if s != [] && IsWhitespace(s[|s| - 1]) then TrimEnd(s[..|s| - 1]) else s
  }

  /** `s.trim()`. `TrimEdges` and `TrimIsSlice` say what it keeps. */
  function Trim(s: string): (r: string)
    ensures |r| <= |s|
  {
    TrimEnd(TrimStart(s))
  }

  /** `TrimStart` keeps a suffix of its argument that does not start with
      white space. */
  lemma {:induction false} TrimStartIsSuffix(s: string)
    ensures var r := TrimStart(s);
      r == s[|s| - |r|..] && (r == [] || !IsWhitespace(r[0]))
  {
    if s != [] && IsWhitespace(s[0]) {
      TrimStartIsSuffix(s[1..]);
    }
  }

  /** `TrimEnd` keeps a prefix of its argument that does not end with white
      space. */
  lemma {:induction false} TrimEndIsPrefix(s: string)
    ensures var r := TrimEnd(s);
      r == s[..|r|] && (r == [] || !IsWhitespace(r[|r| - 1]))
  {
    if s != [] && IsWhitespace(s[|s| - 1]) {
      TrimEndIsPrefix(s[..|s| - 1]);
    }
  }

  /** What `trim()` returns starts and ends with a character that is not
      white space. */
  lemma TrimEdges(s: string)
    ensures var r := Trim(s);
      r == [] || (!IsWhitespace(r[0]) && !IsWhitespace(r[|r| - 1]))
  {
    var t := TrimStart(s);
    TrimStartIsSuffix(s);
    TrimEndIsPrefix(t);
    var r := TrimEnd(t);
    if r != [] {
      assert r[0] == t[0];
    }
  }

  lemma {:induction false} TrimStartDropsWhitespace(s: string)
    ensures forall i :: 0 <= i < |s| - |TrimStart(s)| ==> IsWhitespace(s[i])
  {
    if s != [] && IsWhitespace(s[0]) {
      TrimStartDropsWhitespace(s[1..]);
      assert forall i :: 1 <= i < |s| - |TrimStart(s)| ==> s[i] == s[1..][i - 1];
    }
  }

  lemma {:induction false} TrimEndDropsWhitespace(s: string)
    ensures forall i :: |TrimEnd(s)| <= i < |s| ==> IsWhitespace(s[i])
  {
    if s != [] && IsWhitespace(s[|s| - 1]) {
      TrimEndDropsWhitespace(s[..|s| - 1]);
      assert forall i :: |TrimEnd(s)| <= i < |s| - 1 ==> s[i] == s[..|s| - 1][i];
    }
  }

  /** `Trim(s)` is the slice of `s` between its leading and its trailing run
      of white space. */
  lemma TrimIsSlice(s: string)
    ensures var lo := |s| - |TrimStart(s)|; var r := Trim(s);
      && lo + |r| <= |s|
      && r == s[lo..lo + |r|]
      && (forall i :: 0 <= i < lo ==> IsWhitespace(s[i]))
      && (forall i :: lo + |r| <= i < |s| ==> IsWhitespace(s[i]))
  {
    var t := TrimStart(s);
    var lo := |s| - |t|;
    TrimStartIsSuffix(s);
    TrimEndIsPrefix(t);
    TrimStartDropsWhitespace(s);
    TrimEndDropsWhitespace(t);
    forall i | lo + |Trim(s)| <= i < |s| ensures IsWhitespace(s[i]) {
      assert s[i] == t[i - lo];
    }
  }

  /** A string without white space at either end is its own trim. */
  lemma TrimNoEdge(s: string)
    requires s == [] || (!IsWhitespace(s[0]) && !IsWhitespace(s[|s| - 1]))
    ensures Trim(s) == s
  {
    assert TrimStart(s) == s;
    assert TrimEnd(s) == s;
  }

  lemma TrimIdempotent(s: string)
    ensures Trim(Trim(s)) == Trim(s)
  {
    TrimEdges(s);
    TrimNoEdge(Trim(s));
  }

  //---------------------------------------------------------------------------
  // case mapping (ASCII)
  //---------------------------------------------------------------------------

  function LowerChar(c: char): char
  {
    if IsAsciiUpper(c) then (c as int + 32) as char else c
  }

  function UpperChar(c: char): char
  {
    if IsAsciiLower(c) then (c as int - 32) as char else c
  }

  /** `s.toLowerCase()` */
  function Lower(s: string): (r: string)
    ensures |r| == |s|
    ensures forall i :: 0 <= i < |r| ==> !IsAsciiUpper(r[i])
  {
    seq(|s|, i requires 0 <= i < |s| => LowerChar(s[i]))
  }

  /** Lower-casing works one character at a time. */
  lemma LowerCons(s: string)
    requires s != []
    ensures Lower(s) == [LowerChar(s[0])] + Lower(s[1..])
  {
    assert forall k :: 0 <= k < |s| ==> Lower(s)[k] == ([LowerChar(s[0])] + Lower(s[1..]))[k];
  }

  /** Lower-casing turns each ASCII upper-case letter into the lower-case
      letter 32 code points above it and keeps every other character.
      This is a lemma, not an `ensures` of `Lower`: as a postcondition the
      quantifier pushes the proofs that use `Lower` out of resource. */
  lemma LowerEachChar(s: string)
    ensures forall i :: 0 <= i < |s| ==>
      && (IsAsciiUpper(s[i]) ==> IsAsciiLower(Lower(s)[i]) && Lower(s)[i] as int == s[i] as int + 32)
      && (!IsAsciiUpper(s[i]) ==> Lower(s)[i] == s[i])
  {
  }

  /** `s.replaceAll(from, to)` for a one-character pattern: every `from`
      becomes `to`, so none is left when the two differ, and every other
      character stays in place. */
  function ReplaceChar(s: string, from: char, to: char): (r: string)
    ensures |r| == |s|
    ensures from != to ==> from !in r
    ensures forall i :: 0 <= i < |s| && s[i] != from ==> r[i] == s[i]
    ensures forall i :: 0 <= i < |s| && s[i] == from ==> r[i] == to
  {
    seq(|s|, i requires 0 <= i < |s| => if s[i] == from then to else s[i])
  }

  /** `s.replaceAll(/[...]/g, '')`: delete every character of the class. */
  function DeleteChars(s: string, chars: set<char>): (r: string)
    ensures |r| <= |s|
    ensures forall i :: 0 <= i < |r| ==> r[i] !in chars
  {
    Filter(s, c => c !in chars)
  }

  //---------------------------------------------------------------------------
  // slugify
  //---------------------------------------------------------------------------

  /** The character class `[()!.,<>?"'[\]@]` that `slugify` deletes. */
  const SlugPunctuation: set<char> :=
    {'(', ')', '!', '.', ',', '<', '>', '?', '"', '\'', '[', ']', '@'}

  /** `slugify(s)`: trim, lower-case, spaces to hyphens, punctuation deleted.
      The result has no space, no deleted punctuation, no upper-case letter,
      and is never longer than the input. */
  function Slugify(s: string): (r: string)
    ensures |r| <= |s|
    ensures forall i :: 0 <= i < |r| ==> r[i] != ' ' && r[i] !in SlugPunctuation && !IsAsciiUpper(r[i])
  {
    var hyphenated := ReplaceChar(Lower(Trim(s)), ' ', '-');
    var r := DeleteChars(hyphenated, SlugPunctuation);
    forall i | 0 <= i < |r| ensures r[i] in hyphenated {
      FilterMembership(hyphenated, c => c !in SlugPunctuation, r[i]);
    }
    r
  }

  /** What one character of the trimmed text contributes to the slug. */
  function SlugChar(c: char): string
  {
    if c in SlugPunctuation then [] else if c == ' ' then "-" else [LowerChar(c)]
  }

  /** A one-pass reading of the slug pipeline, character by character. */
  function SlugChars(t: string): string
  {
    if t == [] then [] else SlugChar(t[0]) + SlugChars(t[1..])
  }

  /** The four-stage pipeline equals the one-pass reading on the trimmed text:
      spaces become hyphens, listed punctuation disappears, every other
      character is kept (lower-cased) in its place. */
  lemma SlugifyOnePass(s: string)
    ensures Slugify(s) == SlugChars(Trim(s))
  {
    PipelineOnePass(Trim(s));
  }

  lemma {:induction false} PipelineOnePass(t: string)
    ensures DeleteChars(ReplaceChar(Lower(t), ' ', '-'), SlugPunctuation) == SlugChars(t)
  {
    if t != [] {
      var h' := ReplaceChar(Lower(t[1..]), ' ', '-');
      var c := LowerChar(t[0]);
      var x := if c == ' ' then '-' else c;
      assert ReplaceChar(Lower(t), ' ', '-') == [x] + h';
      DeleteCharsCons(x, h', SlugPunctuation);
      SlugCharStep(t[0]);
      PipelineOnePass(t[1..]);
    }
  }

  /** One character through lower-casing, hyphenation and deletion. */
  lemma SlugCharStep(ch: char)
    ensures var c := LowerChar(ch);
      var x := if c == ' ' then '-' else c;
      (if x in SlugPunctuation then [] else [x]) == SlugChar(ch)
  {
    if IsAsciiUpper(ch) {
      assert IsAsciiLower(LowerChar(ch));
    }
  }

  lemma DeleteCharsCons(c: char, t: string, chars: set<char>)
    ensures DeleteChars([c] + t, chars) == (if c in chars then [] else [c]) + DeleteChars(t, chars)
  {
    assert ([c] + t)[0] == c;
    assert ([c] + t)[1..] == t;
  }

  predicate IsSlugChar(c: char) { IsAsciiLower(c) || IsDigit(c) || c == '-' }

  /** A string of lower-case letters, digits and hyphens is already a slug. */
  lemma SlugifyFixedPoint(s: string)
    requires forall i :: 0 <= i < |s| ==> IsSlugChar(s[i])
    ensures Slugify(s) == s
  {
    TrimNoEdge(s);
    SlugifyOnePass(s);
    SlugCharsIdentity(s);
  }

  lemma {:induction false} SlugCharsIdentity(s: string)
    requires forall i :: 0 <= i < |s| ==> IsSlugChar(s[i])
    ensures SlugChars(s) == s
  {
    if s != [] {
      SlugCharsIdentity(s[1..]);
      assert s == [s[0]] + s[1..];
    }
  }

  //---------------------------------------------------------------------------
  // capitalizeFirstLetter
  //---------------------------------------------------------------------------

  /** `capitalizeFirstLetter(s)`. On the empty string the destructured first
      letter is `undefined` and calling `toUpperCase` on it throws; that is
      the `None` outcome. Otherwise the first character is the same letter,
      not lower-case, and the rest is unchanged. */
  function CapitalizeFirstLetter(s: string): (r: Option<string>)
    ensures r.None? <==> s == []
    ensures r.Some? ==>
      && |r.value| == |s|
      && r.value[1..] == s[1..]
      && LowerChar(r.value[0]) == LowerChar(s[0])
      && !IsAsciiLower(r.value[0])
  {
    if s == [] then None else Some([UpperChar(s[0])] + s[1..])
  }

  lemma CapitalizeIdempotent(s: string)
    requires s != []
    ensures CapitalizeFirstLetter(CapitalizeFirstLetter(s).value) == CapitalizeFirstLetter(s)
  {
    var t := CapitalizeFirstLetter(s).value;
    assert [UpperChar(t[0])] + t[1..] == t;
  }
}
