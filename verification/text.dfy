/**
 * The string operations the note handlers apply to user input:
 * `String.prototype.trim`, `toLowerCase` and `includes("@")`.
 */
module Text {

  /** The characters `trim` removes: ECMAScript WhiteSpace and LineTerminator code points. */
  predicate IsWhitespace(c: char) {
    || c == '\t' || c == '\n' || c == '\U{000B}' || c == '\U{000C}' || c == '\r' || c == ' '
    || c == '\U{00A0}' || c == '\U{1680}' || ('\U{2000}' <= c <= '\U{200A}')
    || c == '\U{2028}' || c == '\U{2029}' || c == '\U{202F}' || c == '\U{205F}'
    || c == '\U{3000}' || c == '\U{FEFF}'
  }

  /** Empty, or made only of whitespace. */
  predicate IsBlank(s: string) {
    forall i :: 0 <= i < |s| ==> IsWhitespace(s[i])
  }

  /** `s` with its leading whitespace removed. */
  function TrimStart(s: string): (r: string)
    ensures |r| <= |s| && r == s[|s| - |r|..]
    ensures IsBlank(s[..|s| - |r|])
    ensures r == [] || !IsWhitespace(r[0])
  {
    if s != [] && IsWhitespace(s[0]) then
      var r := TrimStart(s[1..]);
      assert s[..|s| - |r|] == [s[0]] + s[1..][..|s| - 1 - |r|];
      r
    else
      s
  }

  /** `s` with its trailing whitespace removed. */
  function TrimEnd(s: string): (r: string)
    ensures |r| <= |s| && r == s[..|r|]
    ensures IsBlank(s[|r|..])
    ensures r == [] || !IsWhitespace(r[|r| - 1])
  {
    if s != [] && IsWhitespace(s[|s| - 1]) then
      var r := TrimEnd(s[..|s| - 1]);
      assert s[|r|..] == s[..|s| - 1][|r|..] + [s[|s| - 1]];
      r
    else
      s
  }

  /**
   * `String.prototype.trim`: `s` splits into a blank prefix, the result and a blank
   * suffix, and the result neither starts nor ends with whitespace. The prefix length
   * `k` is the index of the first non-whitespace character of `s` (or `|s|` when there
   * is none), as `TrimStart`'s contract pins it down.
   */
  function Trim(s: string): (r: string)
    ensures var k := |s| - |TrimStart(s)|;
      && k + |r| <= |s| && r == s[k..k + |r|]
      && IsBlank(s[..k]) && IsBlank(s[k + |r|..])
    ensures r == [] || (!IsWhitespace(r[0]) && !IsWhitespace(r[|r| - 1]))
  {
    var t := TrimStart(s);
    var r := TrimEnd(t);
    TrimShape(s, t, r);
    r
  }

  lemma TrimShape(s: string, t: string, r: string)
    requires |t| <= |s| && t == s[|s| - |t|..]
    requires |r| <= |t| && r == t[..|r|]
    requires IsBlank(t[|r|..])
    ensures var k := |s| - |t|; r == s[k..k + |r|] && IsBlank(s[k + |r|..])
  {
    var k := |s| - |t|;
    assert s[k + |r|..] == t[|r|..];
  }

  /** The trimmed text is empty exactly when the input is blank. */
  lemma TrimEmptyIffBlank(s: string)
    ensures Trim(s) == [] <==> IsBlank(s)
  {
    var t := TrimStart(s);
    var k := |s| - |t|;
    if Trim(s) == [] {
      assert IsBlank(t) by { assert t[0..] == t; }
      forall i | 0 <= i < |s| ensures IsWhitespace(s[i]) {
        if i < k { assert s[..k][i] == s[i]; }
      }
    }
  }

  /** A character that survives trimming is one that is not whitespace, wherever it stands. */
  lemma NonWhitespaceSurvivesTrim(s: string, j: nat)
    requires j < |s| && !IsWhitespace(s[j])
    ensures s[j] in Trim(s)
  {
    var r := Trim(s);
    var k := |s| - |TrimStart(s)|;
    assert k <= j < k + |r|;
    assert r[j - k] == s[j];
  }

  /** A string that neither starts nor ends with whitespace is its own trim. */
  lemma TrimmedIsFixed(s: string)
    requires s == [] || (!IsWhitespace(s[0]) && !IsWhitespace(s[|s| - 1]))
    ensures Trim(s) == s
  {
  }

  /** `toLowerCase` on one character (ASCII letters only). */
  function LowerChar(c: char): char {
    if 'A' <= c <= 'Z' then (c as int - 'A' as int + 'a' as int) as char else c
  }

  /** `toLowerCase`: each character lower-cased in place. */
  function Lower(s: string): (r: string)
    ensures |r| == |s|
    ensures forall i :: 0 <= i < |s| ==> r[i] == LowerChar(s[i])
  {
    if s == [] then [] else [LowerChar(s[0])] + Lower(s[1..])
  }

  /** What the share handler stores for a typed e-mail: `trim().toLowerCase()`. */
  function NormalizeEmail(s: string): string {
    Lower(Trim(s))
  }

  /** A normalized address keeps any "@" the typed one had. */
  lemma NormalizeKeepsAt(s: string)
    requires '@' in s
    ensures '@' in NormalizeEmail(s)
  {
    var t := Trim(s);
    var j :| 0 <= j < |s| && s[j] == '@';
    NonWhitespaceSurvivesTrim(s, j);
    var i :| 0 <= i < |t| && t[i] == '@';
    assert Lower(t)[i] == '@';
  }

  /**
   * A normalized address is already trimmed and lower-cased, so normalizing it again
   * changes nothing.
   */
  lemma NormalizedEmailIsNormalized(s: string)
    ensures IsNormalized(NormalizeEmail(s))
    ensures NormalizeEmail(NormalizeEmail(s)) == NormalizeEmail(s)
  {
    var t := Trim(s);
    var r := Lower(t);
    LowerIdempotent(t);
    LowerKeepsEnds(t);
    TrimmedIsFixed(r);
  }

  /** Lower-casing twice is lower-casing once. */
  lemma LowerIdempotent(s: string)
    ensures Lower(Lower(s)) == Lower(s)
  {
  }

  /** Lower-casing never turns a non-whitespace end into whitespace. */
  lemma LowerKeepsEnds(s: string)
    requires s == [] || (!IsWhitespace(s[0]) && !IsWhitespace(s[|s| - 1]))
    ensures var r := Lower(s); r == [] || (!IsWhitespace(r[0]) && !IsWhitespace(r[|r| - 1]))
  {
  }

  /** Already trimmed and lower-cased: normalizing it again changes nothing. */
  predicate IsNormalized(s: string) {
    Trim(s) == s && Lower(s) == s
  }

}
