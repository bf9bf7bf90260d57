/**
 * The part of JavaScript's string library the form relies on:
 * `String.prototype.trim`, which strips from both ends every WhiteSpace and
 * LineTerminator code point as ECMAScript defines them.
 */
module JsString {

  /** WhiteSpace (TAB, VT, FF, ZWNBSP and every Zs code point) or LineTerminator (LF, CR, LS, PS). */
  predicate IsWhitespace(c: char)
  {
    c == '\t' || c == '\U{000B}' || c == '\U{000C}' || c == ' ' || c == '\U{00A0}' || c == '\U{FEFF}'
    || c == '\U{1680}' || ('\U{2000}' <= c <= '\U{200A}') || c == '\U{202F}' || c == '\U{205F}'
    || c == '\U{3000}'
    || c == '\n' || c == '\r' || c == '\U{2028}' || c == '\U{2029}'
  }

  /** Every character of `s` is whitespace (in particular, the empty string). */
  predicate IsBlank(s: string)
  {
    forall i :: 0 <= i < |s| ==> IsWhitespace(s[i])
  }

  /** Drops the leading whitespace: the result is empty or starts with a non-whitespace character. */
  function TrimStart(s: string): (r: string)
    ensures |r| <= |s|
    ensures r == [] || !IsWhitespace(r[0])
    decreases |s|
  {
    if s != [] && IsWhitespace(s[0]) then TrimStart(s[1..]) else s
  }

  /** What `TrimStart` drops is a whitespace-only prefix: the result is the rest of `s`. */
  lemma {:induction false} TrimStartSuffix(s: string)
    ensures s[|s| - |TrimStart(s)|..] == TrimStart(s)
    ensures IsBlank(s[..|s| - |TrimStart(s)|])
    decreases |s|
  {
    if s != [] && IsWhitespace(s[0]) {
      var r := TrimStart(s[1..]);
      TrimStartSuffix(s[1..]);
      assert s[1..][|s[1..]| - |r|..] == s[|s| - |r|..];
      assert s[1..][..|s[1..]| - |r|] == s[1..|s| - |r|];
    }
  }

  /** Drops the trailing whitespace: the result is empty or ends with a non-whitespace character. */
  function TrimEnd(s: string): (r: string)
    ensures |r| <= |s|
    ensures r == [] || !IsWhitespace(r[|r| - 1])
    decreases |s|
  {
    if s != [] && IsWhitespace(s[|s| - 1]) then TrimEnd(s[..|s| - 1]) else s
  }

  /** What `TrimEnd` drops is a whitespace-only suffix: the result is the start of `s`. */
  lemma {:induction false} TrimEndPrefix(s: string)
    ensures s[..|TrimEnd(s)|] == TrimEnd(s)
    ensures IsBlank(s[|TrimEnd(s)|..])
    decreases |s|
  {
    if s != [] && IsWhitespace(s[|s| - 1]) {
      var r := TrimEnd(s[..|s| - 1]);
      TrimEndPrefix(s[..|s| - 1]);
      assert s[..|s| - 1][..|r|] == s[..|r|];
      assert s[..|s| - 1][|r|..] == s[|r|..|s| - 1];
    }
  }

  /**
   * `s.trim()`: empty exactly when `s` is blank, and otherwise starting and
   * ending with a non-whitespace character.
   */
  function Trim(s: string): (r: string)
    ensures |r| <= |s|
    ensures r == [] <==> IsBlank(s)
    ensures r != [] ==> !IsWhitespace(r[0]) && !IsWhitespace(r[|r| - 1])
  {
    var t := TrimStart(s);
    TrimStartEmpty(s);
    TrimEndEmpty(t);
    TrimEndPrefix(t);
    var r := TrimEnd(t);
    assert r != [] ==> t[..|r|][0] == t[0];
    r
  }

  /** The leading whitespace is all of `s` exactly when `s` is blank. */
  lemma TrimStartEmpty(s: string)
    ensures TrimStart(s) == [] <==> IsBlank(s)
  {
    var t := TrimStart(s);
    TrimStartSuffix(s);
    if t == [] {
      assert s[..|s| - |t|] == s;
    } else {
      assert s[|s| - |t|..][0] == t[0];
    }
  }

  /** Dropping trailing whitespace leaves nothing only when there was nothing else. */
  lemma TrimEndEmpty(t: string)
    requires t == [] || !IsWhitespace(t[0])
    ensures TrimEnd(t) == [] <==> t == []
  {
    var r := TrimEnd(t);
    TrimEndPrefix(t);
    assert r == [] ==> t[|r|..] == t;
  }

  /** `Trim(s)` is a contiguous slice of `s` with only whitespace around it. */
  lemma TrimIsSlice(s: string)
    ensures exists k :: 0 <= k <= |s| - |Trim(s)| && s[k..k + |Trim(s)|] == Trim(s) && IsBlank(s[..k]) && IsBlank(s[k + |Trim(s)|..])
  {
    var t := TrimStart(s);
    var r := TrimEnd(t);
    var k := |s| - |t|;
    TrimStartSuffix(s);
    TrimEndPrefix(t);
    assert r == Trim(s);
    assert s[k..] == t;
    assert s[k..k + |r|] == t[..|r|];
    assert s[k + |r|..] == t[|r|..];
    assert 0 <= k <= |s| - |r| && s[k..k + |r|] == r && IsBlank(s[..k]) && IsBlank(s[k + |r|..]);
  }

  /** A string that starts and ends with non-whitespace is its own trim. */
  lemma TrimNoOp(s: string)
    requires s != [] && !IsWhitespace(s[0]) && !IsWhitespace(s[|s| - 1])
    ensures Trim(s) == s
  {
    assert TrimStart(s) == s;
    assert TrimEnd(s) == s;
  }

  /** Trimming twice is the same as trimming once. */
  lemma TrimIdempotent(s: string)
    ensures Trim(Trim(s)) == Trim(s)
  {
    var r := Trim(s);
    if r != [] {
      TrimNoOp(r);
    }
  }
}
