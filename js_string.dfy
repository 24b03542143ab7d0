/**
 * `String.prototype.trim` as the service uses it: it removes leading and
 * trailing characters of ECMAScript's WhiteSpace and LineTerminator classes.
 */
module JsString {

  /** WhiteSpace (TAB, VT, FF, SP, NBSP, ZWNBSP and the space separators of Unicode) and LineTerminator (LF, CR, LS, PS). */
  predicate IsWhitespace(c: char) {
    || c == '\t' || c == '\n' || c == '\U{000B}' || c == '\U{000C}' || c == '\r' || c == ' '
    || c == '\U{00A0}' || c == '\U{1680}' || ('\U{2000}' <= c <= '\U{200A}')
    || c == '\U{2028}' || c == '\U{2029}' || c == '\U{202F}' || c == '\U{205F}'
    || c == '\U{3000}' || c == '\U{FEFF}'
  }

  /** Empty or made of whitespace only. */
  predicate IsBlank(s: string) {
    forall i :: 0 <= i < |s| ==> IsWhitespace(s[i])
  }

  /** Neither starts nor ends with whitespace. */
  predicate IsTrimmed(s: string) {
    s == [] || (!IsWhitespace(s[0]) && !IsWhitespace(s[|s| - 1]))
  }

  /** Drops the leading whitespace: the result is the suffix after a blank prefix. */
  function TrimStart(s: string): (r: string)
    ensures |r| <= |s| && r == s[|s| - |r|..]
    ensures IsBlank(s[..|s| - |r|])
    ensures r == [] || !IsWhitespace(r[0])
  {
    if s != [] && IsWhitespace(s[0]) then
      var r := TrimStart(s[1..]);
      var blank := s[..|s| - |r|];
      assert blank == [s[0]] + s[1..][..|s| - 1 - |r|];
      assert forall i :: 0 < i < |blank| ==> blank[i] == s[1..][..|s| - 1 - |r|][i - 1];
      r
    else
      s
  }

  /** Drops the trailing whitespace: the result is the prefix before a blank suffix. */
  function TrimEnd(s: string): (r: string)
    ensures |r| <= |s| && r == s[..|r|]
    ensures IsBlank(s[|r|..])
    ensures r == [] || !IsWhitespace(r[|r| - 1])
  {
    if s != [] && IsWhitespace(s[|s| - 1]) then
      var r := TrimEnd(s[..|s| - 1]);
      assert s[|r|..] == s[..|s| - 1][|r|..] + [s[|s| - 1]];
      r
    else
      s
  }

  /** `s.trim()` */
  function Trim(s: string): (r: string)
    ensures |r| <= |s| && IsTrimmed(r)
  {
    TrimEnd(TrimStart(s))
  }

  /** `s.trim() === ''` holds exactly of the blank strings. */
  lemma TrimEmptyIffBlank(s: string)
    ensures Trim(s) == [] <==> IsBlank(s)
  {
    var t := TrimStart(s);
    assert t != [] ==> t[0] == s[|s| - |t|];
    assert t == [] ==> s[..|s|] == s;
    assert t != [] ==> t[0..] == t;
  }

  lemma {:induction false} TrimStartDropsPadding(pad: string, rest: string)
    requires IsBlank(pad) && (rest == [] || !IsWhitespace(rest[0]))
    ensures TrimStart(pad + rest) == rest
  {
    if pad != [] {
      assert (pad + rest)[1..] == pad[1..] + rest;
      TrimStartDropsPadding(pad[1..], rest);
    }
  }

  lemma {:induction false} TrimEndDropsPadding(rest: string, pad: string)
    requires IsBlank(pad) && (rest == [] || !IsWhitespace(rest[|rest| - 1]))
    ensures TrimEnd(rest + pad) == rest
  {
    if pad != [] {
      var last := |pad| - 1;
      assert (rest + pad)[..|rest + pad| - 1] == rest + pad[..last];
      TrimEndDropsPadding(rest, pad[..last]);
    } else {
      assert rest + pad == rest;
    }
  }

  /** Whatever blank padding surrounds a trimmed core, `trim` returns exactly that core. */
  lemma TrimDropsPadding(before: string, core: string, after: string)
    requires IsBlank(before) && IsBlank(after) && IsTrimmed(core)
    ensures Trim(before + core + after) == core
  {
    if core == [] {
      assert before + core + after == before + after;
      assert IsBlank(before + after);
      TrimEmptyIffBlank(before + after);
    } else {
      assert before + core + after == before + (core + after);
      TrimStartDropsPadding(before, core + after);
      TrimEndDropsPadding(core, after);
    }
  }

  /** The strings `trim` leaves as they are are exactly the trimmed ones. */
  lemma TrimFixedIffTrimmed(s: string)
    ensures Trim(s) == s <==> IsTrimmed(s)
  {
    if IsTrimmed(s) {
      assert [] + s + [] == s;
      TrimDropsPadding([], s, []);
    }
  }

  /** Trimming twice is trimming once. */
  lemma TrimIdempotent(s: string)
    ensures Trim(Trim(s)) == Trim(s)
  {
    var t := Trim(s);
    assert [] + t + [] == t;
    TrimDropsPadding([], t, []);
  }
}
