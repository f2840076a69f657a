/** The JavaScript string built-ins the colour code relies on, modelled on
    `seq<char>`: `toUpperCase`/`toLowerCase` (ASCII letters only), `trim`
    and `includes`. */
module JsString {

  predicate IsLowerAscii(c: char) { 'a' <= c <= 'z' }

  predicate IsUpperAscii(c: char) { 'A' <= c <= 'Z' }

  function UpperChar(c: char): (u: char)
    ensures !IsLowerAscii(u)
    ensures IsLowerAscii(c) ==> IsUpperAscii(u) && u as int == c as int - 32
    ensures !IsLowerAscii(c) ==> u == c
  {
    if IsLowerAscii(c) then (c as int - 32) as char else c
  }

  function LowerChar(c: char): (l: char)
    ensures !IsUpperAscii(l)
    ensures IsUpperAscii(c) ==> IsLowerAscii(l) && l as int == c as int + 32
    ensures !IsUpperAscii(c) ==> l == c
  {
    if IsUpperAscii(c) then (c as int + 32) as char else c
  }

  predicate NoLower(s: string)
  {
    forall i :: 0 <= i < |s| ==> !IsLowerAscii(s[i])
  }

  /** `s.toUpperCase()`: maps every ASCII lower-case letter to upper case. */
  function ToUpper(s: string): (r: string)
    ensures |r| == |s|
    ensures forall i :: 0 <= i < |r| ==> r[i] == UpperChar(s[i])
  {
    seq(|s|, i requires 0 <= i < |s| => UpperChar(s[i]))
  }

  /** `s.toLowerCase()`: maps every ASCII upper-case letter to lower case. */
  function ToLower(s: string): (r: string)
    ensures |r| == |s|
    ensures forall i :: 0 <= i < |r| ==> r[i] == LowerChar(s[i])
  {
    seq(|s|, i requires 0 <= i < |s| => LowerChar(s[i]))
  }

  /** Upper-casing forgets the case the string had: upper-casing is
      idempotent, and upper-casing a lower-cased string is the same as
      upper-casing the original. */
  lemma {:induction false} UpperForgetsCase(s: string)
    ensures ToUpper(ToUpper(s)) == ToUpper(s)
    ensures ToUpper(ToLower(s)) == ToUpper(s)
    ensures NoLower(ToUpper(s))
  {
    forall i | 0 <= i < |s|
      ensures ToUpper(ToLower(s))[i] == ToUpper(s)[i]
    {
      var c := s[i];
      if IsUpperAscii(c) {
        assert LowerChar(c) as int == c as int + 32;
      } else if IsLowerAscii(c) {
        assert !IsUpperAscii(c);
      }
    }
  }

  /** Lower-casing forgets the case the string had, in the same way. */
  lemma {:induction false} LowerForgetsCase(s: string)
    ensures ToLower(ToLower(s)) == ToLower(s)
    ensures ToLower(ToUpper(s)) == ToLower(s)
  {
    forall i | 0 <= i < |s|
      ensures ToLower(ToUpper(s))[i] == ToLower(s)[i]
    {
      var c := s[i];
      if IsLowerAscii(c) {
        assert UpperChar(c) as int == c as int - 32;
      } else if IsUpperAscii(c) {
        assert !IsLowerAscii(c);
      }
    }
  }

  /** Upper-casing distributes over concatenation. */
  lemma UpperConcat(a: string, b: string)
    ensures ToUpper(a + b) == ToUpper(a) + ToUpper(b)
  {
  }

  /** The characters `String.prototype.trim` removes: the ECMAScript
      WhiteSpace and LineTerminator code points. */
  predicate IsWhiteSpace(c: char)
  {
    || c == '\t' || c == '\n' || c == '\U{B}' || c == '\U{C}' || c == '\r'
    || c == ' ' || c == '\U{A0}' || c == '\U{1680}'
    || ('\U{2000}' <= c <= '\U{200A}')
    || c == '\U{2028}' || c == '\U{2029}' || c == '\U{202F}' || c == '\U{205F}'
    || c == '\U{3000}' || c == '\U{FEFF}'
  }

  predicate AllWhiteSpace(s: string)
  {
    forall i :: 0 <= i < |s| ==> IsWhiteSpace(s[i])
  }

  predicate NoWhiteSpace(s: string)
  {
    forall i :: 0 <= i < |s| ==> !IsWhiteSpace(s[i])
  }

  /** Drops the leading white space: the result is the suffix of `s` that
      starts at its first non-white-space character. */
  function TrimStart(s: string): (r: string)
    ensures |r| <= |s| && r == s[|s| - |r|..]
    ensures AllWhiteSpace(s[..|s| - |r|])
    ensures r == [] || !IsWhiteSpace(r[0])
  {
    if s != [] && IsWhiteSpace(s[0]) then TrimStart(s[1..]) else s
  }

  /** Drops the trailing white space: the result is the prefix of `s` that
      ends at its last non-white-space character. */
  function TrimEnd(s: string): (r: string)
    ensures |r| <= |s| && r == s[..|r|]
    ensures AllWhiteSpace(s[|r|..])
    ensures r == [] || !IsWhiteSpace(r[|r| - 1])
  {
    if s != [] && IsWhiteSpace(s[|s| - 1]) then TrimEnd(s[..|s| - 1]) else s
  }

  /** `r` is the slice of `s` starting at `k`, with only white space before
      and after it. */
  predicate WhiteSpaceAround(s: string, k: int, r: string)
  {
    0 <= k && k + |r| <= |s| && r == s[k..k + |r|]
    && AllWhiteSpace(s[..k]) && AllWhiteSpace(s[k + |r|..])
  }

  /** `s.trim()`: the result is `s` without the white space around it; it
      has no white space at either end, and a string without white space is
      unchanged. */
  function Trim(s: string): (r: string)
    ensures |r| <= |s|
    ensures r == [] || (!IsWhiteSpace(r[0]) && !IsWhiteSpace(r[|r| - 1]))
    ensures NoWhiteSpace(s) ==> r == s
    ensures WhiteSpaceAround(s, |s| - |TrimStart(s)|, r)
  {
    var t := TrimStart(s);
    var r := TrimEnd(t);
    SliceBetweenWhiteSpace(s, t, r);
    r
  }

  /** A prefix `r` of a suffix `t` of `s`, where only white space was cut
      off on either side, is a slice of `s` with only white space around. */
  lemma SliceBetweenWhiteSpace(s: string, t: string, r: string)
    requires |t| <= |s| && t == s[|s| - |t|..] && AllWhiteSpace(s[..|s| - |t|])
    requires |r| <= |t| && r == t[..|r|] && AllWhiteSpace(t[|r|..])
    ensures WhiteSpaceAround(s, |s| - |t|, r)
  {
    var k := |s| - |t|;
    assert r == s[k..k + |r|] by { assert s[k..][..|r|] == s[k..k + |r|]; }
    assert s[k + |r|..] == t[|r|..];
  }

  /** Trimming twice is trimming once. */
  lemma TrimIdempotent(s: string)
    ensures Trim(Trim(s)) == Trim(s)
  {
    var r := Trim(s);
    assert TrimStart(r) == r;
    assert TrimEnd(r) == r;
  }

  /** `s.includes(q)`: `q` occurs in `s` at some position. */
  predicate Includes(s: string, q: string)
    ensures Includes(s, q) ==> |q| <= |s|
  {
    exists i :: 0 <= i <= |s| && q <= s[i..]
  }

  /** Every string includes the empty string. */
  lemma IncludesEmpty(s: string)
    ensures Includes(s, "")
  {
    assert "" <= s[0..];
  }
}
