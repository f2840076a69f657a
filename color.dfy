/** The hexadecimal helpers of the `Color` object: `rgbToHex`, `hexToRgb`,
    `isValidHex`, `normalize` and `getName`. */
module Color {
  import opened JsString

  datatype Option<T> = None | Some(value: T)

  /** The `{ r, g, b }` record `hexToRgb` returns. */
  datatype Rgb = Rgb(r: int, g: int, b: int)

  predicate IsByte(x: int) { 0 <= x <= 255 }

  // ---------------------------------------------------------------------
  // Hexadecimal digits
  // ---------------------------------------------------------------------

  /** The character class `[0-9A-Fa-f]`. */
  predicate IsHexDigit(c: char)
  {
    '0' <= c <= '9' || 'A' <= c <= 'F' || 'a' <= c <= 'f'
  }

  predicate IsUpperHexDigit(c: char)
  {
    '0' <= c <= '9' || 'A' <= c <= 'F'
  }

  predicate AllHex(s: string)
  {
    forall i :: 0 <= i < |s| ==> IsHexDigit(s[i])
  }

  /** The value of one digit, as `parseInt(…, 16)` reads it. */
  function HexValue(c: char): (d: nat)
    requires IsHexDigit(c)
    ensures d < 16
  {
    if '0' <= c <= '9' then c as int - '0' as int
    else if 'A' <= c <= 'F' then c as int - 'A' as int + 10
    else c as int - 'a' as int + 10
  }

  /** The digit `Number.prototype.toString(16)` writes for `d`. */
  function LowerDigit(d: nat): (c: char)
    requires d < 16
    ensures IsHexDigit(c) && HexValue(c) == d
    ensures UpperChar(c) == UpperDigit(d)
  {
    if d < 10 then (d + '0' as int) as char else (d - 10 + 'a' as int) as char
  }

  function UpperDigit(d: nat): (c: char)
    requires d < 16
    ensures IsUpperHexDigit(c) && IsHexDigit(c) && HexValue(c) == d
  {
    if d < 10 then (d + '0' as int) as char else (d - 10 + 'A' as int) as char
  }

  /** Writing back the value of a digit gives the digit in upper case. */
  lemma UpperDigitOfValue(c: char)
    requires IsHexDigit(c)
    ensures UpperDigit(HexValue(c)) == UpperChar(c)
  {
  }

  // ---------------------------------------------------------------------
  // parseInt(…, 16) and toString(16)
  // ---------------------------------------------------------------------

  /** `parseInt(s, 16)` on a string made only of hex digits. */
  function ParseHex(s: string): (n: nat)
    requires AllHex(s)
    ensures n < Pow16(|s|)
    decreases |s|
  {
    if s == [] then 0
    else
      var m := ParseHex(s[..|s| - 1]);
      assert m * 16 + 16 <= Pow16(|s| - 1) * 16;
      m * 16 + HexValue(s[|s| - 1])
  }

  /** 16 to the power `k`. */
  function Pow16(k: nat): nat
  {
    if k == 0 then 1 else 16 * Pow16(k - 1)
  }

  /** The digits of `n.toString(16)` for `n >= 0`, without leading zeros:
      one digit below 16, at most two below 256. */
  function Radix16(n: nat): (s: string)
    ensures 1 <= |s|
    ensures n < 16 <==> |s| == 1
    ensures n < 256 <==> |s| <= 2
    decreases n
  {
    if n < 16 then [LowerDigit(n)] else Radix16(n / 16) + [LowerDigit(n % 16)]
  }

  /** `parseInt(n.toString(16), 16) == n`. */
  lemma {:induction false} Radix16RoundTrip(n: nat)
    ensures AllHex(Radix16(n)) && ParseHex(Radix16(n)) == n
    decreases n
  {
    if n >= 16 {
      var hi := Radix16(n / 16);
      Radix16RoundTrip(n / 16);
      var s := hi + [LowerDigit(n % 16)];
      assert s[..|s| - 1] == hi;
    }
  }

  /** `x.toString(16)` for an integer `x`. */
  function ToString16(x: int): (s: string)
    ensures 1 <= |s|
    ensures x < 0 ==> s[0] == '-'
    ensures 0 <= x < 256 ==> |s| <= 2
  {
    if x < 0 then "-" + Radix16(-x) else Radix16(x)
  }

  /** `s.padStart(2, '0')`. */
  function PadStart2(s: string): (r: string)
    ensures |r| == if |s| < 2 then 2 else |s|
    ensures |s| >= 2 ==> r == s
  {
    if |s| == 0 then "00" else if |s| == 1 then "0" + s else s
  }

  /** The two-character field `rgbToHex` writes for one channel, before
      upper-casing. */
  function ChannelField(x: int): (f: string)
    ensures |f| >= 2
    ensures |f| == 2 && x >= 0 ==> IsByte(x)
    ensures x < 0 ==> f[0] == '-'
  {
    PadStart2(ToString16(x))
  }

  /** A byte is written as its high and its low hex digit. */
  lemma ChannelFieldOfByte(x: int)
    requires IsByte(x)
    ensures ChannelField(x) == [LowerDigit(x / 16), LowerDigit(x % 16)]
    ensures ToUpper(ChannelField(x)) == [UpperDigit(x / 16), UpperDigit(x % 16)]
  {
    if x >= 16 {
      assert Radix16(x / 16) == [LowerDigit(x / 16)];
    }
  }

  // ---------------------------------------------------------------------
  // rgbToHex
  // ---------------------------------------------------------------------

  /** `rgbToHex(r, g, b)`: `#` followed by each channel's `toString(16)`
      padded to two characters, the whole upper-cased. */
  function RgbToHex(r: int, g: int, b: int): (h: string)
    ensures |h| >= 7 && h[0] == '#'
  {
    "#" + ToUpper(ChannelField(r) + ChannelField(g) + ChannelField(b))
  }

  /** The canonical form: `#` and exactly six upper-case hex digits. */
  predicate IsCanonicalHex(h: string)
  {
    |h| == 7 && h[0] == '#' && forall i :: 1 <= i < 7 ==> IsUpperHexDigit(h[i])
  }

  /** `rgbToHex` upper-cases each channel's field separately. */
  lemma RgbToHexFields(r: int, g: int, b: int)
    ensures RgbToHex(r, g, b)
         == "#" + ToUpper(ChannelField(r)) + ToUpper(ChannelField(g)) + ToUpper(ChannelField(b))
  {
    UpperConcat3(ChannelField(r), ChannelField(g), ChannelField(b));
  }

  /** Upper-casing three joined strings upper-cases each of them. */
  lemma UpperConcat3(a: string, b: string, c: string)
    ensures "#" + ToUpper(a + b + c) == "#" + ToUpper(a) + ToUpper(b) + ToUpper(c)
  {
    UpperConcat(a + b, c);
    UpperConcat(a, b);
  }

  /** For byte channels `rgbToHex` writes each channel as two upper-case
      digits, high digit first. */
  lemma RgbToHexDigits(r: int, g: int, b: int)
    requires IsByte(r) && IsByte(g) && IsByte(b)
    ensures RgbToHex(r, g, b) == ['#', UpperDigit(r / 16), UpperDigit(r % 16),
                                       UpperDigit(g / 16), UpperDigit(g % 16),
                                       UpperDigit(b / 16), UpperDigit(b % 16)]
  {
    var h := RgbToHex(r, g, b);
    var fr, fg, fb := ToUpper(ChannelField(r)), ToUpper(ChannelField(g)), ToUpper(ChannelField(b));
    assert h == "#" + fr + fg + fb by { RgbToHexFields(r, g, b); }
    assert fr == [UpperDigit(r / 16), UpperDigit(r % 16)] by { ChannelFieldOfByte(r); }
    assert fg == [UpperDigit(g / 16), UpperDigit(g % 16)] by { ChannelFieldOfByte(g); }
    assert fb == [UpperDigit(b / 16), UpperDigit(b % 16)] by { ChannelFieldOfByte(b); }
    Assemble(h, fr, fg, fb);
  }

  lemma Assemble(h: string, fr: string, fg: string, fb: string)
    requires |fr| == 2 && |fg| == 2 && |fb| == 2 && h == "#" + fr + fg + fb
    ensures h == ['#', fr[0], fr[1], fg[0], fg[1], fb[0], fb[1]]
  {
  }

  /** For byte channels `rgbToHex` writes the canonical form. */
  lemma RgbToHexOfBytes(r: int, g: int, b: int)
    requires IsByte(r) && IsByte(g) && IsByte(b)
    ensures IsCanonicalHex(RgbToHex(r, g, b))
  {
    RgbToHexDigits(r, g, b);
  }

  // ---------------------------------------------------------------------
  // isValidHex: /^#?([0-9A-Fa-f]{3}|[0-9A-Fa-f]{6})$/
  // ---------------------------------------------------------------------

  /** `[0-9A-Fa-f]{n}` matching the whole of `s`. */
  predicate HexRun(s: string, n: nat)
    ensures HexRun(s, n) ==> |s| == n
    decreases n
  {
    if n == 0 then s == [] else |s| > 0 && IsHexDigit(s[0]) && HexRun(s[1..], n - 1)
  }

  /** `isValidHex(s)`: the regular expression tried as written — the
      optional `#` taken or skipped, then either alternative of the group,
      anchored at both ends. */
  predicate IsValidHex(s: string)
    ensures IsValidHex(s) ==> |s| == 3 || |s| == 4 || |s| == 6 || |s| == 7
  {
    || (|s| > 0 && s[0] == '#' && (HexRun(s[1..], 3) || HexRun(s[1..], 6)))
    || HexRun(s, 3) || HexRun(s, 6)
  }

  lemma {:induction false} HexRunIsAllHex(s: string, n: nat)
    ensures HexRun(s, n) <==> |s| == n && AllHex(s)
    decreases n
  {
    if n > 0 && |s| > 0 {
      HexRunIsAllHex(s[1..], n - 1);
      if |s| == n && AllHex(s) {
        assert AllHex(s[1..]);
      }
      if HexRun(s, n) {
        assert forall i :: 1 <= i < |s| ==> s[i] == s[1..][i - 1];
      }
    }
  }

  /** `hex.replace(/^#/, '')`: removes one leading `#`, if any. */
  function StripHash(s: string): (t: string)
    ensures s == t || s == "#" + t
  {
    if |s| > 0 && s[0] == '#' then s[1..] else s
  }

  /** `isValidHex(s)` holds exactly when `s` is an optional `#` followed by
      exactly three or exactly six hex digits. */
  lemma ValidHexIff(s: string)
    ensures IsValidHex(s) <==> var t := StripHash(s); (|t| == 3 || |t| == 6) && AllHex(t)
  {
    HexRunIsAllHex(s, 3);
    HexRunIsAllHex(s, 6);
    if |s| > 0 {
      HexRunIsAllHex(s[1..], 3);
      HexRunIsAllHex(s[1..], 6);
      if s[0] == '#' {
        assert !IsHexDigit(s[0]);
      }
    }
  }


  /** Only the lengths 3, 4, 6 and 7 can be valid; a valid string of length
      4 or 7 starts with `#`, one of length 3 or 6 is all digits. */
  lemma ValidHexLength(s: string)
    requires IsValidHex(s)
    ensures |s| == 3 || |s| == 4 || |s| == 6 || |s| == 7
    ensures |s| == 4 || |s| == 7 ==> s[0] == '#'
    ensures |s| == 3 || |s| == 6 ==> AllHex(s)
  {
    ValidHexIff(s);
  }

  /** A valid string is made of `#` and hex digits, so it holds no white
      space. */
  lemma ValidHexNoWhiteSpace(s: string)
    requires IsValidHex(s)
    ensures NoWhiteSpace(s)
  {
    ValidHexIff(s);
    var t := StripHash(s);
    forall i | 0 <= i < |s|
      ensures !IsWhiteSpace(s[i])
    {
      if s[i] != '#' {
        if s == t {
          assert IsHexDigit(t[i]);
        } else {
          assert s == "#" + t && i > 0 && s[i] == t[i - 1];
          assert IsHexDigit(t[i - 1]);
        }
      }
    }
  }

  // ---------------------------------------------------------------------
  // hexToRgb
  // ---------------------------------------------------------------------

  /** `t.split('').map(c => c + c).join('')` on three characters. */
  function Expand3(t: string): (e: string)
    requires |t| == 3
    ensures |e| == 6 && forall i :: 0 <= i < 6 ==> e[i] == t[i / 2]
    ensures AllHex(e) <==> AllHex(t)
  {
    var e := [t[0], t[0], t[1], t[1], t[2], t[2]];
    assert AllHex(e) ==> IsHexDigit(e[0]) && IsHexDigit(e[2]) && IsHexDigit(e[4]);
    e
  }

  /** The six digits `hexToRgb` hands to `parseInt`. */
  function SixDigits(hex: string): (e: string)
    requires IsValidHex(hex)
    ensures |e| == 6 && AllHex(e)
  {
    ValidHexIff(hex);
    var t := StripHash(hex);
    if |t| == 3 then Expand3(t) else t
  }

  lemma ParseHexPrefix(s: string, k: nat)
    requires AllHex(s) && k < |s|
    ensures AllHex(s[..k]) && AllHex(s[..k + 1])
    ensures ParseHex(s[..k + 1]) == ParseHex(s[..k]) * 16 + HexValue(s[k])
  {
    assert s[..k + 1][..k] == s[..k];
  }

  /** `parseInt` of six digits: three two-digit channel values, high first. */
  lemma ParseSixDigits(e: string)
    requires |e| == 6 && AllHex(e)
    ensures ParseHex(e) == (HexValue(e[0]) * 16 + HexValue(e[1])) * 0x10000
                         + (HexValue(e[2]) * 16 + HexValue(e[3])) * 0x100
                         + (HexValue(e[4]) * 16 + HexValue(e[5]))
  {
    assert e[..0] == [];
    ParseHexPrefix(e, 0);
    ParseHexPrefix(e, 1);
    ParseHexPrefix(e, 2);
    ParseHexPrefix(e, 3);
    ParseHexPrefix(e, 4);
    ParseHexPrefix(e, 5);
    assert e[..6] == e;
  }

  /** Shifting by 16 and 8 and masking with 255 recovers three packed bytes. */
  lemma UnpackBytes(x: int, y: int, z: int)
    requires IsByte(x) && IsByte(y) && IsByte(z)
    ensures var n := x * 0x10000 + y * 0x100 + z;
            (n / 0x10000) % 0x100 == x && (n / 0x100) % 0x100 == y && n % 0x100 == z
  {
    var n := x * 0x10000 + y * 0x100 + z;
    assert n / 0x10000 == x;
    assert n / 0x100 == x * 0x100 + y;
    assert (x * 0x100 + y) % 0x100 == y;
  }

  /** Two digits make a byte, and dividing by 16 splits it back. */
  lemma DigitPair(hi: int, lo: int)
    requires 0 <= hi < 16 && 0 <= lo < 16
    ensures IsByte(hi * 16 + lo)
    ensures (hi * 16 + lo) / 16 == hi && (hi * 16 + lo) % 16 == lo
  {
  }

  /** `hexToRgb(hex)` on a string `isValidHex` accepts: `n = parseInt(…, 16)`
      then `(n >> 16) & 255`, `(n >> 8) & 255` and `n & 255`. As `n` is
      below 2^24, the 32-bit shifts are exact divisions and the masks are
      remainders modulo 256. */
  function HexToRgb(hex: string): (c: Rgb)
    requires IsValidHex(hex)
    ensures IsByte(c.r) && IsByte(c.g) && IsByte(c.b)
  {
    var n := ParseHex(SixDigits(hex));
    Rgb((n / 0x10000) % 0x100, (n / 0x100) % 0x100, n % 0x100)
  }

  /** Each channel is read from its own pair of the six digits, high digit
      first. */
  lemma HexToRgbChannels(hex: string)
    requires IsValidHex(hex)
    ensures var e := SixDigits(hex);
            HexToRgb(hex) == Rgb(HexValue(e[0]) * 16 + HexValue(e[1]),
                                 HexValue(e[2]) * 16 + HexValue(e[3]),
                                 HexValue(e[4]) * 16 + HexValue(e[5]))
  {
    var e := SixDigits(hex);
    ParseSixDigits(e);
    DigitPair(HexValue(e[0]), HexValue(e[1]));
    DigitPair(HexValue(e[2]), HexValue(e[3]));
    DigitPair(HexValue(e[4]), HexValue(e[5]));
    UnpackBytes(HexValue(e[0]) * 16 + HexValue(e[1]),
                HexValue(e[2]) * 16 + HexValue(e[3]),
                HexValue(e[4]) * 16 + HexValue(e[5]));
  }

  lemma CanonicalIsValid(h: string)
    requires IsCanonicalHex(h)
    ensures IsValidHex(h) && StripHash(h) == h[1..] && SixDigits(h) == h[1..]
  {
    ValidHexIff(h);
  }

  /** Round trip: for byte channels, `hexToRgb(rgbToHex(r, g, b))` gives
      `(r, g, b)` back. */
  lemma RgbHexRoundTrip(r: int, g: int, b: int)
    requires IsByte(r) && IsByte(g) && IsByte(b)
    ensures IsValidHex(RgbToHex(r, g, b))
    ensures HexToRgb(RgbToHex(r, g, b)) == Rgb(r, g, b)
  {
    var h := RgbToHex(r, g, b);
    RgbToHexDigits(r, g, b);
    RgbToHexOfBytes(r, g, b);
    CanonicalIsValid(h);
    var e := h[1..];
    assert HexValue(e[0]) == r / 16 && HexValue(e[1]) == r % 16;
    assert HexValue(e[2]) == g / 16 && HexValue(e[3]) == g % 16;
    assert HexValue(e[4]) == b / 16 && HexValue(e[5]) == b % 16;
    HexToRgbChannels(h);
  }

  /** `#` followed by three upper-cased fields of at least two characters
      is not a valid hex string when a field is longer than two characters
      or all are two long and one starts with `-`. */
  lemma MisshapenFields(h: string, fr: string, fg: string, fb: string)
    requires h == "#" + ToUpper(fr) + ToUpper(fg) + ToUpper(fb)
    requires |fr| >= 2 && |fg| >= 2 && |fb| >= 2
    requires |fr| == 2 && |fg| == 2 && |fb| == 2 ==> fr[0] == '-' || fg[0] == '-' || fb[0] == '-'
    ensures !IsValidHex(h)
  {
    var body := ToUpper(fr) + ToUpper(fg) + ToUpper(fb);
    assert StripHash(h) == body;
    if |fr| == 2 && |fg| == 2 && |fb| == 2 {
      var k := if fr[0] == '-' then 0 else if fg[0] == '-' then 2 else 4;
      assert body[k] == '-';
      assert !AllHex(body);
    }
    ValidHexIff(h);
  }

  /** `rgbToHex` yields a valid hex string exactly when every channel is a
      byte: a channel above 255 makes the string too long, a negative one
      puts a `-` among the digits. */
  lemma RgbToHexValidIff(r: int, g: int, b: int)
    ensures IsValidHex(RgbToHex(r, g, b)) <==> IsByte(r) && IsByte(g) && IsByte(b)
  {
    if IsByte(r) && IsByte(g) && IsByte(b) {
      RgbHexRoundTrip(r, g, b);
    } else {
      RgbToHexFields(r, g, b);
      MisshapenFields(RgbToHex(r, g, b), ChannelField(r), ChannelField(g), ChannelField(b));
    }
  }

  /** `hexToRgb` ignores one leading `#`. */
  lemma HexToRgbHashOptional(t: string)
    requires IsValidHex(t) && (t == [] || t[0] != '#')
    ensures IsValidHex("#" + t)
    ensures HexToRgb("#" + t) == HexToRgb(t)
  {
    ValidHexIff(t);
    ValidHexIff("#" + t);
    assert ("#" + t)[1..] == t;
  }

  /** A three-digit input reads as its six-digit form with every digit
      doubled; each channel is 17 times its digit's value. */
  lemma HexToRgbShorthand(t: string)
    requires |t| == 3 && AllHex(t)
    ensures IsValidHex(t) && IsValidHex(Expand3(t))
    ensures HexToRgb(t) == HexToRgb(Expand3(t))
    ensures HexToRgb(t) == Rgb(17 * HexValue(t[0]), 17 * HexValue(t[1]), 17 * HexValue(t[2]))
  {
    ValidHexIff(t);
    ValidHexIff(Expand3(t));
    HexToRgbChannels(t);
    HexToRgbChannels(Expand3(t));
  }

  // ---------------------------------------------------------------------
  // normalize
  // ---------------------------------------------------------------------

  /** The step of `normalize` that puts a `#` in front unless there is one
      already: the result starts with `#` and has the same digits after it. */
  function Prefixed(t: string): (u: string)
    ensures |u| > 0 && u[0] == '#' && u == "#" + StripHash(t)
  {
    if |t| > 0 && t[0] == '#' then t else "#" + t
  }

  /** The step of `normalize` that doubles the three digits of a
      four-character string: it becomes `#` and its three last characters,
      each written twice; a string of any other length is kept. */
  function ExpandShort(u: string): (v: string)
    ensures |u| == 4 ==> |v| == 7 && v[0] == '#' && v[1..] == Expand3(u[1..])
    ensures |u| != 4 ==> v == u
  {
    if |u| == 4 then "#" + Expand3(u[1..]) else u
  }

  /** The steps of `normalize` after `trim()`: upper-case, prefix a missing
      `#`, double the digits of a four-character `#XYZ`, and keep the result
      only if `isValidHex` accepts it. */
  function Canonicalize(w: string): (r: Option<string>)
    ensures r.Some? ==> |r.value| == 7 && r.value[0] == '#' && IsValidHex(r.value)
  {
    var v := ExpandShort(Prefixed(ToUpper(w)));
    if IsValidHex(v) then Some(v) else None
  }

  /** `normalize(hex)`: `None` for the empty (falsy) string, otherwise the
      trimmed string canonicalised. */
  function Normalize(s: string): (r: Option<string>)
    ensures s == "" ==> r == None
    ensures r.Some? ==> |r.value| == 7 && r.value[0] == '#' && IsValidHex(r.value)
  {
    if s == "" then None else Canonicalize(Trim(s))
  }

  /** Upper-casing a string keeps its hex digits hex and its other
      characters not hex. */
  lemma UpperKeepsHexDigits(w: string)
    ensures AllHex(ToUpper(w)) <==> AllHex(w)
  {
    var t := ToUpper(w);
    if !AllHex(w) {
      var i :| 0 <= i < |w| && !IsHexDigit(w[i]);
      assert !IsHexDigit(t[i]);
    }
    if !AllHex(t) {
      var i :| 0 <= i < |t| && !IsHexDigit(t[i]);
      assert !IsHexDigit(w[i]);
    }
  }

  /** Upper-casing commutes with removing the leading `#`. */
  lemma UpperStripHash(w: string)
    ensures StripHash(ToUpper(w)) == ToUpper(StripHash(w))
  {
    if |w| > 0 {
      assert ToUpper(w)[0] == '#' <==> w[0] == '#';
      if w[0] == '#' {
        assert ToUpper(w) == ToUpper([w[0]] + w[1..]) by { assert w == [w[0]] + w[1..]; }
        UpperConcat([w[0]], w[1..]);
      }
    }
  }

  /** Upper-casing does not change whether a string is valid. */
  lemma UpperKeepsValidity(w: string)
    ensures IsValidHex(ToUpper(w)) <==> IsValidHex(w)
  {
    ValidHexIff(w);
    ValidHexIff(ToUpper(w));
    UpperStripHash(w);
    UpperKeepsHexDigits(StripHash(w));
  }

  /** Prefixing `#` and expanding shorthand does not change whether a string
      is valid. */
  lemma PrefixExpandKeepsValidity(t: string)
    ensures IsValidHex(ExpandShort(Prefixed(t))) <==> IsValidHex(t)
  {
    var u := Prefixed(t);
    var v := ExpandShort(u);
    ValidHexIff(t);
    ValidHexIff(u);
    ValidHexIff(v);
    assert StripHash(u) == StripHash(t);
    if |u| == 4 {
      assert StripHash(v) == Expand3(u[1..]);
    }
  }

  /** Canonicalising succeeds exactly on valid strings. */
  lemma CanonicalizeSomeIff(w: string)
    ensures Canonicalize(w).Some? <==> IsValidHex(w)
  {
    UpperKeepsValidity(w);
    PrefixExpandKeepsValidity(ToUpper(w));
  }

  /** `normalize` succeeds exactly when the trimmed input passes
      `isValidHex`; so it fails on the empty string, on white space only, on
      any length other than 3 or 6 digits and on any non-hex character. */
  lemma NormalizeSomeIff(s: string)
    ensures Normalize(s).Some? <==> IsValidHex(Trim(s))
  {
    CanonicalizeSomeIff(Trim(s));
    if s == "" {
      ValidHexIff("");
    }
  }

  /** `normalize` ignores white space around its input. */
  lemma NormalizeIgnoresSurroundingSpace(s: string)
    ensures Normalize(Trim(s)) == Normalize(s)
  {
    var t := Trim(s);
    if t == "" {
      if s != "" {
        assert Normalize(s) == Canonicalize("");
        CanonicalizeSomeIff("");
      }
    } else {
      assert |t| <= |s|;
      assert Trim(t) == t by { TrimIdempotent(s); }
      assert Normalize(t) == Canonicalize(t);
    }
  }

  /** Every string `normalize` returns is `#` plus six upper-case digits. */
  lemma NormalizeCanonical(s: string)
    requires Normalize(s).Some?
    ensures IsCanonicalHex(Normalize(s).value)
  {
    var t := ToUpper(Trim(s));
    assert NoLower(t) by { UpperForgetsCase(Trim(s)); }
    ExpandedCanonical(t);
  }

  /** Prefixing and expanding an upper-case string leaves it upper-case. */
  lemma PrefixExpandNoLower(t: string)
    requires NoLower(t)
    ensures NoLower(ExpandShort(Prefixed(t)))
  {
    var u := Prefixed(t);
    assert NoLower(u) by {
      forall i | 1 <= i < |u| ensures !IsLowerAscii(u[i]) {
        assert u[i] == StripHash(t)[i - 1];
      }
    }
    var v := ExpandShort(u);
    if |u| == 4 {
      forall i | 1 <= i < 7 ensures !IsLowerAscii(v[i]) {
        assert v[i] == u[1 + (i - 1) / 2];
      }
    }
  }

  /** A valid upper-case string, prefixed and expanded, is canonical. */
  lemma ExpandedCanonical(t: string)
    requires NoLower(t) && IsValidHex(ExpandShort(Prefixed(t)))
    ensures IsCanonicalHex(ExpandShort(Prefixed(t)))
  {
    var v := ExpandShort(Prefixed(t));
    PrefixExpandNoLower(t);
    ValidHexLength(v);
    assert |v| == 7;
    assert AllHex(v[1..]) by { ValidHexIff(v); }
    forall i | 1 <= i < 7
      ensures IsUpperHexDigit(v[i])
    {
      assert IsHexDigit(v[1..][i - 1]);
    }
  }

  /** On a valid string, canonicalising gives `#` and the six digits
      `hexToRgb` reads, upper-cased. */
  lemma CanonicalizeValid(s: string)
    requires IsValidHex(s)
    ensures Canonicalize(s) == Some("#" + ToUpper(SixDigits(s)))
  {
    ValidHexIff(s);
    var d := StripHash(s);
    UpperStripHash(s);
    var u := Prefixed(ToUpper(s));
    assert u == "#" + ToUpper(d);
    if |d| == 3 {
      assert ExpandShort(u) == "#" + ToUpper(SixDigits(s));
    }
    CanonicalizeSomeIff(s);
  }

  /** On a valid input, `normalize` gives `#` and the six digits `hexToRgb`
      reads, upper-cased. */
  lemma NormalizeValid(s: string)
    requires IsValidHex(s)
    ensures Normalize(s) == Some("#" + ToUpper(SixDigits(s)))
  {
    ValidHexNoWhiteSpace(s);
    ValidHexLength(s);
    CanonicalizeValid(s);
  }

  /** What `rgbToHex` writes for the channels `hexToRgb` reads is `#` and the
      six digits, upper-cased. */
  lemma RgbToHexOfHexToRgb(s: string)
    requires IsValidHex(s)
    ensures var c := HexToRgb(s); RgbToHex(c.r, c.g, c.b) == "#" + ToUpper(SixDigits(s))
  {
    HexToRgbChannels(s);
    var c := HexToRgb(s);
    RgbToHexOfDigitPairs(SixDigits(s), c.r, c.g, c.b);
  }

  /** Writing the channel a digit pair stands for gives the pair back,
      upper-cased. */
  lemma ChannelOfDigitPair(c0: char, c1: char)
    requires IsHexDigit(c0) && IsHexDigit(c1)
    ensures var x := HexValue(c0) * 16 + HexValue(c1);
            IsByte(x) && UpperDigit(x / 16) == UpperChar(c0) && UpperDigit(x % 16) == UpperChar(c1)
  {
    DigitPair(HexValue(c0), HexValue(c1));
    UpperDigitOfValue(c0);
    UpperDigitOfValue(c1);
  }

  lemma RgbToHexOfDigitPairs(e: string, r: int, g: int, b: int)
    requires |e| == 6 && AllHex(e)
    requires r == HexValue(e[0]) * 16 + HexValue(e[1])
    requires g == HexValue(e[2]) * 16 + HexValue(e[3])
    requires b == HexValue(e[4]) * 16 + HexValue(e[5])
    ensures RgbToHex(r, g, b) == "#" + ToUpper(e)
  {
    var h := RgbToHex(r, g, b);
    assert h == ['#', UpperChar(e[0]), UpperChar(e[1]), UpperChar(e[2]),
                      UpperChar(e[3]), UpperChar(e[4]), UpperChar(e[5])] by {
      ChannelOfDigitPair(e[0], e[1]);
      ChannelOfDigitPair(e[2], e[3]);
      ChannelOfDigitPair(e[4], e[5]);
      RgbToHexDigits(r, g, b);
    }
    UpperSix(e, h);
  }

  lemma UpperSix(e: string, h: string)
    requires |e| == 6
    requires h == ['#', UpperChar(e[0]), UpperChar(e[1]), UpperChar(e[2]),
                        UpperChar(e[3]), UpperChar(e[4]), UpperChar(e[5])]
    ensures h == "#" + ToUpper(e)
  {
  }

  /** On a valid input, `normalize` and `hexToRgb` agree: the normal form is
      what `rgbToHex` writes for the channels `hexToRgb` reads, so both see
      the same colour. */
  lemma NormalizeAgreesWithHexToRgb(s: string)
    requires IsValidHex(s)
    ensures var c := HexToRgb(s); Normalize(s) == Some(RgbToHex(c.r, c.g, c.b))
    ensures HexToRgb(Normalize(s).value) == HexToRgb(s)
  {
    NormalizeValid(s);
    RgbToHexOfHexToRgb(s);
    var c := HexToRgb(s);
    HexToRgbChannels(s);
    RgbHexRoundTrip(c.r, c.g, c.b);
  }

  /** A canonical string is its own normal form. */
  lemma NormalizeFixesCanonical(h: string)
    requires IsCanonicalHex(h)
    ensures Normalize(h) == Some(h)
  {
    assert IsValidHex(h) by { CanonicalIsValid(h); }
    assert NoWhiteSpace(h) by {
      forall i | 0 <= i < 7 ensures !IsWhiteSpace(h[i]) {
        if i > 0 { assert IsUpperHexDigit(h[i]); }
      }
    }
    assert ToUpper(h) == h by {
      forall i | 0 <= i < 7 ensures UpperChar(h[i]) == h[i] {
        if i > 0 { assert IsUpperHexDigit(h[i]); }
      }
    }
    assert Canonicalize(h) == Some(h);
  }

  /** `normalize` is idempotent. */
  lemma NormalizeIdempotent(s: string)
    requires Normalize(s).Some?
    ensures Normalize(Normalize(s).value) == Normalize(s)
  {
    NormalizeCanonical(s);
    NormalizeFixesCanonical(Normalize(s).value);
  }

  /** `normalize` leaves what `rgbToHex` writes for byte channels unchanged. */
  lemma NormalizeRgbToHex(r: int, g: int, b: int)
    requires IsByte(r) && IsByte(g) && IsByte(b)
    ensures Normalize(RgbToHex(r, g, b)) == Some(RgbToHex(r, g, b))
  {
    RgbToHexOfBytes(r, g, b);
    NormalizeFixesCanonical(RgbToHex(r, g, b));
  }

  /** A four-character `#XYZ` becomes `#XXYYZZ`, upper-cased. */
  lemma NormalizeShorthand(s: string)
    requires |s| == 4 && s[0] == '#' && AllHex(s[1..])
    ensures Normalize(s) == Some(['#', UpperChar(s[1]), UpperChar(s[1]),
                                       UpperChar(s[2]), UpperChar(s[2]),
                                       UpperChar(s[3]), UpperChar(s[3])])
  {
    assert IsValidHex(s) && StripHash(s) == s[1..] by { ValidHexIff(s); }
    var e := SixDigits(s);
    assert e == [s[1], s[1], s[2], s[2], s[3], s[3]];
    NormalizeValid(s);
    UpperSix(e, ['#', UpperChar(s[1]), UpperChar(s[1]), UpperChar(s[2]), UpperChar(s[2]),
                      UpperChar(s[3]), UpperChar(s[3])]);
  }

  // ---------------------------------------------------------------------
  // getName
  // ---------------------------------------------------------------------

  /** The fixed table of `getName`. */
  const Names: map<string, string> := map[
    "#000000" := "Black", "#FFFFFF" := "White", "#FF0000" := "Red", "#00FF00" := "Lime",
    "#0000FF" := "Blue", "#FFFF00" := "Yellow", "#00FFFF" := "Cyan", "#FF00FF" := "Magenta",
    "#C0C0C0" := "Silver", "#808080" := "Gray", "#800000" := "Maroon", "#808000" := "Olive",
    "#008000" := "Green", "#800080" := "Purple", "#008080" := "Teal", "#000080" := "Navy",
    "#FFA500" := "Orange", "#FFC0CB" := "Pink", "#A52A2A" := "Brown", "#DC2626" := "Rose"
  ]

  /** `getName(hex)`: the table entry for the upper-cased string, or
      `'Custom'` when there is none. */
  function GetName(hex: string): (name: string)
    ensures name != ""
    ensures name == "Custom" <==> ToUpper(hex) !in Names
  {
    var key := ToUpper(hex);
    NamesAreNames();
    if key in Names then Names[key] else "Custom"
  }

  /** Every key of the table is canonical. */
  lemma NamesKeysCanonical()
    ensures forall k :: k in Names ==> IsCanonicalHex(k)
  {
  }

  /** No entry of the table is named `Custom` or has an empty name. */
  lemma NamesAreNames()
    ensures "Custom" !in Names.Values
    ensures forall k :: k in Names ==> Names[k] != ""
  {
  }

  /** `getName` answers `Custom` exactly for the strings whose upper-cased
      form is not a key of the table, and is blind to case. */
  lemma GetNameIgnoresCase(s: string)
    ensures GetName(s) == GetName(ToUpper(s)) == GetName(ToLower(s))
  {
    UpperForgetsCase(s);
  }

  /** Only strings that normalise to a key of the table have a name, and
      then the normal form is the upper-cased string. */
  lemma GetNameOnlyForCanonical(s: string)
    requires GetName(s) != "Custom"
    ensures Normalize(s) == Some(ToUpper(s))
    ensures GetName(Normalize(s).value) == GetName(s)
  {
    var k := ToUpper(s);
    assert IsCanonicalHex(k) by { NamesKeysCanonical(); }
    UpperCanonicalIsValid(s);
    NormalizeValid(s);
    UpperStripHash(s);
    assert k == "#" + StripHash(k);
    UpperForgetsCase(s);
  }

  /** A string whose upper-cased form is canonical is valid, and its six
      digits are the ones after the `#`. */
  lemma UpperCanonicalIsValid(s: string)
    requires IsCanonicalHex(ToUpper(s))
    ensures IsValidHex(s) && SixDigits(s) == s[1..]
  {
    var k := ToUpper(s);
    assert s[0] == '#';
    var d := s[1..];
    assert ToUpper(d) == k[1..];
    assert AllHex(d) by {
      assert AllHex(k[1..]);
      UpperKeepsHexDigits(d);
    }
    ValidHexIff(s);
  }

  // ---------------------------------------------------------------------
  // Worked examples of the colour tool
  // ---------------------------------------------------------------------

  lemma ExampleRed()
    ensures RgbToHex(255, 0, 0) == "#FF0000"
    ensures IsValidHex("#FF0000") && HexToRgb("#FF0000") == Rgb(255, 0, 0)
  {
    assert RgbToHex(255, 0, 0) == "#FF0000" by {
      RgbToHexDigits(255, 0, 0);
      assert UpperDigit(15) == 'F' && UpperDigit(0) == '0';
    }
    RgbHexRoundTrip(255, 0, 0);
  }

  lemma ExampleShorthandRgb()
    ensures IsValidHex("#abc") && HexToRgb("#abc") == Rgb(0xAA, 0xBB, 0xCC)
  {
    var t := "abc";
    assert t[0] == 'a' && t[1] == 'b' && t[2] == 'c';
    assert AllHex(t);
    HexToRgbShorthand(t);
    assert HexValue(t[0]) == 10 && HexValue(t[1]) == 11 && HexValue(t[2]) == 12;
    HexToRgbHashOptional(t);
    assert "#" + t == "#abc";
  }

  lemma ExamplesValidation()
    ensures IsValidHex("#FFF") && IsValidHex("FFFFFF")
    ensures !IsValidHex("#12345") && !IsValidHex("") && !IsValidHex("#GGGGGG")
  {
    ValidHexIff("#FFF");
    ValidHexIff("FFFFFF");
    ValidHexIff("#12345");
    ValidHexIff("");
    ValidHexIff("#GGGGGG");
    assert "#GGGGGG"[1..][0] == 'G';
  }

  lemma ExampleNormalizeShort()
    ensures Normalize("abc") == Some("#AABBCC")
  {
    assert IsValidHex("abc") && SixDigits("abc") == "aabbcc" by { ValidHexIff("abc"); }
    NormalizeValid("abc");
    UpperSix("aabbcc", "#AABBCC");
  }

  lemma ExampleTrim()
    ensures Trim(" #fff ") == "#fff"
  {
    assert " #fff "[1..] == "#fff ";
    assert TrimStart(" #fff ") == TrimStart("#fff ");
    assert !IsWhiteSpace('#');
    assert TrimStart("#fff ") == "#fff ";
    assert "#fff "[..4] == "#fff";
    assert TrimEnd("#fff ") == TrimEnd("#fff");
    assert !IsWhiteSpace('f');
    assert TrimEnd("#fff") == "#fff";
  }

  lemma ExampleNormalizeHashShort()
    ensures Normalize("#fff") == Some("#FFFFFF")
  {
    assert IsValidHex("#fff") && SixDigits("#fff") == "ffffff" by { ValidHexIff("#fff"); }
    NormalizeValid("#fff");
    UpperSix("ffffff", "#FFFFFF");
  }

  lemma ExampleNormalizeTrim()
    ensures Normalize(" #fff ") == Some("#FFFFFF")
  {
    ExampleTrim();
    NormalizeIgnoresSurroundingSpace(" #fff ");
    ExampleNormalizeHashShort();
  }

  lemma ExampleFiveDigits()
    ensures AllHex("12345") && NoWhiteSpace("12345")
  {
    var s := "12345";
    assert s[0] == '1' && s[1] == '2' && s[2] == '3' && s[3] == '4' && s[4] == '5';
  }

  lemma ExampleNormalizeFive()
    ensures Normalize("12345") == None
  {
    var s := "12345";
    assert Trim(s) == s by { ExampleFiveDigits(); }
    assert !IsValidHex(s) by { ExampleFiveDigits(); ValidHexIff(s); }
    NormalizeSomeIff(s);
  }

  lemma ExamplesGetName()
    ensures GetName("#FF0000") == "Red" && GetName("#ff0000") == "Red"
    ensures GetName("#123456") == "Custom"
  {
    assert ToUpper("#FF0000") == "#FF0000";
    assert ToUpper("#ff0000") == "#FF0000";
    assert ToUpper("#123456") == "#123456";
  }
}
