/** Input normaliser and display helpers of the countdown timer (src/timeUtils.js):
    clamping, strict integer parsing, minute/second normalisation, `HH:MM:SS`
    formatting and HTML escaping. Every operation is a total, pure function. */
module TimeUtils {
  import opened Wrappers

  /** `Math.max(a, b)`. */
  function Max(a: int, b: int): (r: int)
    ensures a <= r && b <= r && (r == a || r == b)
  {
    if a < b then b else a
  }

  /** `clamp(n, lo, hi)` = `min(hi, max(lo, n))`. */
  function Clamp(n: int, lo: int, hi: int): (r: int)
    ensures r <= hi
    ensures lo <= hi ==> lo <= r
    ensures lo <= n <= hi ==> r == n
    ensures n < lo && lo <= hi ==> r == lo
    ensures hi < n ==> r == hi
    ensures hi < lo ==> r == hi
  {
    var atLeastLo := Max(lo, n);
    if hi < atLeastLo then hi else atLeastLo
  }

  // ---------------------------------------------------------------------------
  // Text: JavaScript's `String(x ?? '')` and `trim()`

  /** `String(value ?? '')` for a string-or-missing argument. */
  function TextOf(value: Option<string>): string {
    value.GetOr("")
  }

  /** The characters `String.prototype.trim` removes: ECMAScript WhiteSpace
      (tab, vertical tab, form feed, space, no-break space, the byte order mark
      and the space separators of Unicode category Zs) and LineTerminator
      (line feed, carriage return, line and paragraph separators). */
  predicate IsWhitespace(c: char) {
    c == '\t' || c == '\n' || c == '\U{000B}' || c == '\U{000C}' || c == '\r'
    || c == ' ' || c == '\U{00A0}' || c == '\U{1680}'
    || ('\U{2000}' <= c <= '\U{200A}')
    || c == '\U{2028}' || c == '\U{2029}' || c == '\U{202F}' || c == '\U{205F}'
    || c == '\U{3000}' || c == '\U{FEFF}'
  }

  predicate AllWhitespace(s: string) {
    forall i :: 0 <= i < |s| ==> IsWhitespace(s[i])
  }

  /** Neither end of `s` is whitespace (the shape of every trimmed string). */
  predicate Trimmed(s: string) {
    s != [] ==> !IsWhitespace(s[0]) && !IsWhitespace(s[|s| - 1])
  }

  /** Drops the leading whitespace (see `TrimStartSpec`). */
  function TrimStart(s: string): string {
    if s != [] && IsWhitespace(s[0]) then TrimStart(s[1..]) else s
  }

  /** Drops the trailing whitespace (see `TrimEndSpec`). */
  function TrimEnd(s: string): string {
    if s != [] && IsWhitespace(s[|s| - 1]) then TrimEnd(s[..|s| - 1]) else s
  }

  /** `s.trim()`. */
  function Trim(s: string): string {
    TrimEnd(TrimStart(s))
  }

  /** What `TrimStart` removes is whitespace, and what it leaves is a suffix of
      the input that does not start with whitespace. */
  lemma {:induction false} TrimStartSpec(s: string)
    ensures var r := TrimStart(s);
      |r| <= |s| && r == s[|s| - |r|..] && AllWhitespace(s[..|s| - |r|])
      && (r != [] ==> !IsWhitespace(r[0]))
  {
    if s != [] && IsWhitespace(s[0]) {
      var tail := s[1..];
      TrimStartSpec(tail);
      var r := TrimStart(tail);
      assert TrimStart(s) == r;
      var k := |s| - |r|;
      assert r == s[k..] by { assert tail[|tail| - |r|..] == s[k..]; }
      forall i | 0 <= i < k ensures IsWhitespace(s[..k][i]) {
        if i > 0 {
          assert s[..k][i] == tail[..|tail| - |r|][i - 1];
        }
      }
    }
  }

  /** What `TrimEnd` removes is whitespace, and what it leaves is a prefix of the
      input that does not end with whitespace. */
  lemma {:induction false} TrimEndSpec(s: string)
    ensures var r := TrimEnd(s);
      |r| <= |s| && r == s[..|r|] && AllWhitespace(s[|r|..])
      && (r != [] ==> !IsWhitespace(r[|r| - 1]))
  {
    if s != [] && IsWhitespace(s[|s| - 1]) {
      TrimEndSpec(s[..|s| - 1]);
      var r := TrimEnd(s);
      assert s[|r|..] == s[..|s| - 1][|r|..] + [s[|s| - 1]];
    }
  }

  /** The trimmed text is an infix of the input with only whitespace around it,
      and neither of its ends is whitespace. */
  lemma TrimSpec(s: string)
    ensures var r := Trim(s);
      Trimmed(r) && |r| <= |s|
      && exists i :: 0 <= i <= |s| - |r| && r == s[i..i + |r|] && AllWhitespace(s[..i]) && AllWhitespace(s[i + |r|..])
  {
    var t := TrimStart(s);
    TrimStartSpec(s);
    TrimEndSpec(t);
    var r := TrimEnd(t);
    var i := |s| - |t|;
    assert r == s[i..i + |r|];
    assert AllWhitespace(s[..i]);
    assert s[i + |r|..] == t[|r|..];
    assert AllWhitespace(s[i + |r|..]);
    if r != [] {
      assert r[0] == t[0];
    }
  }

  lemma {:induction false} TrimStartSkips(pre: string, t: string)
    requires AllWhitespace(pre)
    requires t == [] || !IsWhitespace(t[0])
    ensures TrimStart(pre + t) == t
  {
    if pre != [] {
      assert (pre + t)[1..] == pre[1..] + t;
      TrimStartSkips(pre[1..], t);
    }
  }

  lemma {:induction false} TrimEndSkips(t: string, post: string)
    requires AllWhitespace(post)
    requires t == [] || !IsWhitespace(t[|t| - 1])
    ensures TrimEnd(t + post) == t
  {
    if post != [] {
      assert (t + post)[..|t + post| - 1] == t + post[..|post| - 1];
      TrimEndSkips(t, post[..|post| - 1]);
    }
  }

  /** Trimming strips exactly the surrounding whitespace: a trimmed text with
      whitespace on either side trims back to itself. */
  lemma TrimAround(pre: string, t: string, post: string)
    requires AllWhitespace(pre) && AllWhitespace(post) && Trimmed(t)
    ensures Trim(pre + t + post) == t
  {
    if t == [] {
      assert pre + t + post == pre + post;
      TrimStartSkips(pre + post, []);
      assert pre + post + [] == pre + post;
    } else {
      assert pre + t + post == pre + (t + post);
      TrimStartSkips(pre, t + post);
      TrimEndSkips(t, post);
    }
  }

  /** Trimming is idempotent. */
  lemma TrimIdempotent(s: string)
    ensures Trim(Trim(s)) == Trim(s)
  {
    var t := Trim(s);
    TrimSpec(s);
    TrimAround([], t, []);
    assert [] + t + [] == t;
  }

  // ---------------------------------------------------------------------------
  // Decimal integers

  predicate IsDigit(c: char) {
    '0' <= c <= '9'
  }

  predicate AllDigits(s: string) {
    forall i :: 0 <= i < |s| ==> IsDigit(s[i])
  }

  /** The language of the regular expression `^[+-]?\d+$` (`\d` is ASCII 0-9). */
  predicate IsIntLiteral(s: string) {
    if |s| > 0 && (s[0] == '+' || s[0] == '-') then |s| > 1 && AllDigits(s[1..])
    else |s| > 0 && AllDigits(s)
  }

  function DigitValue(c: char): nat
    requires IsDigit(c)
  {
    (c as int) - ('0' as int)
  }

  function DigitChar(d: nat): (c: char)
    requires d < 10
    ensures IsDigit(c) && DigitValue(c) == d
  {
    ('0' as int + d) as char
  }

  /** The value of a string of decimal digits (`Number` on such a string). */
  function DigitsValue(s: string): nat
    requires AllDigits(s)
  {
    if s == [] then 0 else DigitsValue(s[..|s| - 1]) * 10 + DigitValue(s[|s| - 1])
  }

  /** The signed value of an integer literal; a leading `+` is ignored. */
  function LiteralValue(s: string): int
    requires IsIntLiteral(s)
  {
    var magnitude: int := if s[0] == '-' || s[0] == '+' then DigitsValue(s[1..]) else DigitsValue(s);
    if s[0] == '-' then -magnitude else magnitude
  }

  /** `String(n)` for a non-negative integer: its shortest decimal digits. */
  function NatDecimal(n: nat): (r: string)
    ensures AllDigits(r) && DigitsValue(r) == n
    ensures 1 <= |r| && (r[0] == '0' ==> n == 0)
    ensures n < 10 ==> |r| == 1
    ensures 10 <= n ==> 2 <= |r|
    ensures 10 <= n < 100 ==> |r| == 2
  {
    if n < 10 then [DigitChar(n)]
    else
      var r := NatDecimal(n / 10) + [DigitChar(n % 10)];
      assert r[..|r| - 1] == NatDecimal(n / 10);
      r
  }

  /** `String(n)` for any integer. */
  function Decimal(n: int): string {
    if n < 0 then "-" + NatDecimal(-n) else NatDecimal(n)
  }

  // ---------------------------------------------------------------------------
  // parseIntStrict

  /** `parseIntStrict(value)`: the trimmed text must match `[+-]?\d+`; missing,
      blank and non-matching input give `None`. */
  function ParseIntStrict(value: Option<string>): (r: Option<int>)
    ensures r.Some? <==> IsIntLiteral(Trim(TextOf(value)))
    ensures r.None? ==> value.None? || Trim(value.value) == [] || !IsIntLiteral(Trim(value.value))
  {
    var s := Trim(TextOf(value));
    if s == "" then None
    else if !IsIntLiteral(s) then None
    else Some(LiteralValue(s))
  }

  lemma IntLiteralTrimmed(s: string)
    requires IsIntLiteral(s)
    ensures Trimmed(s)
  {
    assert !IsWhitespace(s[|s| - 1]) by {
      if |s| > 1 && (s[0] == '+' || s[0] == '-') {
        assert s[|s| - 1] == s[1..][|s| - 2];
      }
    }
  }

  /** A digit string with a leading zero has the value of the digits after it. */
  lemma {:induction false} LeadingZero(d: string)
    requires AllDigits(d)
    ensures AllDigits("0" + d) && DigitsValue("0" + d) == DigitsValue(d)
  {
    var z := "0" + d;
    if d != [] {
      assert z[..|z| - 1] == "0" + d[..|d| - 1];
      LeadingZero(d[..|d| - 1]);
    }
  }

  /** The sign-prefixed decimal text that is parsed back in `ParseDecimal`. */
  function SignedDecimal(n: int, plus: bool): string {
    (if plus then "+" else "") + Decimal(n)
  }

  /** A digit string behind an optional sign is an integer literal, with the
      signed value of its digits. */
  lemma SignedDigits(sign: string, d: string)
    requires d != [] && AllDigits(d)
    requires sign == "" || sign == "+" || sign == "-"
    ensures IsIntLiteral(sign + d)
    ensures LiteralValue(sign + d) == if sign == "-" then -(DigitsValue(d) as int) else DigitsValue(d)
  {
    var lit := sign + d;
    if sign == "" {
      assert lit == d;
      assert !(d[0] == '+' || d[0] == '-');
    } else {
      assert lit[1..] == d;
    }
  }

  lemma DecimalLiteral(n: int, plus: bool)
    requires plus ==> n >= 0
    ensures IsIntLiteral(SignedDecimal(n, plus)) && LiteralValue(SignedDecimal(n, plus)) == n
  {
    if n < 0 {
      SignedDigits("-", NatDecimal(-n));
      assert SignedDecimal(n, plus) == "-" + NatDecimal(-n);
    } else if plus {
      SignedDigits("+", NatDecimal(n));
      assert SignedDecimal(n, plus) == "+" + NatDecimal(n);
    } else {
      SignedDigits("", NatDecimal(n));
      assert SignedDecimal(n, plus) == "" + NatDecimal(n);
    }
  }

  /** Parsing a text whose trimmed form is an integer literal gives its value. */
  lemma ParseLiteral(text: string, lit: string)
    requires Trim(text) == lit && IsIntLiteral(lit)
    ensures ParseIntStrict(Some(text)) == Some(LiteralValue(lit))
  {
  }

  /** Round trip: any integer, written in decimal (optionally with a leading `+`
      when it is not negative) and surrounded by whitespace, parses back to itself. */
  lemma ParseDecimal(n: int, plus: bool, pre: string, post: string)
    requires AllWhitespace(pre) && AllWhitespace(post)
    requires plus ==> n >= 0
    ensures ParseIntStrict(Some(pre + SignedDecimal(n, plus) + post)) == Some(n)
  {
    var lit := SignedDecimal(n, plus);
    DecimalLiteral(n, plus);
    IntLiteralTrimmed(lit);
    TrimAround(pre, lit, post);
    ParseLiteral(pre + lit + post, lit);
  }

  /** `parseIntStrict(String(n)) === n`: a number passed where text is expected
      is read back unchanged. */
  lemma ParseNumber(n: int)
    ensures ParseIntStrict(Some(Decimal(n))) == Some(n)
  {
    ParseDecimal(n, false, "", "");
    assert "" + SignedDecimal(n, false) + "" == Decimal(n);
  }

  // ---------------------------------------------------------------------------
  // normalizeTime

  /** The field a failed normalisation blames. */
  datatype FieldError = Minutes | Seconds

  /** The result record `{ ok, m, s, totalSec, error }`. */
  datatype Normalized = Normalized(ok: bool, m: int, s: int, totalSec: int, error: Option<FieldError>)

  /** The default for `opts.maxMinutes`. */
  const DefaultMaxMinutes := 999

  /** The minutes/seconds pair after negative clamping and carrying seconds of a
      minute or more into the minutes, before the maximum-minutes clamp. */
  function Carry(m: int, s: int): (r: (int, int))
    ensures r.0 * 60 + r.1 == Max(0, m) * 60 + Max(0, s)
    ensures 0 <= r.0 && 0 <= r.1 < 60
    ensures Max(0, s) < 60 ==> r == (Max(0, m), Max(0, s))
  {
    var m0 := Max(0, m);
    var s0 := Max(0, s);
    if s0 >= 60 then (m0 + s0 / 60, s0 % 60) else (m0, s0)
  }

  /** `normalizeTime(minutesInput, secondsInput, { maxMinutes })`; a `None`
      maximum stands for an absent option and reads as 999. */
  function NormalizeTime(minutesInput: Option<string>, secondsInput: Option<string>,
                         maxMinutes: Option<int>): (r: Normalized)
    ensures r.ok <==> r.error.None?
    ensures !r.ok ==> r.m == 0 && r.s == 0 && r.totalSec == 0
    ensures r.ok && maxMinutes.GetOr(DefaultMaxMinutes) >= 0 ==>
      0 <= r.s < 60 && 0 <= r.m <= maxMinutes.GetOr(DefaultMaxMinutes) && r.totalSec == r.m * 60 + r.s
  {
    var max := maxMinutes.GetOr(DefaultMaxMinutes);
    var mi := ParseIntStrict(minutesInput);
    var si := ParseIntStrict(secondsInput);
    if mi.None? && Trim(TextOf(minutesInput)) != "" then
      Normalized(false, 0, 0, 0, Some(Minutes))
    else if si.None? && Trim(TextOf(secondsInput)) != "" then
      Normalized(false, 0, 0, 0, Some(Seconds))
    else
      var (m1, s1) := Carry(mi.GetOr(0), si.GetOr(0));
      var m := Clamp(m1, 0, max);
      Normalized(true, m, s1, m * 60 + s1, None)
  }

  /** A field is lexically invalid when its trimmed text is non-empty and not an
      integer literal. */
  predicate Invalid(input: Option<string>) {
    var t := Trim(TextOf(input));
    t != [] && !IsIntLiteral(t)
  }

  /** A field is rejected exactly when its trimmed text is non-empty and does
      not parse. */
  lemma InvalidIff(input: Option<string>)
    ensures Invalid(input) <==> ParseIntStrict(input).None? && Trim(TextOf(input)) != ""
  {
  }

  /** Error precedence: the minutes are checked first and win whatever the seconds
      are; the seconds are blamed only when the minutes are acceptable. */
  lemma NormalizeErrors(minutesInput: Option<string>, secondsInput: Option<string>, maxMinutes: Option<int>)
    ensures var r := NormalizeTime(minutesInput, secondsInput, maxMinutes);
      (r.error == Some(Minutes) <==> Invalid(minutesInput))
      && (r.error == Some(Seconds) <==> !Invalid(minutesInput) && Invalid(secondsInput))
      && (r.ok <==> !Invalid(minutesInput) && !Invalid(secondsInput))
  {
    InvalidIff(minutesInput);
    InvalidIff(secondsInput);
  }

  /** The number an acceptable field stands for: 0 for blank text, otherwise the
      value of the integer literal its trimmed text is. */
  function FieldValue(input: Option<string>): int
    requires !Invalid(input)
  {
    var t := Trim(TextOf(input));
    if t == [] then 0 else LiteralValue(t)
  }

  /** Any two acceptable fields, blank or integer literals with whitespace
      around them, normalise to their values after negative clamping, carrying
      and the maximum-minutes clamp. */
  lemma NormalizeFields(minutesInput: Option<string>, secondsInput: Option<string>, maxMinutes: Option<int>)
    requires !Invalid(minutesInput) && !Invalid(secondsInput)
    ensures var r := NormalizeTime(minutesInput, secondsInput, maxMinutes);
      var (m1, s1) := Carry(FieldValue(minutesInput), FieldValue(secondsInput));
      r.ok && r.m == Clamp(m1, 0, maxMinutes.GetOr(DefaultMaxMinutes)) && r.s == s1 && r.totalSec == r.m * 60 + r.s
  {
    assert ParseIntStrict(minutesInput).GetOr(0) == FieldValue(minutesInput);
    assert ParseIntStrict(secondsInput).GetOr(0) == FieldValue(secondsInput);
  }

  /** Two blank fields normalise to zero. */
  lemma NormalizeBlank(minutesInput: Option<string>, secondsInput: Option<string>, maxMinutes: Option<int>)
    requires Trim(TextOf(minutesInput)) == [] && Trim(TextOf(secondsInput)) == []
    requires maxMinutes.GetOr(DefaultMaxMinutes) >= 0
    ensures NormalizeTime(minutesInput, secondsInput, maxMinutes) == Normalized(true, 0, 0, 0, None)
  {
    NormalizeFields(minutesInput, secondsInput, maxMinutes);
  }

  /** Numbers passed as both fields are never rejected: they are carried and
      clamped. */
  lemma NormalizeNumbers(m: int, s: int, maxMinutes: Option<int>)
    ensures var r := NormalizeTime(Some(Decimal(m)), Some(Decimal(s)), maxMinutes);
      var (m1, s1) := Carry(m, s);
      r.ok && r.m == Clamp(m1, 0, maxMinutes.GetOr(DefaultMaxMinutes)) && r.s == s1 && r.totalSec == r.m * 60 + r.s
  {
    ParseNumber(m);
    ParseNumber(s);
  }

  /** For non-negative minutes and seconds whose total fits under the maximum,
      the normalised total is exactly `m * 60 + s`. */
  lemma NormalizeExact(m: int, s: int, maxMinutes: int)
    requires 0 <= m && 0 <= s && m * 60 + s <= maxMinutes * 60 + 59
    ensures var r := NormalizeTime(Some(Decimal(m)), Some(Decimal(s)), Some(maxMinutes));
      r.ok && r.totalSec == m * 60 + s
  {
    NormalizeNumbers(m, s, Some(maxMinutes));
    var (m1, s1) := Carry(m, s);
    assert m1 <= maxMinutes;
  }

  /** A negative field is clamped to 0 and never an error. */
  lemma NormalizeNegative(m: int, s: int, maxMinutes: Option<int>)
    requires m < 0 || s < 0
    requires maxMinutes.GetOr(DefaultMaxMinutes) >= 0
    ensures var r := NormalizeTime(Some(Decimal(m)), Some(Decimal(s)), maxMinutes);
      r.ok && (m < 0 && s < 60 ==> r.m == 0) && (s < 0 ==> r.s == 0)
  {
    NormalizeNumbers(m, s, maxMinutes);
  }

  // ---------------------------------------------------------------------------
  // formatHMS

  /** `String(x).padStart(2, '0')`: digits that read back as `x`, two of them
      below 100, and without a leading zero when there are more. */
  function Pad2(x: nat): (r: string)
    ensures AllDigits(r) && DigitsValue(r) == x && 2 <= |r|
    ensures x < 100 ==> |r| == 2
    ensures 2 < |r| ==> r[0] != '0'
  {
    var d := NatDecimal(x);
    // `d` is never empty, so one zero always reaches the width of two.
    if |d| < 2 then LeadingZero(d); "0" + d else d
  }

  /** `formatHMS(totalSec)`: the text reads back as hours, minutes and seconds
      that recombine to the input, or to zero for a negative input. */
  function FormatHMS(totalSec: int): (r: string)
    ensures HMSText(r, Max(0, totalSec))
  {
    var sec := Max(0, totalSec);
    var h := sec / 3600;
    var m := (sec % 3600) / 60;
    var s := sec % 60;
    SplitHMS(sec);
    JoinFields(Pad2(h), Pad2(m), Pad2(s), h, m, s, sec);
    Pad2(h) + ":" + Pad2(m) + ":" + Pad2(s)
  }

  /** `r` is `HH:MM:SS` for `sec` seconds: the last two fields are two digits
      each and below 60; the hours field is two digits, or more without a
      leading zero, and exactly two below 100 hours; the three fields read back
      recombine to `sec`. */
  predicate HMSText(r: string, sec: nat) {
    && 8 <= |r| && r[|r| - 6] == ':' && r[|r| - 3] == ':'
    && AllDigits(r[..|r| - 6]) && AllDigits(r[|r| - 5..|r| - 3]) && AllDigits(r[|r| - 2..])
    && (8 < |r| ==> r[0] != '0') && (sec < 100 * 3600 ==> |r| == 8)
    && DigitsValue(r[|r| - 5..|r| - 3]) < 60 && DigitsValue(r[|r| - 2..]) < 60
    && DigitsValue(r[..|r| - 6]) * 3600 + DigitsValue(r[|r| - 5..|r| - 3]) * 60 + DigitsValue(r[|r| - 2..]) == sec
  }

  /** A duration of zero or less shows as `00:00:00`. */
  lemma FormatHMSNegative(t: int)
    requires t <= 0
    ensures FormatHMS(t) == "00:00:00"
  {
    FormatHMSExamples(0, "00:00:00");
  }

  /** Division by 3600 and 60 splits a duration into hours, minutes below 60 and
      seconds below 60 that recombine to it. */
  lemma SplitHMS(sec: nat)
    ensures (sec % 3600) / 60 < 60 && sec % 60 < 60
    ensures (sec / 3600) * 3600 + ((sec % 3600) / 60) * 60 + sec % 60 == sec
    ensures sec < 100 * 3600 ==> sec / 3600 < 100
  {
    var q, r := sec / 3600, sec % 3600;
    assert sec == q * 3600 + r;
    assert r == (r / 60) * 60 + r % 60;
    assert r % 60 == sec % 60 by {
      assert sec == (q * 60 + r / 60) * 60 + r % 60;
    }
  }

  /** Padded hours, minutes and seconds fields joined by colons make the
      `HH:MM:SS` text of their total. */
  lemma JoinFields(a: string, b: string, c: string, h: nat, m: nat, s: nat, sec: nat)
    requires AllDigits(a) && DigitsValue(a) == h && 2 <= |a| && (2 < |a| ==> a[0] != '0')
    requires h < 100 ==> |a| == 2
    requires AllDigits(b) && DigitsValue(b) == m < 60 && |b| == 2
    requires AllDigits(c) && DigitsValue(c) == s < 60 && |c| == 2
    requires h * 3600 + m * 60 + s == sec && (sec < 100 * 3600 ==> h < 100)
    ensures HMSText(a + ":" + b + ":" + c, sec)
  {
    var r := a + ":" + b + ":" + c;
    FieldSlices(a, b, c);
    SlicesMakeHMS(r, a, b, c, h, m, s, sec);
  }

  /** Where the three fields of `a:b:c` sit when the last two have two characters. */
  lemma FieldSlices(a: string, b: string, c: string)
    requires 2 <= |a| && |b| == 2 && |c| == 2
    ensures var r := a + ":" + b + ":" + c;
      |r| == |a| + 6 && r[|r| - 6] == ':' && r[|r| - 3] == ':' && r[0] == a[0]
      && r[..|r| - 6] == a && r[|r| - 5..|r| - 3] == b && r[|r| - 2..] == c
  {
    var r := a + ":" + b + ":" + c;
    assert r[|a|] == ':' && r[|a| + 3] == ':';
    assert r[..|r| - 6] == a;
    assert r[|r| - 5..|r| - 3] == b;
    assert r[|r| - 2..] == c;
  }

  /** A text whose three colon-separated fields are the given padded fields is
      their `HH:MM:SS` text. */
  lemma SlicesMakeHMS(r: string, a: string, b: string, c: string, h: nat, m: nat, s: nat, sec: nat)
    requires 2 <= |a| && |r| == |a| + 6 && r[|r| - 6] == ':' && r[|r| - 3] == ':' && r[0] == a[0]
    requires r[..|r| - 6] == a && r[|r| - 5..|r| - 3] == b && r[|r| - 2..] == c
    requires AllDigits(a) && DigitsValue(a) == h && 2 <= |a| && (2 < |a| ==> a[0] != '0')
    requires h < 100 ==> |a| == 2
    requires AllDigits(b) && DigitsValue(b) == m < 60 && |b| == 2
    requires AllDigits(c) && DigitsValue(c) == s < 60 && |c| == 2
    requires h * 3600 + m * 60 + s == sec && (sec < 100 * 3600 ==> h < 100)
    ensures HMSText(r, sec)
  {
  }

  // ---------------------------------------------------------------------------
  // escapeHtml

  /** The characters `escapeHtml` replaces. */
  predicate IsSpecial(c: char) {
    c == '&' || c == '<' || c == '>' || c == '"' || c == '\'' || c == '`'
  }

  /** The characters that may not survive escaping (all specials except `&`,
      which reappears as the head of every entity). */
  predicate IsMarkup(c: char) {
    c == '<' || c == '>' || c == '"' || c == '\'' || c == '`'
  }

  function EscapeChar(c: char): (r: string)
    ensures forall i :: 0 <= i < |r| ==> !IsMarkup(r[i])
    ensures !IsSpecial(c) ==> r == [c]
  {
    match c
    case '&' => "&amp;"
    case '<' => "&lt;"
    case '>' => "&gt;"
    case '"' => "&quot;"
    case '\'' => "&#39;"
    case '`' => "&#96;"
    case _ => [c]
  }

  /** The per-character replacement behind `escapeHtml`; its output holds none
      of `<`, `>`, `"`, `'` and backquote. */
  function EscapeText(s: string): (r: string)
    ensures forall i :: 0 <= i < |r| ==> !IsMarkup(r[i])
  {
    if s == [] then [] else EscapeChar(s[0]) + EscapeText(s[1..])
  }

  /** `escapeHtml(str)`; a missing argument reads as the empty string. The
      result holds no markup character and decodes back to the argument. */
  function EscapeHtml(str: Option<string>): (r: string)
    ensures forall i :: 0 <= i < |r| ==> !IsMarkup(r[i])
    ensures str.None? ==> r == ""
    ensures str.Some? ==> Unescape(r) == str.value
  {
    UnescapeEscape(TextOf(str));
    EscapeText(TextOf(str))
  }

  /** Escaping one character is its replacement. */
  lemma EscapeTextOne(c: char)
    ensures EscapeText([c]) == EscapeChar(c)
  {
    assert [c][1..] == [];
  }

  /** Escaping works character by character: the escape of a concatenation is
      the concatenation of the escapes. With `EscapeTextOne` this fixes the
      output for every text, each `&` included. */
  lemma {:induction false} EscapeTextAppend(a: string, b: string)
    ensures EscapeText(a + b) == EscapeText(a) + EscapeText(b)
  {
    if a == [] {
      assert a + b == b;
    } else {
      assert (a + b)[0] == a[0];
      assert (a + b)[1..] == a[1..] + b;
      EscapeTextAppend(a[1..], b);
    }
  }

  /** An ampersand is escaped even when an entity name follows it. */
  lemma EscapeAmpersandExample()
    ensures EscapeText("&copy;") == "&amp;copy;"
  {

  }

  /** Markup characters become entities. */
  lemma EscapeMarkupExample()
    ensures EscapeText("<b>") == "&lt;b&gt;"
  {
  }

  /** Text without special characters passes through unchanged. */
  lemma {:induction false} EscapeTextIdentity(s: string)
    requires forall i :: 0 <= i < |s| ==> !IsSpecial(s[i])
    ensures EscapeText(s) == s
  {
    if s != [] {
      EscapeTextIdentity(s[1..]);
    }
  }

  predicate StartsWith(s: string, p: string) {
    |p| <= |s| && s[..|p|] == p
  }

  /** Decodes the six entities `escapeHtml` produces; the inverse of escaping. */
  function Unescape(s: string): string
    decreases |s|
  {
    if s == [] then []
    else if StartsWith(s, "&amp;") then "&" + Unescape(s[5..])
    else if StartsWith(s, "&lt;") then "<" + Unescape(s[4..])
    else if StartsWith(s, "&gt;") then ">" + Unescape(s[4..])
    else if StartsWith(s, "&quot;") then "\"" + Unescape(s[6..])
    else if StartsWith(s, "&#39;") then "'" + Unescape(s[5..])
    else if StartsWith(s, "&#96;") then "`" + Unescape(s[5..])
    else [s[0]] + Unescape(s[1..])
  }

  /** A text differing from `p` at position `i` does not start with `p`. */
  lemma DiffersAt(s: string, p: string, i: nat)
    requires i < |p| && i < |s| && s[i] != p[i]
    ensures !StartsWith(s, p)
  {
    if |p| <= |s| {
      assert s[..|p|][i] == s[i];
    }
  }

  /** An entity at the head of the text decodes to its character. */
  lemma UnescapeEntity(c: char, rest: string)
    requires IsSpecial(c)
    ensures Unescape(EscapeChar(c) + rest) == [c] + Unescape(rest)
  {
    var ent := EscapeChar(c);
    var e := ent + rest;
    assert e[..|ent|] == ent && e[|ent|..] == rest;
    if c != '&' {
      DiffersAt(e, "&amp;", 1);
    }
    if c != '&' && c != '<' {
      DiffersAt(e, "&lt;", 1);
    }
    if c == '"' || c == '\'' || c == '`' {
      DiffersAt(e, "&gt;", 1);
    }
    if c == '\'' || c == '`' {
      DiffersAt(e, "&quot;", 1);
    }
    if c == '`' {
      DiffersAt(e, "&#39;", 2);
    }
  }

  /** A character outside the six specials decodes to itself. */
  lemma UnescapePlain(c: char, rest: string)
    requires !IsSpecial(c)
    ensures Unescape([c] + rest) == [c] + Unescape(rest)
  {
    var e := [c] + rest;
    assert e[0] == c && e[1..] == rest;
    DiffersAt(e, "&amp;", 0);
    DiffersAt(e, "&lt;", 0);
    DiffersAt(e, "&gt;", 0);
    DiffersAt(e, "&quot;", 0);
    DiffersAt(e, "&#39;", 0);
    DiffersAt(e, "&#96;", 0);
  }

  lemma UnescapeOne(c: char, rest: string)
    ensures Unescape(EscapeChar(c) + rest) == [c] + Unescape(rest)
  {
    if IsSpecial(c) {
      UnescapeEntity(c, rest);
    } else {
      UnescapePlain(c, rest);
    }
  }

  /** Round trip: unescaping the escaped text gives the original text back. */
  lemma {:induction false} UnescapeEscape(s: string)
    ensures Unescape(EscapeText(s)) == s
  {
    if s != [] {
      UnescapeOne(s[0], EscapeText(s[1..]));
      UnescapeEscape(s[1..]);
    }
  }

  // ---------------------------------------------------------------------------
  // The concrete cases the project's own tests pin down

  lemma ParseBlankExamples(value: Option<string>)
    requires value == None || value == Some("") || value == Some("   ")
    ensures ParseIntStrict(value) == None
  {
    if value == Some("   ") {
      TrimAround("   ", [], []);
      assert "   " + [] + [] == "   ";
    }
  }

  /** An integer literal surrounded by whitespace parses to the literal's value. */
  lemma ParsePadded(pre: string, lit: string, post: string)
    requires AllWhitespace(pre) && AllWhitespace(post) && IsIntLiteral(lit)
    ensures ParseIntStrict(Some(pre + lit + post)) == Some(LiteralValue(lit))
  {
    IntLiteralTrimmed(lit);
    TrimAround(pre, lit, post);
    ParseLiteral(pre + lit + post, lit);
  }

  lemma ParseSignedExamples(text: string, n: int)
    requires (text == " 5 " && n == 5) || (text == "-3" && n == -3) || (text == "+7" && n == 7)
    ensures ParseIntStrict(Some(text)) == Some(n)
  {
    if n == 5 {
      ParsePadded(" ", "5", " ");
      assert " " + "5" + " " == text;
    } else {
      ParsePadded("", text, "");
      assert "" + text + "" == text;
      var d := text[1..];
      assert d == [text[1]] && d[..0] == [];
      assert DigitsValue(d) == DigitValue(text[1]);
      assert LiteralValue(text) == n;
    }
  }

  /** Text that trims to itself and is not an integer literal does not parse. */
  lemma ParseRejects(text: string)
    requires Trimmed(text) && !IsIntLiteral(text)
    ensures ParseIntStrict(Some(text)) == None
  {
    TrimAround([], text, []);
    assert [] + text + [] == text;
  }

  lemma ParseRejectExamples(text: string)
    requires text == "5.5" || text == "1e3" || text == "abc" || text == "12 3"
    ensures ParseIntStrict(Some(text)) == None
  {
    if text == "5.5" || text == "1e3" {
      assert !IsDigit(text[1]);
    } else if text == "abc" {
      assert !IsDigit(text[0]);
    } else {
      assert !IsDigit(text[2]);
    }
    ParseRejects(text);
  }

  lemma NormalizeNumberExamples(m: int, s: int, r: Normalized)
    requires (m == 0 && s == 60 && r == Normalized(true, 1, 0, 60, None))
          || (m == 0 && s == 61 && r == Normalized(true, 1, 1, 61, None))
          || (m == 0 && s == 3599 && r == Normalized(true, 59, 59, 3599, None))
          || (m == -5 && s == -1 && r == Normalized(true, 0, 0, 0, None))
          || (m == 2000 && s == 0 && r == Normalized(true, 999, 0, 59940, None))
    ensures NormalizeTime(Some(Decimal(m)), Some(Decimal(s)), None) == r
  {
    NormalizeNumbers(m, s, None);
  }

  lemma NormalizeTextExamples(minutes: string, seconds: string, r: Normalized)
    requires (minutes == "abc" && seconds == "10" && r == Normalized(false, 0, 0, 0, Some(Minutes)))
          || (minutes == "10" && seconds == "abc" && r == Normalized(false, 0, 0, 0, Some(Seconds)))
          || (minutes == "" && seconds == "" && r == Normalized(true, 0, 0, 0, None))
    ensures NormalizeTime(Some(minutes), Some(seconds), None) == r
  {
    if minutes == "abc" {
      ParseRejectExamples(minutes);
      assert Trim(minutes) != "" by { TrimAround([], minutes, []); assert [] + minutes + [] == minutes; }
    } else if minutes == "10" {
      ParseRejectExamples(seconds);
      assert Trim(seconds) != "" by { TrimAround([], seconds, []); assert [] + seconds + [] == seconds; }
      ParseNumber(10);
      assert Decimal(10) == minutes;
    }
  }

  lemma FormatHMSExamples(t: int, text: string)
    requires (t == 0 && text == "00:00:00") || (t == 70 && text == "00:01:10")
          || (t == 3600 && text == "01:00:00") || (t == 3661 && text == "01:01:01")
          || (t == -1 && text == "00:00:00")
    ensures FormatHMS(t) == text
  {
    if t < 3600 {
      FormatMinutesExamples(t, text);
    } else {
      FormatHoursExamples(t, text);
    }
  }

  /** The examples below an hour. */
  lemma FormatMinutesExamples(t: int, text: string)
    requires (t == 0 && text == "00:00:00") || (t == 70 && text == "00:01:10")
          || (t == -1 && text == "00:00:00")
    ensures FormatHMS(t) == text
  {
    Pad2Examples();
    var sec := Max(0, t);
    var h, m, s := sec / 3600, (sec % 3600) / 60, sec % 60;
    if t == 70 {
      assert h == 0 && m == 1 && s == 10;
    } else {
      assert h == 0 && m == 0 && s == 0;
    }
  }

  /** The examples of one hour and more. */
  lemma FormatHoursExamples(t: int, text: string)
    requires (t == 3600 && text == "01:00:00") || (t == 3661 && text == "01:01:01")
    ensures FormatHMS(t) == text
  {
    Pad2Examples();
    var sec := Max(0, t);
    var h, m, s := sec / 3600, (sec % 3600) / 60, sec % 60;
    if t == 3600 {
      assert h == 1 && m == 0 && s == 0;
    } else {
      assert h == 1 && m == 1 && s == 1;
    }
  }

  /** The padded fields the formatting examples use. */
  lemma Pad2Examples()
    ensures Pad2(0) == "00" && Pad2(1) == "01" && Pad2(10) == "10"
  {
  }
}
