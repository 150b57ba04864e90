/**
 * String helpers with JavaScript semantics: the whitespace set shared by
 * `String.prototype.trim` and the regular-expression class `\s`, `trim`
 * itself, the UTF-16 `length` of a string, the ASCII digits kept by
 * `replace(/[^\d]/g, '')`, `parseInt` on a digit string and
 * `Number.prototype.toString` on a non-negative integer.
 */
module JsText {

  /** JavaScript's WhiteSpace and LineTerminator code points. */
  predicate IsWhitespace(c: char) {
    || c == '\t' || c == '\n' || c == '\U{000B}' || c == '\U{000C}' || c == '\r' || c == ' '
    || c == '\U{00A0}' || c == '\U{1680}' || ('\U{2000}' <= c <= '\U{200A}')
    || c == '\U{2028}' || c == '\U{2029}' || c == '\U{202F}' || c == '\U{205F}'
    || c == '\U{3000}' || c == '\U{FEFF}'
  }

  /** `\d` without the `u` flag: the ASCII digits only. */
  predicate IsDigit(c: char) {
    '0' <= c <= '9'
  }

  /** Drops the leading whitespace. */
  function TrimStart(s: string): (r: string)
    ensures |r| <= |s|
  {
    if s != [] && IsWhitespace(s[0]) then TrimStart(s[1..]) else s
  }

  /** What `TrimStart` keeps is a suffix that does not start with whitespace, and all it drops is whitespace. */
  lemma {:induction false} TrimStartSpec(s: string)
    ensures var r := TrimStart(s);
      && r == s[|s| - |r|..]
      && (forall k :: 0 <= k < |s| - |r| ==> IsWhitespace(s[k]))
      && (r == [] || !IsWhitespace(r[0]))
  {
    if s != [] && IsWhitespace(s[0]) {
      TrimStartSpec(s[1..]);
      var r := TrimStart(s);
      forall k | 1 <= k < |s| - |r| ensures IsWhitespace(s[k]) {
        assert s[k] == s[1..][k - 1];
      }
    }
  }

  /** Drops the trailing whitespace. */
  function TrimEnd(s: string): (r: string)
    ensures |r| <= |s|
  {
    if s != [] && IsWhitespace(s[|s| - 1]) then TrimEnd(s[..|s| - 1]) else s
  }

  /** What `TrimEnd` keeps is a prefix that does not end with whitespace, and all it drops is whitespace. */
  lemma {:induction false} TrimEndSpec(s: string)
    ensures var r := TrimEnd(s);
      && r == s[..|r|]
      && (forall k :: |r| <= k < |s| ==> IsWhitespace(s[k]))
      && (r == [] || !IsWhitespace(r[|r| - 1]))
  {
    if s != [] && IsWhitespace(s[|s| - 1]) {
      TrimEndSpec(s[..|s| - 1]);
      var r := TrimEnd(s);
      forall k | |r| <= k < |s| - 1 ensures IsWhitespace(s[k]) {
        assert s[k] == s[..|s| - 1][k];
      }
    }
  }

  /** `s.trim()`: the longest middle slice that neither starts nor ends with whitespace. */
  function Trim(s: string): (r: string)
    ensures |r| <= |s|
    ensures r == [] || (!IsWhitespace(r[0]) && !IsWhitespace(r[|r| - 1]))
  {
    TrimStartSpec(s);
    TrimEndSpec(TrimStart(s));
    TrimEnd(TrimStart(s))
  }

  /** A string trims to nothing exactly when every character of it is whitespace. */
  lemma TrimEmptyIffBlank(s: string)
    ensures Trim(s) == [] <==> forall k :: 0 <= k < |s| ==> IsWhitespace(s[k])
  {
    var t := TrimStart(s);
    TrimStartSpec(s);
    TrimEndSpec(t);
  }

  lemma TrimStartSkip(s: string)
    requires s != [] && IsWhitespace(s[0])
    ensures TrimStart(s) == TrimStart(s[1..])
  {
  }

  lemma TrimEndSkip(s: string)
    requires s != [] && IsWhitespace(s[|s| - 1])
    ensures TrimEnd(s) == TrimEnd(s[..|s| - 1])
  {
  }

  /** A string without whitespace at either end is its own trim. */
  lemma TrimNoOp(s: string)
    requires s != [] && !IsWhitespace(s[0]) && !IsWhitespace(s[|s| - 1])
    ensures Trim(s) == s
  {
    assert TrimStart(s) == s;
    assert TrimEnd(s) == s;
  }

  /** One space on either side of a trimmed string is trimmed away. */
  lemma TrimPadded(t: string)
    requires t != [] && !IsWhitespace(t[0]) && !IsWhitespace(t[|t| - 1])
    ensures Trim(" " + t + " ") == t
  {
    var s := " " + t + " ";
    TrimStartSkip(s);
    assert s[1..] == t + " ";
    assert TrimStart(t + " ") == t + " ";
    TrimEndSkip(t + " ");
    assert (t + " ")[..|t|] == t;
    TrimNoOp(t);
  }

  /** The number of UTF-16 code units of `s`: JavaScript's `s.length`. */
  function Utf16Length(s: string): (n: nat)
    ensures |s| <= n <= 2 * |s|
  {
    if s == [] then 0 else (if s[0] as int >= 0x1_0000 then 2 else 1) + Utf16Length(s[1..])
  }

  /** Outside the astral planes, JavaScript's `length` is the number of characters. */
  lemma {:induction false} Utf16LengthBmp(s: string)
    requires forall k :: 0 <= k < |s| ==> s[k] as int < 0x1_0000
    ensures Utf16Length(s) == |s|
  {
    if s != [] {
      Utf16LengthBmp(s[1..]);
    }
  }

  /** `s.replace(/[^\d]/g, '')`: every ASCII digit of `s`, in order. */
  function Digits(s: string): (r: string)
    ensures forall k :: 0 <= k < |r| ==> IsDigit(r[k])
    ensures |r| <= |s|
  {
    if s == [] then []
    else (if IsDigit(s[0]) then [s[0]] else []) + Digits(s[1..])
  }

  /** Removing non-digits works piecewise: the digits of a concatenation are the concatenated digits. */
  lemma {:induction false} DigitsAppend(a: string, b: string)
    ensures Digits(a + b) == Digits(a) + Digits(b)
  {
    if a == [] {
      assert a + b == b;
    } else {
      assert (a + b)[0] == a[0];
      assert (a + b)[1..] == a[1..] + b;
      DigitsAppend(a[1..], b);
    }
  }

  /** A string made only of digits loses nothing. */
  lemma {:induction false} DigitsOfDigits(s: string)
    requires forall k :: 0 <= k < |s| ==> IsDigit(s[k])
    ensures Digits(s) == s
  {
    if s != [] {
      DigitsOfDigits(s[1..]);
    }
  }

  /** A string without digits keeps none. */
  lemma {:induction false} DigitsOfNonDigits(s: string)
    requires forall k :: 0 <= k < |s| ==> !IsDigit(s[k])
    ensures Digits(s) == []
  {
    if s != [] {
      DigitsOfNonDigits(s[1..]);
    }
  }

  lemma WhitespaceIsNotDigit(c: char)
    requires IsWhitespace(c)
    ensures !IsDigit(c)
  {
  }

  /** Dropping leading whitespace keeps every digit. */
  lemma DigitsOfTrimStart(s: string)
    ensures Digits(TrimStart(s)) == Digits(s)
  {
    var u := TrimStart(s);
    var a := |s| - |u|;
    TrimStartSpec(s);
    assert s == s[..a] + u;
    forall k | 0 <= k < a ensures !IsDigit(s[..a][k]) {
      WhitespaceIsNotDigit(s[k]);
    }
    DigitsOfNonDigits(s[..a]);
    DigitsAppend(s[..a], u);
  }

  /** Dropping trailing whitespace keeps every digit. */
  lemma DigitsOfTrimEnd(u: string)
    ensures Digits(TrimEnd(u)) == Digits(u)
  {
    var t := TrimEnd(u);
    TrimEndSpec(u);
    assert u == t + u[|t|..];
    forall k | 0 <= k < |u| - |t| ensures !IsDigit(u[|t|..][k]) {
      WhitespaceIsNotDigit(u[|t| + k]);
    }
    DigitsOfNonDigits(u[|t|..]);
    DigitsAppend(t, u[|t|..]);
  }

  /** Trimming drops only whitespace, so it keeps every digit. */
  lemma DigitsOfTrim(s: string)
    ensures Digits(Trim(s)) == Digits(s)
  {
    DigitsOfTrimStart(s);
    DigitsOfTrimEnd(TrimStart(s));
  }

  /** A string keeps no digit exactly when it has none. */
  lemma {:induction false} DigitsEmptyIff(s: string)
    ensures Digits(s) == [] <==> forall k :: 0 <= k < |s| ==> !IsDigit(s[k])
  {
    if s != [] {
      DigitsEmptyIff(s[1..]);
      assert forall k :: 1 <= k < |s| ==> s[k] == s[1..][k - 1];
    }
  }

  function DigitValue(c: char): nat
    requires IsDigit(c)
  {
    c as int - '0' as int
  }

  function DigitChar(d: nat): (c: char)
    requires d < 10
    ensures IsDigit(c) && DigitValue(c) == d
  {
    ('0' as int + d) as char
  }

  /** Ten to the power `n`. */
  function Pow10(n: nat): (p: nat)
    ensures p >= 1
  {
    if n == 0 then 1 else 10 * Pow10(n - 1)
  }

  /**
   * The value of a string of decimal digits, leading zeros allowed: `parseInt` of it
   * when it is non-empty (callers check that first; `parseInt("")` is `NaN`).
   */
  function DecimalValue(ds: string): (v: nat)
    requires forall k :: 0 <= k < |ds| ==> IsDigit(ds[k])
    ensures v < Pow10(|ds|)
  {
    if ds == [] then 0
    else DecimalValue(ds[..|ds| - 1]) * 10 + DigitValue(ds[|ds| - 1])
  }

  /** `n.toString()` for a non-negative integer: decimal, no leading zero. */
  function NatToString(n: nat): (s: string)
    ensures s != []
    ensures forall k :: 0 <= k < |s| ==> IsDigit(s[k])
    ensures s[0] != '0' || s == "0"
  {
    if n < 10 then [DigitChar(n)] else NatToString(n / 10) + [DigitChar(n % 10)]
  }

  /** Reading back a printed number gives the number. */
  lemma {:induction false} DecimalRoundTrip(n: nat)
    ensures DecimalValue(NatToString(n)) == n
  {
    var s := NatToString(n);
    if n >= 10 {
      assert s[..|s| - 1] == NatToString(n / 10);
      DecimalRoundTrip(n / 10);
    }
  }
}
