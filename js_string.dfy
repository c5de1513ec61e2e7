/** The JavaScript string built-ins the notes application relies on:
    `String.prototype.trim`, the `length` property (UTF-16 code units),
    `parseInt(s, 10)` and `String(n)` for non-negative integers. */
module JsString {
  import opened Wrappers

  /** The ECMAScript WhiteSpace and LineTerminator code points: what `trim`
      removes and what `parseInt` skips before a number. */
  predicate IsWhitespace(c: char) {
    || c == '\t' || c == '\n' || c == '\U{000B}' || c == '\U{000C}' || c == '\r'
    || c == ' ' || c == '\U{00A0}' || c == '\U{1680}'
    || ('\U{2000}' <= c <= '\U{200A}')
    || c == '\U{2028}' || c == '\U{2029}' || c == '\U{202F}' || c == '\U{205F}'
    || c == '\U{3000}' || c == '\U{FEFF}'
  }

  predicate AllWhitespace(s: string) {
    forall i :: 0 <= i < |s| ==> IsWhitespace(s[i])
  }

  /** Neither starts nor ends with whitespace. */
  predicate IsTrimmed(s: string) {
    s == [] || (!IsWhitespace(s[0]) && !IsWhitespace(s[|s| - 1]))
  }

  /** The index of the first non-whitespace character at or after `i`
      (or `|s|`). */
  function SkipForward(s: string, i: nat): (k: nat)
    requires i <= |s|
    ensures i <= k <= |s|
    ensures forall m :: i <= m < k ==> IsWhitespace(s[m])
    ensures k == |s| || !IsWhitespace(s[k])
    decreases |s| - i
  {
    if i < |s| && IsWhitespace(s[i]) then SkipForward(s, i + 1) else i
  }

  /** The end of `s[..j]` once trailing whitespace down to `lo` is dropped. */
  function SkipBackward(s: string, lo: nat, j: nat): (k: nat)
    requires lo <= j <= |s|
    ensures lo <= k <= j
    ensures forall m :: k <= m < j ==> IsWhitespace(s[m])
    ensures k == lo || !IsWhitespace(s[k - 1])
  {
    if lo < j && IsWhitespace(s[j - 1]) then SkipBackward(s, lo, j - 1) else j
  }

  /** Where the trimmed text starts and ends inside `s`. */
  function TrimStartIndex(s: string): nat {
    SkipForward(s, 0)
  }

  function TrimEndIndex(s: string): (e: nat)
    ensures TrimStartIndex(s) <= e <= |s|
  {
    SkipBackward(s, TrimStartIndex(s), |s|)
  }

  /** `String.prototype.trim`. */
  function Trim(s: string): (r: string)
    ensures IsTrimmed(r)
    ensures |r| <= |s|
  {
    s[TrimStartIndex(s)..TrimEndIndex(s)]
  }

  /** Trimming removes whitespace at the two ends and nothing else. */
  lemma TrimSplits(s: string)
    ensures s == s[..TrimStartIndex(s)] + Trim(s) + s[TrimEndIndex(s)..]
    ensures AllWhitespace(s[..TrimStartIndex(s)])
    ensures AllWhitespace(s[TrimEndIndex(s)..])
  {
    var i, e := TrimStartIndex(s), TrimEndIndex(s);
    assert s == s[..i] + s[i..e] + s[e..];
    assert AllWhitespace(s[..i]) by {
      forall m | 0 <= m < i ensures IsWhitespace(s[..i][m]) {
        assert s[..i][m] == s[m];
      }
    }
    assert AllWhitespace(s[e..]) by {
      forall m | 0 <= m < |s| - e ensures IsWhitespace(s[e..][m]) {
        assert s[e..][m] == s[e + m];
        if i == e {
          assert IsWhitespace(s[e + m]);
        }
      }
    }
  }

  /** Trim is the unique trimmed middle between two whitespace runs: an
      independent characterisation of `trim`. */
  lemma TrimUnique(a: string, m: string, b: string)
    requires AllWhitespace(a) && AllWhitespace(b) && IsTrimmed(m)
    ensures Trim(a + m + b) == m
  {
    var s := a + m + b;
    forall k | 0 <= k < |a| ensures IsWhitespace(s[k]) {
      assert s[k] == a[k];
    }
    forall k | |a| + |m| <= k < |s| ensures IsWhitespace(s[k]) {
      assert s[k] == b[k - |a| - |m|];
    }
    if m == [] {
      assert TrimStartIndex(s) == |s|;
    } else {
      assert s[|a|] == m[0];
      assert TrimStartIndex(s) == |a|;
      assert s[|a| + |m| - 1] == m[|m| - 1];
      assert TrimEndIndex(s) == |a| + |m|;
      assert s[|a|..|a| + |m|] == m;
    }
  }

  lemma TrimIdempotent(s: string)
    ensures Trim(Trim(s)) == Trim(s)
  {
    TrimOfTrimmed(Trim(s));
  }

  lemma TrimOfTrimmed(s: string)
    requires IsTrimmed(s)
    ensures Trim(s) == s
  {
    assert [] + s + [] == s;
    TrimUnique([], s, []);
  }

  /** Trimming yields the empty string exactly for all-whitespace input. */
  lemma TrimEmptyIff(s: string)
    ensures Trim(s) == [] <==> AllWhitespace(s)
  {
    if AllWhitespace(s) {
      assert s + [] + [] == s;
      TrimUnique(s, [], []);
    } else {
      TrimSplits(s);
    }
  }

  /** The number of UTF-16 code units of a code point. */
  function CodeUnits(c: char): nat {
    if c as int > 0xFFFF then 2 else 1
  }

  /** The `length` of a JavaScript string: UTF-16 code units, so a code point
      outside the Basic Multilingual Plane counts twice. */
  function Utf16Length(s: string): (n: nat)
    ensures |s| <= n <= 2 * |s|
  {
    if s == [] then 0 else CodeUnits(s[0]) + Utf16Length(s[1..])
  }

  lemma {:induction false} Utf16LengthConcat(a: string, b: string)
    ensures Utf16Length(a + b) == Utf16Length(a) + Utf16Length(b)
  {
    if a != [] {
      assert (a + b)[0] == a[0];
      assert (a + b)[1..] == a[1..] + b;
      Utf16LengthConcat(a[1..], b);
    } else {
      assert a + b == b;
    }
  }

  /** Trimming never lengthens a string. */
  lemma TrimShortens(s: string)
    ensures Utf16Length(Trim(s)) <= Utf16Length(s)
  {
    TrimSplits(s);
    var r := Trim(s);
    Utf16LengthConcat(s[..TrimStartIndex(s)] + r, s[TrimEndIndex(s)..]);
    Utf16LengthConcat(s[..TrimStartIndex(s)], r);
  }

  predicate IsDigit(c: char) {
    '0' <= c <= '9'
  }

  predicate AllDigits(s: string) {
    forall i :: 0 <= i < |s| ==> IsDigit(s[i])
  }

  /** The longest prefix of `s` made of decimal digits. */
  function DigitPrefix(s: string): (d: string)
    ensures |d| <= |s| && d == s[..|d|] && AllDigits(d)
    ensures |d| == |s| || !IsDigit(s[|d|])
  {
    if s != [] && IsDigit(s[0]) then
      var d := DigitPrefix(s[1..]);
      assert [s[0]] + d == s[..|d| + 1];
      [s[0]] + d
    else []
  }

  /** The value of a run of decimal digits, most significant first. */
  function DigitsValue(ds: string): nat
    requires AllDigits(ds)
  {
    if ds == [] then 0
    else 10 * DigitsValue(ds[..|ds| - 1]) + (ds[|ds| - 1] as int - '0' as int)
  }

  /** `parseInt(s, 10)`; `None` stands for NaN. Leading whitespace is
      skipped, one sign is read, then the longest run of digits. */
  function ParseInt(s: string): (r: Option<int>)
    ensures r.None? <==> DigitPrefix(Unsigned(s[TrimStartIndex(s)..])) == []
  {
    var t := s[TrimStartIndex(s)..];
    var ds := DigitPrefix(Unsigned(t));
    if ds == [] then None
    else
      var v: int := DigitsValue(ds);
      if t[0] == '-' then Some(-v) else Some(v)
  }

  /** What `parseInt(s, 10)` reads: after whitespace `w` and an optional
      sign, the digits `d` up to the first non-digit, negated for `-`. */
  lemma ParseIntReads(w: string, sign: string, d: string, rest: string)
    requires AllWhitespace(w)
    requires sign == "" || sign == "+" || sign == "-"
    requires d != [] && AllDigits(d)
    requires rest == [] || !IsDigit(rest[0])
    ensures ParseInt(w + sign + d + rest)
              == Some(if sign == "-" then -(DigitsValue(d) as int) else DigitsValue(d) as int)
  {
    var t := sign + d + rest;
    assert w + sign + d + rest == w + t;
    assert t[0] == (if sign == [] then d[0] else sign[0]);
    ParseIntSkips(w, t);
    ParseIntSigned(sign, d, rest);
  }

  /** Leading whitespace does not change what `parseInt` reads. */
  lemma ParseIntSkips(w: string, t: string)
    requires AllWhitespace(w)
    requires t != [] && !IsWhitespace(t[0])
    ensures ParseInt(w + t) == ParseInt(t)
  {
    StartAfterWhitespace(w, t);
    StartAfterWhitespace([], t);
    assert [] + t == t;
    assert (w + t)[|w|..] == t;
  }

  lemma ParseIntSigned(sign: string, d: string, rest: string)
    requires sign == "" || sign == "+" || sign == "-"
    requires d != [] && AllDigits(d)
    requires rest == [] || !IsDigit(rest[0])
    ensures ParseInt(sign + d + rest)
              == Some(if sign == "-" then -(DigitsValue(d) as int) else DigitsValue(d) as int)
  {
    var t := sign + d + rest;
    assert Unsigned(t) == d + rest && (t[0] == '-' <==> sign == "-") by {
      if sign == [] {
        assert t == d + rest && t[0] == d[0] && IsDigit(d[0]);
      } else {
        assert t[1..] == d + rest;
      }
    }
    ParseIntUnsigned(t, d, rest);
  }

  lemma ParseIntUnsigned(t: string, d: string, rest: string)
    requires t != [] && !IsWhitespace(t[0])
    requires Unsigned(t) == d + rest
    requires d != [] && AllDigits(d)
    requires rest == [] || !IsDigit(rest[0])
    ensures ParseInt(t) == Some(if t[0] == '-' then -(DigitsValue(d) as int) else DigitsValue(d) as int)
  {
    StartAfterWhitespace([], t);
    assert [] + t == t;
    assert t[0..] == t;
    DigitPrefixStops(d, rest);
  }

  lemma StartAfterWhitespace(w: string, t: string)
    requires AllWhitespace(w)
    requires t != [] && !IsWhitespace(t[0])
    ensures TrimStartIndex(w + t) == |w|
  {
    var s := w + t;
    assert forall m :: 0 <= m < |w| ==> s[m] == w[m];
    assert s[|w|] == t[0];
  }

  lemma {:induction false} DigitPrefixStops(d: string, rest: string)
    requires AllDigits(d)
    requires rest == [] || !IsDigit(rest[0])
    ensures DigitPrefix(d + rest) == d
  {
    if d != [] {
      assert (d + rest)[1..] == d[1..] + rest;
      DigitPrefixStops(d[1..], rest);
      assert d == [d[0]] + d[1..];
    }
  }

  /** `s` without one leading sign character. */
  function Unsigned(s: string): string {
    if s != [] && (s[0] == '-' || s[0] == '+') then s[1..] else s
  }

  function DigitChar(d: nat): (c: char)
    requires d < 10
    ensures IsDigit(c) && c as int - '0' as int == d
  {
    (d + '0' as int) as char
  }

  /** `String(n)` for a non-negative integer: its decimal digits, without
      leading zeros. */
  function DecimalString(n: nat): (s: string)
    ensures |s| > 0 && AllDigits(s)
    ensures s[0] != '0' || n == 0
  {
    if n < 10 then [DigitChar(n)] else DecimalString(n / 10) + [DigitChar(n % 10)]
  }

  lemma {:induction false} DecimalValue(n: nat)
    ensures DigitsValue(DecimalString(n)) == n
  {
    if n >= 10 {
      var s := DecimalString(n);
      assert s[..|s| - 1] == DecimalString(n / 10);
      DecimalValue(n / 10);
    }
  }

  /** `parseInt(String(n), 10) === n` for every non-negative integer. */
  lemma ParseDecimal(n: nat)
    ensures ParseInt(DecimalString(n)) == Some(n)
  {
    var s := DecimalString(n);
    assert !IsWhitespace(s[0]);
    assert TrimStartIndex(s) == 0;
    assert s[0..] == s;
    assert Unsigned(s) == s;
    assert DigitPrefix(s) == s;
    DecimalValue(n);
  }
}
