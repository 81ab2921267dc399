/**
 * Character and string helpers shared by the model: decimal rendering,
 * Rust's `i64::from_str`, Rust's `str::trim`, and the ASCII case
 * operations the logger uses.
 */
module Text {
  import opened Wrappers

  const MinI64: int := -0x8000_0000_0000_0000
  const MaxI64: int := 0x7FFF_FFFF_FFFF_FFFF

  predicate IsDigit(c: char) {
    '0' <= c <= '9'
  }

  predicate AllDigits(s: string) {
    forall i :: 0 <= i < |s| ==> IsDigit(s[i])
  }

  function DigitChar(d: nat): (c: char)
    requires d < 10
    ensures IsDigit(c) && c as int - '0' as int == d
  {
    ('0' as int + d) as char
  }

  /** The value of a string of decimal digits, read most significant first. */
  function DigitsValue(s: string): nat
    requires AllDigits(s)
  {
    if s == [] then 0
    else DigitsValue(s[..|s| - 1]) * 10 + (s[|s| - 1] as int - '0' as int)
  }

  /** The shortest decimal rendering of n. */
  function Decimal(n: nat): (s: string)
    ensures |s| >= 1 && AllDigits(s)
  {
    if n < 10 then [DigitChar(n)] else Decimal(n / 10) + [DigitChar(n % 10)]
  }

  /** Reading back a rendering gives the number that was rendered. */
  lemma {:induction false} DecimalRoundTrip(n: nat)
    ensures DigitsValue(Decimal(n)) == n
  {
    var s := Decimal(n);
    if n >= 10 {
      DecimalRoundTrip(n / 10);
      assert s[..|s| - 1] == Decimal(n / 10);
    }
  }

  /**
   * Rust's `str::parse::<i64>`: an optional single '+' or '-', then one or
   * more ASCII digits and nothing else, with the value inside the i64 range.
   */
  function ParseI64(s: string): (r: Option<int>)
    ensures r.Some? ==> MinI64 <= r.value <= MaxI64
    ensures r.Some? ==> |s| >= 1 && IsDigit(s[|s| - 1])
  {
    if |s| == 0 then None
    else if s[0] == '+' || s[0] == '-' then
      var digits := s[1..];
      if digits == [] || !AllDigits(digits) then None
      else
        var magnitude: int := DigitsValue(digits);
        var v := if s[0] == '-' then -magnitude else magnitude;
        if MinI64 <= v <= MaxI64 then Some(v) else None
    else if !AllDigits(s) then None
    else
      var v := DigitsValue(s);
      if v <= MaxI64 then Some(v) else None
  }

  /**
   * The strings `i64::from_str` accepts, split into a sign part `p` ("", "+"
   * or "-") and the rest `d`: exactly those whose rest is one or more digits
   * (leading zeros allowed) with the signed value inside the i64 range.
   */
  lemma ParseI64Accepts(p: string, d: string)
    requires p == "" || p == "+" || p == "-"
    requires p == "" && d != [] ==> d[0] != '+' && d[0] != '-'
    ensures d == [] || !AllDigits(d) ==> ParseI64(p + d) == None
    ensures d != [] && AllDigits(d) ==>
      var v: int := if p == "-" then -(DigitsValue(d) as int) else DigitsValue(d);
      ParseI64(p + d) == if MinI64 <= v <= MaxI64 then Some(v) else None
  {
    if p == "" {
      assert p + d == d;
    } else {
      SignedParse(p[0], d);
      assert p + d == [p[0]] + d;
    }
  }

  /** A sign followed by `d` parses as the signed value of `d` when `d` is digits in range. */
  lemma SignedParse(sign: char, d: string)
    requires sign == '+' || sign == '-'
    ensures d == [] || !AllDigits(d) ==> ParseI64([sign] + d) == None
    ensures d != [] && AllDigits(d) ==>
      var v: int := if sign == '-' then -(DigitsValue(d) as int) else DigitsValue(d);
      ParseI64([sign] + d) == if MinI64 <= v <= MaxI64 then Some(v) else None
  {
    assert ([sign] + d)[0] == sign && ([sign] + d)[1..] == d;
  }

  /** Every i64, rendered in decimal, parses back to itself. */
  lemma ParseI64OfDecimal(v: int)
    requires MinI64 <= v <= MaxI64
    ensures v >= 0 ==> ParseI64(Decimal(v)) == Some(v)
    ensures v < 0 ==> ParseI64("-" + Decimal(-v)) == Some(v)
  {
    if v >= 0 {
      DecimalRoundTrip(v);
    } else {
      var s := "-" + Decimal(-v);
      assert s[1..] == Decimal(-v);
      DecimalRoundTrip(-v);
    }
  }

  /** Characters with Unicode's White_Space property, which `str::trim` removes. */
  predicate IsWhiteSpace(c: char) {
    ('\U{9}' <= c <= '\U{D}') || c == ' ' || c == '\U{85}' || c == '\U{A0}'
    || c == '\U{1680}' || ('\U{2000}' <= c <= '\U{200A}') || c == '\U{2028}'
    || c == '\U{2029}' || c == '\U{202F}' || c == '\U{205F}' || c == '\U{3000}'
  }

  predicate AllWhiteSpace(s: string) {
    forall i :: 0 <= i < |s| ==> IsWhiteSpace(s[i])
  }

  /** How many white-space characters open s. */
  function LeadingSpace(s: string): (n: nat)
    ensures n <= |s|
    ensures forall k :: 0 <= k < n ==> IsWhiteSpace(s[k])
    ensures n < |s| ==> !IsWhiteSpace(s[n])
  {
    if s == [] || !IsWhiteSpace(s[0]) then 0
    else
      var m := LeadingSpace(s[1..]);
      assert forall k :: 0 < k <= m ==> s[k] == s[1..][k - 1];
      1 + m
  }

  /** How many white-space characters close s. */
  function TrailingSpace(s: string): (n: nat)
    ensures n <= |s|
    ensures forall k :: |s| - n <= k < |s| ==> IsWhiteSpace(s[k])
    ensures n < |s| ==> !IsWhiteSpace(s[|s| - n - 1])
  {
    if s == [] || !IsWhiteSpace(s[|s| - 1]) then 0
    else 1 + TrailingSpace(s[..|s| - 1])
  }

  /** `str::trim_start`: the longest suffix not starting with white space. */
  function TrimStart(s: string): (r: string)
    ensures |r| <= |s| && r == s[|s| - |r|..]
    ensures AllWhiteSpace(s[..|s| - |r|])
    ensures r != [] ==> !IsWhiteSpace(r[0])
  {
    s[LeadingSpace(s)..]
  }

  /** `str::trim_end`: the longest prefix not ending with white space. */
  function TrimEnd(s: string): (r: string)
    ensures |r| <= |s| && r == s[..|r|]
    ensures AllWhiteSpace(s[|r|..])
    ensures r != [] ==> !IsWhiteSpace(r[|r| - 1])
  {
    s[..|s| - TrailingSpace(s)]
  }

  /** A leading white-space character is trimmed away with the rest of the white space after it. */
  lemma TrimStartStep(s: string)
    requires s != [] && IsWhiteSpace(s[0])
    ensures TrimStart(s) == TrimStart(s[1..])
  {
    assert s[1 + LeadingSpace(s[1..])..] == s[1..][LeadingSpace(s[1..])..];
  }

  /** A trailing white-space character is trimmed away with the rest of the white space before it. */
  lemma TrimEndStep(s: string)
    requires s != [] && IsWhiteSpace(s[|s| - 1])
    ensures TrimEnd(s) == TrimEnd(s[..|s| - 1])
  {
    var n := |s| - 1 - TrailingSpace(s[..|s| - 1]);
    assert s[..n] == s[..|s| - 1][..n];
  }

  /** `str::trim`. */
  function Trim(s: string): (r: string)
  {
    TrimEnd(TrimStart(s))
  }

  /** Where the trimmed string sits in the original: after the leading white space `TrimStart` skips. */
  lemma TrimSlices(s: string)
    ensures var t := TrimStart(s);
      var r := TrimEnd(t);
      var i := |s| - |t|;
      r == s[i..i + |r|] && s[i + |r|..] == t[|r|..]
  {
  }

  /** Trimming cuts white space from both ends and nothing else. */
  lemma TrimIsInfix(s: string)
    ensures var r := Trim(s);
      exists i :: 0 <= i <= |s| - |r| && r == s[i..i + |r|]
        && AllWhiteSpace(s[..i]) && AllWhiteSpace(s[i + |r|..])
        && (r != [] ==> !IsWhiteSpace(r[0]) && !IsWhiteSpace(r[|r| - 1]))
  {
    var t := TrimStart(s);
    var r := TrimEnd(t);
    var i := |s| - |t|;
    assert 0 <= i <= |s| - |r| && r == Trim(s);
    assert r == s[i..i + |r|] && AllWhiteSpace(s[i + |r|..]) by {
      TrimSlices(s);
    }
    assert r != [] ==> !IsWhiteSpace(r[0]) && !IsWhiteSpace(r[|r| - 1]) by {
      assert r != [] ==> r[0] == t[0];
    }
    assert AllWhiteSpace(s[..i]);
    InfixAt(s, r, i);
  }

  /** The shape `TrimIsInfix` promises, at a known position. */
  lemma InfixAt(s: string, r: string, i: int)
    requires 0 <= i <= |s| - |r| && r == s[i..i + |r|]
    requires AllWhiteSpace(s[..i]) && AllWhiteSpace(s[i + |r|..])
    requires r != [] ==> !IsWhiteSpace(r[0]) && !IsWhiteSpace(r[|r| - 1])
    ensures exists j ::
      (0 <= j <= |s| - |r| && r == s[j..j + |r|]
       && AllWhiteSpace(s[..j]) && AllWhiteSpace(s[j + |r|..])
       && (r != [] ==> !IsWhiteSpace(r[0]) && !IsWhiteSpace(r[|r| - 1])))
  {
  }

  /** A string trims to nothing exactly when it is all white space. */
  lemma TrimEmptyIffBlank(s: string)
    ensures Trim(s) == [] <==> AllWhiteSpace(s)
  {
    var t := TrimStart(s);
    if t == [] {
      assert s[..|s|] == s;
    } else {
      assert t[0] == s[|s| - |t|];
      assert t[0..] == t;
    }
  }

  /** White space padding on either side does not change the trimmed string. */
  lemma {:induction false} TrimIgnoresPadding(pre: string, s: string, post: string)
    requires AllWhiteSpace(pre) && AllWhiteSpace(post)
    ensures Trim(pre + s + post) == Trim(s)
  {
    TrimStartPadding(pre, s + post);
    assert pre + s + post == pre + (s + post);
    TrimStartAppend(s, post);
    TrimEndPadding(TrimStart(s), post);
  }

  lemma {:induction false} TrimStartPadding(pre: string, s: string)
    requires AllWhiteSpace(pre)
    ensures TrimStart(pre + s) == TrimStart(s)
    decreases |pre|
  {
    if pre != [] {
      assert (pre + s)[0] == pre[0] && IsWhiteSpace(pre[0]);
      assert AllWhiteSpace(pre[1..]);
      assert (pre + s)[1..] == pre[1..] + s;
      TrimStartStep(pre + s);
      TrimStartPadding(pre[1..], s);
    } else {
      assert pre + s == s;
    }
  }

  /** Trimming the start of `s + post` equals trimming `s` then appending, unless `s` is all white space. */
  lemma {:induction false} TrimStartAppend(s: string, post: string)
    requires AllWhiteSpace(post)
    ensures TrimEnd(TrimStart(s + post)) == TrimEnd(TrimStart(s) + post)
    decreases |s|
  {
    if s == [] {
      assert s + post == post;
      assert TrimStart(s) + post == post;
    } else if IsWhiteSpace(s[0]) {
      assert (s + post)[1..] == s[1..] + post;
      TrimStartStep(s + post);
      TrimStartStep(s);
      TrimStartAppend(s[1..], post);
    } else {
      assert TrimStart(s + post) == s + post;
    }
  }

  lemma {:induction false} TrimEndPadding(s: string, post: string)
    requires AllWhiteSpace(post)
    ensures TrimEnd(s + post) == TrimEnd(s)
    decreases |post|
  {
    if post != [] {
      var p := post[..|post| - 1];
      assert (s + post)[..|s + post| - 1] == s + p;
      TrimEndStep(s + post);
      TrimEndPadding(s, p);
    } else {
      assert s + post == s;
    }
  }

  /** `char::to_ascii_lowercase`. */
  function AsciiLower(c: char): (d: char)
    ensures 'A' <= c <= 'Z' ==> 'a' <= d <= 'z'
    ensures !('A' <= c <= 'Z') ==> d == c
  {
    if 'A' <= c <= 'Z' then (c as int + 32) as char else c
  }

  /** `str::eq_ignore_ascii_case`. */
  predicate EqIgnoreAsciiCase(a: string, b: string) {
    |a| == |b| && forall i :: 0 <= i < |a| ==> AsciiLower(a[i]) == AsciiLower(b[i])
  }

  /** The lower-case form of a string (ASCII letters only). */
  function Lower(s: string): (r: string)
    ensures |r| == |s|
    ensures forall i :: 0 <= i < |s| ==> r[i] == AsciiLower(s[i])
  {
    seq(|s|, i requires 0 <= i < |s| => AsciiLower(s[i]))
  }

  /** Two strings are equal ignoring ASCII case exactly when their lower-case forms are equal. */
  lemma LowerIffCaseBlind(a: string, b: string)
    ensures EqIgnoreAsciiCase(a, b) <==> Lower(a) == Lower(b)
  {
    if Lower(a) == Lower(b) {
      forall i | 0 <= i < |a| ensures AsciiLower(a[i]) == AsciiLower(b[i]) {
        assert Lower(a)[i] == Lower(b)[i];
      }
    }
  }
}
