/**
 * `uuid::Uuid::parse_str` (uuid 1.x): the 128-bit value is modelled as a
 * natural number below 2^128. Four textual forms are accepted: 32 hex digits
 * ("simple"), 8-4-4-4-12 groups ("hyphenated"), a hyphenated value in braces,
 * and "urn:uuid:" followed by a hyphenated value. Hex digits may be of either case.
 */
module Uuids {
  import opened Wrappers

  type Uuid = nat

  const UuidBound: nat := 0x1_0000_0000_0000_0000_0000_0000_0000_0000

  function HexDigit(c: char): Option<nat> {
    if '0' <= c <= '9' then Some(c as int - '0' as int)
    else if 'a' <= c <= 'f' then Some(c as int - 'a' as int + 10)
    else if 'A' <= c <= 'F' then Some(c as int - 'A' as int + 10)
    else None
  }

  function Pow16(n: nat): nat {
    if n == 0 then 1 else 16 * Pow16(n - 1)
  }

  lemma {:induction false} Pow16Add(a: nat, b: nat)
    ensures Pow16(a + b) == Pow16(a) * Pow16(b)
    decreases a
  {
    if a > 0 {
      Pow16Add(a - 1, b);
    }
  }

  /** 32 hex digits hold exactly the 128-bit values. */
  lemma Pow16ThirtyTwo()
    ensures Pow16(32) == UuidBound
  {
    assert Pow16(8) == 0x1_0000_0000;
    Pow16Add(8, 8);
    Pow16Add(16, 16);
  }

  /** The value of a string of hex digits, most significant first; None if any character is not one. */
  function HexValue(s: string): (r: Option<nat>)
    ensures r.Some? ==> r.value < Pow16(|s|)
    ensures r.Some? <==> forall i :: 0 <= i < |s| ==> HexDigit(s[i]).Some?
  {
    if s == [] then Some(0)
    else
      var init := s[..|s| - 1];
      var last := HexDigit(s[|s| - 1]);
      match HexValue(init)
      case None =>
        assert !HexDigit(init[|init| - 1]).Some? || exists i :: 0 <= i < |init| && HexDigit(init[i]).None?;
        None
      case Some(v) =>
        if last.None? then None
        else
          assert last.value < 16;
          assert v * 16 + last.value < Pow16(|s|) by {
            assert v <= Pow16(|init|) - 1;
          }
          assert forall i :: 0 <= i < |s| ==> HexDigit(s[i]).Some? by {
            forall i | 0 <= i < |s| ensures HexDigit(s[i]).Some? {
              if i < |init| { assert s[i] == init[i]; }
            }
          }
          Some(v * 16 + last.value)
  }

  /** The 8-4-4-4-12 form: hyphens at 8, 13, 18 and 23, hex digits elsewhere. */
  function ParseHyphenated(s: string): (r: Option<Uuid>)
    ensures r.Some? ==> |s| == 36 && r.value < UuidBound
  {
    if |s| != 36 || s[8] != '-' || s[13] != '-' || s[18] != '-' || s[23] != '-' then None
    else
      var digits := s[..8] + s[9..13] + s[14..18] + s[19..23] + s[24..];
      match HexValue(digits)
      case None => None
      case Some(v) =>
        Pow16ThirtyTwo();
        Some(v)
  }

  /** `Uuid::parse_str`: None where the source's `unwrap` would panic. */
  function ParseUuid(s: string): (r: Option<Uuid>)
    ensures r.Some? ==> r.value < UuidBound
    ensures r.Some? ==> |s| in {32, 36, 38, 45}
  {
    if |s| == 32 then
      match HexValue(s)
      case None => None
      case Some(v) =>
        Pow16ThirtyTwo();
        Some(v)
    else if |s| == 36 then ParseHyphenated(s)
    else if |s| == 38 && s[0] == '{' && s[37] == '}' then ParseHyphenated(s[1..37])
    else if |s| == 45 && s[..9] == "urn:uuid:" then ParseHyphenated(s[9..])
    else None
  }

  /** Appending a hex digit multiplies the value read so far by 16 and adds the digit. */
  lemma HexValueSnoc(s: string, c: char)
    requires HexValue(s).Some? && HexDigit(c).Some?
    ensures HexValue(s + [c]) == Some(16 * HexValue(s).value + HexDigit(c).value)
  {
    assert (s + [c])[..|s|] == s;
  }

  /** The lower-case hex digit of a value below 16. */
  function HexChar(d: nat): (c: char)
    requires d < 16
    ensures HexDigit(c) == Some(d)
  {
    if d < 10 then ('0' as int + d) as char else ('a' as int + d - 10) as char
  }

  /** `n` lower-case hex digits of v, most significant first, as the simple form writes a value. */
  function HexText(v: nat, n: nat): (s: string)
    ensures |s| == n
  {
    if n == 0 then [] else HexText(v / 16, n - 1) + [HexChar(v % 16)]
  }

  /** A value written with enough hex digits reads back to itself. */
  lemma {:induction false} HexTextRoundTrip(v: nat, n: nat)
    requires v < Pow16(n)
    ensures HexValue(HexText(v, n)) == Some(v)
    decreases n
  {
    if n > 0 {
      HexTextRoundTrip(v / 16, n - 1);
      HexValueSnoc(HexText(v / 16, n - 1), HexChar(v % 16));
    }
  }

  /** The 8-4-4-4-12 grouping of 32 hex digits. */
  function Hyphenate(s: string): (h: string)
    requires |s| == 32
    ensures |h| == 36
  {
    s[..8] + "-" + s[8..12] + "-" + s[12..16] + "-" + s[16..20] + "-" + s[20..]
  }

  /** Removing the four hyphens of the hyphenated form gives back the 32 characters. */
  lemma HyphenateGroups(s: string)
    requires |s| == 32
    ensures var h := Hyphenate(s);
      h[8] == '-' && h[13] == '-' && h[18] == '-' && h[23] == '-'
      && h[..8] + h[9..13] + h[14..18] + h[19..23] + h[24..] == s
  {
    var h := Hyphenate(s);
    assert h[..8] == s[..8];
    assert h[9..13] == s[8..12];
    assert h[14..18] == s[12..16];
    assert h[19..23] == s[16..20];
    assert h[24..] == s[20..];
    assert s == s[..8] + s[8..12] + s[12..16] + s[16..20] + s[20..];
  }

  /** The hyphenated form reads the digits of its five groups, in order. */
  lemma HyphenatedDigits(s: string)
    requires |s| == 32
    ensures ParseHyphenated(Hyphenate(s)) == HexValue(s)
  {
    HyphenateGroups(s);
  }

  /** A hyphenated value in braces parses as the hyphenated value. */
  lemma BracedForm(h: string)
    requires |h| == 36
    ensures ParseUuid("{" + h + "}") == ParseHyphenated(h)
  {
    var braced := "{" + h + "}";
    assert braced[0] == '{' && braced[37] == '}' && braced[1..37] == h;
  }

  /** A hyphenated value after "urn:uuid:" parses as the hyphenated value. */
  lemma UrnForm(h: string)
    requires |h| == 36
    ensures ParseUuid("urn:uuid:" + h) == ParseHyphenated(h)
  {
    var urn := "urn:uuid:" + h;
    assert urn[..9] == "urn:uuid:" && urn[9..] == h;
  }

  /**
   * All four forms of the same 32 characters parse alike, and they are
   * accepted exactly when every character is a hex digit, with the value
   * those digits read as.
   */
  lemma UuidFormsAgree(s: string)
    requires |s| == 32
    ensures ParseUuid(s) == HexValue(s)
    ensures ParseUuid(s).Some? <==> forall i :: 0 <= i < |s| ==> HexDigit(s[i]).Some?
    ensures ParseUuid(Hyphenate(s)) == ParseUuid(s)
    ensures ParseUuid("{" + Hyphenate(s) + "}") == ParseUuid(s)
    ensures ParseUuid("urn:uuid:" + Hyphenate(s)) == ParseUuid(s)
  {
    Pow16ThirtyTwo();
    HyphenatedDigits(s);
    BracedForm(Hyphenate(s));
    UrnForm(Hyphenate(s));
  }

  /** Every 128-bit value, written in the simple or the hyphenated form, parses back to itself. */
  lemma UuidTextRoundTrip(v: nat)
    requires v < UuidBound
    ensures ParseUuid(HexText(v, 32)) == Some(v)
    ensures ParseUuid(Hyphenate(HexText(v, 32))) == Some(v)
  {
    Pow16ThirtyTwo();
    HexTextRoundTrip(v, 32);
    UuidFormsAgree(HexText(v, 32));
  }
}
