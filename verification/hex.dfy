/** Go's `strconv.ParseUint(s, 16, 16)`, the parser the resolver applies to
    every vendor and product ID, both in target fingerprints and in the
    enumerator's port records. It accepts one or more hexadecimal digits of
    either case (no sign, no `0x` prefix, no underscores, since the base is
    given explicitly) whose value fits in 16 bits. */
module Hex {
  import opened Wrappers

  /** An unsigned 16-bit value, Go's `uint16`. */
  type U16 = x: nat | x < 0x1_0000

  predicate IsHexDigit(c: char)
  {
    '0' <= c <= '9' || 'a' <= c <= 'f' || 'A' <= c <= 'F'
  }

  function DigitValue(c: char): (d: nat)
    requires IsHexDigit(c)
    ensures d < 16
  {
    if '0' <= c <= '9' then c as nat - '0' as nat
    else if 'a' <= c <= 'f' then c as nat - 'a' as nat + 10
    else c as nat - 'A' as nat + 10
  }

  predicate AllHexDigits(s: string)
  {
    forall k :: 0 <= k < |s| ==> IsHexDigit(s[k])
  }

  /** The value of a digit string read most significant digit first; leading
      zeros add nothing and the empty string is 0. */
  function HexValue(s: string): nat
    requires AllHexDigits(s)
  {
    if |s| == 0 then 0 else HexValue(s[..|s| - 1]) * 16 + DigitValue(s[|s| - 1])
  }

  /** `strconv.ParseUint(s, 16, 16)`: `None` for the syntax error (empty
      text, a character that is not a hex digit) and for the range error
      (value above 0xFFFF) alike, since the resolver treats both the same. */
  function ParseUint16(s: string): (r: Option<U16>)
    ensures r.Some? <==> s != "" && AllHexDigits(s) && HexValue(s) < 0x1_0000
    ensures r.Some? ==> r.value == HexValue(s)
  {
    if s == "" then None else Accumulate(s, 0, 0)
  }

  /** The digit loop of `ParseUint`: `n` is the value of the first `i`
      characters; a bad digit or a step past 0xFFFF stops with an error at
      once, as Go's loop returns early. */
  function Accumulate(s: string, i: nat, n: U16): (r: Option<U16>)
    requires i <= |s|
    requires AllHexDigits(s[..i]) && n == HexValue(s[..i])
    ensures r.Some? <==> AllHexDigits(s) && HexValue(s) < 0x1_0000
    ensures r.Some? ==> r.value == HexValue(s)
    decreases |s| - i
  {
    if i == |s| then
      assert s[..i] == s;
      Some(n)
    else if !IsHexDigit(s[i]) then
      None
    else if n * 16 + DigitValue(s[i]) >= 0x1_0000 then
      assert s[..i + 1][..i] == s[..i];
      HexValuePrefixBound(s, i + 1);
      None
    else
      assert s[..i + 1][..i] == s[..i];
      Accumulate(s, i + 1, n * 16 + DigitValue(s[i]))
  }

  /** A longer digit string is never worth less than its prefix, so the
      early range error of `Accumulate` is final. */
  lemma {:induction false} HexValuePrefixBound(s: string, m: nat)
    requires m <= |s|
    ensures AllHexDigits(s) ==> AllHexDigits(s[..m]) && HexValue(s[..m]) <= HexValue(s)
    decreases |s| - m
  {
    if m < |s| && AllHexDigits(s) {
      var t := s[..|s| - 1];
      assert AllHexDigits(t);
      HexValuePrefixBound(t, m);
      assert t[..m] == s[..m];
    } else if m == |s| {
      assert s[..m] == s;
    }
  }

  /** The character ASCII lower-casing maps `c` to. */
  function Lower(c: char): char
  {
    if 'A' <= c <= 'Z' then (c as int + 32) as char else c
  }

  function LowerAll(s: string): (t: string)
    ensures |t| == |s|
    ensures forall k :: 0 <= k < |s| ==> t[k] == Lower(s[k])
  {
    if |s| == 0 then "" else LowerAll(s[..|s| - 1]) + [Lower(s[|s| - 1])]
  }

  lemma {:induction false} HexValueIgnoresCase(s: string)
    requires AllHexDigits(s)
    ensures AllHexDigits(LowerAll(s)) && HexValue(LowerAll(s)) == HexValue(s)
    decreases |s|
  {
    var t := LowerAll(s);
    assert AllHexDigits(t) by {
      forall k | 0 <= k < |t| ensures IsHexDigit(t[k]) {
        assert IsHexDigit(s[k]);
      }
    }
    if |s| > 0 {
      HexValueIgnoresCase(s[..|s| - 1]);
      assert t[..|t| - 1] == LowerAll(s[..|s| - 1]);
    }
  }

  /** Upper- and lower-case IDs parse alike, so an enumerator that reports
      "2E8A" matches a fingerprint that writes "2e8a". */
  lemma ParseIgnoresCase(s: string)
    ensures ParseUint16(LowerAll(s)) == ParseUint16(s)
  {
    var t := LowerAll(s);
    if AllHexDigits(s) {
      HexValueIgnoresCase(s);
    } else {
      var k :| 0 <= k < |s| && !IsHexDigit(s[k]);
      assert !IsHexDigit(t[k]);
    }
  }

  lemma {:induction false} LeadingZeroValue(s: string)
    requires AllHexDigits(s)
    ensures AllHexDigits("0" + s) && HexValue("0" + s) == HexValue(s)
    decreases |s|
  {
    var z := "0" + s;
    assert AllHexDigits(z) by {
      forall k | 0 <= k < |z| ensures IsHexDigit(z[k]) {
        if k > 0 { assert z[k] == s[k - 1]; }
      }
    }
    if |s| > 0 {
      LeadingZeroValue(s[..|s| - 1]);
      assert z[..|z| - 1] == "0" + s[..|s| - 1];
    }
  }

  /** Leading zeros are accepted and change nothing: "0002" is 2. */
  lemma ParseIgnoresLeadingZero(s: string)
    requires s != ""
    ensures ParseUint16("0" + s) == ParseUint16(s)
  {
    if AllHexDigits(s) {
      LeadingZeroValue(s);
    } else {
      var k :| 0 <= k < |s| && !IsHexDigit(s[k]);
      assert ("0" + s)[k + 1] == s[k];
    }
  }

  function DigitChar(d: nat): (c: char)
    requires d < 16
    ensures IsHexDigit(c) && DigitValue(c) == d
  {
    if d < 10 then ('0' as int + d) as char else ('a' as int + d - 10) as char
  }

  /** An ID written as four lower-case hex digits, zero-padded, the way a
      `serial-port` fingerprint usually spells it. */
  function FormatHex4(v: U16): (s: string)
    ensures |s| == 4 && AllHexDigits(s)
  {
    [DigitChar(v / 16 / 16 / 16), DigitChar(v / 16 / 16 % 16), DigitChar(v / 16 % 16), DigitChar(v % 16)]
  }

  lemma HexValueSnoc(s: string, c: char)
    requires AllHexDigits(s) && IsHexDigit(c)
    ensures AllHexDigits(s + [c]) && HexValue(s + [c]) == HexValue(s) * 16 + DigitValue(c)
  {
    assert (s + [c])[..|s|] == s;
  }

  /** Every 16-bit ID survives rendering as four hex digits and parsing back. */
  lemma ParseFormatHex4(v: U16)
    ensures ParseUint16(FormatHex4(v)) == Some(v)
  {
    var s := FormatHex4(v);
    var w1 := v / 16;
    var w2 := w1 / 16;
    var w3 := w2 / 16;
    assert v == w1 * 16 + v % 16 && w1 == w2 * 16 + w1 % 16 && w2 == w3 * 16 + w2 % 16;
    HexValueSnoc([], s[0]);
    assert [] + [s[0]] == [s[0]];
    assert HexValue([s[0]]) == w3;
    HexValueSnoc([s[0]], s[1]);
    assert [s[0]] + [s[1]] == [s[0], s[1]];
    assert HexValue([s[0], s[1]]) == w2;
    HexValueSnoc([s[0], s[1]], s[2]);
    assert [s[0], s[1]] + [s[2]] == [s[0], s[1], s[2]];
    assert HexValue([s[0], s[1], s[2]]) == w1;
    HexValueSnoc([s[0], s[1], s[2]], s[3]);
    assert [s[0], s[1], s[2]] + [s[3]] == s;
  }
}
