/** System.Guid as its 32 hexadecimal digits, with the hyphenated 8-4-4-4-12 text form
    of section 3 of RFC 4122 (the "D" format). */
module Guids {
  import opened Wrappers

  type Nibble = x: int | 0 <= x < 16

  /** The 32 hexadecimal digits of a Guid, in the order its text shows them. */
  type Guid = s: seq<Nibble> | |s| == 32 witness seq(32, _ => 0)

  predicate IsHexDigit(c: char) {
    ('0' <= c <= '9') || ('a' <= c <= 'f') || ('A' <= c <= 'F')
  }

  predicate AllHex(s: string) {
    forall i :: 0 <= i < |s| ==> IsHexDigit(s[i])
  }

  function HexValue(c: char): Nibble
    requires IsHexDigit(c)
  {
    if '0' <= c <= '9' then c as int - '0' as int
    else if 'a' <= c <= 'f' then c as int - 'a' as int + 10
    else c as int - 'A' as int + 10
  }

  /** Guid.ToString() writes lower-case digits. */
  function HexChar(n: Nibble): char {
    if n < 10 then ('0' as int + n) as char else ('a' as int + n - 10) as char
  }

  /** ASCII lower-casing, the only case change hexadecimal text can undergo. */
  function LowerAscii(c: char): char {
    if 'A' <= c <= 'Z' then (c as int - 'A' as int + 'a' as int) as char else c
  }

  function LowerText(s: string): string {
    seq(|s|, i requires 0 <= i < |s| => LowerAscii(s[i]))
  }

  function HexText(xs: seq<Nibble>): (s: string)
    ensures |s| == |xs|
  {
    seq(|xs|, i requires 0 <= i < |xs| => HexChar(xs[i]))
  }

  function HexNibbles(s: string): (xs: seq<Nibble>)
    requires AllHex(s)
    ensures |xs| == |s|
  {
    seq(|s|, i requires 0 <= i < |s| => HexValue(s[i]))
  }

  /** Guid.ToString(): "xxxxxxxx-xxxx-xxxx-xxxx-xxxxxxxxxxxx". */
  function FormatGuid(g: Guid): string {
    HexText(g[..8]) + "-" + HexText(g[8..12]) + "-" + HexText(g[12..16]) + "-"
      + HexText(g[16..20]) + "-" + HexText(g[20..])
  }

  /** Guid.TryParse restricted to the hyphenated form; either letter case is accepted. */
  function ParseGuid(s: string): Option<Guid> {
    if && |s| == 36 && s[8] == '-' && s[13] == '-' && s[18] == '-' && s[23] == '-'
       && AllHex(s[..8]) && AllHex(s[9..13]) && AllHex(s[14..18]) && AllHex(s[19..23]) && AllHex(s[24..])
    then Some(HexNibbles(s[..8]) + HexNibbles(s[9..13]) + HexNibbles(s[14..18])
                + HexNibbles(s[19..23]) + HexNibbles(s[24..]))
    else None
  }

  lemma HexRoundTrip(xs: seq<Nibble>)
    ensures AllHex(HexText(xs)) && HexNibbles(HexText(xs)) == xs
  {
  }

  lemma HexLower(s: string)
    requires AllHex(s)
    ensures HexText(HexNibbles(s)) == LowerText(s)
  {
  }

  /** Every Guid's text parses back to the same Guid. */
  lemma FormatParseGuid(g: Guid)
    ensures ParseGuid(FormatGuid(g)) == Some(g)
  {
    var s := FormatGuid(g);
    HexRoundTrip(g[..8]);
    HexRoundTrip(g[8..12]);
    HexRoundTrip(g[12..16]);
    HexRoundTrip(g[16..20]);
    HexRoundTrip(g[20..]);
    assert s[..8] == HexText(g[..8]);
    assert s[9..13] == HexText(g[8..12]);
    assert s[14..18] == HexText(g[12..16]);
    assert s[19..23] == HexText(g[16..20]);
    assert s[24..] == HexText(g[20..]);
    assert g == g[..8] + g[8..12] + g[12..16] + g[16..20] + g[20..];
  }

  lemma LowerTextConcat(a: string, b: string)
    ensures LowerText(a + b) == LowerText(a) + LowerText(b)
  {
  }

  /** Lower-casing a hyphenated text lower-cases each group and keeps the hyphens. */
  lemma LowerGroups(s: string)
    requires |s| == 36 && s[8] == '-' && s[13] == '-' && s[18] == '-' && s[23] == '-'
    ensures LowerText(s) == LowerText(s[..8]) + "-" + LowerText(s[9..13]) + "-" + LowerText(s[14..18]) + "-"
                            + LowerText(s[19..23]) + "-" + LowerText(s[24..])
  {
    assert s == s[..8] + "-" + s[9..13] + "-" + s[14..18] + "-" + s[19..23] + "-" + s[24..];
    assert LowerText("-") == "-";
    LowerTextConcat(s[..8] + "-" + s[9..13] + "-" + s[14..18] + "-" + s[19..23] + "-", s[24..]);
    LowerTextConcat(s[..8] + "-" + s[9..13] + "-" + s[14..18] + "-" + s[19..23], "-");
    LowerTextConcat(s[..8] + "-" + s[9..13] + "-" + s[14..18] + "-", s[19..23]);
    LowerTextConcat(s[..8] + "-" + s[9..13] + "-" + s[14..18], "-");
    LowerTextConcat(s[..8] + "-" + s[9..13] + "-", s[14..18]);
    LowerTextConcat(s[..8] + "-" + s[9..13], "-");
    LowerTextConcat(s[..8] + "-", s[9..13]);
    LowerTextConcat(s[..8], "-");
  }

  /** A text the parser accepts is the Guid's own text up to the case of its letters. */
  lemma ParseFormatGuid(s: string)
    requires ParseGuid(s).Some?
    ensures FormatGuid(ParseGuid(s).value) == LowerText(s)
  {
    var g := ParseGuid(s).value;
    var a, b, c, d, e := HexNibbles(s[..8]), HexNibbles(s[9..13]), HexNibbles(s[14..18]),
                         HexNibbles(s[19..23]), HexNibbles(s[24..]);
    assert g[..8] == a && g[8..12] == b && g[12..16] == c && g[16..20] == d && g[20..] == e;
    HexLower(s[..8]);
    HexLower(s[9..13]);
    HexLower(s[14..18]);
    HexLower(s[19..23]);
    HexLower(s[24..]);
    LowerGroups(s);
  }
}
