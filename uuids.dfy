/**
 * A 128-bit unique identifier and its canonical text form, the 8-4-4-4-12
 * hexadecimal string of section 3 of RFC 4122 (what `UUID.toString` writes
 * and `UUID.fromString` reads back).
 */
module Uuids {
  import opened Options

  type Byte = b: int | 0 <= b < 256
  type Nibble = n: int | 0 <= n < 16

  /** The identifier as its 16 octets, most significant first. */
  type Uuid = s: seq<Byte> | |s| == 16 witness [0, 0, 0, 0, 0, 0, 0, 0, 0, 0, 0, 0, 0, 0, 0, 0]

  /** The lower-case hexadecimal digits that the text form is written with. */
  predicate IsLowerHex(c: char) {
    '0' <= c <= '9' || 'a' <= c <= 'f'
  }

  function HexChar(n: Nibble): (c: char)
    ensures IsLowerHex(c)
  {
    if n < 10 then ('0' as int + n) as char else ('a' as int + n - 10) as char
  }

  /** The value of a hexadecimal digit; upper-case digits are read too. */
  function HexValue(c: char): (r: Option<Nibble>)
    ensures r.Some? ==> HexChar(r.value) == (if 'A' <= c <= 'F' then (c as int - 'A' as int + 'a' as int) as char else c)
    ensures r.None? <==> !(IsLowerHex(c) || 'A' <= c <= 'F')
  {
    if '0' <= c <= '9' then Some(c as int - '0' as int)
    else if 'a' <= c <= 'f' then Some(c as int - 'a' as int + 10)
    else if 'A' <= c <= 'F' then Some(c as int - 'A' as int + 10)
    else None
  }

  /** Two lower-case hex digits per octet, high nibble first. */
  function Hex(bs: seq<Byte>): (s: string)
    ensures |s| == 2 * |bs|
    ensures forall i :: 0 <= i < |s| ==> IsLowerHex(s[i])
  {
    if bs == [] then "" else [HexChar(bs[0] / 16), HexChar(bs[0] % 16)] + Hex(bs[1..])
  }

  /** Reads pairs of hex digits back into octets; None on an odd length or a non-digit. */
  function ParseHex(s: string): (r: Option<seq<Byte>>)
    ensures r.Some? ==> 2 * |r.value| == |s|
    decreases |s|
  {
    if s == [] then Some([])
    else if |s| == 1 then None
    else
      match (HexValue(s[0]), HexValue(s[1]), ParseHex(s[2..]))
      case (Some(hi), Some(lo), Some(rest)) => Some([(hi as int) * 16 + lo] + rest)
      case _ => None
  }

  lemma {:induction false} ParseHexOfHex(bs: seq<Byte>)
    ensures ParseHex(Hex(bs)) == Some(bs)
  {
    if bs != [] {
      var s := Hex(bs);
      assert s[2..] == Hex(bs[1..]);
      ParseHexOfHex(bs[1..]);
      assert [bs[0]] + bs[1..] == bs;
    }
  }

  lemma {:induction false} HexOfParseHex(s: string)
    requires ParseHex(s).Some?
    requires forall i :: 0 <= i < |s| ==> IsLowerHex(s[i])
    ensures Hex(ParseHex(s).value) == s
  {
    if s != [] {
      var hi, lo := HexValue(s[0]).value, HexValue(s[1]).value;
      var rest := ParseHex(s[2..]).value;
      HexOfParseHex(s[2..]);
      var b: Byte := (hi as int) * 16 + lo;
      assert b / 16 == hi && b % 16 == lo;
      assert ParseHex(s).value == [b] + rest;
      assert s == [s[0], s[1]] + s[2..];
    }
  }

  /** The positions of the four hyphens in the text form. */
  predicate IsHyphenAt(i: int) {
    i == 8 || i == 13 || i == 18 || i == 23
  }

  /** Position i of the text form holds a hyphen where one belongs and a lower-case hex digit elsewhere. */
  predicate CanonicalAt(s: string, i: nat)
    requires i < |s|
  {
    if IsHyphenAt(i) then s[i] == '-' else IsLowerHex(s[i])
  }

  /** A string as `UUID.toString` writes it: 36 characters, hyphens at 8, 13, 18, 23, lower-case hex elsewhere. */
  predicate IsCanonicalText(s: string) {
    |s| == 36 && forall i: nat :: i < 36 ==> CanonicalAt(s, i)
  }

  /** The five hex groups of the text form, joined by hyphens. */
  function Join(g0: string, g1: string, g2: string, g3: string, g4: string): string {
    g0 + "-" + g1 + "-" + g2 + "-" + g3 + "-" + g4
  }

  /** Groups of the 8-4-4-4-12 lengths are found again at their fixed offsets. */
  lemma JoinSplit(g0: string, g1: string, g2: string, g3: string, g4: string)
    requires |g0| == 8 && |g1| == 4 && |g2| == 4 && |g3| == 4 && |g4| == 12
    ensures var s := Join(g0, g1, g2, g3, g4);
      && |s| == 36 && s[8] == '-' && s[13] == '-' && s[18] == '-' && s[23] == '-'
      && s[0..8] == g0 && s[9..13] == g1 && s[14..18] == g2 && s[19..23] == g3 && s[24..36] == g4
  {
    var s := Join(g0, g1, g2, g3, g4);
    assert s == g0 + ("-" + (g1 + ("-" + (g2 + ("-" + (g3 + ("-" + g4)))))));
  }

  /** `UUID.toString`: groups of 4, 2, 2, 2 and 6 octets, joined by hyphens. */
  function ToText(u: Uuid): (s: string)
    ensures |s| == 36
  {
    Join(Hex(u[..4]), Hex(u[4..6]), Hex(u[6..8]), Hex(u[8..10]), Hex(u[10..]))
  }

  /** The octets of the five hex groups, in order; None if one of them is not hex. */
  function ParseGroups(g0: string, g1: string, g2: string, g3: string, g4: string): (r: Option<seq<Byte>>)
    ensures r.Some? ==> 2 * |r.value| == |g0| + |g1| + |g2| + |g3| + |g4|
  {
    match (ParseHex(g0), ParseHex(g1), ParseHex(g2), ParseHex(g3), ParseHex(g4))
    case (Some(a), Some(b), Some(c), Some(d), Some(e)) => Some(a + b + c + d + e)
    case _ => None
  }

  /** `UUID.fromString` on the 36-character form; None where Java throws IllegalArgumentException. */
  function FromText(s: string): (r: Option<Uuid>)
    ensures r.Some? ==> |s| == 36 && s[8] == '-' && s[13] == '-' && s[18] == '-' && s[23] == '-'
  {
    if |s| != 36 || s[8] != '-' || s[13] != '-' || s[18] != '-' || s[23] != '-' then None
    else
      match ParseGroups(s[0..8], s[9..13], s[14..18], s[19..23], s[24..36])
      case Some(octets) => Some(octets)
      case None => None
  }

  /** The text form holds the hex of each octet group at the group's offset. */
  lemma ToTextGroups(u: Uuid)
    ensures var s := ToText(u);
      && s[8] == '-' && s[13] == '-' && s[18] == '-' && s[23] == '-'
      && s[0..8] == Hex(u[..4]) && s[9..13] == Hex(u[4..6]) && s[14..18] == Hex(u[6..8])
      && s[19..23] == Hex(u[8..10]) && s[24..36] == Hex(u[10..])
  {
    JoinSplit(Hex(u[..4]), Hex(u[4..6]), Hex(u[6..8]), Hex(u[8..10]), Hex(u[10..]));
  }

  /** The hex of five octet groups parses back to their concatenation. */
  lemma ParseGroupsOfHex(a: seq<Byte>, b: seq<Byte>, c: seq<Byte>, d: seq<Byte>, e: seq<Byte>)
    ensures ParseGroups(Hex(a), Hex(b), Hex(c), Hex(d), Hex(e)) == Some(a + b + c + d + e)
  {
    ParseHexOfHex(a);
    ParseHexOfHex(b);
    ParseHexOfHex(c);
    ParseHexOfHex(d);
    ParseHexOfHex(e);
  }

  /** An identifier is the concatenation of its five octet groups. */
  lemma OctetGroups(u: Uuid)
    ensures u[..4] + u[4..6] + u[6..8] + u[8..10] + u[10..] == u
  {
    assert u == u[..4] + (u[4..6] + (u[6..8] + (u[8..10] + u[10..])));
  }

  /** Every identifier reads back from the text written for it. */
  lemma FromTextOfToText(u: Uuid)
    ensures FromText(ToText(u)) == Some(u)
  {
    var s := ToText(u);
    ToTextGroups(u);
    ParseGroupsOfHex(u[..4], u[4..6], u[6..8], u[8..10], u[10..]);
    assert FromText(s) == ParseGroups(s[0..8], s[9..13], s[14..18], s[19..23], s[24..36]);
    OctetGroups(u);
  }

  /** The text written for an identifier is canonical. */
  lemma ToTextIsCanonical(u: Uuid)
    ensures IsCanonicalText(ToText(u))
  {
    ToTextGroups(u);
    var s := ToText(u);
    forall i: nat | i < 36
      ensures CanonicalAt(s, i)
    {
      if IsHyphenAt(i) {
      } else if i < 8 { assert s[i] == s[0..8][i]; }
      else if i < 13 { assert s[i] == s[9..13][i - 9]; }
      else if i < 18 { assert s[i] == s[14..18][i - 14]; }
      else if i < 23 { assert s[i] == s[19..23][i - 19]; }
      else { assert s[i] == s[24..36][i - 24]; }
    }
  }

  /** Five octet groups of lengths 4, 2, 2, 2 and 6 make an identifier and are found again at their offsets. */
  lemma SplitGroups(a: seq<Byte>, b: seq<Byte>, c: seq<Byte>, d: seq<Byte>, e: seq<Byte>)
    requires |a| == 4 && |b| == 2 && |c| == 2 && |d| == 2 && |e| == 6
    ensures var u := a + b + c + d + e;
      |u| == 16 && u[..4] == a && u[4..6] == b && u[6..8] == c && u[8..10] == d && u[10..] == e
  {
    var u := a + b + c + d + e;
    assert u == a + (b + (c + (d + e)));
  }

  /** A hex group of a canonical string parses, and its octets are written back as the same group. */
  lemma CanonicalGroup(s: string, lo: nat, hi: nat, g: string)
    requires IsCanonicalText(s)
    requires (lo, hi) in [(0, 8), (9, 13), (14, 18), (19, 23), (24, 36)] && g == s[lo..hi]
    ensures ParseHex(g).Some? && Hex(ParseHex(g).value) == g
  {
    forall i | 0 <= i < |g| ensures IsLowerHex(g[i]) {
      assert CanonicalAt(s, lo + i);
      assert g[i] == s[lo + i];
    }
    ParseHexAllDigits(g);
    HexOfParseHex(g);
  }

  /** Five hex groups that parse and are written back unchanged are the text form of the identifier they parse to. */
  lemma ToTextOfGroups(g0: string, g1: string, g2: string, g3: string, g4: string)
    requires |g0| == 8 && |g1| == 4 && |g2| == 4 && |g3| == 4 && |g4| == 12
    requires ParseHex(g0).Some? && Hex(ParseHex(g0).value) == g0
    requires ParseHex(g1).Some? && Hex(ParseHex(g1).value) == g1
    requires ParseHex(g2).Some? && Hex(ParseHex(g2).value) == g2
    requires ParseHex(g3).Some? && Hex(ParseHex(g3).value) == g3
    requires ParseHex(g4).Some? && Hex(ParseHex(g4).value) == g4
    ensures ParseGroups(g0, g1, g2, g3, g4).Some? && |ParseGroups(g0, g1, g2, g3, g4).value| == 16
    ensures ToText(ParseGroups(g0, g1, g2, g3, g4).value) == Join(g0, g1, g2, g3, g4)
  {
    var a, b, c, d, e := ParseHex(g0).value, ParseHex(g1).value, ParseHex(g2).value, ParseHex(g3).value, ParseHex(g4).value;
    SplitGroups(a, b, c, d, e);
    assert ParseGroups(g0, g1, g2, g3, g4) == Some(a + b + c + d + e);
    var u: Uuid := a + b + c + d + e;
    assert ToText(u) == Join(Hex(a), Hex(b), Hex(c), Hex(d), Hex(e));
  }

  /** A canonical string is the text written for the identifier read from it. */
  lemma ToTextOfFromText(s: string)
    requires IsCanonicalText(s)
    ensures FromText(s).Some? && ToText(FromText(s).value) == s
  {
    assert CanonicalAt(s, 8) && CanonicalAt(s, 13) && CanonicalAt(s, 18) && CanonicalAt(s, 23);
    CanonicalGroup(s, 0, 8, s[0..8]);
    CanonicalGroup(s, 9, 13, s[9..13]);
    CanonicalGroup(s, 14, 18, s[14..18]);
    CanonicalGroup(s, 19, 23, s[19..23]);
    CanonicalGroup(s, 24, 36, s[24..36]);
    ToTextOfGroups(s[0..8], s[9..13], s[14..18], s[19..23], s[24..36]);
    assert FromText(s) == ParseGroups(s[0..8], s[9..13], s[14..18], s[19..23], s[24..36]);
    JoinEqual(s);
  }

  /** A string with hyphens at the four group boundaries is the join of its groups. */
  lemma JoinEqual(s: string)
    requires |s| == 36 && s[8] == '-' && s[13] == '-' && s[18] == '-' && s[23] == '-'
    ensures Join(s[0..8], s[9..13], s[14..18], s[19..23], s[24..36]) == s
  {
    assert s == s[0..8] + [s[8]] + s[9..13] + [s[13]] + s[14..18] + [s[18]] + s[19..23] + [s[23]] + s[24..36];
  }

  /** An even-length string of hex digits always parses. */
  lemma {:induction false} ParseHexAllDigits(s: string)
    requires |s| % 2 == 0
    requires forall i :: 0 <= i < |s| ==> IsLowerHex(s[i])
    ensures ParseHex(s).Some?
  {
    if s != [] {
      ParseHexAllDigits(s[2..]);
    }
  }

  /** Distinct identifiers have distinct text forms. */
  lemma ToTextInjective(u: Uuid, v: Uuid)
    requires ToText(u) == ToText(v)
    ensures u == v
  {
    FromTextOfToText(u);
    FromTextOfToText(v);
  }
}
