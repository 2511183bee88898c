/** Numeric and named entities: every character can be written by its number, in decimal or
    hexadecimal, and is decoded from it; the named ones stand for the characters they name. */
module NormalizeNumeric {
  import opened Bytes
  import opened Text
  import opened NormalizeEntities

  function Digit(d: nat): (c: char)
    requires d < 16
  {
    if d < 10 then ('0' as int + d) as char else ('a' as int + d - 10) as char
  }

  /** A number in a radix, most significant digit first. */
  function Digits(v: nat, radix: nat): (s: string)
    requires 2 <= radix <= 16
    ensures s != ""
  {
    if v < radix then [Digit(v)] else Digits(v / radix, radix) + [Digit(v % radix)]
  }

  lemma DigitReadsBack(d: nat, radix: nat)
    requires d < radix <= 16
    ensures DigitValue(Digit(d), radix) == Some(d) && Digit(d) !in {'+', ';', 'x', 'X', '#'} && Digit(d) as int < 0x80
  {
  }

  lemma DigitAppended(s: string, high: nat, d: nat, radix: nat)
    requires d < radix <= 16 && ParseDigits(s, radix) == Some(high)
    ensures ParseDigits(s + [Digit(d)], radix) == Some(high * radix + d)
  {
    DigitReadsBack(d, radix);
    assert (s + [Digit(d)])[..|s|] == s;
  }

  predicate Plain(s: string) {
    forall i :: 0 <= i < |s| ==> s[i] !in {'+', ';', 'x', 'X', '#'} && s[i] as int < 0x80
  }

  lemma QuotientRemainder(v: nat, radix: nat)
    requires radix >= 2
    ensures v == v / radix * radix + v % radix && v % radix < radix
  {
  }

  lemma {:induction false} ParseUndoesDigits(v: nat, radix: nat)
    requires 2 <= radix <= 16
    ensures ParseDigits(Digits(v, radix), radix) == Some(v) && Plain(Digits(v, radix))
  {
    if v < radix {
      DigitReadsBack(v, radix);
      DigitAppended("", 0, v, radix);
      assert "" + [Digit(v)] == [Digit(v)];
    } else {
      ParseUndoesDigits(v / radix, radix);
      QuotientRemainder(v, radix);
      OneDigitMore(Digits(v / radix, radix), v / radix, v % radix, radix, v);
    }
  }

  lemma {:induction false} OneDigitMore(s: string, high: nat, d: nat, radix: nat, v: nat)
    requires d < radix <= 16 && ParseDigits(s, radix) == Some(high) && Plain(s) && v == high * radix + d
    ensures ParseDigits(s + [Digit(d)], radix) == Some(v) && Plain(s + [Digit(d)])
  {
    DigitReadsBack(d, radix);
    DigitAppended(s, high, d, radix);
  }

  lemma {:induction false} DigitsShort(v: nat, radix: nat, n: nat, bound: nat)
    requires 2 <= radix <= 16 && v < bound && bound == Power(radix, n) && n >= 1
    ensures |Digits(v, radix)| <= n
    decreases n
  {
    if v >= radix {
      QuotientRemainder(v, radix);
      PowerSplit(v, radix, n);
      DigitsShort(v / radix, radix, n - 1, Power(radix, n - 1));
    }
  }

  function Power(b: nat, n: nat): (p: nat) {
    if n == 0 then 1 else b * Power(b, n - 1)
  }

  lemma LessFactor(q: nat, p: nat, radix: nat)
    requires radix >= 1
    ensures q * radix < p * radix ==> q < p
  {
    if q >= p {
      assert q * radix >= p * radix;
    }
  }

  lemma {:induction false} PowerSplit(v: nat, radix: nat, n: nat)
    requires radix >= 2 && radix <= v < Power(radix, n) && n >= 1
    ensures n >= 2 && v / radix < Power(radix, n - 1)
  {
    assert Power(radix, 0) == 1 && Power(radix, 1) == radix * 1;
    QuotientRemainder(v, radix);
    LessFactor(v / radix, Power(radix, n - 1), radix);
  }

  // ---- entities ---------------------------------------------------------------------------------

  datatype Style = Decimal | LowerHex | UpperHex

  function Prefix(style: Style): (s: string) {
    match style
    case Decimal => "#"
    case LowerHex => "#x"
    case UpperHex => "#X"
  }

  function Radix(style: Style): (r: nat)
    ensures r == 10 || r == 16
  {
    if style.Decimal? then 10 else 16
  }

  /** A character by its number. */
  function Numeric(c: char, style: Style): (entity: string) {
    Prefix(style) + Digits(c as int, Radix(style))
  }

  lemma NumberShort(c: char, style: Style)
    ensures |Digits(c as int, Radix(style))| <= 7
  {
    if style.Decimal? {
      assert Power(10, 7) == 10_000_000 by {
        assert Power(10, 3) == 1000 && Power(10, 5) == 100 * Power(10, 3);
      }
      DigitsShort(c as int, 10, 7, 10_000_000);
    } else {
      assert Power(16, 6) == 16_777_216 by {
        assert Power(16, 3) == 4096 && Power(16, 5) == 256 * Power(16, 3);
      }
      DigitsShort(c as int, 16, 6, 16_777_216);
    }
  }

  lemma {:induction false} ParseNumber(digits: string, radix: nat, v: nat)
    requires digits != "" && Plain(digits) && ParseDigits(digits, radix) == Some(v) && v <= U32_MAX
    ensures ParseU32(digits, radix) == Some(v)
  {
  }

  /** Of the names, only one starts with the number sign. */
  lemma NoOtherName(entity: string)
    requires entity != "" && entity[0] == '#'
    ensures NamedEntity(entity) == if entity == "#39" then Some('\'') else None
  {
  }

  lemma {:induction false} NumericIs(c: char, style: Style)
    ensures NumericEntity(Numeric(c, style)) == Some(c) && Numeric(c, style)[0] == '#'
  {
    var digits, radix := Digits(c as int, Radix(style)), Radix(style);
    ParseUndoesDigits(c as int, radix);
    ParseNumber(digits, radix, c as int);
    var entity := Numeric(c, style);
    if style.Decimal? {
      assert entity[1..] == digits && entity[1] == digits[0];
    } else {
      assert entity[2..] == digits;
    }
  }

  lemma {:induction false} NumericDecoded(c: char, style: Style)
    ensures DecodeEntity(Numeric(c, style)) == Some(c)
  {
    NumericIs(c, style);
    NoOtherName(Numeric(c, style));
    ApostropheByNumber();
  }

  lemma {:induction false} ApostropheByNumber()
    ensures NumericEntity("#39") == Some('\'')
  {
    assert "#39"[1..] == "39" && "39"[..1] == "3" && "3"[..0] == "";
    assert ParseDigits("3", 10) == Some(3);
    assert ParseDigits("39", 10) == Some(39);
  }

  function EscapeNumeric(s: string, style: Style): (t: string) {
    if s == [] then [] else "&" + Numeric(s[0], style) + ";" + EscapeNumeric(s[1..], style)
  }

  lemma {:induction false} NumericFits(c: char, style: Style)
    ensures ';' !in Numeric(c, style) && ByteLen("&" + Numeric(c, style)) <= 10
  {
    NumberShort(c, style);
    ParseUndoesDigits(c as int, Radix(style));
    AsciiByteLen("&" + Numeric(c, style));
  }

  /** Every text written by numbers, in decimal or hexadecimal, is decoded to itself. */
  lemma {:induction false} DecodeUndoesNumeric(s: string, style: Style)
    ensures Decoded(EscapeNumeric(s, style)) == s
  {
    if s != [] {
      DecodeUndoesNumeric(s[1..], style);
      NumericDecoded(s[0], style);
      NumericFits(s[0], style);
      DecodeKnown(DecodeEntity, Numeric(s[0], style), s[0], EscapeNumeric(s[1..], style));
    }
  }

  /** The names, and the characters they stand for. */
  const NAMES: seq<(string, char)> :=
    [("amp", '&'), ("lt", '<'), ("gt", '>'), ("quot", '\"'), ("apos", '\''), ("nbsp", ' '),
     ("mdash", 0x2014 as char), ("ndash", 0x2013 as char), ("hellip", 0x2026 as char), ("copy", 0xA9 as char)]

  lemma {:induction false} NameIs(i: nat)
    requires i < |NAMES|
    ensures NamedEntity(NAMES[i].0) == Some(NAMES[i].1) && |NAMES[i].0| <= 6
    ensures forall k :: 0 <= k < |NAMES[i].0| ==> 'a' <= NAMES[i].0[k] <= 'z'
  {
  }

  lemma {:induction false} NamedDecoded(i: nat, rest: string)
    requires i < |NAMES|
    ensures Decoded("&" + NAMES[i].0 + ";" + rest) == [NAMES[i].1] + Decoded(rest)
  {
    NameIs(i);
    AsciiByteLen("&" + NAMES[i].0);
    DecodeKnown(DecodeEntity, NAMES[i].0, NAMES[i].1, rest);
  }

  lemma {:induction false} UnknownKeptBy(table: Table, entity: string, rest: string)
    requires ';' !in entity && ByteLen("&" + entity) <= 10 && table(entity) == None
    ensures DecodedBy(table, "&" + entity + ";" + rest) == "&" + entity + ";" + DecodedBy(table, rest)
  {
    var s, n := "&" + entity + ";" + rest, |entity| + 1;
    assert s[..n] == "&" + entity && s[n] == ';' && s[1..n] == entity && s[n + 1..] == rest;
    FirstIs(s, ';', n);
    assert s[0..] == s && s[..n + 1] == "&" + entity + ";";
    assert EntityStep(table, s) == (s[..n + 1], n + 1);
    Unfolded(table, s, 0, s[..n + 1], n + 1);
    assert s[..0] + (s[..n + 1] + DecodedBy(table, rest)) == s[..n + 1] + DecodedBy(table, rest);
  }

  /** What is no entity stays as it is written. */
  lemma {:induction false} UnknownKept(entity: string, rest: string)
    requires ';' !in entity && ByteLen("&" + entity) <= 10 && DecodeEntity(entity) == None
    ensures Decoded("&" + entity + ";" + rest) == "&" + entity + ";" + Decoded(rest)
  {
    UnknownKeptBy(DecodeEntity, entity, rest);
  }

  /** There are no other names. */
  lemma OnlyNames(entity: string)
    requires NamedEntity(entity).Some? && entity != "#39"
    ensures exists i :: 0 <= i < |NAMES| && NAMES[i].0 == entity
  {
    var i := if entity == "amp" then 0 else if entity == "lt" then 1 else if entity == "gt" then 2
             else if entity == "quot" then 3 else if entity == "apos" then 4 else if entity == "nbsp" then 5
             else if entity == "mdash" then 6 else if entity == "ndash" then 7 else if entity == "hellip" then 8 else 9;
    assert NAMES[i].0 == entity;
  }

  lemma {:induction false} LoneAmpersandBy(table: Table, rest: string)
    requires match FindChar(rest, ';') case None => true case Some(j) => ByteLen("&" + rest[..j]) > 10
    ensures DecodedBy(table, "&" + rest) == "&" + DecodedBy(table, rest)
  {
    var s := "&" + rest;
    FindCharCons('&', rest, ';');
    var semi := FindChar(rest, ';');
    if semi.Some? {
      assert s[..semi.value + 1] == "&" + rest[..semi.value];
    }
    assert s[0..] == s && s[1..] == rest;
    assert EntityStep(table, s) == ("&", 1);
    Unfolded(table, s, 0, "&", 1);
    assert s[..0] + ("&" + DecodedBy(table, rest)) == "&" + DecodedBy(table, rest);
  }

  /** An ampersand without a semicolon within 10 octets stands for itself. */
  lemma {:induction false} LoneAmpersand(rest: string)
    requires match FindChar(rest, ';') case None => true case Some(j) => ByteLen("&" + rest[..j]) > 10
    ensures Decoded("&" + rest) == "&" + Decoded(rest)
  {
    LoneAmpersandBy(DecodeEntity, rest);
  }

  /** A plus sign before the digits is read over. */
  lemma {:induction false} PlusReadOver(digits: string, radix: nat)
    requires digits != "" && digits[0] != '+'
    ensures ParseU32("+" + digits, radix) == ParseU32(digits, radix)
  {
    assert ("+" + digits)[1..] == digits;
  }

  // ---- the octets an entity is measured by ---------------------------------------------------------

  /** The octet that continues a character: six more bits. */
  function More(v: nat): (b: byte) {
    0x80 + v % 0x40
  }

  /** A character in UTF-8. */
  function Utf8(c: char): (s: seq<byte>) {
    var v := c as int;
    var q := v / 0x40;
    if v < 0x80 then [v]
    else if v < 0x800 then [0xC0 + q, More(v)]
    else if v < 0x10000 then [0xE0 + q / 0x40, More(q), More(v)]
    else [0xF0 + q / 0x40 / 0x40, More(q / 0x40), More(q), More(v)]
  }

  /** The number that UTF-8 octets stand for. */
  function CodePoint(s: seq<byte>): (v: int)
    requires 1 <= |s| <= 4
  {
    if |s| == 1 then s[0]
    else if |s| == 2 then (s[0] as int - 0xC0) * 0x40 + (s[1] as int - 0x80)
    else if |s| == 3 then ((s[0] as int - 0xE0) * 0x40 + (s[1] as int - 0x80)) * 0x40 + (s[2] as int - 0x80)
    else (((s[0] as int - 0xF0) * 0x40 + (s[1] as int - 0x80)) * 0x40 + (s[2] as int - 0x80)) * 0x40
         + (s[3] as int - 0x80)
  }

  lemma Utf8Length(c: char)
    ensures |Utf8(c)| == Utf8Len(c) && CodePoint(Utf8(c)) == c as int
  {
    var v := c as int;
    QuotientRemainder(v, 0x40);
    QuotientRemainder(v / 0x40, 0x40);
    QuotientRemainder(v / 0x40 / 0x40, 0x40);
  }

  function Utf8All(s: string): (t: seq<byte>) {
    if s == [] then [] else Utf8All(s[..|s| - 1]) + Utf8(s[|s| - 1])
  }

  lemma {:induction false} MeasuredInOctets(s: string)
    ensures ByteLen(s) == |Utf8All(s)|
  {
    if s != [] {
      MeasuredInOctets(s[..|s| - 1]);
      Utf8Length(s[|s| - 1]);
    }
  }
}
