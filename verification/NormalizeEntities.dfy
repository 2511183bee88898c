/** HTML entity decoding, in one pass over the text. */
module NormalizeEntities {
  import opened Bytes
  import opened Text

  /** Octets of a character in UTF-8: the source measures an entity by its octets. */
  function Utf8Len(c: char): (n: nat)
    ensures 1 <= n <= 4
  {
    var v := c as int;
    if v < 0x80 then 1 else if v < 0x800 then 2 else if v < 0x10000 then 3 else 4
  }

  function ByteLen(s: string): (n: nat)
    ensures n >= |s|
  {
    if s == [] then 0 else ByteLen(s[..|s| - 1]) + Utf8Len(s[|s| - 1])
  }

  function DigitValue(c: char, radix: nat): (v: Option<nat>) {
    var d := if '0' <= c <= '9' then c as int - '0' as int
             else if 'a' <= c <= 'f' then c as int - 'a' as int + 10
             else if 'A' <= c <= 'F' then c as int - 'A' as int + 10
             else 99;
    if d < radix then Some(d) else None
  }

  function ParseDigits(s: string, radix: nat): (v: Option<nat>) {
    if s == [] then Some(0)
    else
      match (ParseDigits(s[..|s| - 1], radix), DigitValue(s[|s| - 1], radix))
      case (Some(high), Some(d)) => Some(high * radix + d)
      case _ => None
  }

  /** `u32::from_str_radix`: digits, with an optional plus sign, that fit 32 bits. */
  function ParseU32(s: string, radix: nat): (v: Option<nat>) {
    var digits := if s != [] && s[0] == '+' then s[1..] else s;
    if digits == [] then None
    else
      match ParseDigits(digits, radix)
      case Some(v) => if v <= U32_MAX then Some(v) else None
      case None => None
  }

  function CharFromU32(v: nat): (c: Option<char>) {
    if v < 0xD800 || 0xE000 <= v < 0x110000 then Some(v as char) else None
  }

  function NamedEntity(entity: string): (c: Option<char>) {
    if entity == "amp" then Some('&')
    else if entity == "lt" then Some('<')
    else if entity == "gt" then Some('>')
    else if entity == "quot" then Some('\"')
    else if entity == "apos" || entity == "#39" then Some('\'')
    else if entity == "nbsp" then Some(' ')
    else if entity == "mdash" then Some(0x2014 as char)
    else if entity == "ndash" then Some(0x2013 as char)
    else if entity == "hellip" then Some(0x2026 as char)
    else if entity == "copy" then Some(0xA9 as char)
    else None
  }

  function NumericEntity(entity: string): (c: Option<char>) {
    if entity == [] || entity[0] != '#' then None
    else
      var code := if |entity| >= 2 && (entity[1] == 'x' || entity[1] == 'X') then ParseU32(entity[2..], 16)
                  else ParseU32(entity[1..], 10);
      if code.Some? then CharFromU32(code.value) else None
  }

  function DecodeEntity(entity: string): (c: Option<char>) {
    var named := NamedEntity(entity);
    if named.Some? then named else NumericEntity(entity)
  }

  /** Where an entity that starts tail ends: the first semicolon, at most 10 octets away. */
  function EntityEnd(tail: string): (semi: Option<nat>)
    requires tail != [] && tail[0] == '&'
    ensures semi.Some? ==> 0 < semi.value < |tail| && tail[semi.value] == ';'
  {
    match FindChar(tail, ';')
    case Some(semi) => if ByteLen(tail[..semi]) <= 10 then Some(semi) else None
    case None => None
  }

  /** A table from entity texts to characters. */
  type Table = string -> Option<char>

  /** What is pushed for an ampersand, and how many characters it uses up. */
  function EntityStep(table: Table, tail: string): (r: (string, nat))
    requires tail != [] && tail[0] == '&'
    ensures 1 <= r.1 <= |tail| && |r.0| <= r.1
  {
    match EntityEnd(tail)
    case None => ("&", 1)
    case Some(semi) =>
      match table(tail[1..semi])
      case Some(c) => ([c], semi + 1)
      case None => (tail[..semi + 1], semi + 1)
  }

  function DecodedBy(table: Table, s: string): (t: string)
    ensures |t| <= |s|
    decreases |s|
  {
    match FindChar(s, '&')
    case None => s
    case Some(amp) =>
      var (out, used) := EntityStep(table, s[amp..]);
      s[..amp] + (out + DecodedBy(table, s[amp..][used..]))
  }

  /** Decoding with the entities the source knows. */
  function Decoded(s: string): (t: string)
    ensures |t| <= |s|
  {
    DecodedBy(DecodeEntity, s)
  }

  /** The loop of `decode_entities`, for any table. */
  method DecodeWith(table: Table, input: string) returns (output: string)
    ensures output == DecodedBy(table, input)
  {
    output := "";
    var rest := input;
    var next := FindChar(rest, '&');
    while next.Some?
      invariant output + DecodedBy(table, rest) == DecodedBy(table, input)
      invariant next == FindChar(rest, '&')
      decreases |rest|
    {
      var amp := next.value;
      var tail := rest[amp..];
      var semi := EntityEnd(tail);
      var pushed, used;
      if semi.Some? {
        var decoded := table(tail[1..semi.value]);
        pushed := if decoded.Some? then [decoded.value] else tail[..semi.value + 1];
        used := semi.value + 1;
      } else {
        pushed, used := "&", 1;
      }
      assert (pushed, used) == EntityStep(table, tail);
      Reassociate(output, rest[..amp], pushed + DecodedBy(table, tail[used..]));
      Reassociate(output + rest[..amp], pushed, DecodedBy(table, tail[used..]));
      output := output + rest[..amp] + pushed;
      rest := tail[used..];
      next := FindChar(rest, '&');
    }
    output := output + rest;
  }

  /** `decode_entities`. */
  method DecodeEntities(input: string) returns (output: string)
    ensures output == Decoded(input)
  {
    if '&' !in input {
      return input;
    }
    output := DecodeWith(DecodeEntity, input);
  }

  // ---- escaping and back ------------------------------------------------------------------

  function EscapeChar(c: char): (t: string) {
    if c == '&' then "&amp;" else if c == '<' then "&lt;" else [c]
  }

  function Escape(s: string): (t: string) {
    if s == [] then [] else EscapeChar(s[0]) + Escape(s[1..])
  }

  lemma {:induction false} EscapeHasNoTag(s: string)
    ensures '<' !in Escape(s)
  {
    if s != [] {
      EscapeHasNoTag(s[1..]);
    }
  }

  lemma {:induction false} AsciiByteLen(s: string)
    requires forall i :: 0 <= i < |s| ==> s[i] as int < 0x80
    ensures ByteLen(s) == |s|
  {
    if s != [] {
      AsciiByteLen(s[..|s| - 1]);
    }
  }

  lemma Unfolded(table: Table, s: string, amp: nat, out: string, used: nat)
    requires FindChar(s, '&') == Some(amp) && (out, used) == EntityStep(table, s[amp..])
    ensures DecodedBy(table, s) == s[..amp] + (out + DecodedBy(table, s[amp..][used..]))
  {
  }

  /** A plain first character passes through decoding untouched. */
  lemma DecodePlain(table: Table, c: char, rest: string)
    requires c != '&'
    ensures DecodedBy(table, [c] + rest) == [c] + DecodedBy(table, rest)
  {
    var s := [c] + rest;
    FindCharCons(c, rest, '&');
    var next := FindChar(rest, '&');
    if next.Some? {
      var amp := next.value;
      var (out, used) := EntityStep(table, rest[amp..]);
      assert s[..amp + 1] == [c] + rest[..amp];
      assert s[amp + 1..] == rest[amp..];
      Unfolded(table, rest, amp, out, used);
      Unfolded(table, s, amp + 1, out, used);
      var after := out + DecodedBy(table, rest[amp..][used..]);
      Reassociate([c], rest[..amp], after);
    }
  }

  /** An ampersand that starts a known entity becomes its character, whatever follows. */
  lemma DecodeKnown(table: Table, entity: string, c: char, rest: string)
    requires ';' !in entity && ByteLen("&" + entity) <= 10 && table(entity) == Some(c)
    ensures DecodedBy(table, "&" + entity + ";" + rest) == [c] + DecodedBy(table, rest)
  {
    var s := "&" + entity + ";" + rest;
    var n := |entity| + 1;
    assert s[..n] == "&" + entity && s[n] == ';' && s[1..n] == entity && s[n + 1..] == rest;
    FirstIs(s, ';', n);
    assert s[0..] == s;
    assert EntityStep(table, s) == ([c], n + 1);
    assert FindChar(s, '&') == Some(0);
    assert s[..0] + ([c] + DecodedBy(table, s[n + 1..])) == [c] + DecodedBy(table, rest);
  }

  lemma DecodeEscapedChar(table: Table, c: char, rest: string)
    requires table("amp") == Some('&') && table("lt") == Some('<')
    ensures DecodedBy(table, EscapeChar(c) + rest) == [c] + DecodedBy(table, rest)
  {
    if c == '&' {
      AsciiByteLen("&" + "amp");
      assert "&amp;" + rest == "&" + "amp" + ";" + rest;
      DecodeKnown(table, "amp", '&', rest);
    } else if c == '<' {
      AsciiByteLen("&" + "lt");
      assert "&lt;" + rest == "&" + "lt" + ";" + rest;
      DecodeKnown(table, "lt", '<', rest);
    } else {
      DecodePlain(table, c, rest);
    }
  }

  lemma {:induction false} DecodeByUndoesEscape(table: Table, s: string)
    requires table("amp") == Some('&') && table("lt") == Some('<')
    ensures DecodedBy(table, Escape(s)) == s
  {
    if s != [] {
      DecodeByUndoesEscape(table, s[1..]);
      DecodeEscapedChar(table, s[0], Escape(s[1..]));
    }
  }

  lemma BasicEntities()
    ensures DecodeEntity("amp") == Some('&') && DecodeEntity("lt") == Some('<')
  {
  }

  /** Decoding undoes escaping on every text. */
  lemma DecodeUndoesEscape(s: string)
    ensures Decoded(Escape(s)) == s
  {
    BasicEntities();
    DecodeByUndoesEscape(DecodeEntity, s);
  }

  // ---- escaping for attributes -------------------------------------------------------------------

  function EscapeAttrChar(c: char): (t: string) {
    if c == '\"' then "&quot;" else if c == '>' then "&gt;" else EscapeChar(c)
  }

  /** Also writes quotes and closing brackets as entities. */
  function EscapeAttr(s: string): (t: string) {
    if s == [] then [] else EscapeAttrChar(s[0]) + EscapeAttr(s[1..])
  }

  lemma {:induction false} EscapeAttrIsSafe(s: string)
    ensures '<' !in EscapeAttr(s) && '>' !in EscapeAttr(s) && '\"' !in EscapeAttr(s)
  {
    if s != [] {
      EscapeAttrIsSafe(s[1..]);
    }
  }

  lemma DecodeEscapedAttrChar(table: Table, c: char, rest: string)
    requires table("amp") == Some('&') && table("lt") == Some('<')
    requires table("quot") == Some('\"') && table("gt") == Some('>')
    ensures DecodedBy(table, EscapeAttrChar(c) + rest) == [c] + DecodedBy(table, rest)
  {
    if c == '\"' {
      AsciiByteLen("&" + "quot");
      assert "&quot;" + rest == "&" + "quot" + ";" + rest;
      DecodeKnown(table, "quot", '\"', rest);
    } else if c == '>' {
      AsciiByteLen("&" + "gt");
      assert "&gt;" + rest == "&" + "gt" + ";" + rest;
      DecodeKnown(table, "gt", '>', rest);
    } else {
      DecodeEscapedChar(table, c, rest);
    }
  }

  lemma {:induction false} DecodeByUndoesEscapeAttr(table: Table, s: string)
    requires table("amp") == Some('&') && table("lt") == Some('<')
    requires table("quot") == Some('\"') && table("gt") == Some('>')
    ensures DecodedBy(table, EscapeAttr(s)) == s
  {
    if s != [] {
      DecodeByUndoesEscapeAttr(table, s[1..]);
      DecodeEscapedAttrChar(table, s[0], EscapeAttr(s[1..]));
    }
  }

  lemma QuoteEntities()
    ensures DecodeEntity("quot") == Some('\"') && DecodeEntity("gt") == Some('>')
  {
  }

  /** Decoding undoes this escaping too, on every text. */
  lemma DecodeUndoesEscapeAttr(s: string)
    ensures Decoded(EscapeAttr(s)) == s
  {
    BasicEntities();
    QuoteEntities();
    DecodeByUndoesEscapeAttr(DecodeEntity, s);
  }
}
