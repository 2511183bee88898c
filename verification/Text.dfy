/** Characters and strings as the source's text operations see them. A `char` is a Unicode
    scalar value. */
module Text {
  import opened Bytes

  /** The Unicode White_Space property. */
  predicate IsWhitespace(c: char) {
    var v := c as int;
    || 0x9 <= v <= 0xD || v == 0x20 || v == 0x85 || v == 0xA0 || v == 0x1680
    || 0x2000 <= v <= 0x200A || v == 0x2028 || v == 0x2029 || v == 0x202F || v == 0x205F || v == 0x3000
  }

  predicate IsAsciiWhitespace(c: char) {
    c == ' ' || c == '\t' || c == '\n' || c as int == 0xC || c == '\r'
  }

  predicate IsAsciiAlphanumeric(c: char) {
    'a' <= c <= 'z' || 'A' <= c <= 'Z' || '0' <= c <= '9'
  }

  function LowerChar(c: char): (d: char) {
    if 'A' <= c <= 'Z' then (c as int + 32) as char else c
  }

  /** `to_ascii_lowercase`: positions are kept. */
  function Lower(s: string): (t: string)
    ensures |t| == |s|
    ensures forall i :: 0 <= i < |s| ==> t[i] == LowerChar(s[i])
  {
    if s == [] then [] else [LowerChar(s[0])] + Lower(s[1..])
  }

  function TrimStart(s: string): (t: string)
    ensures |t| <= |s| && t == s[|s| - |t|..]
    ensures t != [] ==> !IsWhitespace(t[0])
  {
    if s != [] && IsWhitespace(s[0]) then TrimStart(s[1..]) else s
  }

  function TrimEnd(s: string): (t: string)
    ensures t <= s
    ensures t != [] ==> !IsWhitespace(t[|t| - 1])
  {
    if s != [] && IsWhitespace(s[|s| - 1]) then TrimEnd(s[..|s| - 1]) else s
  }

  function Trim(s: string): (t: string)
    ensures |t| <= |s|
  {
    TrimEnd(TrimStart(s))
  }

  /** Text that neither starts nor ends with white space is its own trimming. */
  lemma TrimOfTrimmed(s: string)
    requires s == [] || (!IsWhitespace(s[0]) && !IsWhitespace(s[|s| - 1]))
    ensures Trim(s) == s
  {
  }

  /** The first position from `from` on at which a pattern occurs. */
  function Find(s: string, from: nat, pat: string): (r: Option<nat>)
    requires from <= |s|
    ensures r.Some? ==> from <= r.value && r.value + |pat| <= |s|
    decreases |s| - from
  {
    if pat <= s[from..] then Some(from)
    else if from == |s| then None
    else Find(s, from + 1, pat)
  }

  /** The pattern is at the position found, and nowhere before it. */
  lemma {:induction false} FindIsFirst(s: string, from: nat, pat: string, j: nat)
    requires from <= j <= |s|
    ensures Find(s, from, pat) == Some(j) ==> pat <= s[j..]
    ensures Find(s, from, pat) == None || j < Find(s, from, pat).value ==> !(pat <= s[j..])
    decreases |s| - from
  {
    if from < j {
      FindIsFirst(s, from + 1, pat, j);
    }
  }

  lemma {:induction false} FoundAt(s: string, from: nat, pat: string, j: nat)
    requires from <= j <= |s| && pat <= s[j..]
    requires forall i :: from <= i < j ==> !(pat <= s[i..])
    ensures Find(s, from, pat) == Some(j)
    decreases j - from
  {
    if from < j {
      FoundAt(s, from + 1, pat, j);
    }
  }

  function FindChar(s: string, c: char): (r: Option<nat>)
    ensures r.Some? ==> r.value < |s| && s[r.value] == c && c !in s[..r.value]
    ensures r == None <==> c !in s
  {
    if s == [] then None
    else if s[0] == c then Some(0)
    else
      match FindChar(s[1..], c)
      case None => None
      case Some(i) => Some(i + 1)
  }

  function FindLastChar(s: string, c: char): (r: Option<nat>)
    ensures r.Some? ==> r.value < |s| && s[r.value] == c && c !in s[r.value + 1..]
    ensures r == None <==> c !in s
  {
    if s == [] then None
    else if s[|s| - 1] == c then Some(|s| - 1)
    else FindLastChar(s[..|s| - 1], c)
  }

  lemma FirstIs(s: string, c: char, i: nat)
    requires i < |s| && s[i] == c && c !in s[..i]
    ensures FindChar(s, c) == Some(i)
  {
  }

  lemma LastIs(s: string, c: char, i: nat)
    requires i < |s| && s[i] == c && c !in s[i + 1..]
    ensures FindLastChar(s, c) == Some(i)
  {
  }

  /** A pattern is not found where its first character does not occur. */
  lemma {:induction false} NotFound(s: string, from: nat, pat: string)
    requires from <= |s| && pat != [] && pat[0] !in s
    ensures Find(s, from, pat) == None
    decreases |s| - from
  {
    if from < |s| {
      assert s[from..][0] == s[from];
      NotFound(s, from + 1, pat);
    }
  }

  lemma FindCharCons(first: char, rest: string, c: char)
    requires first != c
    ensures FindChar([first] + rest, c)
         == match FindChar(rest, c) case None => None case Some(i) => Some(i + 1)
  {
    assert ([first] + rest)[1..] == rest;
  }

  /** The first position from `from` on that holds c, or the end. */
  function IndexFrom(s: string, from: nat, c: char): (i: nat)
    requires from <= |s|
    ensures from <= i <= |s| && (i < |s| ==> s[i] == c)
    decreases |s| - from
  {
    if from == |s| || s[from] == c then from else IndexFrom(s, from + 1, c)
  }

  lemma {:induction false} IndexOfAbsent(s: string, from: nat, c: char)
    requires from <= |s| && c !in s
    ensures IndexFrom(s, from, c) == |s|
    decreases |s| - from
  {
    if from < |s| {
      IndexOfAbsent(s, from + 1, c);
    }
  }

  /** The white space of Unicode, one by one. */
  lemma WhitespaceIs(c: char)
    ensures IsWhitespace(c) <==>
              c as int in {0x9, 0xA, 0xB, 0xC, 0xD, 0x20, 0x85, 0xA0, 0x1680, 0x2000, 0x2001, 0x2002, 0x2003, 0x2004,
                           0x2005, 0x2006, 0x2007, 0x2008, 0x2009, 0x200A, 0x2028, 0x2029, 0x202F, 0x205F, 0x3000}
  {
  }

  /** And that of ASCII. */
  lemma AsciiWhitespaceIs(c: char)
    ensures IsAsciiWhitespace(c) <==> c as int in {0x9, 0xA, 0xC, 0xD, 0x20}
  {
  }
}
