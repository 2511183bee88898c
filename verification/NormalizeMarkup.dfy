/** What rendering is for: links and headings become their markdown wherever they stand, whatever
    their text. */
module NormalizeMarkup {
  import opened Bytes
  import opened Text
  import opened NormalizeEntities
  import opened NormalizeRender
  import opened NormalizeCompose

  // ---- trimming ---------------------------------------------------------------------------------

  predicate Blank(ws: string) {
    forall i :: 0 <= i < |ws| ==> IsWhitespace(ws[i])
  }

  /** Leading white space goes, up to a character that is none. */
  lemma {:induction false} TrimLeading(ws: string, x: string)
    requires Blank(ws) && (x == "" || !IsWhitespace(x[0]))
    ensures TrimStart(ws + x) == x
  {
    if ws == "" {
      assert ws + x == x;
    } else {
      assert (ws + x)[1..] == ws[1..] + x;
      TrimLeading(ws[1..], x);
    }
  }

  /** Trimming the end does not reach over a character that is no white space. */
  lemma {:induction false} TrimTrailing(x: string, y: string)
    requires x != "" && !IsWhitespace(x[|x| - 1])
    ensures TrimEnd(x + y) == x + TrimEnd(y)
    decreases |y|
  {
    if y == "" {
      assert x + y == x;
    } else if IsWhitespace(y[|y| - 1]) {
      assert (x + y)[..|x + y| - 1] == x + y[..|y| - 1];
      TrimTrailing(x, y[..|y| - 1]);
    }
  }

  // ---- tag names ----------------------------------------------------------------------------------

  predicate Alphanumeric(name: string) {
    forall i :: 0 <= i < |name| ==> IsAsciiAlphanumeric(name[i])
  }

  lemma {:induction false} TakesName(name: string, rest: string)
    requires Alphanumeric(name) && (rest == "" || !IsAsciiAlphanumeric(rest[0]))
    ensures TakeAlphanumeric(name + rest) == name
  {
    if name == "" {
      assert name + rest == rest;
    } else {
      assert (name + rest)[1..] == name[1..] + rest;
      TakesName(name[1..], rest);
    }
  }

  lemma {:induction false} NameOf(raw: string, trimmed: string, name: string, closing: bool)
    requires Trim(raw) == trimmed && NameFrom(trimmed) == (Lower(name), closing)
    ensures TagName(raw) == (Lower(name), closing)
  {
  }

  lemma {:induction false} NameFromOpening(trimmed: string, name: string)
    requires (trimmed == "" || trimmed[0] != '/') && TakeAlphanumeric(trimmed) == name
    ensures NameFrom(trimmed) == (Lower(name), false)
  {
  }

  lemma {:induction false} NameFromClosing(trimmed: string, x: string, name: string)
    requires trimmed == "/" + x && TakeAlphanumeric(x) == name
    ensures NameFrom(trimmed) == (Lower(name), true)
  {
    assert trimmed[1..] == x;
  }

  /** What follows a name, once trimmed, still does not continue it. */
  lemma TrimmedRest(rest: string)
    requires rest == "" || !IsAsciiAlphanumeric(rest[0])
    ensures TrimEnd(rest) == "" || !IsAsciiAlphanumeric(TrimEnd(rest)[0])
  {
    assert TrimEnd(rest) <= rest;
  }

  lemma {:induction false} NamedTrimmed(raw: string, ws: string, front: string, rest: string)
    requires Blank(ws) && raw == ws + (front + rest) && front != "" && !IsWhitespace(front[0])
    requires !IsWhitespace(front[|front| - 1])
    ensures Trim(raw) == front + TrimEnd(rest)
  {
    TrimLeading(ws, front + rest);
    TrimTrailing(front, rest);
  }

  lemma {:induction false} ClosingFrom(raw: string, x: string, name: string)
    requires Trim(raw) == "/" + x && TakeAlphanumeric(x) == name
    ensures TagName(raw) == (Lower(name), true)
  {
    NameFromClosing("/" + x, x, name);
    NameOf(raw, "/" + x, name, true);
  }

  lemma {:induction false} ClosingRead(raw: string, ws: string, name: string, rest: string)
    requires Blank(ws) && Alphanumeric(name) && (rest == "" || !IsAsciiAlphanumeric(rest[0]))
    requires raw == ws + ("/" + name + rest)
    ensures TagName(raw) == (Lower(name), true)
  {
    var front := "/" + name;
    assert name != "" ==> front[|front| - 1] == name[|name| - 1];
    NamedTrimmed(raw, ws, front, rest);
    TrimmedRest(rest);
    TakesName(name, TrimEnd(rest));
    Reassociate("/", name, TrimEnd(rest));
    ClosingFrom(raw, name + TrimEnd(rest), name);
  }

  lemma {:induction false} OpeningRead(raw: string, ws: string, name: string, rest: string)
    requires Blank(ws) && Alphanumeric(name) && name != "" && (rest == "" || !IsAsciiAlphanumeric(rest[0]))
    requires raw == ws + (name + rest)
    ensures TagName(raw) == (Lower(name), false)
  {
    NamedTrimmed(raw, ws, name, rest);
    TrimmedRest(rest);
    TakesName(name, TrimEnd(rest));
    NameFromOpening(name + TrimEnd(rest), name);
    NameOf(raw, name + TrimEnd(rest), name, false);
  }

  lemma {:induction false} NamelessRead(raw: string, ws: string, rest: string)
    requires Blank(ws) && (rest == "" || (!IsAsciiAlphanumeric(rest[0]) && rest[0] != '/' && !IsWhitespace(rest[0])))
    requires raw == ws + rest
    ensures TagName(raw) == ("", false)
  {
    TrimLeading(ws, rest);
    TrimmedRest(rest);
    TakesName("", TrimEnd(rest));
    assert "" + TrimEnd(rest) == TrimEnd(rest) && (TrimEnd(rest) != "" ==> TrimEnd(rest)[0] == rest[0]);
    NameFromOpening(TrimEnd(rest), "");
    NameOf(raw, TrimEnd(rest), "", false);
  }

  /** Every tag is white space, perhaps a slash, a name and a rest that does not continue the name;
      its name is read in lower case, with the slash. */
  lemma {:induction false} TagNameRead(raw: string, ws: string, closing: bool, name: string, rest: string)
    requires Blank(ws) && Alphanumeric(name) && (rest == "" || !IsAsciiAlphanumeric(rest[0]))
    requires !closing && name == "" ==> rest == "" || (rest[0] != '/' && !IsWhitespace(rest[0]))
    requires raw == ws + ((if closing then "/" else "") + name + rest)
    ensures TagName(raw) == (Lower(name), closing)
  {
    if closing {
      ClosingRead(raw, ws, name, rest);
    } else {
      assert "" + name + rest == name + rest;
      if name != "" {
        OpeningRead(raw, ws, name, rest);
      } else {
        assert name + rest == rest;
        NamelessRead(raw, ws, rest);
      }
    }
  }

  // ---- attribute values -----------------------------------------------------------------------------

  lemma {:induction false} UpToFirst(u: string, q: char, tail: string)
    requires q !in u
    ensures UpToChar(u + ([q] + tail), q) == u && UpToChar(u, q) == u
  {
    var s := u + ([q] + tail);
    assert s[..|u|] == u;
    FirstIs(s, q, |u|);
  }

  lemma {:induction false} BareUpTo(u: string, tail: string)
    requires forall i :: 0 <= i < |u| ==> !IsAsciiWhitespace(u[i]) && u[i] != '>'
    requires tail == "" || IsAsciiWhitespace(tail[0]) || tail[0] == '>'
    ensures BareValue(u + tail) == u
  {
    if u == "" {
      assert u + tail == tail;
    } else {
      assert (u + tail)[1..] == u[1..] + tail;
      BareUpTo(u[1..], tail);
    }
  }

  lemma {:induction false} ValueOf(region: string, r: string)
    requires TrimStart(region) == r
    ensures ParseAttrValue(region) == ValueFrom(r)
  {
  }

  lemma {:induction false} QuotedValue(q: char, u: string, tail: string)
    requires (q == '\"' || q == '\'') && q !in u
    ensures ValueFrom([q] + (u + ([q] + tail))) == Decoded(u) && ValueFrom([q] + u) == Decoded(u)
  {
    var closed, unclosed := [q] + (u + ([q] + tail)), [q] + u;
    assert closed[1..] == u + ([q] + tail) && unclosed[1..] == u;
    UpToFirst(u, q, tail);
  }

  /** A value in either kind of quotes is what stands between them, decoded; without a closing
      quote it is all that follows. */
  lemma {:induction false} QuotedRead(ws: string, q: char, u: string, tail: string)
    requires Blank(ws) && (q == '\"' || q == '\'') && q !in u
    ensures ParseAttrValue(ws + ([q] + (u + ([q] + tail)))) == Decoded(u)
    ensures ParseAttrValue(ws + ([q] + u)) == Decoded(u)
  {
    var closed, unclosed := [q] + (u + ([q] + tail)), [q] + u;
    TrimLeading(ws, closed);
    TrimLeading(ws, unclosed);
    QuotedValue(q, u, tail);
    ValueOf(ws + closed, closed);
    ValueOf(ws + unclosed, unclosed);
  }

  /** A bare value ends at white space or at a bracket. */
  lemma {:induction false} BareRead(ws: string, u: string, tail: string)
    requires Blank(ws) && u != "" && !IsWhitespace(u[0]) && u[0] != '\"' && u[0] != '\''
    requires forall i :: 0 <= i < |u| ==> !IsAsciiWhitespace(u[i]) && u[i] != '>'
    requires tail == "" || IsAsciiWhitespace(tail[0]) || tail[0] == '>'
    ensures ParseAttrValue(ws + (u + tail)) == Decoded(u)
  {
    TrimLeading(ws, u + tail);
    BareUpTo(u, tail);
    ValueOf(ws + (u + tail), u + tail);
    assert ValueFrom(u + tail) == Decoded(BareValue(u + tail));
  }

  // ---- the address of an anchor -----------------------------------------------------------------------

  lemma LowerBlank(c: char)
    ensures IsWhitespace(LowerChar(c)) == IsWhitespace(c)
  {
  }

  lemma {:induction false} LowerRest(x: string)
    requires x != ""
    ensures Lower(x) != "" && Lower(x)[0] == LowerChar(x[0]) && Lower(x)[1..] == Lower(x[1..])
  {
  }

  lemma {:induction false} TrimStartStep(x: string)
    requires x != ""
    ensures TrimStart(x) == if IsWhitespace(x[0]) then TrimStart(x[1..]) else x
  {
  }

  lemma {:induction false} LowerTrim(x: string)
    ensures TrimStart(Lower(x)) == Lower(TrimStart(x))
  {
    if x != "" {
      LowerRest(x);
      LowerBlank(x[0]);
      TrimStartStep(x);
      TrimStartStep(Lower(x));
      if IsWhitespace(x[0]) {
        LowerTrim(x[1..]);
      }
    }
  }

  lemma {:induction false} FirstValueIs(valueAt: nat -> Option<string>, s: string, pat: string, at: nat, v: string)
    requires pat != [] && Find(s, 0, pat) == Some(at) && valueAt(at) == Some(v)
    ensures FirstValue(valueAt, s, 0, pat) == Some(v)
  {
  }

  /** A value is read the same with the white space before it already gone. */
  lemma {:induction false} ParseTrimmed(rest: string)
    ensures ParseAttrValue(TrimStart(rest)) == ParseAttrValue(rest)
  {
    TrimTwice(rest);
  }

  lemma {:induction false} TrimTwice(rest: string)
    ensures TrimStart(TrimStart(rest)) == TrimStart(rest)
  {
  }

  lemma AttrAtIs(trim: string -> string, parse: string -> string,
                 raw: string, low: string, at: nat, attr: string, after: string, rest: nat)
    requires |raw| == |low| && at + |attr| <= |low| && trim(low[at + |attr|..]) == after
    requires (at == 0 || IsAsciiWhitespace(low[at - 1])) && after != "" && after[0] == '='
    requires |trim(after[1..])| == rest <= |raw|
    ensures AttrAtBy(trim, parse, raw, low, at, attr) == Some(parse(raw[|raw| - rest..]))
  {
  }

  /** Lower-casing and trimming what is preceded by white space. */
  lemma {:induction false} AfterBlank(x: string, ws: string, y: string)
    requires Blank(ws) && x == ws + y && y != "" && !IsWhitespace(y[0])
    ensures TrimStart(Lower(x)) == Lower(y)
  {
    LowerTrim(x);
    TrimLeading(ws, y);
  }

  lemma {:induction false} EqualsThen(rest: string)
    ensures var after := Lower("=" + rest); after != "" && after[0] == '=' && after[1..] == Lower(rest)
  {
    assert ("=" + rest)[1..] == rest;
  }

  lemma {:induction false} ValueTrimmed(rest: string, after: string, t: string)
    requires after != "" && after[1..] == Lower(rest) && t == TrimStart(rest)
    ensures |TrimStart(after[1..])| == |t|
  {
    LowerTrim(rest);
  }

  /** A text ends in t if its last part does. */
  lemma EndSlice(x: string, y: string, t: string)
    requires |t| <= |y| && y[|y| - |t|..] == t
    ensures (x + y)[|x + y| - |t|..] == t
  {
  }

  /** An attribute with what follows it, for any way of trimming and parsing. */
  lemma {:induction false} AttrReadBy(trim: string -> string, parse: string -> string, raw: string, low: string,
                                      at: nat, name: string, lowTail: string, after: string, t: string)
    requires |raw| == |low| && at + |name| <= |low| && low[at + |name|..] == lowTail
    requires at == 0 || IsAsciiWhitespace(low[at - 1])
    requires trim(lowTail) == after && after != "" && after[0] == '='
    requires |trim(after[1..])| == |t| <= |raw| && raw[|raw| - |t|..] == t
    ensures AttrAtBy(trim, parse, raw, low, at, name) == Some(parse(t))
  {
    AttrAtIs(trim, parse, raw, low, at, name, after, |t|);
  }

  lemma {:induction false} RawEnds(raw: string, front: string, attr: string, tail: string, t: string)
    requires raw == front + (attr + tail) && |t| <= |tail| && tail[|tail| - |t|..] == t
    ensures |t| <= |raw| && raw[|raw| - |t|..] == t
  {
    EndSlice(attr, tail, t);
    EndSlice(front, attr + tail, t);
  }

  lemma {:induction false} ValueEnds(tail: string, ws: string, rest: string, t: string)
    requires tail == ws + ("=" + rest) && |t| <= |rest| && rest[|rest| - |t|..] == t
    ensures |t| <= |tail| && tail[|tail| - |t|..] == t
  {
    EndSlice("=", rest, t);
    EndSlice(ws, "=" + rest, t);
  }

  lemma {:induction false} TrimIsEnd(rest: string, t: string)
    requires t == TrimStart(rest)
    ensures |t| <= |rest| && rest[|rest| - |t|..] == t
  {
  }

  /** What is found after an attribute's name: the trimmed text from its equals sign on, and the
      trimmed text after the sign. */
  ghost predicate FoundAfter(trim: string -> string, lowTail: string, after: string, n: nat) {
    trim(lowTail) == after && after != "" && after[0] == '=' && |trim(after[1..])| == n
  }

  lemma FoundIs(trim: string -> string, lowTail: string, after: string, n: nat)
    requires trim(lowTail) == after && after != "" && after[0] == '=' && |trim(after[1..])| == n
    ensures FoundAfter(trim, lowTail, after, n)
  {
  }

  lemma {:induction false} EqualsTrimmed(tail: string, ws: string, value: string, after: string)
    requires tail == ws + value && Blank(ws) && after == Lower(value) && value != "" && value[0] == '='
    ensures TrimStart(Lower(tail)) == after
  {
    AfterBlank(tail, ws, value);
  }

  lemma {:induction false} EqualsFound(tail: string, ws: string, rest: string, after: string, t: string)
    requires tail == ws + ("=" + rest) && Blank(ws) && after == Lower("=" + rest) && t == TrimStart(rest)
    ensures FoundAfter(TrimStart, Lower(tail), after, |t|)
  {
    EqualsTrimmed(tail, ws, "=" + rest, after);
    EqualsThen(rest);
    ValueTrimmed(rest, after, t);
    FoundIs(TrimStart, Lower(tail), after, |t|);
  }

  /** Where an attribute stands in a tag: white space before it, and what follows it. */
  ghost predicate StandsAt(low: string, at: nat, n: nat, lowTail: string) {
    at + n <= |low| && low[at + n..] == lowTail && (at == 0 || IsAsciiWhitespace(low[at - 1]))
  }

  lemma {:induction false} Stands(raw: string, front: string, attr: string, tail: string)
    requires raw == front + (attr + tail) && (front == "" || IsAsciiWhitespace(front[|front| - 1]))
    ensures StandsAt(Lower(raw), |front|, |Lower(attr)|, Lower(tail))
  {
    AttrTail(raw, Lower(raw), front, attr, tail);
  }

  lemma {:induction false} AttrReadFound(trim: string -> string, parse: string -> string, raw: string, low: string,
                                         at: nat, name: string, lowTail: string, after: string, t: string)
    requires |raw| == |low| && StandsAt(low, at, |name|, lowTail) && FoundAfter(trim, lowTail, after, |t|)
    requires |t| <= |raw| && raw[|raw| - |t|..] == t
    ensures AttrAtBy(trim, parse, raw, low, at, name) == Some(parse(t))
  {
    AttrReadBy(trim, parse, raw, low, at, name, lowTail, after, t);
  }

  /** An attribute with its equals sign, in any letter case. */
  lemma {:induction false} AttrReadAt(raw: string, front: string, attr: string, tail: string, ws: string, rest: string,
                                      after: string, t: string)
    requires raw == front + (attr + tail) && tail == ws + ("=" + rest)
    requires (front == "" || IsAsciiWhitespace(front[|front| - 1])) && Blank(ws)
    requires after == Lower("=" + rest) && t == TrimStart(rest)
    ensures AttrAtBy(TrimStart, ParseAttrValue, raw, Lower(raw), |front|, Lower(attr)) == Some(ParseAttrValue(t))
  {
    EqualsFound(tail, ws, rest, after, t);
    TrimIsEnd(rest, t);
    ValueEnds(tail, ws, rest, t);
    RawEnds(raw, front, attr, tail, t);
    Stands(raw, front, attr, tail);
    AttrReadFound(TrimStart, ParseAttrValue, raw, Lower(raw), |front|, Lower(attr), Lower(tail), after, t);
  }

  lemma {:induction false} AttrTail(raw: string, low: string, front: string, attr: string, tail: string)
    requires raw == front + (attr + tail) && low == Lower(raw)
    ensures low[|front| + |attr|..] == Lower(tail)
    ensures front != "" ==> low[|front| - 1] == LowerChar(front[|front| - 1])
  {
    var k := |front| + |attr|;
    assert raw[k..] == tail;
    forall i | 0 <= i < |tail|
      ensures low[k..][i] == Lower(tail)[i]
    {
      assert raw[k + i] == tail[i];
    }
  }

  /** The first `href` of a tag, in any letter case, at the start or after white space and followed
      by an equals sign, gives the address. */
  lemma {:induction false} HrefRead(raw: string, front: string, attr: string, ws: string, rest: string)
    requires raw == front + (attr + (ws + ("=" + rest))) && Lower(attr) == "href"
    requires (front == "" || IsAsciiWhitespace(front[|front| - 1])) && Blank(ws)
    requires Find(Lower(raw), 0, "href") == Some(|front|)
    ensures HREF(raw) == Some(ParseAttrValue(rest))
  {
    AttrReadAt(raw, front, attr, ws + ("=" + rest), ws, rest, Lower("=" + rest), TrimStart(rest));
    ParseTrimmed(rest);
    var low := Lower(raw);
    FirstValueIs((at: nat) => AttrAt(raw, low, at, "href"), low, "href", |front|, ParseAttrValue(rest));
  }

  // ---- a tag, its text, and a closing tag ---------------------------------------------------------

  function Wrapped(raw: string, text: string, closing: string): (s: string) {
    "<" + raw + ">" + (text + ("<" + closing + ">"))
  }

  /** What the three effects give, whatever follows, when the text leaves the anchor state alone. */
  lemma {:induction false} RenderedWrapped(effect: Effect, raw: string, text: string, closing: string, c: string,
                                           h0: Pending, x: string, h1: Pending, y: string, z: string, h2: Pending)
    requires '>' !in raw && '<' !in text && '>' !in closing
    requires effect(Tag(raw), h0) == (x, h1) && effect(TextRun(text), h1) == (y, h1)
    requires effect(Tag(closing), h1) == (z, h2) && (text == "" ==> y == "")
    ensures RenderedFrom(effect, "<" + raw + ">" + (text + ("<" + closing + ">" + c)), 0, h0)
         == x + (y + (z + RenderedFrom(effect, c, 0, h2)))
  {
    var rest := "<" + closing + ">" + c;
    TagFront(effect, raw, text + rest, h0);
    TagFront(effect, closing, c, h1);
    if text == "" {
      assert text + rest == rest && y + RenderedFrom(effect, rest, 0, h1) == RenderedFrom(effect, rest, 0, h1);
    } else {
      TextFront(effect, text, rest, h1);
    }
  }

  lemma {:induction false} TextEffect(text: string, href: Pending)
    ensures PieceEffect(TextRun(text), href) == (Decoded(text), href)
    ensures text == "" ==> Decoded(text) == ""
  {
  }

  lemma WrappedThen(raw: string, text: string, closing: string, c: string)
    ensures Wrapped(raw, text, closing) + c == "<" + raw + ">" + (text + ("<" + closing + ">" + c))
  {
  }

  /** A wrapped text anywhere in a document. */
  lemma {:induction false} WrappedInContext(a: string, raw: string, text: string, closing: string, c: string,
                                            x: string, h1: Pending, z: string, h2: Pending)
    requires '>' !in raw && '<' !in text && '>' !in closing && Whole(a, Wrapped(raw, text, closing) + c)
    requires PieceEffect(Tag(raw), AnchorAfter(a)) == (x, h1) && PieceEffect(Tag(closing), h1) == (z, h2)
    ensures Rendered(a + (Wrapped(raw, text, closing) + c))
         == Rendered(a) + (x + (Decoded(text) + (z + RenderedFrom(PieceEffect, c, 0, h2))))
  {
    RenderedApart(a, Wrapped(raw, text, closing) + c);
    WrappedThen(raw, text, closing, c);
    TextEffect(text, h1);
    RenderedWrapped(PieceEffect, raw, text, closing, c, AnchorAfter(a), x, h1, Decoded(text), z, h2);
  }

  // ---- links --------------------------------------------------------------------------------------

  lemma NoAnchorMarker()
    ensures Marker("a", false) == None && Marker("a", true) == None
  {
  }

  lemma {:induction false} AnchorOpens(hrefOf: HrefOf, raw: string, v: string, h: Pending)
    requires TagName(raw) == ("a", false) && v == match hrefOf(raw) case Some(u) => u case None => ""
    ensures TagEffect(hrefOf, raw, h) == (if v != "" then "[" else "", Some(v))
  {
    NoAnchorMarker();
  }

  lemma {:induction false} AnchorCloses(hrefOf: HrefOf, raw: string, v: string)
    requires TagName(raw) == ("a", true)
    ensures TagEffect(hrefOf, raw, Some(v)) == (if v != "" then "](" + v + ")" else "", None)
  {
    NoAnchorMarker();
  }

  /** A link anywhere in a document becomes its text in brackets and its address in parentheses,
      whatever anchor was open before; without an address only its text is left. */
  lemma {:induction false} LinkRendered(a: string, raw: string, text: string, closing: string, c: string, v: string)
    requires '>' !in raw && '<' !in text && '>' !in closing && Whole(a, Wrapped(raw, text, closing) + c)
    requires TagName(raw) == ("a", false) && TagName(closing) == ("a", true)
    requires v == match HREF(raw) case Some(u) => u case None => ""
    ensures Rendered(a + (Wrapped(raw, text, closing) + c))
         == Rendered(a) + ((if v != "" then "[" else "")
                           + (Decoded(text) + ((if v != "" then "](" + v + ")" else "") + Rendered(c))))
  {
    AnchorOpens(HREF, raw, v, AnchorAfter(a));
    AnchorCloses(HREF, closing, v);
    WrappedInContext(a, raw, text, closing, c, if v != "" then "[" else "", Some(v),
                     if v != "" then "](" + v + ")" else "", None);
  }

  // ---- headings -----------------------------------------------------------------------------------

  lemma {:induction false} HeadingMarkers(name: string, d: char)
    requires '1' <= d <= '6' && name == ['h', d]
    ensures Marker(name, false) == Some("\n\n" + Hashes(d as int - '0' as int) + " ")
    ensures Marker(name, true) == Some("\n\n")
  {
  }

  lemma {:induction false} MarkerEffect(hrefOf: HrefOf, raw: string, name: string, closing: bool, m: string, h: Pending)
    requires TagName(raw) == (name, closing) && Marker(name, closing) == Some(m)
    ensures TagEffect(hrefOf, raw, h) == (m, h)
  {
  }

  lemma {:induction false} HeadingEffects(hrefOf: HrefOf, raw: string, closing: string, d: char, marks: string,
                                          h: Pending)
    requires '1' <= d <= '6' && TagName(raw) == (['h', d], false) && TagName(closing) == (['h', d], true)
    requires marks == "\n\n" + Hashes(d as int - '0' as int) + " "
    ensures TagEffect(hrefOf, raw, h) == (marks, h) && TagEffect(hrefOf, closing, h) == ("\n\n", h)
  {
    HeadingMarkers(['h', d], d);
    MarkerEffect(hrefOf, raw, ['h', d], false, marks, h);
    MarkerEffect(hrefOf, closing, ['h', d], true, "\n\n", h);
  }

  /** A heading of level d anywhere in a document becomes d hash marks and its text, on lines of
      its own, and leaves the anchor state alone. */
  lemma {:induction false} HeadingRendered(a: string, raw: string, text: string, closing: string, c: string, d: char)
    requires '>' !in raw && '<' !in text && '>' !in closing && Whole(a, Wrapped(raw, text, closing) + c)
    requires '1' <= d <= '6' && TagName(raw) == (['h', d], false) && TagName(closing) == (['h', d], true)
    ensures Rendered(a + (Wrapped(raw, text, closing) + c))
         == Rendered(a) + ("\n\n" + Hashes(d as int - '0' as int) + " "
                           + (Decoded(text) + ("\n\n" + RenderedFrom(PieceEffect, c, 0, AnchorAfter(a)))))
  {
    var marks := "\n\n" + Hashes(d as int - '0' as int) + " ";
    HeadingEffects(HREF, raw, closing, d, marks, AnchorAfter(a));
    WrappedInContext(a, raw, text, closing, c, marks, AnchorAfter(a), "\n\n", AnchorAfter(a));
  }

  // ---- a link written with its address in quotes -----------------------------------------------------

  function AnchorTag(address: string): (raw: string) {
    "a href=\"" + address + "\""
  }

  lemma {:induction false} HrefFound(low: string)
    requires |low| >= 6 && low[0] == 'a' && low[1] == ' ' && low[2..6] == "href"
    ensures Find(low, 0, "href") == Some(2)
  {
    assert low[0..][0] == low[0] && low[1..][0] == low[1];
    assert low[2..][..4] == low[2..6];
    FoundAt(low, 0, "href", 2);
  }

  lemma {:induction false} AnchorParts(u: string)
    ensures var raw := AnchorTag(u);
            && raw == "a " + ("href" + ("" + ("=" + ("\"" + (u + ("\"" + ""))))))
            && raw == "" + ("a" + (" href=\"" + u + "\""))
            && |raw| >= 6 && Lower(raw)[0] == 'a' && Lower(raw)[1] == ' ' && Lower(raw)[2..6] == "href"
  {
    var raw := AnchorTag(u);
    assert raw[0] == 'a' && raw[1] == ' ' && raw[2] == 'h' && raw[3] == 'r' && raw[4] == 'e' && raw[5] == 'f';
  }

  lemma {:induction false} AnchorTagNamed(raw: string, rest: string)
    requires raw == "" + ("a" + rest) && rest != "" && rest[0] == ' '
    ensures TagName(raw) == ("a", false)
  {
    OpeningRead(raw, "", "a", rest);
    assert Lower("a") == "a";
  }

  lemma {:induction false} AnchorTagHref(raw: string, value: string, v: string)
    requires raw == "a " + ("href" + ("" + ("=" + value))) && Find(Lower(raw), 0, "href") == Some(2)
    requires ParseAttrValue(value) == v
    ensures HREF(raw) == Some(v)
  {
    assert Lower("href") == "href";
    HrefRead(raw, "a ", "href", "", value);
  }

  lemma {:induction false} QuotedAddress(value: string, u: string)
    requires '\"' !in u && value == "\"" + (u + ("\"" + ""))
    ensures ParseAttrValue(value) == Decoded(u)
  {
    QuotedRead("", '\"', u, "");
    assert "" + value == value;
  }

  lemma {:induction false} AnchorTagRead(u: string)
    requires '\"' !in u
    ensures TagName(AnchorTag(u)) == ("a", false) && HREF(AnchorTag(u)) == Some(Decoded(u))
  {
    AnchorParts(u);
    HrefFound(Lower(AnchorTag(u)));
    QuotedAddress("\"" + (u + ("\"" + "")), u);
    AnchorTagNamed(AnchorTag(u), " href=\"" + u + "\"");
    AnchorTagHref(AnchorTag(u), "\"" + (u + ("\"" + "")), Decoded(u));
  }

  // ---- what is no link ----------------------------------------------------------------------------

  /** At this position an attribute stands: at the start or after white space, and before an
      equals sign. */
  predicate Standing(low: string, at: nat, n: nat)
    requires at + n <= |low|
  {
    var after := TrimStart(low[at + n..]);
    (at == 0 || IsAsciiWhitespace(low[at - 1])) && after != "" && after[0] == '='
  }

  lemma {:induction false} NoneStanding(valueAt: nat -> Option<string>, s: string, from: nat, pat: string)
    requires from <= |s| && pat != []
    requires forall at :: from <= at && at + |pat| <= |s| && pat <= s[at..] ==> valueAt(at) == None
    ensures FirstValue(valueAt, s, from, pat) == None
    decreases |s| - from
  {
    var found := Find(s, from, pat);
    if found.Some? {
      FindIsFirst(s, from, pat, found.value);
      NoneStanding(valueAt, s, found.value + |pat|, pat);
    }
  }

  lemma NotStanding(raw: string, low: string, at: nat)
    requires low == Lower(raw) && at + 4 <= |low| && !Standing(low, at, 4)
    ensures AttrAt(raw, low, at, "href") == None
  {
  }

  /** Where `href` is only part of another name, or has no value, there is no address. */
  lemma {:induction false} NoHref(raw: string)
    requires forall at :: 0 <= at && at + 4 <= |raw| && "href" <= Lower(raw)[at..] ==> !Standing(Lower(raw), at, 4)
    ensures HREF(raw) == None
  {
    var low := Lower(raw);
    var valueAt := (at: nat) => AttrAt(raw, low, at, "href");
    forall at: nat | at + 4 <= |low| && "href" <= low[at..]
      ensures valueAt(at) == None
    {
      NotStanding(raw, low, at);
    }
    NoneStanding(valueAt, low, 0, "href");
  }

  /** A closing anchor tag where no anchor is open leaves nothing. */
  lemma {:induction false} StrayClose(hrefOf: HrefOf, raw: string)
    requires TagName(raw) == ("a", true)
    ensures TagEffect(hrefOf, raw, None) == ("", None)
  {
    NoAnchorMarker();
  }
}
