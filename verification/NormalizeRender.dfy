/** Walking the markup: text runs are decoded, structural tags become markers, the rest goes. */
module NormalizeRender {
  import opened Bytes
  import opened Text
  import opened NormalizeEntities

  // ---- tags -----------------------------------------------------------------------------

  function TakeAlphanumeric(s: string): (t: string)
    ensures t <= s
  {
    if s != [] && IsAsciiAlphanumeric(s[0]) then [s[0]] + TakeAlphanumeric(s[1..]) else []
  }

  /** The name at the start of a trimmed tag, and whether a slash comes before it. */
  function NameFrom(trimmed: string): (r: (string, bool))
    ensures |r.0| + (if r.1 then 1 else 0) <= |trimmed|
  {
    if trimmed != [] && trimmed[0] == '/' then (Lower(TakeAlphanumeric(trimmed[1..])), true)
    else (Lower(TakeAlphanumeric(trimmed)), false)
  }

  /** The lower-cased tag name and whether it closes. */
  function TagName(rawTag: string): (r: (string, bool))
    ensures |r.0| + (if r.1 then 1 else 0) <= |rawTag|
  {
    NameFrom(Trim(rawTag))
  }

  function HeadingLevel(name: string): (level: Option<nat>)
    ensures level.Some? ==> 1 <= level.value <= 6 && |name| == 2
    ensures forall d: nat :: 1 <= d <= 6 ==> (level == Some(d) <==> name == ['h', ('0' as int + d) as char])
  {
    if |name| == 2 && name[0] == 'h' && '1' <= name[1] <= '6' then Some(name[1] as int - '0' as int) else None
  }

  const BLOCK_TAGS: seq<string> :=
    ["p", "div", "section", "article", "tr", "ul", "ol", "table", "header", "footer", "blockquote", "pre"]

  // ---- attributes -----------------------------------------------------------------------

  /** The text before the first quote, or all of it. */
  function UpToChar(s: string, c: char): (t: string)
    ensures t <= s
  {
    match FindChar(s, c)
    case None => s
    case Some(i) => s[..i]
  }

  function BareValue(s: string): (t: string)
    ensures t <= s
  {
    if s == [] || IsAsciiWhitespace(s[0]) || s[0] == '>' then [] else [s[0]] + BareValue(s[1..])
  }

  /** What a trimmed region starts with: a value in either quotes, or a bare one. */
  function ValueFrom(r: string): (v: string)
    ensures |v| <= |r|
  {
    if r != [] && r[0] == '\"' then Decoded(UpToChar(r[1..], '\"'))
    else if r != [] && r[0] == '\'' then Decoded(UpToChar(r[1..], '\''))
    else Decoded(BareValue(r))
  }

  function ParseAttrValue(region: string): (v: string)
    ensures |v| <= |region|
  {
    ValueFrom(TrimStart(region))
  }

  /** The value of an attribute found at position `at` of the tag: the name must stand alone
      and be followed by an equals sign. */
  function AttrAtBy(trim: string -> string, parse: string -> string,
                    rawTag: string, lowered: string, at: nat, attr: string): (v: Option<string>)
  {
    if |rawTag| != |lowered| || at + |attr| > |lowered| then None
    else
      var after := trim(lowered[at + |attr|..]);
      if (at == 0 || IsAsciiWhitespace(lowered[at - 1])) && after != [] && after[0] == '='
      then
        var rest := |trim(after[1..])|;
        if rest > |rawTag| then None else Some(parse(rawTag[|rawTag| - rest..]))
      else None
  }

  function AttrAt(rawTag: string, lowered: string, at: nat, attr: string): (v: Option<string>)
    ensures v.Some? ==> |v.value| <= |rawTag|
  {
    AttrAtBy(TrimStart, ParseAttrValue, rawTag, lowered, at, attr)
  }

  /** The first occurrence, from a position on, that has a value. */
  function FirstValue(valueAt: nat -> Option<string>, s: string, from: nat, pat: string): (v: Option<string>)
    requires from <= |s| && pat != []
    decreases |s| - from
  {
    match Find(s, from, pat)
    case None => None
    case Some(at) =>
      var v := valueAt(at);
      if v.Some? then v else FirstValue(valueAt, s, at + |pat|, pat)
  }

  lemma {:induction false} FirstValueSize(valueAt: nat -> Option<string>, s: string, from: nat, pat: string, n: nat)
    requires from <= |s| && pat != [] && forall at :: valueAt(at).Some? ==> |valueAt(at).value| <= n
    ensures var v := FirstValue(valueAt, s, from, pat); v.Some? ==> |v.value| <= n
    decreases |s| - from
  {
    var found := Find(s, from, pat);
    if found.Some? && valueAt(found.value) == None {
      FirstValueSize(valueAt, s, found.value + |pat|, pat, n);
    }
  }

  /** The first well-formed occurrence of the attribute. */
  function Attr(rawTag: string, attr: string): (v: Option<string>)
    requires attr != []
    ensures v.Some? ==> |v.value| <= |rawTag|
  {
    var lowered := Lower(rawTag);
    var valueAt := (at: nat) => AttrAt(rawTag, lowered, at, attr);
    FirstValueSize(valueAt, lowered, 0, attr, |rawTag|);
    FirstValue(valueAt, lowered, 0, attr)
  }

  /** The loop of `attr_value`. */
  method SearchValue(valueAt: nat -> Option<string>, s: string, pat: string) returns (v: Option<string>)
    requires pat != []
    ensures v == FirstValue(valueAt, s, 0, pat)
  {
    var searchFrom := 0;
    while true
      invariant 0 <= searchFrom <= |s|
      invariant FirstValue(valueAt, s, searchFrom, pat) == FirstValue(valueAt, s, 0, pat)
      decreases |s| - searchFrom
    {
      var found := Find(s, searchFrom, pat);
      if found == None {
        return None;
      }
      v := valueAt(found.value);
      if v.Some? {
        return;
      }
      searchFrom := found.value + |pat|;
    }
  }

  /** `attr_value`. */
  method AttrValue(rawTag: string, attr: string) returns (v: Option<string>)
    requires attr != []
    ensures v == Attr(rawTag, attr)
  {
    var lowered := Lower(rawTag);
    v := SearchValue((at: nat) => AttrAt(rawTag, lowered, at, attr), lowered, attr);
  }

  // ---- what one tag renders to -------------------------------------------------------------

  /** An open anchor's pending address, None when no anchor is open. */
  type Pending = Option<string>

  function PendingLen(href: Pending): (n: nat) {
    if href.Some? then |href.value| else 0
  }

  function Hashes(n: nat): (s: string)
    ensures |s| == n && forall i :: 0 <= i < n ==> s[i] == '#'
  {
    if n == 0 then "" else Hashes(n - 1) + "#"
  }

  /** The address of an anchor tag. */
  type HrefOf = string -> Option<string>

  const HREF: HrefOf := (rawTag: string) => Attr(rawTag, "href")

  function AnchorEffect(hrefOf: HrefOf, rawTag: string, closing: bool, href: Pending): (r: (string, Pending))
  {
    if closing then
      (if href.Some? && href.value != "" then "](" + href.value + ")" else "", None)
    else
      var found := hrefOf(rawTag);
      var value := if found.Some? then found.value else "";
      (if value != "" then "[" else "", Some(value))
  }

  /** The marker of a structural tag other than an anchor; never more than three characters
      for each of its name and its bracket. */
  function Marker(name: string, closing: bool): (m: Option<string>)
    ensures m.Some? ==> |m.value| <= 3 * (|name| + 1)
  {
    var level := HeadingLevel(name);
    if level.Some? then Some(if closing then "\n\n" else "\n\n" + Hashes(level.value) + " ")
    else if name == "li" && !closing then Some("\n- ")
    else if name == "br" then Some("\n")
    else if name in BLOCK_TAGS then Some("\n\n")
    else None
  }

  function TagEffect(hrefOf: HrefOf, rawTag: string, href: Pending): (r: (string, Pending)) {
    var (name, closing) := TagName(rawTag);
    var marker := Marker(name, closing);
    if marker.Some? then (marker.value, href)
    else if name == "a" then AnchorEffect(hrefOf, rawTag, closing, href)
    else ("", href)
  }

  // ---- the walk ------------------------------------------------------------------------------

  /** The next piece of markup: a run of text up to a tag, or the body of a tag. */
  datatype Piece = TextRun(text: string) | Tag(raw: string)

  /** The piece at idx and the position after it; a tag also uses up its brackets, and an
      unclosed one runs to the end. */
  function PieceAt(s: string, idx: nat): (r: (Piece, nat))
    requires idx < |s|
    ensures idx < r.1 <= |s|
    ensures if r.0.TextRun? then |r.0.text| == r.1 - idx else |r.0.raw| < r.1 - idx
  {
    if s[idx] != '<' then
      var end := IndexFrom(s, idx, '<');
      (TextRun(s[idx..end]), end)
    else
      var end := IndexFrom(s, idx + 1, '>');
      (Tag(s[idx + 1..end]), if end < |s| then end + 1 else end)
  }

  function PieceEffect(p: Piece, href: Pending): (r: (string, Pending)) {
    match p
    case TextRun(text) => (Decoded(text), href)
    case Tag(raw) => TagEffect(HREF, raw, href)
  }

  type Effect = (Piece, Pending) -> (string, Pending)

  /** Push the effect of each piece from idx on, carrying the anchor state along. */
  function RenderedFrom(effect: Effect, s: string, idx: nat, href: Pending): (t: string)
    requires idx <= |s|
    decreases |s| - idx
  {
    if idx == |s| then ""
    else
      var (p, next) := PieceAt(s, idx);
      var (out, after) := effect(p, href);
      out + RenderedFrom(effect, s, next, after)
  }

  function Rendered(s: string): (t: string) {
    RenderedFrom(PieceEffect, s, 0, None)
  }

  /** The position of the next c: the scanning loops of `render_tokens`. */
  method ScanTo(input: string, start: nat, c: char) returns (end: nat)
    requires start <= |input|
    ensures end == IndexFrom(input, start, c)
  {
    end := start;
    while end < |input| && input[end] != c
      invariant start <= end <= |input| && IndexFrom(input, end, c) == IndexFrom(input, start, c)
    {
      end := end + 1;
    }
  }

  /** The marker of a structural tag, the heading marks written one by one. */
  method RenderMarker(name: string, closing: bool) returns (m: Option<string>)
    ensures m == Marker(name, closing)
  {
    var level := HeadingLevel(name);
    if level.Some? {
      var out := "\n\n";
      if !closing {
        for i := 0 to level.value
          invariant out == "\n\n" + Hashes(i)
        {
          out := out + "#";
        }
        out := out + " ";
      }
      return Some(out);
    }
    if name == "li" && !closing {
      return Some("\n- ");
    }
    if name == "br" {
      return Some("\n");
    }
    return if name in BLOCK_TAGS then Some("\n\n") else None;
  }

  /** The output of one tag and the anchor state after it. */
  method RenderTag(raw: string, href: Pending) returns (out: string, next: Pending)
    ensures (out, next) == TagEffect(HREF, raw, href)
  {
    var (name, closing) := TagName(raw);
    out, next := "", href;
    var marker := RenderMarker(name, closing);
    if marker.Some? {
      out := marker.value;
    } else if name == "a" {
      if closing {
        next := None;
        if href.Some? && href.value != "" {
          out := "](" + href.value + ")";
        }
      } else {
        var found := AttrValue(raw, "href");
        var value := if found.Some? then found.value else "";
        next := Some(value);
        if value != "" {
          out := "[";
        }
      }
    }
  }

  /** One turn of the walk: what it pushes, the anchor state after it, where it stops. */
  method RenderPiece(input: string, idx: nat, href: Pending) returns (out: string, after: Pending, next: nat)
    requires idx < |input|
    ensures next == PieceAt(input, idx).1 && (out, after) == PieceEffect(PieceAt(input, idx).0, href)
  {
    if input[idx] != '<' {
      next := ScanTo(input, idx, '<');
      out := DecodeEntities(input[idx..next]);
      after := href;
    } else {
      next := ScanTo(input, idx + 1, '>');
      out, after := RenderTag(input[idx + 1..next], href);
      if next < |input| {
        next := next + 1;
      }
    }
  }

  /** `render_tokens`. */
  method RenderTokens(input: string) returns (output: string)
    ensures output == Rendered(input)
  {
    output := "";
    var href: Pending := None;
    var idx := 0;
    while idx < |input|
      invariant 0 <= idx <= |input|
      invariant output + RenderedFrom(PieceEffect, input, idx, href) == Rendered(input)
    {
      var out, after, next := RenderPiece(input, idx, href);
      Reassociate(output, out, RenderedFrom(PieceEffect, input, next, after));
      output, href, idx := output + out, after, next;
    }
  }

  // ---- the size of the output ------------------------------------------------------------------

  /** An address is no longer than the tag it is read from. */
  ghost predicate Within(hrefOf: HrefOf) {
    forall raw: string :: hrefOf(raw).Some? ==> |hrefOf(raw).value| <= |raw|
  }

  /** A tag's output and the address it leaves pending are paid for by three times the
      characters it uses up, and by the address that was pending before. */
  lemma TagPays(hrefOf: HrefOf, rawTag: string, href: Pending, used: nat)
    requires Within(hrefOf) && |rawTag| < used
    ensures var (out, next) := TagEffect(hrefOf, rawTag, href);
            |out| + PendingLen(next) <= 3 * used + PendingLen(href)
  {
    var (name, closing) := TagName(rawTag);
    if Marker(name, closing) == None && name == "a" {
      AnchorPays(hrefOf, rawTag, closing, href, used);
    }
  }

  lemma AnchorPays(hrefOf: HrefOf, rawTag: string, closing: bool, href: Pending, used: nat)
    requires Within(hrefOf) && |rawTag| < used && 1 + (if closing then 1 else 0) <= |rawTag|
    ensures var (out, next) := AnchorEffect(hrefOf, rawTag, closing, href);
            |out| + PendingLen(next) <= 3 * used + PendingLen(href)
  {
  }

  /** The least number of characters a piece uses up: a tag has at least its first bracket. */
  function LeastUsed(p: Piece): (n: nat) {
    if p.TextRun? then |p.text| else |p.raw| + 1
  }

  /** Each piece pays for itself out of the characters it uses up. */
  ghost predicate Pays(effect: Effect) {
    forall p: Piece, href: Pending ::
      |effect(p, href).0| + PendingLen(effect(p, href).1) <= 3 * LeastUsed(p) + PendingLen(href)
  }

  lemma {:induction false} RenderedSize(effect: Effect, s: string, idx: nat, href: Pending)
    requires Pays(effect) && idx <= |s|
    ensures |RenderedFrom(effect, s, idx, href)| <= 3 * (|s| - idx) + PendingLen(href)
    decreases |s| - idx
  {
    if idx < |s| {
      var (p, next) := PieceAt(s, idx);
      RenderedSize(effect, s, next, effect(p, href).1);
    }
  }

  lemma PiecesPay()
    ensures Pays(PieceEffect)
  {
    forall p: Piece, href: Pending
      ensures |PieceEffect(p, href).0| + PendingLen(PieceEffect(p, href).1) <= 3 * LeastUsed(p) + PendingLen(href)
    {
      if p.Tag? {
        TagPays(HREF, p.raw, href, |p.raw| + 1);
      }
    }
  }

  /** Rendering at most triples the text. */
  lemma RenderAtMostTriples(s: string)
    ensures |Rendered(s)| <= 3 * |s|
  {
    PiecesPay();
    RenderedSize(PieceEffect, s, 0, None);
  }

  /** Text without a tag is one run, decoded. */
  lemma RenderedPlain(s: string)
    requires '<' !in s
    ensures Rendered(s) == Decoded(s)
  {
    if s != [] {
      IndexOfAbsent(s, 0, '<');
      assert s[0..|s|] == s && PieceAt(s, 0) == (TextRun(s), |s|);
      assert Rendered(s) == Decoded(s) + RenderedFrom(PieceEffect, s, |s|, None);
      assert Decoded(s) + "" == Decoded(s);
    } else {
      assert Decoded("") == "";
    }
  }
}
