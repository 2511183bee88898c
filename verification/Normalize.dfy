/** The HTML-to-markdown pipeline: strip, render, collapse. */
module Normalize {
  import opened Bytes
  import opened Text
  import opened NormalizeEntities
  import opened NormalizeStrip
  import opened NormalizeCuts
  import opened NormalizeHidden
  import opened NormalizeLeftover
  import opened NormalizeRender
  import opened NormalizeCompose
  import opened NormalizeMarkup
  import opened NormalizeBlocks
  import opened NormalizeWhitespace

  function Markdown(html: string): (t: string) {
    Collapsed(Rendered(Stripped(html)))
  }

  /** `html_to_markdown`. */
  method HtmlToMarkdown(html: string) returns (markdown: string)
    ensures markdown == Markdown(html)
  {
    var stripped := StripNoiseBlocks(html);
    var rendered := RenderTokens(stripped);
    markdown := CollapseWhitespace(rendered);
  }

  /** The result has at most three times the characters of the document. */
  lemma MarkdownSize(html: string)
    ensures |Markdown(html)| <= 3 * |html|
  {
    RenderAtMostTriples(Stripped(html));
    CollapseShrinks(Rendered(Stripped(html)));
  }

  /** The result is always tidy, so normalizing white space again changes nothing. */
  lemma MarkdownIsTidy(html: string)
    ensures exists ls :: Tidy(ls) && Markdown(html) == Join(ls)
    ensures Collapsed(Markdown(html)) == Markdown(html)
  {
    var r := Rendered(Stripped(html));
    CollapsedIsTidy(r);
    CollapseIdempotent(r);
    assert Tidy(TidyLines(r)) && Markdown(html) == Join(TidyLines(r));
  }

  /** For every text, writing `&` as `&amp;` and `<` as `&lt;` and running the whole pipeline
      gives exactly the text with its white space collapsed: stripping, tokenising and
      decoding lose and invent nothing on plain text. */
  lemma EscapedTextSurvives(text: string)
    ensures Markdown(Escape(text)) == Collapsed(text)
    ensures NonWs(Markdown(Escape(text))) == NonWs(text)
  {
    EscapeHasNoTag(text);
    StripKeepsPlainText(Escape(text));
    RenderedPlain(Escape(text));
    DecodeUndoesEscape(text);
    CollapseKeepsText(text);
  }

  // ---- hidden text ------------------------------------------------------------------------------

  /** An element of a hidden tag changes nothing in the result, where nothing hidden is open before
      it and no mark arises from closing the gap. */
  lemma NoiseLeavesNoTrace(a: string, m: string, c: string, k: nat)
    requires k < |NOISE_TAGS| && OneElement(m, NOISE_TAGS[k]) && UntouchedFor(m, k) && ApartFor(a, c, k + 1)
    ensures Markdown(a + (m + c)) == Markdown(a + c)
  {
    NoiseNeverShown(a, m, c, k);
  }

  /** In particular a script, style sheet or the like, with attributes, in any letter case, that
      holds anything but its closing tag, a comment and the tags removed before it, after any
      markup without hidden tags and before any text at all. */
  lemma WrittenNoiseLeavesNoTrace(a: string, name: string, attrs: string, b: string, c: string, k: nat)
    requires k < |NOISE_TAGS| && IsName(name) && Lower(name) == NOISE_TAGS[k] && IsAttrs(attrs)
    requires Find(Lower(b), 0, "</" + NOISE_TAGS[k] + ">") == None && UntouchedFor(b, k)
    requires UntouchedFor(a, |NOISE_TAGS|) && (a == "" || a[|a| - 1] == '>')
    ensures Markdown(a + ((OpenTag(name, attrs) + (b + CloseTag(name))) + c)) == Markdown(a + c)
  {
    NoiseTags(k);
    WrittenElement(name, attrs, b, NOISE_TAGS[k]);
    OwnTagsUntouched(name, attrs, k);
    WrappedUntouched(OpenTag(name, attrs), b, CloseTag(name), k);
    MarkFreeApart(a, c, k + 1);
    NoiseLeavesNoTrace(a, OpenTag(name, attrs) + (b + CloseTag(name)), c, k);
  }

  /** So text in a script, a style sheet, the head, a noscript part or a drawing is never shown,
      whatever the letter case of the tag. */
  lemma {:induction false} HiddenText(a: string, name: string, attrs: string, text: string, c: string, tag: string)
    requires tag in ["script", "style", "head", "noscript", "svg"] && AnyCase(name, tag)
    requires IsAttrs(attrs) && '<' !in text
    requires UntouchedFor(a, |NOISE_TAGS|) && (a == "" || a[|a| - 1] == '>')
    ensures Markdown(a + ((OpenTag(name, attrs) + (text + CloseTag(name))) + c)) == Markdown(a + c)
  {
    var k :| 0 <= k < 5 && ["script", "style", "head", "noscript", "svg"][k] == tag;
    HiddenTags(k);
    NoiseTags(k);
    AnyCaseIsTag(name, tag);
    NameOfTag(name, tag);
    TextUntouched(text, k);
    LowerKeepsTagFree(text);
    NotFound(Lower(text), 0, "</" + tag + ">");
    WrittenNoiseLeavesNoTrace(a, name, attrs, text, c, k);
  }

  lemma NameOfTag(name: string, tag: string)
    requires IsTag(tag) && AnyCase(name, tag)
    ensures IsName(name)
  {
  }

  /** Nor does a comment, whatever it holds up to its first closing mark. */
  lemma CommentLeavesNoTrace(a: string, m: string, c: string)
    requires OneWhole(m, "<!--", "-->") && CommentsSettled(a) && NoStraddle(a, c, "<!--")
    ensures Markdown(a + (m + c)) == Markdown(a + c)
  {
    CommentNeverShown(a, m, c);
  }

  /** Hidden text can be shown all the same: a style element inside the opening tag of a script
      goes after the scripts are gone, and the script's text is rendered. */
  lemma {:induction false} ScriptTextShown(text: string)
    requires '<' !in text
    ensures Markdown("<sc" + ("<style></style>" + ("ript>" + text))) == Collapsed(Decoded(text))
  {
    var m := OpenTag("style", "") + ("" + CloseTag("style"));
    InsideScript(m, text);
    ScriptArises(m, text);
    ScriptRendered(text);
  }

  lemma {:induction false} ScriptArises(m: string, text: string)
    requires '<' !in text && m == OpenTag("style", "") + ("" + CloseTag("style")) && |Mark(0)| == 7
    ensures Stripped(Mark(0)[..3] + (m + (Mark(0)[3..] + (">" + text)))) == Mark(0) + (">" + text)
  {
    StyleElement(m);
    MarkArises(0, 1, 3, m, text);
  }

  lemma {:induction false} ScriptRendered(text: string)
    requires '<' !in text
    ensures Rendered(Mark(0) + (">" + text)) == Decoded(text)
  {
    NoScriptMarker(NOISE_TAGS[0]);
    UnmarkedRendered(NOISE_TAGS[0], text, Mark(0) + (">" + text));
  }

  lemma InsideScript(m: string, text: string)
    requires m == OpenTag("style", "") + ("" + CloseTag("style"))
    ensures |Mark(0)| == 7
    ensures "<sc" + ("<style></style>" + ("ript>" + text)) == Mark(0)[..3] + (m + (Mark(0)[3..] + (">" + text)))
  {
    assert m == "<style></style>" && Mark(0)[..3] == "<sc" && Mark(0)[3..] == "ript";
    assert "ript" + (">" + text) == "ript>" + text;
  }

  lemma {:induction false} StyleElement(m: string)
    requires m == OpenTag("style", "") + ("" + CloseTag("style"))
    ensures OneElement(m, NOISE_TAGS[1]) && UntouchedFor(m, 1)
  {
    assert Lower("style") == "style" && NOISE_TAGS[1] == "style";
    NoiseTags(1);
    NotFound(Lower(""), 0, "</style>");
    WrittenElement("style", "", "", "style");
    OwnTagsUntouched("style", "", 1);
    TextUntouched("", 1);
    WrappedUntouched(OpenTag("style", ""), "", CloseTag("style"), 1);
  }

  /** A tag that pushes nothing and keeps the state. */
  lemma {:induction false} SilentTag(effect: Effect, raw: string, text: string, s: string, y: string)
    requires '>' !in raw && effect(Tag(raw), None) == ("", None) && s == "<" + raw + (">" + text)
    requires RenderedFrom(effect, text, 0, None) == y
    ensures RenderedFrom(effect, s, 0, None) == y
  {
    assert s == "<" + raw + ">" + text;
    TagFront(effect, raw, text, None);
  }

  lemma {:induction false} UnmarkedEffect(name: string)
    requires name != "" && Alphanumeric(name) && Lower(name) == name && Marker(name, false) == None && name != "a"
    ensures PieceEffect(Tag(name), None) == ("", None)
  {
    NamedAlone(name);
    PlainTagEffect(HREF, name, name, false, None);
  }

  lemma NoBracketInName(name: string)
    requires Alphanumeric(name)
    ensures '>' !in name
  {
  }

  /** Tags that have no marker and are no anchors leave only their text. */
  lemma {:induction false} UnmarkedRendered(name: string, text: string, s: string)
    requires name != "" && Alphanumeric(name) && Lower(name) == name && Marker(name, false) == None && name != "a"
    requires '<' !in text && s == "<" + name + (">" + text)
    ensures Rendered(s) == Decoded(text)
  {
    UnmarkedEffect(name);
    NoBracketInName(name);
    RenderedPlain(text);
    SilentTag(PieceEffect, name, text, s, Decoded(text));
  }

  lemma NoScriptMarker(name: string)
    requires name == "script"
    ensures Marker(name, false) == None && Lower(name) == name
  {
    assert |name| == 6 && name[0] == 's';
    NoBlockTag(name);
  }

  lemma {:induction false} NoBlockTag(name: string)
    requires |name| == 6 && name[0] == 's'
    ensures name !in BLOCK_TAGS
  {
    forall i | 0 <= i < |BLOCK_TAGS|
      ensures BLOCK_TAGS[i] != name
    {
      assert |BLOCK_TAGS[i]| != 6 || BLOCK_TAGS[i][0] != 's';
    }
  }

  lemma {:induction false} NamedAlone(name: string)
    requires name != "" && Alphanumeric(name) && Lower(name) == name
    ensures TagName(name) == (name, false)
  {
    assert name == "" + (name + "");
    OpeningRead(name, "", name, "");
  }

  // ---- links and headings -------------------------------------------------------------------------

  /** Markup that is not hidden is rendered between what is around it. */
  lemma {:induction false} RenderedAround(a: string, m: string, c: string, out: string)
    requires ClosedFor(a, |NOISE_TAGS|) && Bracketed(m) && UntouchedFor(m, |NOISE_TAGS|)
    requires Rendered(Stripped(a) + (m + Stripped(c))) == out
    ensures Markdown(a + (m + c)) == Collapsed(out)
  {
    MarkupKept(a, m, c);
  }

  lemma {:induction false} BracketsOnly(raw: string, u: string)
    requires |raw| >= 2 && '<' !in raw && u == "<" + raw + ">"
    ensures OneBracket(u) && OneBracket(Lower(u)) && Bracketed(u) && u[1] == raw[0] && u[2] == raw[1]
  {
    assert forall i :: 1 <= i <= |raw| ==> u[i] == raw[i - 1];
  }

  /** Between brackets, and none of the hidden tags. */
  lemma {:induction false} OtherTag(raw: string, n: nat)
    requires n <= |NOISE_TAGS| && |raw| >= 2 && '<' !in raw && raw[0] != '!' && raw[0] !in {'S', 'H', 'N'}
    requires raw[0] !in {'s', 'n'} && (raw[0] == 'h' ==> '1' <= raw[1] <= '6')
    ensures TagUntouched("<" + raw + ">", n)
  {
    var u := "<" + raw + ">";
    BracketsOnly(raw, u);
    forall j | 0 <= j < n
      ensures !("<" + NOISE_TAGS[j] <= Lower(u))
    {
      NotThisTag(Lower(u), j);
    }
  }

  lemma {:induction false} NotThisTag(low: string, j: nat)
    requires j < |NOISE_TAGS| && |low| >= 3 && low[1] != 's' && low[1] != 'n' && (low[1] == 'h' ==> low[2] != 'e')
    ensures !("<" + NOISE_TAGS[j] <= low)
  {
    NoiseTags(j);
    assert ("<" + NOISE_TAGS[j])[1] == NOISE_TAGS[j][0] && ("<" + NOISE_TAGS[j])[2] == NOISE_TAGS[j][1];
  }

  lemma {:induction false} WrappedBracketed(raw: string, text: string, closing: string)
    ensures Bracketed(Wrapped(raw, text, closing))
  {
    var w := Wrapped(raw, text, closing);
    assert w[0] == '<' && w[|w| - 1] == '>';
  }

  /** Any link text and any address come through the whole pipeline, anywhere in a document in which
      nothing hidden is open and no tag unfinished before the link. */
  lemma {:induction false} LinkSurvives(a: string, address: string, text: string, c: string)
    requires ClosedFor(a, |NOISE_TAGS|) && Whole(Stripped(a), "<") && address != ""
    ensures Markdown(a + (Wrapped(AnchorTag(EscapeAttr(address)), Escape(text), "/a") + c))
         == Collapsed(Rendered(Stripped(a)) + ("[" + (text + ("](" + address + ")" + Rendered(Stripped(c))))))
  {
    var raw, body := AnchorTag(EscapeAttr(address)), Escape(text);
    var m := Wrapped(raw, body, "/a");
    EscapeAttrIsSafe(address);
    EscapeHasNoTag(text);
    AnchorTagSafe(EscapeAttr(address));
    assert UntouchedFor(m, |NOISE_TAGS|) && Bracketed(m) by {
      OtherTag(raw, |NOISE_TAGS|);
      OtherTag("/a", |NOISE_TAGS|);
      TextUntouched(body, |NOISE_TAGS|);
      WrappedUntouched("<" + raw + ">", body, "<" + "/a" + ">", |NOISE_TAGS|);
      WrappedBracketed(raw, body, "/a");
    }
    LinkBetween(Stripped(a), address, text, Stripped(c));
    RenderedAround(a, m, c, Rendered(Stripped(a)) + ("[" + (text + ("](" + address + ")" + Rendered(Stripped(c))))));
  }

  lemma {:induction false} AnchorTagSafe(u: string)
    requires '<' !in u && '>' !in u
    ensures var raw := AnchorTag(u); '<' !in raw && '>' !in raw && |raw| >= 2 && raw[0] == 'a' && raw[1] == ' '
  {
  }

  /** Whether a part is whole does not depend on what else follows a bracket. */
  lemma {:induction false} WholeBefore(x: string, y: string, z: string, i: nat)
    requires i <= |x| && WholeFrom(x, y, i) && z != "" && z[0] == '<' && y != "" && y[0] == '<'
    ensures WholeFrom(x, z, i)
    decreases |x| - i
  {
    if i < |x| && PieceAt(x, i).1 < |x| {
      WholeBefore(x, y, z, PieceAt(x, i).1);
    }
  }

  lemma {:induction false} LinkBetween(x: string, address: string, text: string, y: string)
    requires Whole(x, "<") && address != ""
    ensures Rendered(x + (Wrapped(AnchorTag(EscapeAttr(address)), Escape(text), "/a") + y))
         == Rendered(x) + ("[" + (text + ("](" + address + ")" + Rendered(y))))
  {
    var raw, body := AnchorTag(EscapeAttr(address)), Escape(text);
    EscapeAttrIsSafe(address);
    EscapeHasNoTag(text);
    AnchorTagSafe(EscapeAttr(address));
    AnchorTagRead(EscapeAttr(address));
    DecodeUndoesEscapeAttr(address);
    DecodeUndoesEscape(text);
    CloseAnchor();
    WrappedBracketed(raw, body, "/a");
    WholeBefore(x, "<", Wrapped(raw, body, "/a") + y, 0);
    LinkRendered(x, raw, body, "/a", y, address);
  }

  lemma CloseAnchor()
    ensures TagName("/a") == ("a", true)
  {
    assert "/a" == "" + ("/" + "a" + "") && Lower("a") == "a";
    ClosingRead("/a", "", "a", "");
  }

  /** And so does any heading, between what is around it. */
  lemma {:induction false} HeadingSurvives(a: string, d: char, text: string, c: string)
    requires ClosedFor(a, |NOISE_TAGS|) && Whole(Stripped(a), "<") && '1' <= d <= '6'
    ensures Markdown(a + (Wrapped(['h', d], Escape(text), ['/', 'h', d]) + c))
         == Collapsed(Rendered(Stripped(a))
                      + ("\n\n" + Hashes(d as int - '0' as int) + " "
                         + (text + ("\n\n" + RenderedFrom(PieceEffect, Stripped(c), 0, AnchorAfter(Stripped(a)))))))
  {
    var raw, closing, body := ['h', d], ['/', 'h', d], Escape(text);
    var m := Wrapped(raw, body, closing);
    EscapeHasNoTag(text);
    assert UntouchedFor(m, |NOISE_TAGS|) && Bracketed(m) by {
      OtherTag(raw, |NOISE_TAGS|);
      OtherTag(closing, |NOISE_TAGS|);
      TextUntouched(body, |NOISE_TAGS|);
      WrappedUntouched("<" + raw + ">", body, "<" + closing + ">", |NOISE_TAGS|);
      WrappedBracketed(raw, body, closing);
    }
    DecodeUndoesEscape(text);
    HeadingTagsClosed(raw, closing, d);
    HeadingOpens(raw, d);
    HeadingCloses(closing, raw, d);
    NamedHeading(Stripped(a), raw, body, closing, Stripped(c), d);
    MarkupKept(a, m, c);
  }

  lemma HeadingTagsClosed(raw: string, closing: string, d: char)
    requires '1' <= d <= '6' && raw == ['h', d] && closing == ['/', 'h', d]
    ensures '>' !in raw && '>' !in closing
  {
  }

  lemma {:induction false} NamedHeading(x: string, raw: string, body: string, closing: string, y: string, d: char)
    requires Whole(x, "<") && '1' <= d <= '6' && '<' !in body && '>' !in raw && '>' !in closing
    requires TagName(raw) == (['h', d], false) && TagName(closing) == (['h', d], true)
    ensures Rendered(x + (Wrapped(raw, body, closing) + y))
         == Rendered(x) + ("\n\n" + Hashes(d as int - '0' as int) + " "
                           + (Decoded(body) + ("\n\n" + RenderedFrom(PieceEffect, y, 0, AnchorAfter(x)))))
  {
    WrappedBracketed(raw, body, closing);
    WholeBefore(x, "<", Wrapped(raw, body, closing) + y, 0);
    HeadingRendered(x, raw, body, closing, y, d);
  }

  lemma {:induction false} HeadingOpens(raw: string, d: char)
    requires '1' <= d <= '6' && raw == ['h', d]
    ensures TagName(raw) == (raw, false)
  {
    assert Lower(raw) == raw && raw == "" + (raw + "");
    OpeningRead(raw, "", raw, "");
  }

  lemma {:induction false} HeadingCloses(closing: string, name: string, d: char)
    requires '1' <= d <= '6' && name == ['h', d] && closing == ['/', 'h', d]
    ensures TagName(closing) == (name, true)
  {
    assert Lower(name) == name && closing == "" + ("/" + name + "");
    ClosingRead(closing, "", name, "");
  }

  /** And so does any list item. */
  lemma {:induction false} ItemSurvives(a: string, text: string, c: string)
    requires ClosedFor(a, |NOISE_TAGS|) && Whole(Stripped(a), "<")
    ensures Markdown(a + (Wrapped("li", Escape(text), "/li") + c))
         == Collapsed(Rendered(Stripped(a))
                      + ("\n- " + (text + RenderedFrom(PieceEffect, Stripped(c), 0, AnchorAfter(Stripped(a))))))
  {
    ItemTags();
    ItemKept("li", Escape(text), "/li", text);
    NamedItem(Stripped(a), "li", Escape(text), "/li", Stripped(c));
    MarkupKept(a, Wrapped("li", Escape(text), "/li"), c);
  }

  lemma {:induction false} ItemKept(raw: string, body: string, closing: string, text: string)
    requires raw == "li" && closing == "/li" && body == Escape(text)
    ensures UntouchedFor(Wrapped(raw, body, closing), |NOISE_TAGS|) && Bracketed(Wrapped(raw, body, closing))
    ensures '<' !in body && Decoded(body) == text && '>' !in raw && '>' !in closing
  {
    EscapeHasNoTag(text);
    OtherTag(raw, |NOISE_TAGS|);
    OtherTag(closing, |NOISE_TAGS|);
    TextUntouched(body, |NOISE_TAGS|);
    WrappedUntouched("<" + raw + ">", body, "<" + closing + ">", |NOISE_TAGS|);
    WrappedBracketed(raw, body, closing);
    DecodeUndoesEscape(text);
  }

  lemma {:induction false} NamedItem(x: string, raw: string, body: string, closing: string, y: string)
    requires Whole(x, "<") && '<' !in body && '>' !in raw && '>' !in closing
    requires TagName(raw) == ("li", false) && TagName(closing) == ("li", true)
    ensures Rendered(x + (Wrapped(raw, body, closing) + y))
         == Rendered(x) + ("\n- " + (Decoded(body) + RenderedFrom(PieceEffect, y, 0, AnchorAfter(x))))
  {
    WrappedBracketed(raw, body, closing);
    WholeBefore(x, "<", Wrapped(raw, body, closing) + y, 0);
    ItemRendered(x, raw, body, closing, y);
  }

  lemma {:induction false} ItemTags()
    ensures TagName("li") == ("li", false) && TagName("/li") == ("li", true)
  {
    assert Lower("li") == "li" && "li" == "" + ("li" + "") && "/li" == "" + ("/" + "li" + "");
    OpeningRead("li", "", "li", "");
    ClosingRead("/li", "", "li", "");
  }
}
