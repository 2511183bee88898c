/** Structural tags anywhere in a document: paragraphs and other blocks, line breaks, list items,
    and the tags that leave nothing but what is between them. */
module NormalizeBlocks {
  import opened Bytes
  import opened Text
  import opened NormalizeEntities
  import opened NormalizeRender
  import opened NormalizeCompose
  import opened NormalizeMarkup

  lemma {:induction false} TagInContext(a: string, raw: string, c: string, x: string)
    requires '>' !in raw && Whole(a, "<" + raw + ">" + c)
    requires PieceEffect(Tag(raw), AnchorAfter(a)) == (x, AnchorAfter(a))
    ensures Rendered(a + ("<" + raw + ">" + c)) == Rendered(a) + (x + RenderedFrom(PieceEffect, c, 0, AnchorAfter(a)))
  {
    RenderedApart(a, "<" + raw + ">" + c);
    TagFront(PieceEffect, raw, c, AnchorAfter(a));
  }

  lemma {:induction false} PlainTagEffect(hrefOf: HrefOf, raw: string, name: string, closing: bool, h: Pending)
    requires TagName(raw) == (name, closing) && Marker(name, closing) == None && name != "a"
    ensures TagEffect(hrefOf, raw, h) == ("", h)
  {
  }

  predicate IsBlock(name: string) {
    name in ["p", "div", "section", "article", "tr", "ul", "ol", "table", "header", "footer", "blockquote", "pre"]
  }

  lemma {:induction false} BlockMarker(name: string, closing: bool)
    requires IsBlock(name)
    ensures Marker(name, closing) == Some("\n\n")
  {
  }

  /** A block tag, opening or closing, is a paragraph break. */
  lemma {:induction false} BlockRendered(a: string, raw: string, c: string, name: string, closing: bool)
    requires '>' !in raw && Whole(a, "<" + raw + ">" + c) && TagName(raw) == (name, closing) && IsBlock(name)
    ensures Rendered(a + ("<" + raw + ">" + c))
         == Rendered(a) + ("\n\n" + RenderedFrom(PieceEffect, c, 0, AnchorAfter(a)))
  {
    BlockMarker(name, closing);
    MarkerEffect(HREF, raw, name, closing, "\n\n", AnchorAfter(a));
    TagInContext(a, raw, c, "\n\n");
  }

  lemma {:induction false} ShortMarkers()
    ensures Marker("br", false) == Some("\n") && Marker("br", true) == Some("\n")
    ensures Marker("li", false) == Some("\n- ") && Marker("li", true) == None
  {
  }

  /** A break tag is a line break. */
  lemma {:induction false} BreakRendered(a: string, raw: string, c: string, closing: bool)
    requires '>' !in raw && Whole(a, "<" + raw + ">" + c) && TagName(raw) == ("br", closing)
    ensures Rendered(a + ("<" + raw + ">" + c))
         == Rendered(a) + ("\n" + RenderedFrom(PieceEffect, c, 0, AnchorAfter(a)))
  {
    ShortMarkers();
    MarkerEffect(HREF, raw, "br", closing, "\n", AnchorAfter(a));
    TagInContext(a, raw, c, "\n");
  }

  /** A list item becomes its text behind a dash, on a line of its own. */
  lemma {:induction false} ItemRendered(a: string, raw: string, text: string, closing: string, c: string)
    requires '>' !in raw && '<' !in text && '>' !in closing && Whole(a, Wrapped(raw, text, closing) + c)
    requires TagName(raw) == ("li", false) && TagName(closing) == ("li", true)
    ensures Rendered(a + (Wrapped(raw, text, closing) + c))
         == Rendered(a) + ("\n- " + (Decoded(text) + RenderedFrom(PieceEffect, c, 0, AnchorAfter(a))))
  {
    ShortMarkers();
    MarkerEffect(HREF, raw, "li", false, "\n- ", AnchorAfter(a));
    PlainTagEffect(HREF, closing, "li", true, AnchorAfter(a));
    WrappedInContext(a, raw, text, closing, c, "\n- ", AnchorAfter(a), "", AnchorAfter(a));
    assert "" + RenderedFrom(PieceEffect, c, 0, AnchorAfter(a)) == RenderedFrom(PieceEffect, c, 0, AnchorAfter(a));
  }

  /** The names that are rendered, other than the anchor's. */
  predicate IsStructural(name: string, closing: bool) {
    || IsBlock(name) || name == "br" || (name == "li" && !closing)
    || (|name| == 2 && name[0] == 'h' && '1' <= name[1] <= '6')
  }

  lemma {:induction false} NoMarker(name: string, closing: bool)
    requires !IsStructural(name, closing)
    ensures Marker(name, closing) == None
  {
  }

  /** Any other tag but an anchor leaves nothing. */
  lemma {:induction false} OtherRendered(a: string, raw: string, c: string, name: string, closing: bool)
    requires '>' !in raw && Whole(a, "<" + raw + ">" + c) && TagName(raw) == (name, closing)
    requires !IsStructural(name, closing) && name != "a"
    ensures Rendered(a + ("<" + raw + ">" + c)) == Rendered(a) + RenderedFrom(PieceEffect, c, 0, AnchorAfter(a))
  {
    NoMarker(name, closing);
    PlainTagEffect(HREF, raw, name, closing, AnchorAfter(a));
    TagInContext(a, raw, c, "");
    assert "" + RenderedFrom(PieceEffect, c, 0, AnchorAfter(a)) == RenderedFrom(PieceEffect, c, 0, AnchorAfter(a));
  }

  lemma {:induction false} StrayCloseRendered(a: string, raw: string, c: string)
    requires '>' !in raw && Whole(a, "<" + raw + ">" + c) && TagName(raw) == ("a", true) && AnchorAfter(a) == None
    ensures Rendered(a + ("<" + raw + ">" + c)) == Rendered(a) + Rendered(c)
  {
    StrayClose(HREF, raw);
    TagInContext(a, raw, c, "");
    assert "" + RenderedFrom(PieceEffect, c, 0, None) == Rendered(c);
  }

  /** A tag that is not closed runs to the end of the document. */
  lemma {:induction false} UnclosedRendered(a: string, raw: string)
    requires '>' !in raw && Whole(a, "<" + raw)
    ensures Rendered(a + ("<" + raw)) == Rendered(a) + PieceEffect(Tag(raw), AnchorAfter(a)).0
  {
    RenderedApart(a, "<" + raw);
    UnclosedPiece(raw, "<" + raw);
    OnePiece(PieceEffect, "<" + raw, Tag(raw), AnchorAfter(a));
  }

  lemma {:induction false} UnclosedPiece(raw: string, t: string)
    requires '>' !in raw && t == "<" + raw
    ensures PieceAt(t, 0) == (Tag(raw), |t|)
  {
    assert t[1..|t|] == raw;
    IndexIs(t, 1, '>', |t|);
  }
}
