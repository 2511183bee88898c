/** Rendering two parts of a document: where the first ends a tag, or the second starts one, each
    part is rendered on its own, and the anchor state is carried over. */
module NormalizeCompose {
  import opened Bytes
  import opened Text
  import opened NormalizeRender

  // ---- the second part ------------------------------------------------------------------------

  lemma {:induction false} IndexShift(a: string, b: string, i: nat, c: char)
    requires i <= |b|
    ensures IndexFrom(a + b, |a| + i, c) == |a| + IndexFrom(b, i, c)
    decreases |b| - i
  {
    if i < |b| {
      assert (a + b)[|a| + i] == b[i];
      IndexShift(a, b, i + 1, c);
    }
  }

  lemma SliceShift(a: string, b: string, i: nat, j: nat)
    requires i <= j <= |b|
    ensures (a + b)[|a| + i..|a| + j] == b[i..j]
  {
  }

  lemma PieceShift(a: string, b: string, i: nat)
    requires i < |b|
    ensures PieceAt(a + b, |a| + i).0 == PieceAt(b, i).0 && PieceAt(a + b, |a| + i).1 == |a| + PieceAt(b, i).1
  {
    assert (a + b)[|a| + i] == b[i];
    if b[i] != '<' {
      IndexShift(a, b, i, '<');
      SliceShift(a, b, i, IndexFrom(b, i, '<'));
    } else {
      IndexShift(a, b, i + 1, '>');
      SliceShift(a, b, i + 1, IndexFrom(b, i + 1, '>'));
    }
  }

  lemma {:induction false} RenderedShift(effect: Effect, a: string, b: string, i: nat, href: Pending)
    requires i <= |b|
    ensures RenderedFrom(effect, a + b, |a| + i, href) == RenderedFrom(effect, b, i, href)
    decreases |b| - i
  {
    if i < |b| {
      PieceShift(a, b, i);
      var (p, next) := PieceAt(b, i);
      RenderedShift(effect, a, b, next, effect(p, href).1);
    }
  }

  // ---- the first part -------------------------------------------------------------------------

  /** The anchor state after the pieces from idx on. */
  function StateFrom(effect: Effect, s: string, idx: nat, href: Pending): (after: Pending)
    requires idx <= |s|
    decreases |s| - idx
  {
    if idx == |s| then href
    else
      var (p, next) := PieceAt(s, idx);
      StateFrom(effect, s, next, effect(p, href).1)
  }

  /** From idx on, the first part is made of whole tags and texts: its last tag is closed, and
      text at its end is not continued by the second part. */
  predicate WholeFrom(a: string, b: string, idx: nat)
    requires idx <= |a|
    decreases |a| - idx
  {
    idx == |a| ||
    var (p, next) := PieceAt(a, idx);
    if next < |a| then WholeFrom(a, b, next)
    else if p.TextRun? then b == "" || b[0] == '<'
    else IndexFrom(a, idx + 1, '>') < |a|
  }

  lemma {:induction false} IndexInFront(a: string, b: string, i: nat, c: char)
    requires i <= |a| && (IndexFrom(a, i, c) < |a| || b == "" || b[0] == c)
    ensures IndexFrom(a + b, i, c) == IndexFrom(a, i, c)
    decreases |a| - i
  {
    if i < |a| {
      assert (a + b)[i] == a[i];
      if a[i] != c {
        IndexInFront(a, b, i + 1, c);
      }
    }
  }

  lemma PieceStays(a: string, b: string, idx: nat)
    requires idx < |a| && WholeFrom(a, b, idx)
    ensures PieceAt(a + b, idx) == PieceAt(a, idx) && WholeFrom(a, b, PieceAt(a, idx).1)
  {
    var s := a + b;
    assert s[idx] == a[idx];
    if a[idx] != '<' {
      IndexInFront(a, b, idx, '<');
      var end := IndexFrom(a, idx, '<');
      assert s[idx..end] == a[idx..end];
    } else {
      IndexInFront(a, b, idx + 1, '>');
      var end := IndexFrom(a, idx + 1, '>');
      assert s[idx + 1..end] == a[idx + 1..end];
    }
  }

  lemma {:induction false} RenderedParts(effect: Effect, a: string, b: string, idx: nat, href: Pending)
    requires idx <= |a| && WholeFrom(a, b, idx)
    ensures RenderedFrom(effect, a + b, idx, href)
         == RenderedFrom(effect, a, idx, href) + RenderedFrom(effect, b, 0, StateFrom(effect, a, idx, href))
    decreases |a| - idx
  {
    if idx == |a| {
      RenderedShift(effect, a, b, 0, href);
    } else {
      PieceStays(a, b, idx);
      var (p, next) := PieceAt(a, idx);
      var (out, after) := effect(p, href);
      RenderedParts(effect, a, b, next, after);
      Reassociate(out, RenderedFrom(effect, a, next, after),
                  RenderedFrom(effect, b, 0, StateFrom(effect, a, idx, href)));
    }
  }

  // ---- documents --------------------------------------------------------------------------------

  /** The anchor state a document leaves: None when no anchor is open. */
  function AnchorAfter(s: string): (href: Pending) {
    StateFrom(PieceEffect, s, 0, None)
  }

  predicate Whole(a: string, b: string) {
    WholeFrom(a, b, 0)
  }

  /** Rendering distributes over concatenation at a tag boundary with no anchor open. */
  lemma RenderedApart(a: string, b: string)
    requires Whole(a, b)
    ensures Rendered(a + b) == Rendered(a) + RenderedFrom(PieceEffect, b, 0, AnchorAfter(a))
    ensures AnchorAfter(a) == None ==> Rendered(a + b) == Rendered(a) + Rendered(b)
  {
    RenderedParts(PieceEffect, a, b, 0, None);
  }

  /** A tag at the front. */
  lemma {:induction false} TagFront(effect: Effect, raw: string, rest: string, href: Pending)
    requires '>' !in raw
    ensures RenderedFrom(effect, "<" + raw + ">" + rest, 0, href)
         == effect(Tag(raw), href).0 + RenderedFrom(effect, rest, 0, effect(Tag(raw), href).1)
  {
    var t := "<" + raw + ">";
    TagPiece(raw);
    RenderedParts(effect, t, rest, 0, href);
    OnePiece(effect, t, Tag(raw), href);
  }

  lemma {:induction false} OnePiece(effect: Effect, s: string, p: Piece, href: Pending)
    requires s != "" && PieceAt(s, 0) == (p, |s|)
    ensures RenderedFrom(effect, s, 0, href) == effect(p, href).0 && StateFrom(effect, s, 0, href) == effect(p, href).1
  {
    assert RenderedFrom(effect, s, |s|, effect(p, href).1) == "";
    assert effect(p, href).0 + "" == effect(p, href).0;
  }

  lemma {:induction false} TagPiece(raw: string)
    requires '>' !in raw
    ensures var t := "<" + raw + ">";
            PieceAt(t, 0) == (Tag(raw), |t|) && forall b :: WholeFrom(t, b, 0)
  {
    var t := "<" + raw + ">";
    assert t[1..1 + |raw|] == raw;
    IndexIs(t, 1, '>', 1 + |raw|);
  }

  lemma {:induction false} IndexIs(s: string, from: nat, c: char, j: nat)
    requires from <= j <= |s| && (j < |s| ==> s[j] == c)
    requires c !in s[from..j]
    ensures IndexFrom(s, from, c) == j
    decreases j - from
  {
    if from < j {
      assert s[from] == s[from..j][0] && s[from..j][1..] == s[from + 1..j];
      IndexIs(s, from + 1, c, j);
    }
  }

  /** Text at the front. */
  lemma {:induction false} TextFront(effect: Effect, text: string, rest: string, href: Pending)
    requires '<' !in text && text != "" && (rest == "" || rest[0] == '<')
    ensures RenderedFrom(effect, text + rest, 0, href)
         == effect(TextRun(text), href).0 + RenderedFrom(effect, rest, 0, effect(TextRun(text), href).1)
  {
    assert text[0..|text|] == text;
    IndexIs(text, 0, '<', |text|);
    RenderedParts(effect, text, rest, 0, href);
    OnePiece(effect, text, TextRun(text), href);
  }
}
