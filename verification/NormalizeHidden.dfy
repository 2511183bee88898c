/** What stripping is for: a comment, or an element whose text is never shown, disappears
    together with everything in it, and what is around it stays as it would without it. */
module NormalizeHidden {
  import opened Bytes
  import opened Text
  import opened NormalizeStrip
  import opened NormalizeCuts

  // ---- where no mark can straddle -----------------------------------------------------------

  /** A mark has no bracket but its first character and, if it closes, its last. */
  predicate IsMark(pat: string) {
    |pat| >= 2 && pat[0] == '<' && '<' !in pat[1..] && '>' !in pat[..|pat| - 1]
  }

  /** Between the parts a tag ends, or one starts, or there is nothing on one side. */
  predicate TagBreak(a: string, b: string) {
    a == "" || b == "" || a[|a| - 1] == '>' || b[0] == '<'
  }

  /** The characters of a mark are those of the text where it stands. */
  lemma MarkChars(low: string, j: nat, pat: string, i: nat)
    requires j <= |low| && i < |pat|
    ensures pat <= low[j..] ==> j + i < |low| && low[j + i] == pat[i]
  {
    if pat <= low[j..] {
      assert low[j..][i] == low[j + i];
    }
  }

  lemma InnerChars(pat: string, k: nat)
    requires IsMark(pat) && 0 < k < |pat|
    ensures pat[k] != '<' && pat[k - 1] != '>'
  {
    assert pat[k] == pat[1..][k - 1] && pat[k - 1] == pat[..|pat| - 1][k - 1];
  }

  lemma NoneAcross(a: string, b: string, pat: string)
    requires TagBreak(a, b) && IsMark(pat)
    ensures NoStraddle(a, b, pat)
  {
    forall i | 0 <= i < |a| < i + |pat|
      ensures !(pat <= (a + b)[i..])
    {
      MarkChars(a + b, i, pat, |a| - i);
      MarkChars(a + b, i, pat, |a| - i - 1);
      InnerChars(pat, |a| - i);
    }
  }

  lemma NoneFromText(a: string, b: string, pat: string)
    requires '<' !in a && IsMark(pat)
    ensures NoStraddle(a, b, pat)
  {
    forall i | 0 <= i < |a| < i + |pat|
      ensures !(pat <= (a + b)[i..])
    {
      MarkChars(a + b, i, pat, 0);
    }
  }

  lemma {:induction false} LowerOfTwo(a: string, b: string)
    ensures Lower(a + b) == Lower(a) + Lower(b)
  {
    var s, low := a + b, Lower(a) + Lower(b);
    forall i | 0 <= i < |s|
      ensures Lower(s)[i] == low[i]
    {
    }
  }

  lemma LowerKeepsBreak(a: string, b: string)
    requires TagBreak(a, b)
    ensures TagBreak(Lower(a), Lower(b))
  {
  }

  // ---- comments -------------------------------------------------------------------------------

  lemma CommentLaws()
    ensures Sound(SEARCH) && Local(SEARCH, ANYWHERE) && Proper(ANYWHERE, "<!--", "-->") && IsMark("<!--")
  {
    SearchIsSound();
    SearchIsLocal();
  }

  /** Every comment that starts in the text ends there. */
  ghost predicate CommentsSettled(a: string) {
    SearchIsSound();
    SettledFrom(SEARCH, ANYWHERE, a, "<!--", "-->", 0)
  }

  /** Two parts of a text are freed of their comments on their own. */
  lemma CommentsApart(a: string, b: string)
    requires CommentsSettled(a) && NoStraddle(a, b, "<!--")
    ensures WithoutComments(a + b) == WithoutComments(a) + WithoutComments(b)
  {
    CommentLaws();
    Distributes(ANYWHERE, a, b, a, b, "<!--", "-->");
  }

  /** A closing comment mark may stand anywhere before a bracket. */
  lemma NoCommentEndAcross(a: string, b: string)
    requires b != "" && b[0] == '<'
    ensures NoStraddle(a, b, "-->")
  {
    forall i | 0 <= i < |a| < i + 3
      ensures !("-->" <= (a + b)[i..])
    {
      MarkChars(a + b, i, "-->", |a| - i);
    }
  }

  lemma CommentLongEnough(m: string)
    requires OneWhole(m, "<!--", "-->")
    ensures |m| > 4 && m[0] == '<' && m[|m| - 1] == '>'
  {
    FindIsFirst(m, 0, "-->", |m| - 3);
    MarkChars(m, |m| - 3, "-->", 2);
  }

  /** A comment goes with all it holds, whatever is before and after it. */
  lemma CommentHidden(a: string, m: string, c: string)
    requires OneWhole(m, "<!--", "-->")
    ensures WithoutComments(a + (m + c)) == WithoutComments(a) + WithoutComments(c)
  {
    CommentLaws();
    CommentLongEnough(m);
    NoneAcross(a, m + c, "<!--");
    NoCommentEndAcross(a, m + c);
    SpanVanishes(ANYWHERE, a, m, c, a, m, c, "<!--", "-->");
  }

  lemma NoComment(s: string)
    requires Find(s, 0, "<!--") == None
    ensures WithoutComments(s) == s && CommentsSettled(s)
  {
    SearchIsSound();
  }

  // ---- elements of one tag ----------------------------------------------------------------------

  predicate IsTag(tag: string) {
    tag != "" && forall i :: 0 <= i < |tag| ==> 'a' <= tag[i] <= 'z'
  }

  lemma TagMarks(tag: string)
    requires IsTag(tag)
    ensures IsMark("<" + tag) && IsMark("</" + tag + ">")
  {
    var open, close := "<" + tag, "</" + tag + ">";
    assert open[1..] == tag && close[1..] == "/" + tag + ">" && close[..|close| - 1] == "</" + tag;
  }

  lemma TagLaws(tag: string)
    requires IsTag(tag)
    ensures Sound(SEARCH) && Local(SEARCH, NAME_END) && Proper(NAME_END, "<" + tag, "</" + tag + ">")
  {
    SearchIsSound();
    SearchIsLocal();
    forall x: string, y: string, k: nat | k < |x|
      ensures NAME_END(x + y, k) == NAME_END(x, k)
    {
      assert (x + y)[k] == x[k];
    }
  }

  /** Every element of the tag that starts in the text ends there. */
  ghost predicate TagSettled(a: string, tag: string) {
    SearchIsSound();
    SettledFrom(SEARCH, NAME_END, Lower(a), "<" + tag, "</" + tag + ">", 0)
  }

  /** Two parts of a text are freed of their elements on their own. */
  lemma ElementsApart(a: string, b: string, tag: string)
    requires IsTag(tag) && TagSettled(a, tag) && NoStraddle(Lower(a), Lower(b), "<" + tag)
    ensures WithoutElement(a + b, tag) == WithoutElement(a, tag) + WithoutElement(b, tag)
  {
    TagLaws(tag);
    LowerOfTwo(a, b);
    Distributes(NAME_END, a, b, Lower(a), Lower(b), "<" + tag, "</" + tag + ">");
  }

  /** m is one element of the tag, in any letter case: an opening tag, anything but the closing
      tag, and the closing tag. */
  ghost predicate OneElement(m: string, tag: string) {
    && OneWhole(Lower(m), "<" + tag, "</" + tag + ">")
    && |m| > 1 + |tag| && TagBoundary(Lower(m), 1 + |tag|)
  }

  lemma ElementBrackets(m: string, tag: string)
    requires OneElement(m, tag)
    ensures m != "" && m[0] == '<' && m[|m| - 1] == '>'
  {
    var low, close := Lower(m), "</" + tag + ">";
    FindIsFirst(low, 0, close, |m| - |close|);
    MarkChars(low, |m| - |close|, close, |close| - 1);
  }

  /** An element goes with all it holds, whatever is before and after it, unless the text before
      it ends in the bare opening mark. */
  lemma {:induction false} ElementHidden(a: string, m: string, c: string, tag: string)
    requires IsTag(tag) && OneElement(m, tag) && !EndsBare(Lower(a), "<" + tag)
    ensures WithoutElement(a + (m + c), tag) == WithoutElement(a, tag) + WithoutElement(c, tag)
  {
    TagLaws(tag);
    ElementBehind(a, m, c, tag);
    LowerOfTwo(m, c);
    LowerOfTwo(a, m + c);
    SpanVanishes(NAME_END, a, m, c, Lower(a), Lower(m), Lower(c), "<" + tag, "</" + tag + ">");
  }

  lemma {:induction false} ElementBehind(a: string, m: string, c: string, tag: string)
    requires IsTag(tag) && OneElement(m, tag) && !EndsBare(Lower(a), "<" + tag)
    ensures SpanBehind(NAME_END, Lower(a), Lower(m), Lower(c), "<" + tag, "</" + tag + ">")
  {
    TagMarks(tag);
    ElementBrackets(m, tag);
    BracketBehind(Lower(a), Lower(m), Lower(c));
    NoneAcross(Lower(a), Lower(m) + Lower(c), "<" + tag);
    NoneAcross(Lower(a), Lower(m) + Lower(c), "</" + tag + ">");
  }

  lemma BracketBehind(a: string, m: string, c: string)
    requires m != "" && m[0] == '<'
    ensures TagBreak(a, m + c)
  {
  }

  lemma NoSuchElement(s: string, tag: string)
    requires Find(Lower(s), 0, "<" + tag) == None
    ensures WithoutElement(s, tag) == s && TagSettled(s, tag)
  {
    SearchIsSound();
  }

  lemma LeadingElement(m: string, c: string, tag: string)
    requires IsTag(tag) && OneElement(m, tag)
    ensures WithoutElement(m + c, tag) == WithoutElement(c, tag)
  {
    ElementHidden("", m, c, tag);
    NothingGivesNothing(tag);
    assert "" + (m + c) == m + c && "" + WithoutElement(c, tag) == WithoutElement(c, tag);
  }

  lemma NothingGivesNothing(tag: string)
    ensures WithoutElement("", tag) == ""
  {
  }

  lemma {:induction false} LongerNameKept(find: Finder, ends: Bounds, s: string, low: string, open: string,
                                          close: string)
    requires Sound(find) && open != [] && close != [] && |s| == |low|
    requires find(low, 0, open) == Some(0) && !ends(low, |open|)
    ensures WithoutSpans(find, ends, s, low, open, close)
         == s[..|open|] + WithoutSpans(find, ends, s[|open|..], low[|open|..], open, close)
  {
  }

  /** The exception: a bare opening mark before the element is the start of a longer name to the
      server, and stays. */
  lemma BareMarkKept(a: string, o: string, m: string, c: string, tag: string)
    requires IsTag(tag) && TagSettled(a, tag) && Lower(o) == "<" + tag && OneElement(m, tag)
    ensures WithoutElement(a + (o + (m + c)), tag) == WithoutElement(a, tag) + (o + WithoutElement(c, tag))
  {
    TagMarks(tag);
    ElementBrackets(m, tag);
    var rest := m + c;
    assert Lower(o)[0] == '<' && LowerChar(o[0]) == '<';
    LowerOfTwo(o, rest);
    NoneAcross(Lower(a), Lower(o + rest), "<" + tag);
    ElementsApart(a, o + rest, tag);
    BareThen(o, rest, tag);
    LeadingElement(m, c, tag);
  }

  lemma BareThen(o: string, rest: string, tag: string)
    requires IsTag(tag) && Lower(o) == "<" + tag && rest != "" && rest[0] == '<'
    ensures WithoutElement(o + rest, tag) == o + WithoutElement(rest, tag)
  {
    var low := Lower(o + rest);
    SearchIsSound();
    LowerOfTwo(o, rest);
    AtOnce(low, "<" + tag);
    assert low[|o|] == '<' && (o + rest)[..|o|] == o && (o + rest)[|o|..] == rest && low[|o|..] == Lower(rest);
    LongerNameKept(SEARCH, NAME_END, o + rest, low, "<" + tag, "</" + tag + ">");
  }

  // ---- all stages --------------------------------------------------------------------------------

  lemma NoiseTags(k: nat)
    requires k < |NOISE_TAGS|
    ensures IsTag(NOISE_TAGS[k]) && |NOISE_TAGS[k]| >= 3
  {
  }

  /** The text before stage k, when comments and the first k tags are gone. */
  function Before(s: string, k: nat): (t: string)
    requires k <= |NOISE_TAGS|
  {
    Successively(WithoutElement, WithoutComments(s), NOISE_TAGS[..k])
  }

  lemma {:induction false} OneTagMore(strip: (string, string) -> string, s: string, tags: seq<string>, k: nat)
    requires k < |tags|
    ensures Successively(strip, s, tags[..k + 1]) == strip(Successively(strip, s, tags[..k]), tags[k])
  {
    assert tags[..k + 1][..k] == tags[..k];
  }

  lemma {:induction false} NextStage(s: string, k: nat)
    requires k < |NOISE_TAGS|
    ensures Before(s, k + 1) == WithoutElement(Before(s, k), NOISE_TAGS[k])
  {
    OneTagMore(WithoutElement, WithoutComments(s), NOISE_TAGS, k);
  }

  lemma LastStage(s: string)
    ensures Before(s, |NOISE_TAGS|) == Stripped(s) && Before(s, 0) == WithoutComments(s)
  {
    assert NOISE_TAGS[..|NOISE_TAGS|] == NOISE_TAGS;
  }

  /** At a stage, no element is open at the break and no mark straddles it. */
  ghost predicate ApartAt(a: string, c: string, k: nat)
    requires k < |NOISE_TAGS|
  {
    TagSettled(Before(a, k), NOISE_TAGS[k]) && NoStraddle(Lower(Before(a, k)), Lower(Before(c, k)), "<" + NOISE_TAGS[k])
  }

  /** So it is for comments and for the first n tags. */
  ghost predicate ApartFor(a: string, c: string, n: nat)
    requires n <= |NOISE_TAGS|
  {
    && CommentsSettled(a) && NoStraddle(a, c, "<!--")
    && forall k :: 0 <= k < n ==> ApartAt(a, c, k)
  }

  lemma {:induction false} StagesApart(a: string, c: string, n: nat)
    requires n <= |NOISE_TAGS| && ApartFor(a, c, n)
    ensures Before(a + c, n) == Before(a, n) + Before(c, n)
  {
    if n == 0 {
      CommentsApart(a, c);
    } else {
      var k := n - 1;
      StagesApart(a, c, k);
      NextStage(a + c, k);
      NextStage(a, k);
      NextStage(c, k);
      NoiseTags(k);
      assert ApartAt(a, c, k);
      ElementsApart(Before(a, k), Before(c, k), NOISE_TAGS[k]);
    }
  }

  /** Two parts of a document are stripped on their own. */
  lemma StrippedApart(a: string, c: string)
    requires ApartFor(a, c, |NOISE_TAGS|)
    ensures Stripped(a + c) == Stripped(a) + Stripped(c)
  {
    StagesApart(a, c, |NOISE_TAGS|);
    LastStage(a + c);
    LastStage(a);
    LastStage(c);
  }

  /** Stages after the first n do not care how their input came about. */
  lemma {:induction false} SameFrom(strip: (string, string) -> string, s: string, t: string, tags: seq<string>, n: nat)
    requires n <= |tags| && Successively(strip, s, tags[..n]) == Successively(strip, t, tags[..n])
    ensures Successively(strip, s, tags) == Successively(strip, t, tags)
    decreases |tags|
  {
    if n == |tags| {
      assert tags[..n] == tags;
    } else {
      var k := |tags| - 1;
      assert tags[..k][..n] == tags[..n];
      SameFrom(strip, s, t, tags[..k], n);
    }
  }

  lemma SameStripped(s: string, t: string, n: nat)
    requires n <= |NOISE_TAGS| && Before(s, n) == Before(t, n)
    ensures Stripped(s) == Stripped(t)
  {
    SameFrom(WithoutElement, WithoutComments(s), WithoutComments(t), NOISE_TAGS, n);
  }

  /** A comment leaves no trace, where the comments before it are closed and none would arise
      from what is around it. */
  lemma CommentNeverShown(a: string, m: string, c: string)
    requires OneWhole(m, "<!--", "-->") && CommentsSettled(a) && NoStraddle(a, c, "<!--")
    ensures Stripped(a + (m + c)) == Stripped(a + c)
  {
    CommentHidden(a, m, c);
    CommentsApart(a, c);
    LastStage(a + (m + c));
    LastStage(a + c);
    SameStripped(a + (m + c), a + c, 0);
  }

  // ---- an element that stays until its stage ------------------------------------------------------

  /** m has no comment and none of the first k hidden tags opens in it. */
  ghost predicate UntouchedFor(m: string, k: nat)
    requires k <= |NOISE_TAGS|
  {
    Find(m, 0, "<!--") == None && forall j :: 0 <= j < k ==> Find(Lower(m), 0, "<" + NOISE_TAGS[j]) == None
  }

  /** It is set off by its own brackets. */
  predicate Bracketed(m: string) {
    m != "" && m[0] == '<' && m[|m| - 1] == '>'
  }

  /** Everything that starts in the text before is closed there, at the comment stage and at the
      first n stages. */
  ghost predicate ClosedFor(a: string, n: nat)
    requires n <= |NOISE_TAGS|
  {
    CommentsSettled(a) && forall k :: 0 <= k < n ==> TagSettled(Before(a, k), NOISE_TAGS[k])
  }

  /** Removal around a bracketed text without the mark. */
  lemma CommentsAround(a: string, m: string, c: string)
    requires CommentsSettled(a) && Bracketed(m) && Find(m, 0, "<!--") == None
    ensures WithoutComments(a + (m + c)) == WithoutComments(a) + (m + WithoutComments(c))
  {
    NoneAcross(a, m + c, "<!--");
    CommentsApart(a, m + c);
    NoComment(m);
    NoneAcross(m, c, "<!--");
    CommentsApart(m, c);
  }

  lemma ElementsAround(a: string, m: string, c: string, tag: string)
    requires IsTag(tag) && TagSettled(a, tag) && Bracketed(m) && Find(Lower(m), 0, "<" + tag) == None
    ensures WithoutElement(a + (m + c), tag) == WithoutElement(a, tag) + (m + WithoutElement(c, tag))
  {
    TagMarks(tag);
    NoneAcross(Lower(a), Lower(m + c), "<" + tag);
    ElementsApart(a, m + c, tag);
    NoSuchElement(m, tag);
    NoneAcross(Lower(m), Lower(c), "<" + tag);
    ElementsApart(m, c, tag);
  }

  lemma {:induction false} StagesAround(a: string, m: string, c: string, n: nat)
    requires n <= |NOISE_TAGS| && ClosedFor(a, n) && Bracketed(m) && UntouchedFor(m, n)
    ensures Before(a + (m + c), n) == Before(a, n) + (m + Before(c, n))
  {
    if n == 0 {
      CommentsAround(a, m, c);
    } else {
      var k := n - 1;
      StagesAround(a, m, c, k);
      NextStage(a + (m + c), k);
      NextStage(a, k);
      NextStage(c, k);
      NoiseTags(k);
      ElementsAround(Before(a, k), m, Before(c, k), NOISE_TAGS[k]);
    }
  }

  /** Markup that is none of the hidden kinds reaches the renderer as it is. */
  lemma MarkupKept(a: string, m: string, c: string)
    requires ClosedFor(a, |NOISE_TAGS|) && Bracketed(m) && UntouchedFor(m, |NOISE_TAGS|)
    ensures Stripped(a + (m + c)) == Stripped(a) + (m + Stripped(c))
  {
    StagesAround(a, m, c, |NOISE_TAGS|);
    LastStage(a + (m + c));
    LastStage(a);
    LastStage(c);
  }

  /** An element of the k-th hidden tag leaves no trace: not in what it holds, which may be
      anything but its closing tag, a comment and the earlier tags, and not in what is around it,
      where nothing hidden is open at that place and no mark would arise from closing the gap. */
  lemma {:induction false} NoiseNeverShown(a: string, m: string, c: string, k: nat)
    requires k < |NOISE_TAGS| && OneElement(m, NOISE_TAGS[k]) && UntouchedFor(m, k) && ApartFor(a, c, k + 1)
    ensures Stripped(a + (m + c)) == Stripped(a + c)
  {
    ApartIsClosed(a, c, k + 1);
    GoneAtItsStage(a, m, c, k);
    StagesApart(a, c, k + 1);
    SameStripped(a + (m + c), a + c, k + 1);
  }

  lemma {:induction false} ApartIsClosed(a: string, c: string, n: nat)
    requires n <= |NOISE_TAGS| && ApartFor(a, c, n)
    ensures ClosedFor(a, n)
  {
    forall k | 0 <= k < n
      ensures TagSettled(Before(a, k), NOISE_TAGS[k])
    {
      assert ApartAt(a, c, k);
    }
  }

  lemma {:induction false} GoneAtItsStage(a: string, m: string, c: string, k: nat)
    requires k < |NOISE_TAGS| && OneElement(m, NOISE_TAGS[k]) && UntouchedFor(m, k) && ClosedFor(a, k + 1)
    ensures Before(a + (m + c), k + 1) == Before(a, k + 1) + Before(c, k + 1)
  {
    NoiseTags(k);
    ElementBrackets(m, NOISE_TAGS[k]);
    StagesAround(a, m, c, k);
    NextStage(a + (m + c), k);
    NextStage(a, k);
    NextStage(c, k);
    TagGone(Before(a, k), m, Before(c, k), NOISE_TAGS[k]);
  }

  lemma TagGone(a: string, m: string, c: string, tag: string)
    requires IsTag(tag) && TagSettled(a, tag) && OneElement(m, tag)
    ensures WithoutElement(a + (m + c), tag) == WithoutElement(a, tag) + WithoutElement(c, tag)
  {
    TagMarks(tag);
    ElementBrackets(m, tag);
    NoneAcross(Lower(a), Lower(m + c), "<" + tag);
    ElementsApart(a, m + c, tag);
    LeadingElement(m, c, tag);
  }

  // ---- conditions on the text alone ---------------------------------------------------------------

  lemma {:induction false} UntouchedStays(a: string, k: nat)
    requires k <= |NOISE_TAGS| && UntouchedFor(a, |NOISE_TAGS|)
    ensures Before(a, k) == a
  {
    if k == 0 {
      NoComment(a);
      LastStage(a);
    } else {
      UntouchedStays(a, k - 1);
      NextStage(a, k - 1);
      NoSuchElement(a, NOISE_TAGS[k - 1]);
    }
  }

  /** Text without hidden marks that ends a tag is apart from whatever follows. */
  lemma MarkFreeApart(a: string, c: string, n: nat)
    requires n <= |NOISE_TAGS| && UntouchedFor(a, |NOISE_TAGS|) && (a == "" || a[|a| - 1] == '>')
    ensures ApartFor(a, c, n)
  {
    NoComment(a);
    NoneAcross(a, c, "<!--");
    forall k | 0 <= k < n
      ensures ApartAt(a, c, k)
    {
      UntouchedStays(a, k);
      NoiseTags(k);
      NoSuchElement(a, NOISE_TAGS[k]);
      TagMarks(NOISE_TAGS[k]);
      NoneAcross(Lower(a), Lower(Before(c, k)), "<" + NOISE_TAGS[k]);
    }
  }

  // ---- elements as they are written ----------------------------------------------------------------

  function OpenTag(name: string, attrs: string): (t: string) {
    "<" + name + attrs + ">"
  }

  function CloseTag(name: string): (t: string) {
    "</" + name + ">"
  }

  /** Attributes, if any, are set off from the name and hold no bracket. */
  predicate IsAttrs(attrs: string) {
    '<' !in attrs && '>' !in attrs && (attrs == "" || attrs[0] in {' ', '/', '\t', '\n', '\r'})
  }

  predicate IsName(name: string) {
    name != "" && forall i :: 0 <= i < |name| ==> IsAsciiAlphanumeric(name[i])
  }

  lemma {:induction false} NowhereFound(s: string, from: nat, pat: string)
    requires from <= |s| && forall j :: from <= j <= |s| ==> !(pat <= s[j..])
    ensures Find(s, from, pat) == None
    decreases |s| - from
  {
    if from < |s| {
      NowhereFound(s, from + 1, pat);
    }
  }

  /** A text whose only bracket is its first character. */
  predicate OneBracket(low: string) {
    |low| >= 2 && low[0] == '<' && forall i :: 1 <= i < |low| ==> low[i] != '<'
  }

  lemma {:induction false} NotInTag(low: string, pat: string)
    requires OneBracket(low) && |pat| >= 2 && pat[0] == '<' && !(pat <= low)
    ensures Find(low, 0, pat) == None
  {
    forall j | 0 <= j <= |low|
      ensures !(pat <= low[j..])
    {
      MarkChars(low, j, pat, 0);
      assert j == 0 ==> low[j..] == low;
    }
    NowhereFound(low, 0, pat);
  }

  /** The parts of an opening tag by position. */
  lemma {:induction false} OpenTagParts(name: string, attrs: string, i: nat)
    requires i < |OpenTag(name, attrs)|
    ensures var u, n := OpenTag(name, attrs), |name|;
            && |u| == n + |attrs| + 2
            && u[i] == if i == 0 then '<' else if i <= n then name[i - 1]
                       else if i <= n + |attrs| then attrs[i - 1 - n] else '>'
  {
  }

  lemma {:induction false} OpenTagShape(name: string, attrs: string)
    requires IsName(name) && IsAttrs(attrs)
    ensures var u, low := OpenTag(name, attrs), Lower(OpenTag(name, attrs));
            && OneBracket(low) && |low| == |name| + |attrs| + 2
            && Lower(name) == low[1..1 + |name|] && TagBoundary(low, 1 + |name|)
            && low[|low| - 1] == '>' && low[1] != '/' && u[0] == '<' && u[|u| - 1] == '>'
  {
    var u, n := OpenTag(name, attrs), |name|;
    forall i | 0 <= i < |u|
      ensures u[i] == if i == 0 then '<' else if i <= n then name[i - 1]
                      else if i <= n + |attrs| then attrs[i - 1 - n] else '>'
    {
      OpenTagParts(name, attrs, i);
    }
    assert |u| == n + |attrs| + 2;
    assert forall i :: 1 <= i < |u| ==> u[i] != '<';
    assert Lower(u)[1..1 + n] == Lower(name);
  }

  lemma {:induction false} CloseTagShape(name: string)
    requires IsName(name)
    ensures var low := Lower(CloseTag(name));
            OneBracket(low) && low == "</" + Lower(name) + ">" && CloseTag(name)[0] == '<'
  {
    var t := CloseTag(name);
    assert t[2..2 + |name|] == name;
    assert forall i :: 2 <= i < 2 + |name| ==> t[i] == name[i - 2];
  }

  lemma {:induction false} CloseBehind(b: string, close: string)
    requires IsMark(close) && Find(b, 0, close) == None
    ensures Find(b + close, 0, close) == Some(|b|)
  {
    NoneAcross(b, close, close);
    FoundBehind(b, close, 0, close);
    AtOnce(close, close);
  }

  lemma {:induction false} CloseAtEnd(u: string, b: string, close: string)
    requires IsMark(close) && u != "" && u[|u| - 1] == '>' && Find(u, 0, close) == None && Find(b, 0, close) == None
    ensures Find(u + (b + close), 0, close) == Some(|u| + |b|)
  {
    CloseBehind(b, close);
    NoneAcross(u, b + close, close);
    FoundBehind(u, b + close, 0, close);
  }

  lemma {:induction false} OneElementOf(u: string, b: string, tag: string)
    requires IsTag(tag) && OneBracket(u) && |u| > 1 + |tag| && u[1..1 + |tag|] == tag && TagBoundary(u, 1 + |tag|)
    requires u[|u| - 1] == '>' && Find(b, 0, "</" + tag + ">") == None
    ensures var low := u + (b + ("</" + tag + ">"));
            OneWhole(low, "<" + tag, "</" + tag + ">") && TagBoundary(low, 1 + |tag|)
  {
    var close := "</" + tag + ">";
    TagMarks(tag);
    assert u[1] == tag[0] by {
      assert u[1] == u[1..1 + |tag|][0];
    }
    NotInTag(u, close);
    CloseAtEnd(u, b, close);
    assert u[..1 + |tag|] == "<" + tag;
    assert "<" + tag <= u + (b + close);
  }

  /** An opening tag, any text without the closing tag, and the closing tag make one element. */
  lemma {:induction false} WrittenElement(name: string, attrs: string, b: string, tag: string)
    requires IsTag(tag) && IsName(name) && Lower(name) == tag && IsAttrs(attrs)
    requires Find(Lower(b), 0, "</" + tag + ">") == None
    ensures OneElement(OpenTag(name, attrs) + (b + CloseTag(name)), tag)
  {
    var u, t := OpenTag(name, attrs), CloseTag(name);
    OpenTagShape(name, attrs);
    CloseTagShape(name);
    LowerOfTwo(b, t);
    LowerOfTwo(u, b + t);
    OneElementOf(Lower(u), Lower(b), tag);
  }

  // ---- texts without a mark, put together ------------------------------------------------------------

  lemma {:induction false} MarkFreeParts(low: string, lowB: string, mark: string)
    requires IsMark(mark) && Find(low, 0, mark) == None && Find(lowB, 0, mark) == None
    requires TagBreak(low, lowB) || '<' !in low
    ensures Find(low + lowB, 0, mark) == None
  {
    if TagBreak(low, lowB) {
      NoneAcross(low, lowB, mark);
    } else {
      NoneFromText(low, lowB, mark);
    }
    FoundBehind(low, lowB, 0, mark);
  }

  /** A tag, text and a closing tag hold a mark only if one of them does. */
  lemma {:induction false} MarkFreeWrapped(u: string, b: string, t: string, mark: string)
    requires IsMark(mark) && Bracketed(u) && Bracketed(t)
    requires Find(u, 0, mark) == None && Find(b, 0, mark) == None && Find(t, 0, mark) == None
    ensures Find(u + (b + t), 0, mark) == None
  {
    MarkFreeParts(b, t, mark);
    MarkFreeParts(u, b + t, mark);
  }

  /** A tag whose name the first n hidden tags do not start. */
  ghost predicate TagUntouched(u: string, n: nat)
    requires n <= |NOISE_TAGS|
  {
    OneBracket(Lower(u)) && OneBracket(u) && Bracketed(u) && !("<!--" <= u)
    && forall j :: 0 <= j < n ==> !("<" + NOISE_TAGS[j] <= Lower(u))
  }

  lemma {:induction false} TagFreeWrapped(u: string, b: string, t: string, tag: string)
    requires IsTag(tag) && Bracketed(u) && Bracketed(t) && OneBracket(Lower(u)) && OneBracket(Lower(t))
    requires !("<" + tag <= Lower(u)) && !("<" + tag <= Lower(t)) && Find(Lower(b), 0, "<" + tag) == None
    ensures Find(Lower(u) + (Lower(b) + Lower(t)), 0, "<" + tag) == None
  {
    TagMarks(tag);
    NotInTag(Lower(u), "<" + tag);
    NotInTag(Lower(t), "<" + tag);
    MarkFreeWrapped(Lower(u), Lower(b), Lower(t), "<" + tag);
  }

  lemma {:induction false} WrappedUntouched(u: string, b: string, t: string, n: nat)
    requires n <= |NOISE_TAGS| && TagUntouched(u, n) && TagUntouched(t, n) && UntouchedFor(b, n)
    ensures UntouchedFor(u + (b + t), n)
  {
    NotInTag(u, "<!--");
    NotInTag(t, "<!--");
    MarkFreeWrapped(u, b, t, "<!--");
    LowerOfTwo(b, t);
    LowerOfTwo(u, b + t);
    forall j | 0 <= j < n
      ensures Find(Lower(u + (b + t)), 0, "<" + NOISE_TAGS[j]) == None
    {
      NoiseTags(j);
      TagFreeWrapped(u, b, t, NOISE_TAGS[j]);
    }
  }

  lemma {:induction false} TextUntouched(b: string, n: nat)
    requires n <= |NOISE_TAGS| && '<' !in b
    ensures UntouchedFor(b, n)
  {
    NotFound(b, 0, "<!--");
    LowerKeepsTagFree(b);
    forall j | 0 <= j < n
      ensures Find(Lower(b), 0, "<" + NOISE_TAGS[j]) == None
    {
      NotFound(Lower(b), 0, "<" + NOISE_TAGS[j]);
    }
  }

  lemma NoiseTagsDiffer(k: nat, j: nat)
    requires j < k < |NOISE_TAGS|
    ensures NOISE_TAGS[j][0] != NOISE_TAGS[k][0] || NOISE_TAGS[j][1] != NOISE_TAGS[k][1]
  {
  }

  /** The tags of an element of the k-th hidden tag are none of an earlier one. */
  lemma {:induction false} OwnTagsUntouched(name: string, attrs: string, k: nat)
    requires k < |NOISE_TAGS| && IsName(name) && IsAttrs(attrs) && Lower(name) == NOISE_TAGS[k]
    ensures TagUntouched(OpenTag(name, attrs), k) && TagUntouched(CloseTag(name), k)
  {
    var u, t := OpenTag(name, attrs), CloseTag(name);
    OpenTagShape(name, attrs);
    CloseTagShape(name);
    NoiseTags(k);
    BracketsOfLower(u);
    BracketsOfLower(t);
    var low := Lower(u);
    assert low[1] == low[1..1 + |name|][0] && low[2] == low[1..1 + |name|][1];
    assert u[1] == name[0] by {
      OpenTagParts(name, attrs, 1);
    }
    assert t[1] == '/' && t[|t| - 1] == '>';
    forall j | 0 <= j < k
      ensures !("<" + NOISE_TAGS[j] <= low) && !("<" + NOISE_TAGS[j] <= Lower(t))
    {
      NoiseTagsDiffer(k, j);
      NoiseTags(j);
      assert ("<" + NOISE_TAGS[j])[1] == NOISE_TAGS[j][0] && ("<" + NOISE_TAGS[j])[2] == NOISE_TAGS[j][1];
    }
  }

  lemma BracketsOfLower(u: string)
    requires OneBracket(Lower(u))
    ensures OneBracket(u)
  {
  }

  // ---- letter case, names and tags, spelled out ---------------------------------------------------

  /** The name is the tag with any of its letters in capitals. */
  predicate AnyCase(name: string, tag: string) {
    |name| == |tag| && forall i :: 0 <= i < |tag| ==> name[i] == tag[i] || name[i] as int == tag[i] as int - 32
  }

  lemma {:induction false} AnyCaseIsTag(name: string, tag: string)
    requires IsTag(tag)
    ensures AnyCase(name, tag) <==> Lower(name) == tag
  {
    if Lower(name) == tag {
      forall i | 0 <= i < |tag|
        ensures name[i] == tag[i] || name[i] as int == tag[i] as int - 32
      {
        assert LowerChar(name[i]) == tag[i];
      }
    }
  }

  lemma {:induction false} HiddenTags(k: nat)
    requires k < |NOISE_TAGS|
    ensures NOISE_TAGS[k] == if k == 0 then "script" else if k == 1 then "style" else if k == 2 then "head"
                             else if k == 3 then "noscript" else "svg"
    ensures |NOISE_TAGS| == 5
  {
  }

  /** A mark that goes on with anything but a bracket, a slash or white space is no mark of the tag. */
  lemma {:induction false} OtherNameKept(o: string, rest: string, tag: string)
    requires IsTag(tag) && Lower(o) == "<" + tag && rest != ""
    requires rest[0] !in {'>', '/', ' ', '\t', '\n', '\r'}
    ensures WithoutElement(o + rest, tag) == o + WithoutElement(rest, tag)
  {
    TagLaws(tag);
    LowerOfTwo(o, rest);
    var low := Lower(o) + Lower(rest);
    AtOnce(low, "<" + tag);
    assert low[|o|] == LowerChar(rest[0]);
    assert (o + rest)[..|o|] == o && (o + rest)[|o|..] == rest && low[|o|..] == Lower(rest);
    LongerNameKept(SEARCH, NAME_END, o + rest, low, "<" + tag, "</" + tag + ">");
  }
}
