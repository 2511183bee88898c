/** When no opening mark of a hidden element is left in the output: removal can join what was
    apart, and a mark that arises so is not looked for again. */
module NormalizeLeftover {
  import opened Bytes
  import opened Text
  import opened NormalizeStrip
  import opened NormalizeCuts
  import opened NormalizeHidden

  /** An opening tag with this mark stands at i. */
  predicate Opening(low: string, i: nat, mark: string) {
    i <= |low| && mark <= low[i..] && TagBoundary(low, i + |mark|)
  }

  ghost predicate NoOpening(low: string, mark: string) {
    forall i: nat :: i <= |low| ==> !Opening(low, i, mark)
  }

  // ---- openings in texts that share a part --------------------------------------------------

  lemma OpeningInRest(a: string, b: string, p: nat, mark: string)
    requires p <= |b|
    ensures Opening(a + b, |a| + p, mark) == Opening(b, p, mark)
  {
    assert (a + b)[|a| + p..] == b[p..];
  }

  /** Two texts with the same front have the same openings well within it. */
  lemma OpeningInFront(x: string, y: string, z: string, p: nat, mark: string)
    requires p + |mark| < |x|
    ensures Opening(x + y, p, mark) == Opening(x + z, p, mark)
  {
    PrefixOfFront(x, y, p, mark);
    PrefixOfFront(x, z, p, mark);
  }

  /** An opening that starts in the front and reaches its end shows the front ending in a part. */
  lemma OpeningReachesOut(x: string, y: string, p: nat, mark: string)
    requires p < |x| <= p + |mark| && Opening(x + y, p, mark)
    ensures EndsInPart(x, mark)
  {
    var k := |x| - p;
    assert (x + y)[p..][..k] == x[p..];
    assert x[|x| - k..] == mark[..k];
  }

  // ---- one stage ------------------------------------------------------------------------------

  /** No cut is made where the text kept so far ends in a part of the mark. */
  ghost predicate CleanFrom(low: string, cuts: Cuts, mark: string, front: string, i: nat)
    requires Advances(cuts, |low|)
    decreases |low| - i
  {
    i < |low| ==>
      var (end, next) := cuts(i);
      && (next > end ==> !EndsInPart(front + low[i..end], mark))
      && CleanFrom(low, cuts, mark, front + low[i..end], next)
  }

  /** No opening starts in a piece that is kept. */
  ghost predicate PiecesClean(low: string, cuts: Cuts, mark: string)
    requires Advances(cuts, |low|)
  {
    forall i: nat, p: nat :: i <= p < |low| && p < cuts(i).0 ==> !Opening(low, p, mark)
  }

  /** No opening starts in the front, when the text from i on follows it. */
  ghost predicate FrontClean(low: string, front: string, i: nat, mark: string)
    requires i <= |low|
  {
    forall p: nat :: p < |front| ==> !Opening(front + low[i..], p, mark)
  }

  lemma FrontGrows(low: string, front: string, i: nat, end: nat, mark: string)
    requires i <= end <= |low| && FrontClean(low, front, i, mark)
    requires forall p: nat :: i <= p < end ==> !Opening(low, p, mark)
    ensures FrontClean(low, front + low[i..end], end, mark)
  {
    var grown := front + low[i..end];
    assert grown + low[end..] == front + low[i..];
    assert low[..i] + low[i..] == low;
    forall p: nat | p < |grown|
      ensures !Opening(grown + low[end..], p, mark)
    {
      if p >= |front| {
        OpeningInRest(front, low[i..], p - |front|, mark);
        OpeningInRest(low[..i], low[i..], p - |front|, mark);
      }
    }
  }

  lemma FrontSurvivesCut(low: string, front: string, end: nat, next: nat, mark: string)
    requires end <= next <= |low| && FrontClean(low, front, end, mark) && !EndsInPart(front, mark)
    ensures FrontClean(low, front, next, mark)
  {
    forall p: nat | p < |front|
      ensures !Opening(front + low[next..], p, mark)
    {
      if p + |mark| < |front| {
        OpeningInFront(front, low[next..], low[end..], p, mark);
      } else if Opening(front + low[next..], p, mark) {
        OpeningReachesOut(front, low[next..], p, mark);
      }
    }
  }

  lemma {:induction false} NoneLeft(low: string, cuts: Cuts, want: nat -> string, mark: string, front: string, i: nat)
    requires Advances(cuts, |low|) && Unrolls(low, cuts, want) && i <= |low| && mark != ""
    requires PiecesClean(low, cuts, mark) && FrontClean(low, front, i, mark) && CleanFrom(low, cuts, mark, front, i)
    ensures NoOpening(front + want(i), mark)
    decreases |low| - i
  {
    if i == |low| {
      assert front + low[i..] == front && front + want(i) == front;
    } else {
      var (end, next) := cuts(i);
      var grown := front + low[i..end];
      FrontGrows(low, front, i, end, mark);
      if next > end {
        FrontSurvivesCut(low, grown, end, next, mark);
      }
      NoneLeft(low, cuts, want, mark, grown, next);
      Reassociate(front, low[i..end], want(next));
    }
  }

  /** Removal and lower-casing commute. */
  lemma {:induction false} LowerWant(s: string, low: string, cuts: Cuts, want: nat -> string, wantLow: nat -> string,
                                     i: nat)
    requires low == Lower(s) && Advances(cuts, |s|) && Unrolls(s, cuts, want) && Unrolls(low, cuts, wantLow) && i <= |s|
    ensures Lower(want(i)) == wantLow(i)
    decreases |s| - i
  {
    if i < |s| {
      var (end, next) := cuts(i);
      LowerWant(s, low, cuts, want, wantLow, next);
      LowerOfTwo(s[i..end], want(next));
      assert Lower(s[i..end]) == low[i..end];
    }
  }

  /** The cuts that `strip_element` makes in a text. */
  ghost function TagCuts(s: string, tag: string): (cuts: Cuts)
    ensures Advances(cuts, |s|)
  {
    SearchIsSound();
    CutsOf(SEARCH, NAME_END, Lower(s), "<" + tag, "</" + tag + ">")
  }

  /** What is kept of the lower-cased text, from each position on. */
  lemma KeptLow(s: string, tag: string) returns (want: nat -> string)
    requires IsTag(tag)
    ensures Unrolls(Lower(s), TagCuts(s, tag), want) && want(0) == Lower(WithoutElement(s, tag))
  {
    var low, open, close := Lower(s), "<" + tag, "</" + tag + ">";
    TagLaws(tag);
    SpansUnroll(SEARCH, NAME_END, s, low, open, close);
    SpansUnroll(SEARCH, NAME_END, low, low, open, close);
    var cuts, all := TagCuts(s, tag), KeptFrom(SEARCH, NAME_END, s, low, open, close);
    want := KeptFrom(SEARCH, NAME_END, low, low, open, close);
    LowerWant(s, low, cuts, all, want, 0);
    assert s[0..] == s && low[0..] == low;
  }

  /** In the pieces a stage keeps, its own mark does not open. */
  lemma {:induction false} OwnPiece(low: string, tag: string, i: nat, p: nat)
    requires IsTag(tag) && i <= p < |low| && p < Cut(SEARCH, NAME_END, low, "<" + tag, "</" + tag + ">", i).0
    ensures !Opening(low, p, "<" + tag)
  {
    var open := "<" + tag;
    TagMarks(tag);
    FindIsFirst(low, i, open, p);
    var found := Find(low, i, open);
    if found.Some? && found.value < p {
      var at := found.value;
      FindIsFirst(low, i, open, at);
      MarkChars(low, at, open, p - at);
      MarkChars(low, p, open, 0);
      InnerChars(open, p - at);
    }
  }

  /** The stage of a tag makes no cut where the text kept so far ends in a part of the other tag's
      opening mark. */
  ghost predicate CleanCuts(s: string, tag: string, other: string) {
    CleanFrom(Lower(s), TagCuts(s, tag), "<" + other, "", 0)
  }

  /** Then it leaves no opening of its own tag. */
  lemma NoOpeningLeft(s: string, tag: string)
    requires IsTag(tag) && CleanCuts(s, tag, tag)
    ensures NoOpening(Lower(WithoutElement(s, tag)), "<" + tag)
  {
    var low, cuts := Lower(s), TagCuts(s, tag);
    forall i: nat, p: nat | i <= p < |low| && p < cuts(i).0
      ensures !Opening(low, p, "<" + tag)
    {
      OwnPiece(low, tag, i, p);
    }
    var want := KeptLow(s, tag);
    NoneLeft(low, cuts, want, "<" + tag, "", 0);
    assert "" + want(0) == want(0);
  }

  /** And it brings no opening of another tag about. */
  lemma NoOpeningArises(s: string, tag: string, other: string)
    requires IsTag(tag) && NoOpening(Lower(s), "<" + other) && CleanCuts(s, tag, other)
    ensures NoOpening(Lower(WithoutElement(s, tag)), "<" + other)
  {
    var want := KeptLow(s, tag);
    NoneLeft(Lower(s), TagCuts(s, tag), want, "<" + other, "", 0);
    assert "" + want(0) == want(0);
  }

  // ---- all stages -------------------------------------------------------------------------------

  /** Stage k makes no cut where the text kept so far ends in a part of the j-th mark. */
  ghost predicate StageClean(s: string, k: nat, j: nat)
    requires k < |NOISE_TAGS| && j < |NOISE_TAGS|
  {
    CleanCuts(Before(s, k), NOISE_TAGS[k], NOISE_TAGS[j])
  }

  /** No stage does so for its own mark or an earlier one. */
  ghost predicate AllCutsClean(s: string) {
    forall k: nat, j: nat :: j <= k < |NOISE_TAGS| ==> StageClean(s, k, j)
  }

  lemma StageKeepsClean(x: string, tag: string, other: string)
    requires IsTag(tag) && CleanCuts(x, tag, other) && (tag == other || NoOpening(Lower(x), "<" + other))
    ensures NoOpening(Lower(WithoutElement(x, tag)), "<" + other)
  {
    if tag == other {
      NoOpeningLeft(x, tag);
    } else {
      NoOpeningArises(x, tag, other);
    }
  }

  ghost predicate NoneOf(s: string, k: nat, j: nat)
    requires k <= |NOISE_TAGS| && j < |NOISE_TAGS|
  {
    NoOpening(Lower(Before(s, k)), "<" + NOISE_TAGS[j])
  }

  lemma StageOn(s: string, k: nat, j: nat)
    requires j <= k < |NOISE_TAGS| && StageClean(s, k, j) && (j == k || NoneOf(s, k, j))
    ensures NoneOf(s, k + 1, j)
  {
    NoiseTags(k);
    NextStage(s, k);
    StageKeepsClean(Before(s, k), NOISE_TAGS[k], NOISE_TAGS[j]);
  }

  lemma {:induction false} NoneAfterStage(s: string, k: nat, j: nat)
    requires AllCutsClean(s) && j < k <= |NOISE_TAGS|
    ensures NoneOf(s, k, j)
    decreases k
  {
    if j < k - 1 {
      NoneAfterStage(s, k - 1, j);
    }
    StageOn(s, k - 1, j);
  }

  /** Then no hidden element opens in what is left. */
  lemma HiddenAllGone(s: string, j: nat)
    requires AllCutsClean(s) && j < |NOISE_TAGS|
    ensures NoOpening(Lower(Stripped(s)), "<" + NOISE_TAGS[j])
  {
    NoneAfterStage(s, |NOISE_TAGS|, j);
    LastStage(s);
  }

  // ---- the condition cannot be weakened to less than it says -----------------------------------------

  lemma PartCompleted(a: string, mark: string, k: nat)
    requires 1 <= k <= |mark| && k <= |a| && a[|a| - k..] == mark[..k]
    ensures Opening(a + (mark[k..] + ">"), |a| - k, mark)
  {
    var c, p := mark[k..] + ">", |a| - k;
    assert (a + c)[p..] == a[p..] + c == mark[..k] + (mark[k..] + ">");
    assert mark[..k] + (mark[k..] + ">") == mark + ">";
    assert (a + c)[p..][|mark|] == '>';
  }

  lemma NoBracketNoOpening(c: string, mark: string)
    requires IsMark(mark) && '<' !in c
    ensures NoOpening(c, mark)
  {
    forall i: nat | i <= |c|
      ensures !Opening(c, i, mark)
    {
      MarkChars(c, i, mark, 0);
    }
  }

  lemma NoBracketLater(mark: string, k: nat)
    requires IsMark(mark) && 1 <= k <= |mark|
    ensures '<' !in mark[k..] + ">"
  {
    forall i | k <= i < |mark|
      ensures mark[i] != '<'
    {
      InnerChars(mark, i);
    }
  }

  /** Closing a gap after a text is safe, whatever follows the gap, exactly when the text does not
      end in a part of the mark. */
  lemma SafeCutIff(a: string, tag: string)
    requires IsTag(tag) && NoOpening(a, "<" + tag)
    ensures (forall c: string :: NoOpening(c, "<" + tag) ==> NoOpening(a + c, "<" + tag))
            <==> !EndsInPart(a, "<" + tag)
  {
    var mark := "<" + tag;
    TagMarks(tag);
    if EndsInPart(a, mark) {
      var k: nat :| 1 <= k <= |mark| && k <= |a| && a[|a| - k..] == mark[..k];
      var c := mark[k..] + ">";
      NoBracketLater(mark, k);
      NoBracketNoOpening(c, mark);
      PartCompleted(a, mark, k);
      assert !NoOpening(a + c, mark);
    } else {
      forall c: string | NoOpening(c, mark)
        ensures NoOpening(a + c, mark)
      {
        SafeCut(a, c, mark);
      }
    }
  }

  lemma SafeCut(a: string, c: string, mark: string)
    requires mark != "" && NoOpening(a, mark) && NoOpening(c, mark) && !EndsInPart(a, mark)
    ensures NoOpening(a + c, mark)
  {
    forall i: nat | i <= |a + c|
      ensures !Opening(a + c, i, mark)
    {
      if i >= |a| {
        OpeningInRest(a, c, i - |a|, mark);
      } else if i + |mark| < |a| {
        assert a + "" == a;
        OpeningInFront(a, c, "", i, mark);
      } else if Opening(a + c, i, mark) {
        OpeningReachesOut(a, c, i, mark);
      }
    }
  }

  // ---- a mark that arises ---------------------------------------------------------------------------

  function Mark(i: nat): (mark: string)
    requires i < |NOISE_TAGS|
  {
    "<" + NOISE_TAGS[i]
  }

  lemma {:induction false} MarkShape(i: nat)
    requires i < |NOISE_TAGS|
    ensures IsMark(Mark(i)) && |Mark(i)| >= 4 && Lower(Mark(i)) == Mark(i)
  {
    NoiseTags(i);
    TagMarks(NOISE_TAGS[i]);
  }

  lemma {:induction false} MarksDiffer(i: nat, t: nat)
    requires i < |NOISE_TAGS| && t < |NOISE_TAGS| && i != t
    ensures |Mark(i)| >= 3 && |Mark(t)| >= 3 && (Mark(i)[1] != Mark(t)[1] || Mark(i)[2] != Mark(t)[2])
  {
    NoiseTags(i);
    NoiseTags(t);
    if i < t {
      NoiseTagsDiffer(t, i);
    } else {
      NoiseTagsDiffer(i, t);
    }
  }

  /** A text that starts like one mark, with no other bracket, holds no other mark. */
  lemma {:induction false} OnlyThatMark(low: string, i: nat, k: nat, t: nat)
    requires i < |NOISE_TAGS| && t < |NOISE_TAGS| && k <= |Mark(i)| && k <= |low| && low[..k] == Mark(i)[..k]
    requires (forall p :: 1 <= p < |low| ==> low[p] != '<')
             && (if i == t then |low| < |Mark(t)| else k >= 3 || |low| < 3)
    ensures Find(low, 0, Mark(t)) == None
  {
    MarkShape(t);
    if i != t {
      MarksDiffer(i, t);
    }
    assert k >= 3 ==> low[1] == low[..k][1] && low[2] == low[..k][2];
    forall p | 0 <= p <= |low|
      ensures !(Mark(t) <= low[p..])
    {
      MarkChars(low, p, Mark(t), 0);
      MarkChars(low, p, Mark(t), 1);
      MarkChars(low, p, Mark(t), 2);
    }
    NowhereFound(low, 0, Mark(t));
  }

  lemma {:induction false} StageSame(s: string, y: string, k: nat)
    requires k < |NOISE_TAGS| && Before(s, k) == y && Find(Lower(y), 0, Mark(k)) == None
    ensures Before(s, k + 1) == y
  {
    NextStage(s, k);
    NoSuchElement(y, NOISE_TAGS[k]);
  }

  ghost predicate Missing(y: string, n: nat) {
    forall t :: n <= t < |NOISE_TAGS| ==> Find(Lower(y), 0, Mark(t)) == None
  }

  lemma {:induction false} StaysFrom(s: string, y: string, n: nat)
    requires n <= |NOISE_TAGS| && Before(s, n) == y && Missing(y, n)
    ensures Before(s, |NOISE_TAGS|) == y
    decreases |NOISE_TAGS| - n
  {
    if n < |NOISE_TAGS| {
      StageSame(s, y, n);
      StaysFrom(s, y, n + 1);
    }
  }

  /** A first part of a mark is no mark itself. */
  lemma {:induction false} PartUntouched(i: nat, k: nat)
    requires i < |NOISE_TAGS| && 1 <= k < |Mark(i)|
    ensures UntouchedFor(Mark(i)[..k], |NOISE_TAGS|)
  {
    var a := Mark(i)[..k];
    MarkShape(i);
    assert Lower(a) == a;
    forall p | 1 <= p < |a|
      ensures a[p] != '<'
    {
      InnerChars(Mark(i), p);
    }
    assert a[..k] == a;
    forall t | 0 <= t < |NOISE_TAGS|
      ensures Find(Lower(a), 0, "<" + NOISE_TAGS[t]) == None
    {
      OnlyThatMark(a, i, k, t);
    }
    NoCommentIn(a);
  }

  lemma {:induction false} NoCommentIn(a: string)
    requires (forall p :: 1 <= p < |a| ==> a[p] != '<') && (|a| >= 2 ==> a[1] != '!')
    ensures Find(a, 0, "<!--") == None
  {
    forall p | 0 <= p <= |a|
      ensures !("<!--" <= a[p..])
    {
      MarkChars(a, p, "<!--", 0);
      MarkChars(a, p, "<!--", 1);
    }
    NowhereFound(a, 0, "<!--");
  }

  lemma {:induction false} LaterFree(mark: string, x: string, y: string)
    requires IsMark(mark) && '<' !in x && y == mark + (">" + x)
    ensures forall p :: 1 <= p < |y| ==> y[p] != '<'
  {
    forall p | 1 <= p < |y|
      ensures y[p] != '<'
    {
      if p < |mark| {
        InnerChars(mark, p);
      } else {
        assert y[p] == (">" + x)[p - |mark|];
      }
    }
  }

  lemma {:induction false} CompletedMark(i: nat, k: nat, x: string, c: string, y: string)
    requires i < |NOISE_TAGS| && 1 <= k < |Mark(i)| && '<' !in x
    requires c == Mark(i)[k..] + (">" + x) && y == Mark(i) + (">" + x)
    ensures '<' !in c && Mark(i)[..k] + c == y
  {
    MarkShape(i);
    NoBracketLater(Mark(i), k);
  }

  lemma {:induction false} NoOtherMark(i: nat, x: string, y: string, t: nat)
    requires i < |NOISE_TAGS| && t < |NOISE_TAGS| && t != i && '<' !in x && y == Mark(i) + (">" + x)
    ensures Find(Lower(y), 0, Mark(t)) == None
  {
    var mark, low := Mark(i), Lower(y);
    MarkShape(i);
    LowerOfTwo(mark, ">" + x);
    LaterFree(mark, x, y);
    assert low[..|mark|] == mark[..|mark|];
    OnlyThatMark(low, i, |mark|, t);
  }

  /** Removal can bring a hidden tag about: wherever an element of the same or a later hidden tag
      stands inside an opening mark, what is left starts with that mark, and shows its text. */
  lemma {:induction false} MarkArises(i: nat, j: nat, k: nat, m: string, x: string)
    requires i <= j < |NOISE_TAGS| && 1 <= k < |Mark(i)| && '<' !in x
    requires OneElement(m, NOISE_TAGS[j]) && UntouchedFor(m, j)
    ensures Stripped(Mark(i)[..k] + (m + (Mark(i)[k..] + (">" + x)))) == Mark(i) + (">" + x)
  {
    var a, c, y := Mark(i)[..k], Mark(i)[k..] + (">" + x), Mark(i) + (">" + x);
    PartUntouched(i, k);
    CompletedMark(i, k, x, c, y);
    forall t | j + 1 <= t < |NOISE_TAGS|
      ensures Find(Lower(y), 0, Mark(t)) == None
    {
      NoOtherMark(i, x, y, t);
    }
    TextUntouched(c, |NOISE_TAGS|);
    UntouchedClosed(a, j + 1);
    GoneAtItsStage(a, m, c, j);
    UntouchedStays(a, j + 1);
    UntouchedStays(c, j + 1);
    StaysFrom(a + (m + c), a + c, j + 1);
    LastStage(a + (m + c));
  }

  lemma {:induction false} UntouchedClosed(a: string, n: nat)
    requires n <= |NOISE_TAGS| && UntouchedFor(a, |NOISE_TAGS|)
    ensures ClosedFor(a, n)
  {
    NoComment(a);
    forall k | 0 <= k < n
      ensures TagSettled(Before(a, k), NOISE_TAGS[k])
    {
      UntouchedStays(a, k);
      NoSuchElement(a, NOISE_TAGS[k]);
    }
  }

  // ---- one element in a document ----------------------------------------------------------------------

  lemma {:induction false} LowerEnd(i: nat, q: nat)
    requires i < |NOISE_TAGS| && q <= |Mark(i)|
    ensures Lower(Mark(i)[q..] + ">") == Mark(i)[q..] + ">"
  {
    MarkShape(i);
    assert forall p :: 0 <= p < |Mark(i)| ==> Lower(Mark(i))[p] == LowerChar(Mark(i)[p]);
  }

  /** The end of a mark, after a text that ends in its beginning. */
  lemma {:induction false} MarkCompleted(x: string, i: nat) returns (c: string)
    requires i < |NOISE_TAGS| && EndsInPart(x, Mark(i))
    ensures UntouchedFor(c, |NOISE_TAGS|) && NoOpening(Lower(c), Mark(i)) && !NoOpening(x + Lower(c), Mark(i))
  {
    MarkShape(i);
    var q: nat :| 1 <= q <= |Mark(i)| && q <= |x| && x[|x| - q..] == Mark(i)[..q];
    c := Mark(i)[q..] + ">";
    LowerEnd(i, q);
    NoBracketLater(Mark(i), q);
    NoBracketNoOpening(c, Mark(i));
    TextUntouched(c, |NOISE_TAGS|);
    PartCompleted(x, Mark(i), q);
  }

  /** No opening of the i-th hidden mark is left after stage k. */
  ghost predicate NoneAfter(s: string, k: nat, i: nat)
    requires k < |NOISE_TAGS| && i < |NOISE_TAGS|
  {
    NoOpening(Lower(Before(s, k + 1)), Mark(i))
  }

  lemma {:induction false} GapSafe(a: string, m: string, c: string, k: nat, i: nat)
    requires k < |NOISE_TAGS| && i < |NOISE_TAGS| && OneElement(m, NOISE_TAGS[k]) && UntouchedFor(m, k)
    requires ClosedFor(a, k + 1) && NoneAfter(a, k, i) && NoneAfter(c, k, i)
    requires !EndsInPart(Lower(Before(a, k + 1)), Mark(i))
    ensures NoneAfter(a + (m + c), k, i)
  {
    MarkShape(i);
    GoneAtItsStage(a, m, c, k);
    LowerOfTwo(Before(a, k + 1), Before(c, k + 1));
    SafeCut(Lower(Before(a, k + 1)), Lower(Before(c, k + 1)), Mark(i));
  }

  lemma {:induction false} GapUnsafe(a: string, m: string, k: nat, i: nat) returns (c: string)
    requires k < |NOISE_TAGS| && i < |NOISE_TAGS| && OneElement(m, NOISE_TAGS[k]) && UntouchedFor(m, k)
    requires ClosedFor(a, k + 1) && EndsInPart(Lower(Before(a, k + 1)), Mark(i))
    ensures NoneAfter(c, k, i) && !NoneAfter(a + (m + c), k, i)
  {
    c := MarkCompleted(Lower(Before(a, k + 1)), i);
    UntouchedStays(c, k + 1);
    GoneAtItsStage(a, m, c, k);
    LowerOfTwo(Before(a, k + 1), c);
  }

  /** Removing an element in a document is safe, whatever comes after it, exactly when what is kept
      before it does not end in a part of an opening mark. */
  lemma {:induction false} GapSafeIff(a: string, m: string, k: nat, i: nat)
    requires k < |NOISE_TAGS| && i < |NOISE_TAGS| && OneElement(m, NOISE_TAGS[k]) && UntouchedFor(m, k)
    requires ClosedFor(a, k + 1) && NoneAfter(a, k, i)
    ensures (forall c: string :: NoneAfter(c, k, i) ==> NoneAfter(a + (m + c), k, i))
            <==> !EndsInPart(Lower(Before(a, k + 1)), Mark(i))
  {
    if EndsInPart(Lower(Before(a, k + 1)), Mark(i)) {
      var c := GapUnsafe(a, m, k, i);
    } else {
      forall c: string | NoneAfter(c, k, i)
        ensures NoneAfter(a + (m + c), k, i)
      {
        GapSafe(a, m, c, k, i);
      }
    }
  }
}
