/** Elements inside elements of their kind: removal by tag agrees with removing the elements
    from the document tree exactly where none lies inside another. */
module NormalizeNested {
  import opened Bytes
  import opened Text
  import opened NormalizeStrip
  import opened NormalizeCuts
  import opened NormalizeHidden

  // ---- more on settled texts ----------------------------------------------------------------

  /** What a turn of the search finds: nothing more, an element that stays open, or where to go on. */
  datatype Step = Done | Stuck | On(next: nat)

  function StepAt(find: Finder, ends: Bounds, low: string, open: string, close: string, i: nat): (s: Step)
    ensures Sound(find) && open != [] && close != [] && s.On? ==> i < s.next <= |low|
  {
    match find(low, i, open)
    case None => Done
    case Some(at) =>
      if !ends(low, at + |open|) then On(at + |open|)
      else
        match find(low, at, close)
        case None => Stuck
        case Some(end) => On(end + |close|)
  }

  type Steps = nat -> Step

  /** settled(i) says whether the steps from i on come to an end. */
  ghost predicate Follows(steps: Steps, settled: nat -> bool) {
    forall i: nat :: settled(i) == match steps(i)
                                   case Done => true
                                   case Stuck => false
                                   case On(next) => settled(next)
  }

  ghost predicate Climbs(steps: Steps, n: nat) {
    forall i: nat :: steps(i).On? ==> i < steps(i).next <= n
  }

  ghost function StepsOf(find: Finder, ends: Bounds, low: string, open: string, close: string): (steps: Steps) {
    (i: nat) => StepAt(find, ends, low, open, close, i)
  }

  ghost function SettledOf(find: Finder, ends: Bounds, low: string, open: string, close: string): (settled: nat -> bool)
    requires Sound(find) && open != [] && close != []
  {
    (i: nat) => SettledFrom(find, ends, low, open, close, i)
  }

  lemma {:induction false} SettledFollows(find: Finder, ends: Bounds, low: string, open: string, close: string)
    requires Sound(find) && open != [] && close != []
    ensures Follows(StepsOf(find, ends, low, open, close), SettledOf(find, ends, low, open, close))
    ensures Climbs(StepsOf(find, ends, low, open, close), |low|)
  {
  }

  function LaterStep(n: nat, s: Step): (t: Step) {
    if s.On? then On(n + s.next) else s
  }

  /** The steps are those of the rest, counted from n. */
  ghost predicate AllLater(steps: Steps, rest: Steps, n: nat, len: nat) {
    forall k: nat :: k <= len ==> steps(n + k) == LaterStep(n, rest(k))
  }

  lemma {:induction false} SameShifted(steps: Steps, settled: nat -> bool, rest: Steps, settledRest: nat -> bool,
                                       n: nat, len: nat, i: nat)
    requires Follows(steps, settled) && Follows(rest, settledRest) && Climbs(rest, len) && i <= len
    requires AllLater(steps, rest, n, len)
    ensures settled(n + i) == settledRest(i)
    decreases len - i
  {
    assert steps(n + i) == LaterStep(n, rest(i));
    if rest(i).On? {
      SameShifted(steps, settled, rest, settledRest, n, len, rest(i).next);
    }
  }

  lemma StepInRest(find: Finder, ends: Bounds, low: string, open: string, close: string, n: nat, i: nat)
    requires Sound(find) && Local(find, ends) && n + i <= |low|
    ensures StepAt(find, ends, low, open, close, n + i) == LaterStep(n, StepAt(find, ends, low[n..], open, close, i))
  {
    var rest := low[n..];
    assert FindsAlike(find, low, n, i, open);
    var found := find(rest, i, open);
    if found.Some? {
      var at := found.value;
      assert EndsAlike(ends, low, n, at + |open|) && FindsAlike(find, low, n, at, close);
    }
  }

  lemma {:induction false} AllStepsLater(find: Finder, ends: Bounds, low: string, rest: string, open: string,
                                         close: string, n: nat)
    requires Sound(find) && Local(find, ends) && n <= |low| && rest == low[n..]
    ensures AllLater(StepsOf(find, ends, low, open, close), StepsOf(find, ends, rest, open, close), n, |rest|)
  {
    var steps, stepsR := StepsOf(find, ends, low, open, close), StepsOf(find, ends, rest, open, close);
    forall k: nat | k <= |rest|
      ensures steps(n + k) == LaterStep(n, stepsR(k))
    {
      StepInRest(find, ends, low, open, close, n, k);
    }
  }

  /** Settling from a position on is settling the rest of the text. */
  lemma {:induction false} SettledInRest(ends: Bounds, low: string, rest: string, open: string, close: string, n: nat)
    requires Sound(SEARCH) && Local(SEARCH, ends) && open != [] && close != [] && n <= |low| && rest == low[n..]
    ensures SettledFrom(SEARCH, ends, low, open, close, n) == SettledFrom(SEARCH, ends, rest, open, close, 0)
  {
    AllStepsLater(SEARCH, ends, low, rest, open, close, n);
    SettledFollows(SEARCH, ends, low, open, close);
    SettledFollows(SEARCH, ends, rest, open, close);
    var settled, settledR := SettledOf(SEARCH, ends, low, open, close), SettledOf(SEARCH, ends, rest, open, close);
    SameShifted(StepsOf(SEARCH, ends, low, open, close), settled, StepsOf(SEARCH, ends, rest, open, close), settledR,
                n, |rest|, 0);
    assert settled(n + 0) == settled(n);
  }

  lemma {:induction false} SettledOn(stepsA: Steps, settledA: nat -> bool, steps: Steps, settled: nat -> bool,
                                     n: nat, i: nat)
    requires Follows(stepsA, settledA) && Climbs(stepsA, n) && Follows(steps, settled) && i <= n
    requires settledA(i) && settled(n)
    requires forall k: nat :: k < n && settledA(k) ==> steps(k) == if stepsA(k).Done? then steps(n) else stepsA(k)
    ensures settled(i)
    decreases n - i
  {
    if i < n && stepsA(i).On? {
      SettledOn(stepsA, settledA, steps, settled, n, stepsA(i).next);
    }
  }

  lemma StepThrough(find: Finder, ends: Bounds, lowA: string, low: string, open: string, close: string, i: nat)
    requires Sound(find) && open != [] && close != [] && i < |lowA| <= |low|
    requires LooksAlike(find, ends, lowA, low, open, close, i) && SettledFrom(find, ends, lowA, open, close, i)
    requires |lowA| == |low| ==> find(low, |lowA|, open) == None
    ensures var stepA := StepAt(find, ends, lowA, open, close, i);
            StepAt(find, ends, low, open, close, i)
            == if stepA.Done? then StepAt(find, ends, low, open, close, |lowA|) else stepA
  {
  }

  lemma {:induction false} SettledThrough(ends: Bounds, lowA: string, lowB: string, low: string, open: string,
                                          close: string)
    requires Sound(SEARCH) && Proper(ends, open, close) && NoStraddle(lowA, lowB, open) && low == lowA + lowB
    requires SettledFrom(SEARCH, ends, lowA, open, close, 0) && SettledFrom(SEARCH, ends, low, open, close, |lowA|)
    ensures SettledFrom(SEARCH, ends, low, open, close, 0)
  {
    var stepsA, steps := StepsOf(SEARCH, ends, lowA, open, close), StepsOf(SEARCH, ends, low, open, close);
    var settledA, settled := SettledOf(SEARCH, ends, lowA, open, close), SettledOf(SEARCH, ends, low, open, close);
    SettledFollows(SEARCH, ends, lowA, open, close);
    SettledFollows(SEARCH, ends, low, open, close);
    forall k: nat | k < |lowA| && settledA(k)
      ensures steps(k) == if stepsA(k).Done? then steps(|lowA|) else stepsA(k)
    {
      MarksAlike(ends, lowA, lowB, open, close, k);
      StepThrough(SEARCH, ends, lowA, low, open, close, k);
    }
    SettledOn(stepsA, settledA, steps, settled, |lowA|, 0);
  }

  lemma BothSettled(a: string, b: string, tag: string)
    requires IsTag(tag) && TagSettled(a, tag) && TagSettled(b, tag) && NoStraddle(Lower(a), Lower(b), "<" + tag)
    ensures TagSettled(a + b, tag)
  {
    var open, close := "<" + tag, "</" + tag + ">";
    TagLaws(tag);
    LowerOfTwo(a, b);
    var low := Lower(a) + Lower(b);
    assert low[|a|..] == Lower(b);
    SettledInRest(NAME_END, low, Lower(b), open, close, |a|);
    SettledThrough(NAME_END, Lower(a), Lower(b), low, open, close);
  }

  // ---- a text that ends in the closing tag is settled -------------------------------------------

  lemma {:induction false} NeverStuck(steps: Steps, settled: nat -> bool, n: nat, i: nat)
    requires Follows(steps, settled) && Climbs(steps, n) && i <= n && forall k: nat :: k <= n ==> !steps(k).Stuck?
    ensures settled(i)
    decreases n - i
  {
    if steps(i).On? {
      NeverStuck(steps, settled, n, steps(i).next);
    }
  }

  lemma {:induction false} FoundBy(s: string, from: nat, pat: string, j: nat)
    requires from <= j <= |s| && pat <= s[j..]
    ensures Find(s, from, pat).Some?
  {
    FindIsFirst(s, from, pat, j);
  }

  lemma NoBracketInside(low: string, close: string, j: nat)
    requires IsMark(close) && |low| == j + |close| && low[j..] == close
    ensures forall k :: j < k < |low| ==> low[k] != '<'
  {
    forall k | j < k < |low|
      ensures low[k] != '<'
    {
      assert low[k] == low[j..][k - j];
      InnerChars(close, k - j);
    }
  }

  /** An opening mark in a text that ends in the closing mark stands before it, and so is closed. */
  lemma {:induction false} ClosedInTime(low: string, open: string, close: string, j: nat, i: nat)
    requires IsMark(open) && IsMark(close) && open[1] != close[1]
             && |low| == j + |close| && low[j..] == close && i <= |low|
    ensures !StepAt(SEARCH, NAME_END, low, open, close, i).Stuck?
  {
    var found := Find(low, i, open);
    if found.Some? {
      var at := found.value;
      FindIsFirst(low, i, open, at);
      MarkChars(low, at, open, 0);
      MarkChars(low, at, open, 1);
      NoBracketInside(low, close, j);
      assert low[j + 1] == low[j..][1];
      FoundBy(low, at, close, j);
    }
  }

  lemma {:induction false} SettledByEnd(x: string, tag: string, y: string)
    requires IsTag(tag) && Lower(x) == y + ("</" + tag + ">")
    ensures TagSettled(x, tag)
  {
    var open, close, low := "<" + tag, "</" + tag + ">", Lower(x);
    SearchIsSound();
    TagMarks(tag);
    assert low[|y|..] == close && open[1] == tag[0];
    SettledFollows(SEARCH, NAME_END, low, open, close);
    var steps := StepsOf(SEARCH, NAME_END, low, open, close);
    forall k: nat | k <= |low|
      ensures !steps(k).Stuck?
    {
      ClosedInTime(low, open, close, |y|, k);
    }
    NeverStuck(steps, SettledOf(SEARCH, NAME_END, low, open, close), |low|, 0);
  }

  // ---- documents as trees ------------------------------------------------------------------------

  /** A sequence of texts and elements. */
  datatype Forest =
    | Nil
    | TextThen(text: string, rest: Forest)
    | ElemThen(name: string, attrs: string, inside: Forest, rest: Forest)

  /** A closing mark of the tag is nowhere in the text. */
  ghost predicate NoClose(s: string, tag: string) {
    Find(Lower(s), 0, "</" + tag + ">") == None
  }

  /** Neither mark of the tag is in the text, and it does not end in a part of one; other brackets
      may stand in it. */
  ghost predicate Unmarked(text: string, tag: string) {
    && Find(Lower(text), 0, "<" + tag) == None && !EndsInPart(Lower(text), "<" + tag)
    && NoClose(text, tag) && !EndsInPart(Lower(text), "</" + tag + ">")
  }

  ghost predicate WellFormed(f: Forest, tag: string) {
    match f
    case Nil => true
    case TextThen(text, rest) => Unmarked(text, tag) && WellFormed(rest, tag)
    case ElemThen(name, attrs, inside, rest) =>
      IsName(name) && IsAttrs(attrs) && WellFormed(inside, tag) && WellFormed(rest, tag)
  }

  function Print(f: Forest): (s: string) {
    match f
    case Nil => ""
    case TextThen(text, rest) => text + Print(rest)
    case ElemThen(name, attrs, inside, rest) =>
      OpenTag(name, attrs) + (Print(inside) + (CloseTag(name) + Print(rest)))
  }

  /** The document without its elements of a tag. */
  function Without(f: Forest, tag: string): (g: Forest) {
    match f
    case Nil => Nil
    case TextThen(text, rest) => TextThen(text, Without(rest, tag))
    case ElemThen(name, attrs, inside, rest) =>
      if Lower(name) == tag then Without(rest, tag)
      else ElemThen(name, attrs, Without(inside, tag), Without(rest, tag))
  }

  predicate Contains(f: Forest, tag: string) {
    match f
    case Nil => false
    case TextThen(_, rest) => Contains(rest, tag)
    case ElemThen(name, _, inside, rest) => Lower(name) == tag || Contains(inside, tag) || Contains(rest, tag)
  }

  /** Some element of the tag lies inside another. */
  predicate Nests(f: Forest, tag: string) {
    match f
    case Nil => false
    case TextThen(_, rest) => Nests(rest, tag)
    case ElemThen(name, _, inside, rest) =>
      (Lower(name) == tag && Contains(inside, tag)) || Nests(inside, tag) || Nests(rest, tag)
  }

  // ---- parts that stay as they are -----------------------------------------------------------------

  /** Removal leaves the text alone, and it opens no element. */
  ghost predicate Inert(s: string, tag: string) {
    WithoutElement(s, tag) == s && TagSettled(s, tag)
  }

  lemma InertText(t: string, tag: string)
    requires Unmarked(t, tag)
    ensures Inert(t, tag)
  {
    NoSuchElement(t, tag);
  }

  /** Text without any bracket is such a text for every tag. */
  lemma {:induction false} PlainUnmarked(text: string, tag: string)
    requires IsTag(tag) && '<' !in text
    ensures Unmarked(text, tag)
  {
    LowerKeepsTagFree(text);
    NotFound(Lower(text), 0, "<" + tag);
    NotFound(Lower(text), 0, "</" + tag + ">");
    TagMarks(tag);
    PlainPartFree(Lower(text), "<" + tag);
    PlainPartFree(Lower(text), "</" + tag + ">");
  }

  lemma PlainPartFree(low: string, mark: string)
    requires IsMark(mark) && '<' !in low
    ensures !EndsInPart(low, mark)
  {
    forall k: nat | 1 <= k <= |mark| && k <= |low|
      ensures low[|low| - k..] != mark[..k]
    {
      assert low[|low| - k..][0] != mark[..k][0];
    }
  }

  lemma InertClose(name: string, tag: string)
    requires IsTag(tag) && IsName(name)
    ensures Inert(CloseTag(name), tag)
  {
    CloseTagShape(name);
    assert ("<" + tag)[1] == tag[0];
    NotInTag(Lower(CloseTag(name)), "<" + tag);
    NoSuchElement(CloseTag(name), tag);
  }

  /** The tag does not start an opening tag of another name, or only a longer name. */
  lemma OtherName(name: string, attrs: string, tag: string)
    requires IsTag(tag) && IsName(name) && IsAttrs(attrs) && Lower(name) != tag
    ensures var low := Lower(OpenTag(name, attrs)); "<" + tag <= low ==> !TagBoundary(low, 1 + |tag|)
  {
    var low, n := Lower(OpenTag(name, attrs)), |name|;
    OpenTagShape(name, attrs);
    if "<" + tag <= low {
      NameAfter(low, tag);
      LongerThan(low, Lower(name), tag, n);
    }
  }

  lemma NameAfter(low: string, tag: string)
    requires "<" + tag <= low
    ensures |low| > |tag| && low[1..1 + |tag|] == tag
  {
    var mark := "<" + tag;
    assert low[..|mark|] == mark && mark[1..] == tag;
  }

  lemma LongerThan(low: string, name: string, tag: string, n: nat)
    requires IsTag(tag) && |low| > n + 1 && |name| == n && low[1..1 + n] == name && name != tag
    requires |low| > |tag| && low[1..1 + |tag|] == tag && TagBoundary(low, 1 + n)
    requires forall i :: 0 <= i < n ==> 'a' <= name[i] <= 'z' || '0' <= name[i] <= '9'
    ensures !TagBoundary(low, 1 + |tag|)
  {
    assert forall i :: 0 <= i < |tag| ==> low[1 + i] == tag[i];
    assert forall i :: 0 <= i < n ==> low[1 + i] == name[i];
  }

  lemma {:induction false} SkippedOnce(find: Finder, ends: Bounds, s: string, low: string, open: string, close: string)
    requires Sound(find) && open != [] && close != [] && |s| == |low|
    requires find(low, 0, open) == Some(0) && !ends(low, |open|) && find(low[|open|..], 0, open) == None
    requires find(low, |open|, open) == None
    ensures WithoutSpans(find, ends, s, low, open, close) == s && SettledFrom(find, ends, low, open, close, 0)
  {
    LongerNameKept(find, ends, s, low, open, close);
    assert s[..|open|] + s[|open|..] == s;
  }

  lemma {:induction false} InertOpen(name: string, attrs: string, tag: string)
    requires IsTag(tag) && IsName(name) && IsAttrs(attrs) && Lower(name) != tag
    ensures Inert(OpenTag(name, attrs), tag)
  {
    var u, open := OpenTag(name, attrs), "<" + tag;
    var low := Lower(u);
    OpenTagShape(name, attrs);
    OtherName(name, attrs, tag);
    if open <= low {
      AtOnce(low, open);
      SearchIsSound();
      NotFound(low[|open|..], 0, open);
      FindInRest(low, |open|, 0, open);
      SkippedOnce(SEARCH, NAME_END, u, low, open, "</" + tag + ">");
    } else {
      NotInTag(low, open);
      NoSuchElement(u, tag);
    }
  }

  /** Two parts at a break. */
  lemma Parts(a: string, b: string, tag: string)
    requires IsTag(tag) && TagSettled(a, tag) && (TagBreak(a, b) || Unmarked(a, tag))
    ensures WithoutElement(a + b, tag) == WithoutElement(a, tag) + WithoutElement(b, tag)
    ensures TagSettled(b, tag) ==> TagSettled(a + b, tag)
  {
    TagMarks(tag);
    if TagBreak(a, b) {
      LowerKeepsBreak(a, b);
      NoneAcross(Lower(a), Lower(b), "<" + tag);
    } else {
      PartFree(Lower(a), Lower(b), "<" + tag);
    }
    ElementsApart(a, b, tag);
    if TagSettled(b, tag) {
      BothSettled(a, b, tag);
    }
  }

  lemma InertParts(a: string, b: string, tag: string)
    requires IsTag(tag) && Inert(a, tag) && Inert(b, tag) && (TagBreak(a, b) || Unmarked(a, tag))
    ensures Inert(a + b, tag)
  {
    Parts(a, b, tag);
  }

  /** A printed document starts with a bracket, ends a tag, or both sides of a break are text. */
  lemma {:induction false} TagsSetOff(name: string, attrs: string)
    requires IsName(name) && IsAttrs(attrs)
    ensures Bracketed(OpenTag(name, attrs)) && Bracketed(CloseTag(name))
  {
    OpenTagShape(name, attrs);
    CloseTagShape(name);
    assert CloseTag(name)[|CloseTag(name)| - 1] == '>';
  }

  /** A whole element of the tag is settled, whatever is in it. */
  lemma ElementSettled(u: string, inside: string, name: string, tag: string)
    requires IsTag(tag) && IsName(name) && Lower(name) == tag
    ensures TagSettled(u + (inside + CloseTag(name)), tag)
  {
    CloseTagShape(name);
    LowerOfTwo(inside, CloseTag(name));
    LowerOfTwo(u, inside + CloseTag(name));
    Reassociate(Lower(u), Lower(inside), "</" + tag + ">");
    SettledByEnd(u + (inside + CloseTag(name)), tag, Lower(u) + Lower(inside));
  }

  /** The parts of an element and what follows it, regrouped. */
  lemma Regroup(u: string, inside: string, t: string, rest: string)
    ensures u + (inside + (t + rest)) == (u + (inside + t)) + rest
  {
  }

  // ---- removal from printed documents ----------------------------------------------------------------

  /** Every printed document closes what it opens. */
  lemma {:induction false} PrintSettled(f: Forest, tag: string)
    requires IsTag(tag) && WellFormed(f, tag)
    ensures TagSettled(Print(f), tag)
  {
    match f
    case Nil =>
      PlainUnmarked("", tag);
      InertText("", tag);
    case TextThen(text, rest) =>
      InertText(text, tag);
      PrintSettled(rest, tag);
      Parts(text, Print(rest), tag);
    case ElemThen(name, attrs, inside, rest) =>
      PrintSettled(rest, tag);
      TagsSetOff(name, attrs);
      var u, t := OpenTag(name, attrs), CloseTag(name);
      if Lower(name) == tag {
        ElementSettled(u, Print(inside), name, tag);
        Regroup(u, Print(inside), t, Print(rest));
        Parts(u + (Print(inside) + t), Print(rest), tag);
      } else {
        PrintSettled(inside, tag);
        InertOpen(name, attrs, tag);
        InertClose(name, tag);
        Parts(t, Print(rest), tag);
        Parts(Print(inside), t + Print(rest), tag);
        Parts(u, Print(inside) + (t + Print(rest)), tag);
      }
  }

  /** An element of another tag: its tags stay, its inside is treated on its own. */
  lemma {:induction false} OtherElement(name: string, attrs: string, inside: string, rest: string, tag: string)
    requires IsTag(tag) && IsName(name) && IsAttrs(attrs) && Lower(name) != tag
    requires TagSettled(inside, tag)
    ensures var u, t := OpenTag(name, attrs), CloseTag(name);
            WithoutElement(u + (inside + (t + rest)), tag)
            == u + (WithoutElement(inside, tag) + (t + WithoutElement(rest, tag)))
  {
    var u, t := OpenTag(name, attrs), CloseTag(name);
    TagsSetOff(name, attrs);
    InertOpen(name, attrs, tag);
    InertClose(name, tag);
    Parts(t, rest, tag);
    Parts(inside, t + rest, tag);
    Parts(u, inside + (t + rest), tag);
  }

  lemma {:induction false} NoCloseParts(a: string, b: string, tag: string)
    requires IsTag(tag) && NoClose(a, tag) && NoClose(b, tag) && (TagBreak(a, b) || Unmarked(a, tag))
    ensures NoClose(a + b, tag)
  {
    var close := "</" + tag + ">";
    TagMarks(tag);
    LowerOfTwo(a, b);
    if TagBreak(a, b) {
      LowerKeepsBreak(a, b);
      NoneAcross(Lower(a), Lower(b), close);
    } else {
      PartFree(Lower(a), Lower(b), close);
    }
    FoundBehind(Lower(a), Lower(b), 0, close);
  }

  lemma {:induction false} NoCloseInTags(name: string, attrs: string, tag: string)
    requires IsTag(tag) && IsName(name) && IsAttrs(attrs) && Lower(name) != tag
    ensures NoClose(OpenTag(name, attrs), tag) && NoClose(CloseTag(name), tag)
  {
    var close, low := "</" + tag + ">", Lower(CloseTag(name));
    OpenTagShape(name, attrs);
    NotInTag(Lower(OpenTag(name, attrs)), close);
    CloseTagShape(name);
    if close <= low {
      SameClose(Lower(name), tag);
    }
    NotInTag(low, close);
  }

  lemma {:induction false} SameClose(name: string, tag: string)
    requires IsTag(tag) && forall i :: 0 <= i < |name| ==> name[i] != '>'
    requires "</" + tag + ">" <= "</" + name + ">"
    ensures name == tag
  {
    var x, y := "</" + tag + ">", "</" + name + ">";
    assert y[|tag| + 2] == x[|tag| + 2] == '>';
    assert |tag| == |name|;
    assert x[2..2 + |tag|] == tag && y[2..2 + |name|] == name;
  }

  lemma {:induction false} NoCloseInPrint(f: Forest, tag: string)
    requires IsTag(tag) && WellFormed(f, tag) && !Contains(f, tag)
    ensures NoClose(Print(f), tag)
  {
    match f
    case Nil =>
      NotFound(Lower(""), 0, "</" + tag + ">");
    case TextThen(text, rest) =>
      NoCloseInPrint(rest, tag);
      NoCloseParts(text, Print(rest), tag);
    case ElemThen(name, attrs, inside, rest) =>
      NoCloseInPrint(inside, tag);
      NoCloseInPrint(rest, tag);
      NoCloseInTags(name, attrs, tag);
      TagsSetOff(name, attrs);
      NoCloseParts(CloseTag(name), Print(rest), tag);
      NoCloseParts(Print(inside), CloseTag(name) + Print(rest), tag);
      NoCloseParts(OpenTag(name, attrs), Print(inside) + (CloseTag(name) + Print(rest)), tag);
  }

  lemma {:induction false} WithoutIsFree(f: Forest, tag: string)
    requires WellFormed(f, tag)
    ensures WellFormed(Without(f, tag), tag) && !Contains(Without(f, tag), tag)
  {
    match f
    case Nil =>
    case TextThen(_, rest) => WithoutIsFree(rest, tag);
    case ElemThen(_, _, inside, rest) =>
      WithoutIsFree(inside, tag);
      WithoutIsFree(rest, tag);
  }

  /** Where no element of the tag lies inside another, removal is removal from the tree. */
  lemma {:induction false} FlatRemoved(f: Forest, tag: string)
    requires IsTag(tag) && WellFormed(f, tag) && !Nests(f, tag)
    ensures WithoutElement(Print(f), tag) == Print(Without(f, tag))
  {
    match f
    case Nil =>
      NothingGivesNothing(tag);
    case TextThen(text, rest) =>
      FlatRemoved(rest, tag);
      InertText(text, tag);
      Parts(text, Print(rest), tag);
    case ElemThen(name, attrs, inside, rest) =>
      FlatRemoved(rest, tag);
      if Lower(name) == tag {
        NoCloseInPrint(inside, tag);
        WrittenElement(name, attrs, Print(inside), tag);
        Regroup(OpenTag(name, attrs), Print(inside), CloseTag(name), Print(rest));
        LeadingElement(OpenTag(name, attrs) + (Print(inside) + CloseTag(name)), Print(rest), tag);
      } else {
        FlatRemoved(inside, tag);
        PrintSettled(inside, tag);
        OtherElement(name, attrs, Print(inside), Print(rest), tag);
      }
  }

  lemma {:induction false} FreeIsFlat(f: Forest, tag: string)
    requires !Contains(f, tag)
    ensures !Nests(f, tag) && Without(f, tag) == f
  {
    match f
    case Nil =>
    case TextThen(_, rest) => FreeIsFlat(rest, tag);
    case ElemThen(_, _, inside, rest) =>
      FreeIsFlat(inside, tag);
      FreeIsFlat(rest, tag);
  }

  lemma InertPrint(f: Forest, tag: string)
    requires IsTag(tag) && WellFormed(f, tag) && !Contains(f, tag)
    ensures Inert(Print(f), tag)
  {
    FreeIsFlat(f, tag);
    FlatRemoved(f, tag);
    PrintSettled(f, tag);
  }

  // ---- a nested element leaves its outer closing tag ----------------------------------------------------

  /** The text ends in a closing tag of the tag. */
  ghost predicate EndsClosed(y: string, tag: string) {
    exists x: string :: Lower(y) == x + ("</" + tag + ">")
  }

  lemma EndsClosedAfter(x: string, y: string, tag: string)
    requires EndsClosed(y, tag)
    ensures EndsClosed(x + y, tag)
  {
    var z: string :| Lower(y) == z + ("</" + tag + ">");
    LowerOfTwo(x, y);
    Reassociate(Lower(x), z, "</" + tag + ">");
    assert Lower(x + y) == (Lower(x) + z) + ("</" + tag + ">");
  }

  lemma CloseTagEnds(name: string, tag: string)
    requires IsName(name) && Lower(name) == tag
    ensures EndsClosed(CloseTag(name), tag)
  {
    CloseTagShape(name);
    assert Lower(CloseTag(name)) == "" + ("</" + tag + ">");
  }

  lemma EndsClosedFacts(y: string, tag: string)
    requires IsTag(tag) && EndsClosed(y, tag)
    ensures TagSettled(y, tag) && y != "" && y[|y| - 1] == '>'
  {
    var z: string :| Lower(y) == z + ("</" + tag + ">");
    SettledByEnd(y, tag, z);
    assert Lower(y)[|y| - 1] == '>';
  }

  /** A document with an element of the tag: up to its last closing tag, and what follows. */
  lemma {:induction false} LastClose(f: Forest, tag: string) returns (y: string, v: string)
    requires IsTag(tag) && WellFormed(f, tag) && Contains(f, tag)
    ensures Print(f) == y + v && EndsClosed(y, tag) && Inert(v, tag)
    decreases f, 0
  {
    match f
    case TextThen(text, rest) =>
      y, v := LastClose(rest, tag);
      EndsClosedAfter(text, y, tag);
      Reassociate(text, y, v);
      y := text + y;
    case ElemThen(name, attrs, inside, rest) =>
      var u, t := OpenTag(name, attrs), CloseTag(name);
      if Contains(rest, tag) {
        y, v := LastClose(rest, tag);
        var front := u + (Print(inside) + t);
        EndsClosedAfter(front, y, tag);
        Regroup(u, Print(inside), t, Print(rest));
        Reassociate(front, y, v);
        y := front + y;
      } else if Lower(name) == tag {
        CloseTagEnds(name, tag);
        EndsClosedAfter(Print(inside), t, tag);
        EndsClosedAfter(u, Print(inside) + t, tag);
        InertPrint(rest, tag);
        Regroup(u, Print(inside), t, Print(rest));
        y, v := u + (Print(inside) + t), Print(rest);
      } else {
        y, v := LastCloseInside(name, attrs, inside, rest, tag);
      }
  }

  lemma {:induction false} LastCloseInside(name: string, attrs: string, inside: Forest, rest: Forest, tag: string)
    returns (y: string, v: string)
    requires IsTag(tag) && WellFormed(ElemThen(name, attrs, inside, rest), tag) && Lower(name) != tag
    requires Contains(inside, tag) && !Contains(rest, tag)
    ensures Print(ElemThen(name, attrs, inside, rest)) == y + v && EndsClosed(y, tag) && Inert(v, tag)
    decreases inside, 1
  {
    var u, t := OpenTag(name, attrs), CloseTag(name);
    y, v := LastClose(inside, tag);
    EndsClosedAfter(u, y, tag);
    InertPrint(rest, tag);
    InertClose(name, tag);
    TagsSetOff(name, attrs);
    InertParts(t, Print(rest), tag);
    InertParts(v, t + Print(rest), tag);
    InsideRegroup(u, y, v, t + Print(rest));
    y, v := u + y, v + (t + Print(rest));
  }

  lemma InsideRegroup(u: string, y: string, v: string, w: string)
    ensures u + ((y + v) + w) == (u + y) + (v + w)
  {
  }

  /** A closing mark of the tag is somewhere in the text. */
  ghost predicate HasClose(s: string, tag: string) {
    Find(Lower(s), 0, "</" + tag + ">").Some?
  }

  lemma {:induction false} CloseInConcat(a: string, b: string, tag: string)
    requires HasClose(a, tag) || HasClose(b, tag)
    ensures HasClose(a + b, tag)
  {
    LowerOfTwo(a, b);
    if HasClose(a, tag) {
      FoundInFront(Lower(a), Lower(b), 0, "</" + tag + ">");
    } else {
      FoundInEnd(Lower(a), Lower(b), "</" + tag + ">");
    }
  }

  lemma {:induction false} FoundInEnd(a: string, b: string, pat: string)
    requires Find(b, 0, pat).Some?
    ensures Find(a + b, 0, pat).Some?
  {
    var at := Find(b, 0, pat).value;
    FindIsFirst(b, 0, pat, at);
    assert (a + b)[|a| + at..] == b[at..];
    FoundBy(a + b, 0, pat, |a| + at);
  }

  lemma CloseTagHasClose(name: string, tag: string)
    requires IsName(name) && Lower(name) == tag
    ensures HasClose(CloseTag(name), tag)
  {
    CloseTagShape(name);
    AtOnce(Lower(CloseTag(name)), "</" + tag + ">");
  }

  /** An element with one of its kind inside leaves its closing tag. */
  lemma {:induction false} OuterCloseStays(name: string, attrs: string, inside: Forest, tag: string)
    requires IsTag(tag) && IsName(name) && IsAttrs(attrs) && Lower(name) == tag
             && WellFormed(inside, tag) && Contains(inside, tag)
    ensures HasClose(WithoutElement(OpenTag(name, attrs) + (Print(inside) + CloseTag(name)), tag), tag)
  {
    var u, t := OpenTag(name, attrs), CloseTag(name);
    var y, v := LastClose(inside, tag);
    EndsClosedAfter(u, y, tag);
    EndsClosedFacts(u + y, tag);
    InsideRegroup(u, y, v, t);
    TagsSetOff(name, attrs);
    InertClose(name, tag);
    InertParts(v, t, tag);
    Parts(u + y, v + t, tag);
    CloseTagHasClose(name, tag);
    CloseInConcat(v, t, tag);
    CloseInConcat(WithoutElement(u + y, tag), v + t, tag);
  }

  lemma {:induction false} NestedContains(f: Forest, tag: string)
    requires Nests(f, tag)
    ensures Contains(f, tag)
  {
    match f
    case TextThen(_, rest) => NestedContains(rest, tag);
    case ElemThen(_, _, inside, rest) =>
      if Nests(inside, tag) {
        NestedContains(inside, tag);
      } else if Nests(rest, tag) {
        NestedContains(rest, tag);
      }
  }

  /** Wherever an element lies inside another of its kind, a closing tag is left over. */
  lemma {:induction false} NestedLeaves(f: Forest, tag: string)
    requires IsTag(tag) && WellFormed(f, tag) && Nests(f, tag)
    ensures HasClose(WithoutElement(Print(f), tag), tag)
  {
    match f
    case TextThen(text, rest) =>
      NestedLeaves(rest, tag);
      InertText(text, tag);
      Parts(text, Print(rest), tag);
      CloseInConcat(text, WithoutElement(Print(rest), tag), tag);
    case ElemThen(name, attrs, inside, rest) =>
      if Nests(inside, tag) {
        NestedContains(inside, tag);
        if Lower(name) != tag {
          NestedLeaves(inside, tag);
        }
      }
      if Nests(rest, tag) {
        NestedLeaves(rest, tag);
      }
      if Lower(name) == tag {
        SameKindLeaves(name, attrs, inside, rest, tag);
      } else {
        OtherKindLeaves(name, attrs, inside, rest, tag);
      }
  }

  lemma {:induction false} SameKindLeaves(name: string, attrs: string, inside: Forest, rest: Forest, tag: string)
    requires IsTag(tag) && WellFormed(ElemThen(name, attrs, inside, rest), tag) && Lower(name) == tag
    requires Contains(inside, tag) || HasClose(WithoutElement(Print(rest), tag), tag)
    ensures HasClose(WithoutElement(Print(ElemThen(name, attrs, inside, rest)), tag), tag)
  {
    var m := OpenTag(name, attrs) + (Print(inside) + CloseTag(name));
    Regroup(OpenTag(name, attrs), Print(inside), CloseTag(name), Print(rest));
    ElementSettled(OpenTag(name, attrs), Print(inside), name, tag);
    TagsSetOff(name, attrs);
    assert m[|m| - 1] == CloseTag(name)[|CloseTag(name)| - 1];
    Parts(m, Print(rest), tag);
    if Contains(inside, tag) {
      OuterCloseStays(name, attrs, inside, tag);
    }
    CloseInConcat(WithoutElement(m, tag), WithoutElement(Print(rest), tag), tag);
  }

  lemma {:induction false} OtherKindLeaves(name: string, attrs: string, inside: Forest, rest: Forest, tag: string)
    requires IsTag(tag) && WellFormed(ElemThen(name, attrs, inside, rest), tag) && Lower(name) != tag
    requires HasClose(WithoutElement(Print(inside), tag), tag) || HasClose(WithoutElement(Print(rest), tag), tag)
    ensures HasClose(WithoutElement(Print(ElemThen(name, attrs, inside, rest)), tag), tag)
  {
    var u, t, w, z := OpenTag(name, attrs), CloseTag(name),
        WithoutElement(Print(inside), tag), WithoutElement(Print(rest), tag);
    PrintSettled(inside, tag);
    OtherElement(name, attrs, Print(inside), Print(rest), tag);
    if HasClose(z, tag) {
      CloseInConcat(t, z, tag);
    }
    CloseInConcat(w, t + z, tag);
    CloseInConcat(u, w + (t + z), tag);
  }

  /** For every document, removal by tag is removal from the tree exactly when no element of the
      tag lies inside another. */
  lemma RemovedIffFlat(f: Forest, tag: string)
    requires IsTag(tag) && WellFormed(f, tag)
    ensures WithoutElement(Print(f), tag) == Print(Without(f, tag)) <==> !Nests(f, tag)
  {
    if Nests(f, tag) {
      NestedLeaves(f, tag);
      WithoutIsFree(f, tag);
      NoCloseInPrint(Without(f, tag), tag);
    } else {
      FlatRemoved(f, tag);
    }
  }
}
