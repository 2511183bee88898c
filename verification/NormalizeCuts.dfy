/** Removal in context: what happens to one part of a text when another part follows it, for
    any pair of marks. */
module NormalizeCuts {
  import opened Bytes
  import opened Text
  import opened NormalizeStrip

  // ---- finding a mark in a text made of two parts -------------------------------------------

  /** A mark found within a text is found there when more text follows. */
  lemma {:induction false} FoundInFront(a: string, b: string, from: nat, pat: string)
    requires from <= |a| && Find(a, from, pat).Some?
    ensures Find(a + b, from, pat) == Find(a, from, pat)
    decreases |a| - from
  {
    assert (a + b)[from..] == a[from..] + b;
    if !(pat <= a[from..]) {
      FoundInFront(a, b, from + 1, pat);
      assert |pat| <= |a[from..]|;
    }
  }

  /** No occurrence starts in the first part and ends in the second. */
  ghost predicate NoStraddle(a: string, b: string, pat: string) {
    forall i :: 0 <= i < |a| < i + |pat| ==> !(pat <= (a + b)[i..])
  }

  /** The text ends in the mark or in a first part of it. */
  ghost predicate EndsInPart(x: string, mark: string) {
    exists k: nat :: 1 <= k <= |mark| && k <= |x| && x[|x| - k..] == mark[..k]
  }

  lemma PartFree(a: string, b: string, mark: string)
    requires !EndsInPart(a, mark)
    ensures NoStraddle(a, b, mark)
  {
    forall i | 0 <= i < |a| < i + |mark|
      ensures !(mark <= (a + b)[i..])
    {
      if mark <= (a + b)[i..] {
        StraddleEnds(a, b, i, mark);
      }
    }
  }

  lemma StraddleEnds(a: string, b: string, i: nat, mark: string)
    requires i < |a| < i + |mark| && mark <= (a + b)[i..]
    ensures EndsInPart(a, mark)
  {
    var k := |a| - i;
    assert (a + b)[i..][..k] == a[i..] && mark[..k] == a[|a| - k..];
  }

  lemma {:induction false} SkipTo(s: string, from: nat, to: nat, pat: string)
    requires from <= to <= |s| && forall i :: from <= i < to ==> !(pat <= s[i..])
    ensures Find(s, from, pat) == Find(s, to, pat)
    decreases |s| - from
  {
    if from < to {
      SkipTo(s, from + 1, to, pat);
    }
  }

  lemma PrefixOfFront(a: string, b: string, i: nat, pat: string)
    requires i + |pat| <= |a|
    ensures pat <= (a + b)[i..] <==> pat <= a[i..]
  {
    assert (a + b)[i..] == a[i..] + b;
  }

  /** A mark that is not in the first part is looked for in the second. */
  lemma {:induction false} FoundBehind(a: string, b: string, from: nat, pat: string)
    requires from <= |a| && Find(a, from, pat) == None && NoStraddle(a, b, pat)
    ensures Find(a + b, from, pat) == LaterAt(|a|, Find(b, 0, pat))
  {
    forall i | from <= i < |a|
      ensures !(pat <= (a + b)[i..])
    {
      if i + |pat| <= |a| {
        FindIsFirst(a, from, pat, i);
        PrefixOfFront(a, b, i, pat);
      }
    }
    SkipTo(a + b, from, |a|, pat);
    FindInRest(a + b, |a|, 0, pat);
    assert (a + b)[|a|..] == b;
  }

  // ---- the turns of a loop over two parts -----------------------------------------------------

  /** From a position of the first part on, the loop over both parts does what the loop over the
      first part does, or the first part has no further cut and the loop does what it does at
      the start of the second. */
  ghost predicate TurnsAlike(n: nat, len: nat, cutsA: Cuts, cuts: Cuts, good: nat -> bool, i: nat) {
    || (cuts(i) == cutsA(i) && good(cutsA(i).1))
    || (cutsA(i) == (n, n) && cuts(i) == if n < len then cuts(n) else (n, n))
  }

  lemma PieceAcross(s: string, i: nat, n: nat, k: nat)
    requires i <= n <= k <= |s|
    ensures s[..n][i..n] + s[n..k] == s[i..k] && s[..n][i..n] == s[i..n]
  {
  }

  lemma {:induction false} SplitsFrom(s: string, n: nat, good: nat -> bool, cutsA: Cuts, cuts: Cuts,
                                      wantA: nat -> string, want: nat -> string, i: nat)
    requires i <= n <= |s| && good(i)
    requires Advances(cutsA, n) && Unrolls(s[..n], cutsA, wantA) && Advances(cuts, |s|) && Unrolls(s, cuts, want)
    requires forall k: nat :: k < n && good(k) ==> TurnsAlike(n, |s|, cutsA, cuts, good, k)
    ensures want(i) == wantA(i) + want(n)
    decreases n - i
  {
    if i < n {
      assert TurnsAlike(n, |s|, cutsA, cuts, good, i);
      var (end, next) := cutsA(i);
      if cuts(i) == cutsA(i) && good(next) {
        SplitsFrom(s, n, good, cutsA, cuts, wantA, want, next);
        PieceAcross(s, i, n, n);
        assert s[..n][i..end] == s[i..end];
        Reassociate(s[i..end], wantA(next), want(n));
      } else if n < |s| {
        var (k, after) := cuts(n);
        PieceAcross(s, i, n, k);
        Reassociate(s[i..n], s[n..k], want(after));
      } else {
        PieceAcross(s, i, n, n);
      }
    }
  }

  // ---- the marks of a text made of two parts --------------------------------------------------

  /** The test of a name's end looks at one character, the end of the text ends a name, and a
      closing mark either does not fit into an opening mark or the test always passes. */
  ghost predicate Proper(ends: Bounds, open: string, close: string) {
    && open != [] && close != []
    && (forall x: string, y: string, k: nat :: k < |x| ==> ends(x + y, k) == ends(x, k))
    && (forall s: string, k: nat :: k >= |s| ==> ends(s, k))
    && (|close| > |open| || forall s: string, k: nat :: ends(s, k))
  }

  /** From a position on, every opening mark in the text has its closing mark there. */
  ghost predicate SettledFrom(find: Finder, ends: Bounds, low: string, open: string, close: string, i: nat)
    requires Sound(find) && open != [] && close != []
    decreases |low| - i
  {
    match find(low, i, open)
    case None => true
    case Some(at) =>
      if !ends(low, at + |open|) then SettledFrom(find, ends, low, open, close, at + |open|)
      else
        match find(low, at, close)
        case None => false
        case Some(end) => SettledFrom(find, ends, low, open, close, end + |close|)
  }

  /** What one turn in the first part looks at, when the second part follows. */
  ghost predicate LooksAlike(find: Finder, ends: Bounds, lowA: string, low: string, open: string, close: string,
                             i: nat) {
    match find(lowA, i, open)
    case None => find(low, i, open) == if |lowA| < |low| then find(low, |lowA|, open) else None
    case Some(at) =>
      && find(low, i, open) == Some(at)
      && (!ends(lowA, at + |open|) ==> !ends(low, at + |open|))
      && (ends(lowA, at + |open|) && find(lowA, at, close).Some? ==>
            ends(low, at + |open|) && find(low, at, close) == find(lowA, at, close))
  }

  lemma AlikeTurns(find: Finder, ends: Bounds, lowA: string, low: string, open: string, close: string, i: nat)
    requires Sound(find) && open != [] && close != [] && i < |lowA| <= |low|
    requires SettledFrom(find, ends, lowA, open, close, i) && LooksAlike(find, ends, lowA, low, open, close, i)
    ensures var n, cutA, cut := |lowA|, Cut(find, ends, lowA, open, close, i), Cut(find, ends, low, open, close, i);
            || (cut == cutA && SettledFrom(find, ends, lowA, open, close, cutA.1))
            || (cutA == (n, n) && cut == if n < |low| then Cut(find, ends, low, open, close, n) else (n, n))
  {
  }

  lemma MarksAlike(ends: Bounds, lowA: string, lowB: string, open: string, close: string, i: nat)
    requires Proper(ends, open, close) && i < |lowA| && NoStraddle(lowA, lowB, open)
    ensures LooksAlike(SEARCH, ends, lowA, lowA + lowB, open, close, i)
  {
    var low := lowA + lowB;
    var found := Find(lowA, i, open);
    if found == None {
      FoundBehind(lowA, lowB, i, open);
      FindInRest(low, |lowA|, 0, open);
      assert low[|lowA|..] == lowB;
      if lowB == "" {
        assert low == lowA;
      }
    } else {
      FoundInFront(lowA, lowB, i, open);
      if Find(lowA, found.value, close).Some? {
        FoundInFront(lowA, lowB, found.value, close);
      }
    }
  }

  /** Where the first part settles its own marks and no mark straddles the break, the two parts
      are treated on their own. */
  lemma {:induction false} Distributes(ends: Bounds, a: string, b: string, lowA: string, lowB: string,
                                       open: string, close: string)
    requires Sound(SEARCH) && Local(SEARCH, ends) && Proper(ends, open, close) && |a| == |lowA| && |b| == |lowB|
    requires SettledFrom(SEARCH, ends, lowA, open, close, 0) && NoStraddle(lowA, lowB, open)
    ensures WithoutSpans(SEARCH, ends, a + b, lowA + lowB, open, close)
         == WithoutSpans(SEARCH, ends, a, lowA, open, close) + WithoutSpans(SEARCH, ends, b, lowB, open, close)
  {
    var s, low, n := a + b, lowA + lowB, |a|;
    var cutsA, cuts := CutsOf(SEARCH, ends, lowA, open, close), CutsOf(SEARCH, ends, low, open, close);
    var wantA := KeptFrom(SEARCH, ends, a, lowA, open, close);
    var want := KeptFrom(SEARCH, ends, s, low, open, close);
    var good := (i: nat) => SettledFrom(SEARCH, ends, lowA, open, close, i);
    SpansUnroll(SEARCH, ends, a, lowA, open, close);
    SpansUnroll(SEARCH, ends, s, low, open, close);
    assert s[..n] == a && s[n..] == b && low[n..] == lowB
           && s[0..] == s && low[0..] == low && a[0..] == a && lowA[0..] == lowA;
    forall k: nat | k < n && good(k)
      ensures TurnsAlike(n, |s|, cutsA, cuts, good, k)
    {
      MarksAlike(ends, lowA, lowB, open, close, k);
      AlikeTurns(SEARCH, ends, lowA, low, open, close, k);
    }
    SplitsFrom(s, n, good, cutsA, cuts, wantA, want, 0);
  }

  // ---- a whole span after any text --------------------------------------------------------------

  /** m is one span: it starts with the opening mark, and its first closing mark is its end. */
  ghost predicate OneWhole(m: string, open: string, close: string) {
    open <= m && |m| >= |close| && Find(m, 0, close) == Some(|m| - |close|)
  }

  /** The text ends in an opening mark. */
  predicate EndsBare(low: string, open: string) {
    |low| >= |open| && low[|low| - |open|..] == open
  }

  /** The loop over everything does what the loop over the first part does, or it jumps from the
      first part to the end e of the span. */
  ghost predicate JumpsTo(n: nat, e: nat, cutsA: Cuts, cuts: Cuts, i: nat) {
    cuts(i) == cutsA(i) || (cutsA(i).1 == n && cuts(i) == (cutsA(i).0, e))
  }

  lemma {:induction false} VanishesFrom(s: string, n: nat, e: nat, cutsA: Cuts, cuts: Cuts,
                                        wantA: nat -> string, want: nat -> string, i: nat)
    requires i <= n <= e <= |s| && want(n) == want(e)
    requires Advances(cutsA, n) && Unrolls(s[..n], cutsA, wantA) && Advances(cuts, |s|) && Unrolls(s, cuts, want)
    requires forall k: nat :: k < n ==> JumpsTo(n, e, cutsA, cuts, k)
    ensures want(i) == wantA(i) + want(e)
    decreases n - i
  {
    if i < n {
      assert JumpsTo(n, e, cutsA, cuts, i);
      var (end, next) := cutsA(i);
      assert s[..n][i..end] == s[i..end];
      VanishesFrom(s, n, e, cutsA, cuts, wantA, want, next);
      Reassociate(s[i..end], wantA(next), want(e));
    }
  }

  /** What one turn in the first part looks at, when a whole span follows that ends at e. */
  ghost predicate LooksOnto(find: Finder, ends: Bounds, lowA: string, low: string, e: nat,
                            open: string, close: string, i: nat)
  {
    match find(lowA, i, open)
    case None =>
      && find(low, i, open) == Some(|lowA|) && ends(low, |lowA| + |open|)
      && e >= |close| && find(low, |lowA|, close) == Some(e - |close|)
    case Some(at) =>
      && find(low, i, open) == Some(at) && ends(low, at + |open|) == ends(lowA, at + |open|)
      && (ends(lowA, at + |open|) ==>
            match find(lowA, at, close)
            case None => e >= |close| && find(low, at, close) == Some(e - |close|)
            case Some(end) => find(low, at, close) == Some(end))
  }

  lemma OntoJumps(find: Finder, ends: Bounds, lowA: string, low: string, e: nat, open: string, close: string, i: nat)
    requires Sound(find) && open != [] && close != [] && i < |lowA|
    requires LooksOnto(find, ends, lowA, low, e, open, close, i)
    ensures var n, cutA, cut := |lowA|, Cut(find, ends, lowA, open, close, i), Cut(find, ends, low, open, close, i);
            cut == cutA || (cutA.1 == n && cut == (cutA.0, e))
  {
  }

  lemma {:induction false} AtOnce(s: string, pat: string)
    requires pat <= s
    ensures Find(s, 0, pat) == Some(0)
  {
    assert s[0..] == s;
  }

  lemma {:induction false} FoundLater(a: string, b: string, pat: string)
    ensures Find(a + b, |a|, pat) == LaterAt(|a|, Find(b, 0, pat))
  {
    FindInRest(a + b, |a|, 0, pat);
    assert (a + b)[|a|..] == b;
  }

  lemma EndsLater(ends: Bounds, a: string, b: string, k: nat)
    requires Local(SEARCH, ends)
    ensures ends(a + b, |a| + k) == ends(b, k)
  {
    assert EndsAlike(ends, a + b, |a|, k) && (a + b)[|a|..] == b;
  }

  /** The marks of a span that starts behind lowA. */
  lemma {:induction false} SpanMarks(ends: Bounds, lowA: string, lowM: string, lowC: string, open: string,
                                     close: string)
    requires Proper(ends, open, close) && OneWhole(lowM, open, close) && |open| < |lowM| && ends(lowM, |open|)
    requires Local(SEARCH, ends)
    ensures var rest := lowM + lowC;
            && Find(rest, 0, open) == Some(0) && Find(rest, 0, close) == Some(|lowM| - |close|)
            && Find(lowA + rest, |lowA|, open) == Some(|lowA|)
            && Find(lowA + rest, |lowA|, close) == Some(|lowA| + |lowM| - |close|)
            && ends(lowA + rest, |lowA| + |open|)
  {
    var rest := lowM + lowC;
    assert open <= rest;
    AtOnce(rest, open);
    FoundInFront(lowM, lowC, 0, close);
    FoundLater(lowA, rest, open);
    FoundLater(lowA, rest, close);
    EndsLater(ends, lowA, rest, |open|);
  }

  lemma {:induction false} OntoTheSpan(ends: Bounds, lowA: string, rest: string, e: nat, open: string, close: string,
                                       i: nat)
    requires i < |lowA| && Find(lowA, i, open) == None && NoStraddle(lowA, rest, open) && Find(rest, 0, open) == Some(0)
    requires ends(lowA + rest, |lowA| + |open|)
    requires e >= |close| && SEARCH(lowA + rest, |lowA|, close) == Some(e - |close|)
    ensures LooksOnto(SEARCH, ends, lowA, lowA + rest, e, open, close, i)
  {
    FoundBehind(lowA, rest, i, open);
  }

  lemma {:induction false} OntoItsEnd(ends: Bounds, lowA: string, rest: string, m: nat, open: string, close: string,
                                      i: nat, at: nat)
    requires Proper(ends, open, close) && i < |lowA| && Find(lowA, i, open) == Some(at)
    requires m >= |close| && Find(rest, 0, close) == Some(m - |close|) && NoStraddle(lowA, rest, close)
    requires ends(lowA + rest, at + |open|) == ends(lowA, at + |open|)
    ensures LooksOnto(SEARCH, ends, lowA, lowA + rest, |lowA| + m, open, close, i)
  {
    FoundInFront(lowA, rest, i, open);
    if Find(lowA, at, close).Some? {
      FoundInFront(lowA, rest, at, close);
    } else {
      FoundBehind(lowA, rest, at, close);
    }
  }

  /** A name ends where it does without the rest, unless the text ends in the bare mark. */
  lemma {:induction false} SameNameEnd(ends: Bounds, lowA: string, rest: string, open: string, close: string, i: nat,
                                       at: nat)
    requires Proper(ends, open, close) && i <= |lowA| && Find(lowA, i, open) == Some(at)
    requires EndsBare(lowA, open) ==> forall s: string, k: nat :: ends(s, k)
    ensures ends(lowA + rest, at + |open|) == ends(lowA, at + |open|)
  {
    FindIsFirst(lowA, i, open, at);
    if at + |open| == |lowA| {
      assert lowA[at..] == open && lowA[|lowA| - |open|..] == open;
    }
  }

  lemma {:induction false} MarksOnto(ends: Bounds, lowA: string, rest: string, m: nat, open: string, close: string,
                                     i: nat)
    requires Proper(ends, open, close) && i < |lowA| && m >= |close|
    requires Find(rest, 0, open) == Some(0) && Find(rest, 0, close) == Some(m - |close|)
    requires Find(lowA + rest, |lowA|, close) == Some(|lowA| + m - |close|) && ends(lowA + rest, |lowA| + |open|)
    requires NoStraddle(lowA, rest, open) && NoStraddle(lowA, rest, close)
    requires EndsBare(lowA, open) ==> forall s: string, k: nat :: ends(s, k)
    ensures LooksOnto(SEARCH, ends, lowA, lowA + rest, |lowA| + m, open, close, i)
  {
    match Find(lowA, i, open)
    case None => OntoTheSpan(ends, lowA, rest, |lowA| + m, open, close, i);
    case Some(at) =>
      SameNameEnd(ends, lowA, rest, open, close, i, at);
      OntoItsEnd(ends, lowA, rest, m, open, close, i, at);
  }

  lemma SpanCut(find: Finder, ends: Bounds, low: string, open: string, close: string, n: nat, e: nat)
    requires e >= |close| && find(low, n, open) == Some(n) && ends(low, n + |open|)
             && find(low, n, close) == Some(e - |close|)
    ensures Cut(find, ends, low, open, close, n) == (n, e)
  {
  }

  /** From the start of a span on, what is kept is what is kept from its end on. */
  lemma {:induction false} NothingOfSpan(s: string, cuts: Cuts, want: nat -> string, n: nat, e: nat)
    requires n < |s| && Advances(cuts, |s|) && Unrolls(s, cuts, want) && cuts(n) == (n, e)
    ensures want(n) == want(e)
  {
    assert s[n..n] + want(e) == want(e);
  }

  /** A whole span after a text that neither of its marks straddles. */
  ghost predicate SpanBehind(ends: Bounds, lowA: string, lowM: string, lowC: string, open: string, close: string) {
    && OneWhole(lowM, open, close) && |open| < |lowM| && ends(lowM, |open|)
    && NoStraddle(lowA, lowM + lowC, open) && NoStraddle(lowA, lowM + lowC, close)
    && (EndsBare(lowA, open) ==> forall s: string, k: nat :: ends(s, k))
  }

  lemma {:induction false} JumpAt(ends: Bounds, lowA: string, lowM: string, lowC: string, open: string,
                                  close: string, k: nat)
    requires Sound(SEARCH) && Local(SEARCH, ends) && Proper(ends, open, close) && k < |lowA|
    requires SpanBehind(ends, lowA, lowM, lowC, open, close)
    ensures LooksOnto(SEARCH, ends, lowA, lowA + (lowM + lowC), |lowA| + |lowM|, open, close, k)
  {
    SpanMarks(ends, lowA, lowM, lowC, open, close);
    MarksOnto(ends, lowA, lowM + lowC, |lowM|, open, close, k);
  }

  /** Every turn in the first part looks onto a span that ends at e. */
  ghost predicate AllOnto(find: Finder, ends: Bounds, lowA: string, low: string, e: nat, open: string, close: string) {
    forall k: nat :: k < |lowA| ==> LooksOnto(find, ends, lowA, low, e, open, close, k)
  }

  lemma {:induction false} AllTurnsOnto(ends: Bounds, lowA: string, lowM: string, lowC: string, low: string, e: nat,
                                        open: string, close: string)
    requires Sound(SEARCH) && Local(SEARCH, ends) && Proper(ends, open, close)
    requires SpanBehind(ends, lowA, lowM, lowC, open, close) && low == lowA + (lowM + lowC) && e == |lowA| + |lowM|
    ensures AllOnto(SEARCH, ends, lowA, low, e, open, close)
    ensures Cut(SEARCH, ends, low, open, close, |lowA|) == (|lowA|, e)
  {
    SpanMarks(ends, lowA, lowM, lowC, open, close);
    SpanCut(SEARCH, ends, low, open, close, |lowA|, e);
    forall k: nat | k < |lowA|
      ensures LooksOnto(SEARCH, ends, lowA, low, e, open, close, k)
    {
      JumpAt(ends, lowA, lowM, lowC, open, close, k);
    }
  }

  lemma {:induction false} JumpsOver(ends: Bounds, a: string, b: string, lowA: string, lowB: string, low: string,
                                     e: nat, open: string, close: string)
    requires Sound(SEARCH) && Local(SEARCH, ends) && open != [] && close != []
    requires |a| == |lowA| && |b| == |lowB| && low == lowA + lowB && |a| < e <= |low|
    requires AllOnto(SEARCH, ends, lowA, low, e, open, close)
    requires Cut(SEARCH, ends, low, open, close, |lowA|) == (|lowA|, e)
    ensures WithoutSpans(SEARCH, ends, a + b, low, open, close)
         == WithoutSpans(SEARCH, ends, a, lowA, open, close)
            + WithoutSpans(SEARCH, ends, b[e - |a|..], lowB[e - |a|..], open, close)
  {
    var s, n := a + b, |a|;
    var cutsA, cuts := CutsOf(SEARCH, ends, lowA, open, close), CutsOf(SEARCH, ends, low, open, close);
    var wantA := KeptFrom(SEARCH, ends, a, lowA, open, close);
    var want := KeptFrom(SEARCH, ends, s, low, open, close);
    SpansUnroll(SEARCH, ends, a, lowA, open, close);
    SpansUnroll(SEARCH, ends, s, low, open, close);
    NothingOfSpan(s, cuts, want, n, e);
    assert s[..n] == a && a[0..] == a && lowA[0..] == lowA && s[0..] == s && low[0..] == low;
    EndShift(a, b, e);
    EndShift(lowA, lowB, e);
    AllJump(ends, lowA, low, e, open, close);
    VanishesFrom(s, n, e, cutsA, cuts, wantA, want, 0);
  }

  lemma EndShift(a: string, b: string, e: nat)
    requires |a| <= e <= |a| + |b|
    ensures (a + b)[e..] == b[e - |a|..]
  {
  }

  lemma {:induction false} AllJump(ends: Bounds, lowA: string, low: string, e: nat, open: string, close: string)
    requires Sound(SEARCH) && open != [] && close != [] && AllOnto(SEARCH, ends, lowA, low, e, open, close)
    ensures var cutsA, cuts := CutsOf(SEARCH, ends, lowA, open, close), CutsOf(SEARCH, ends, low, open, close);
            forall k: nat :: k < |lowA| ==> JumpsTo(|lowA|, e, cutsA, cuts, k)
  {
    var cutsA, cuts := CutsOf(SEARCH, ends, lowA, open, close), CutsOf(SEARCH, ends, low, open, close);
    forall k: nat | k < |lowA|
      ensures JumpsTo(|lowA|, e, cutsA, cuts, k)
    {
      OntoJumps(SEARCH, ends, lowA, low, e, open, close, k);
    }
  }

  /** A whole span goes, and what is around it is treated as if it had not been there, even where
      an opening mark is still open before it. Only a text that ends in the bare opening mark may
      be treated otherwise. */
  lemma {:induction false} SpanVanishes(ends: Bounds, a: string, m: string, c: string,
                                        lowA: string, lowM: string, lowC: string, open: string, close: string)
    requires Sound(SEARCH) && Local(SEARCH, ends) && Proper(ends, open, close)
    requires |a| == |lowA| && |m| == |lowM| && |c| == |lowC| && SpanBehind(ends, lowA, lowM, lowC, open, close)
    ensures WithoutSpans(SEARCH, ends, a + (m + c), lowA + (lowM + lowC), open, close)
         == WithoutSpans(SEARCH, ends, a, lowA, open, close) + WithoutSpans(SEARCH, ends, c, lowC, open, close)
  {
    var low, e := lowA + (lowM + lowC), |a| + |m|;
    AllTurnsOnto(ends, lowA, lowM, lowC, low, e, open, close);
    JumpsOver(ends, a, m + c, lowA, lowM + lowC, low, e, open, close);
    assert (m + c)[e - |a|..] == c && (lowM + lowC)[e - |a|..] == lowC;
  }
}
