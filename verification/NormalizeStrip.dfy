/** Removal of comments and of elements whose text is never shown. */
module NormalizeStrip {
  import opened Bytes
  import opened Text

  // ---- cutting pieces out of a text ---------------------------------------------------------

  /** For each position: copy up to the first, then go on at the second. */
  type Cuts = nat -> (nat, nat)

  ghost predicate Advances(cuts: Cuts, n: nat) {
    forall idx: nat :: idx < n ==> idx <= cuts(idx).0 <= cuts(idx).1 <= n && idx < cuts(idx).1
  }

  /** want(idx) is what is to be kept of the text from idx on, one cut at a time. */
  ghost predicate Unrolls(s: string, cuts: Cuts, want: nat -> string)
    requires Advances(cuts, |s|)
  {
    want(|s|) == "" && forall idx: nat :: idx < |s| ==> want(idx) == s[idx..cuts(idx).0] + want(cuts(idx).1)
  }

  /** The loop shared by `strip_comments` and `strip_element`. */
  method RemovePieces(input: string, cuts: Cuts, ghost want: nat -> string) returns (output: string)
    requires Advances(cuts, |input|) && Unrolls(input, cuts, want)
    ensures output == want(0)
  {
    output := "";
    var idx := 0;
    while idx < |input|
      invariant 0 <= idx <= |input| && output + want(idx) == want(0)
    {
      var (keep, next) := cuts(idx);
      Reassociate(output, input[idx..keep], want(next));
      output := output + input[idx..keep];
      idx := next;
    }
  }

  function LaterAt(k: nat, at: Option<nat>): (r: Option<nat>) {
    match at
    case None => None
    case Some(j) => Some(k + j)
  }

  /** Searching a text from a position on is searching the rest of the text. */
  lemma {:induction false} FindInRest(s: string, k: nat, i: nat, pat: string)
    requires k + i <= |s|
    ensures Find(s, k + i, pat) == LaterAt(k, Find(s[k..], i, pat))
    decreases |s| - k - i
  {
    assert s[k..][i..] == s[k + i..];
    if k + i < |s| {
      FindInRest(s, k, i + 1, pat);
    }
  }

  // The functions below take the search and the test of a name's end as parameters: of them
  // they need only that a match lies in the text, and that looking at a text from a position
  // on is looking at the rest of it.

  type Finder = (string, nat, string) -> Option<nat>
  type Bounds = (string, nat) -> bool

  ghost predicate Sound(find: Finder) {
    forall s: string, from: nat, pat: string :: find(s, from, pat).Some? ==>
      from <= find(s, from, pat).value && find(s, from, pat).value + |pat| <= |s|
  }

  ghost predicate FindsAlike(find: Finder, s: string, k: nat, i: nat, pat: string) {
    k + i <= |s| ==> find(s, k + i, pat) == LaterAt(k, find(s[k..], i, pat))
  }

  ghost predicate EndsAlike(ends: Bounds, s: string, k: nat, at: nat) {
    k <= |s| ==> ends(s, k + at) == ends(s[k..], at)
  }

  ghost predicate Local(find: Finder, ends: Bounds) {
    && (forall s: string, k: nat, i: nat, pat: string :: FindsAlike(find, s, k, i, pat))
    && (forall s: string, k: nat, at: nat :: EndsAlike(ends, s, k, at))
  }

  const SEARCH: Finder := (s: string, from: nat, pat: string) => if from > |s| then None else Find(s, from, pat)
  const ANYWHERE: Bounds := (s: string, at: nat) => true
  const NAME_END: Bounds := (s: string, at: nat) => TagBoundary(s, at)

  /** The character after `<tag` ends the name: it is not a longer name such as `<styled`. */
  predicate TagBoundary(s: string, at: nat) {
    at >= |s| || s[at] in {'>', ' ', '/', '\t', '\n', '\r'}
  }

  lemma SearchIsSound()
    ensures Sound(SEARCH)
  {
  }

  lemma SearchIsLocal()
    ensures Local(SEARCH, ANYWHERE) && Local(SEARCH, NAME_END)
  {
    forall s: string, k: nat, i: nat, pat: string | k + i <= |s|
      ensures SEARCH(s, k + i, pat) == LaterAt(k, SEARCH(s[k..], i, pat))
    {
      FindInRest(s, k, i, pat);
    }
  }

  // ---- what is kept ---------------------------------------------------------------------------

  /** Marks are looked for in `low`, the text itself or its lower-cased form. Everything from
      an opening mark to the next closing mark goes, an unclosed one swallows the rest, and an
      opening mark that is only the start of a longer name is copied. The search for the
      closing mark starts at the opening one, so the two may overlap. */
  function WithoutSpans(find: Finder, ends: Bounds, s: string, low: string, open: string, close: string): (t: string)
    requires Sound(find) && |s| == |low| && open != [] && close != []
    ensures |t| <= |s|
    decreases |s|
  {
    match find(low, 0, open)
    case None => s
    case Some(at) =>
      var after := at + |open|;
      if !ends(low, after) then s[..after] + WithoutSpans(find, ends, s[after..], low[after..], open, close)
      else
        match find(low, at, close)
        case None => s[..at]
        case Some(end) =>
          var next := end + |close|;
          s[..at] + WithoutSpans(find, ends, s[next..], low[next..], open, close)
  }

  function WithoutComments(s: string): (t: string)
    ensures |t| <= |s|
  {
    SearchIsSound();
    WithoutSpans(SEARCH, ANYWHERE, s, s, "<!--", "-->")
  }

  function WithoutElement(s: string, tag: string): (t: string)
    ensures |t| <= |s|
  {
    SearchIsSound();
    WithoutSpans(SEARCH, NAME_END, s, Lower(s), "<" + tag, "</" + tag + ">")
  }

  // ---- one turn of the loop ---------------------------------------------------------------------

  /** By positions in the whole text: where to copy to, and where to go on. */
  function Cut(find: Finder, ends: Bounds, low: string, open: string, close: string, idx: nat): (r: (nat, nat))
    ensures Sound(find) && open != [] && close != [] && idx < |low| ==> idx <= r.0 <= r.1 <= |low| && idx < r.1
  {
    match find(low, idx, open)
    case None => (|low|, |low|)
    case Some(at) =>
      var after := at + |open|;
      if !ends(low, after) then (after, after)
      else
        match find(low, at, close)
        case None => (at, |low|)
        case Some(end) => (at, end + |close|)
  }

  /** What one turn looks at in a text is what it looks at in the rest t of it. */
  ghost predicate TurnAgrees(find: Finder, ends: Bounds, s: string, t: string, open: string, close: string, idx: nat) {
    && find(s, idx, open) == LaterAt(idx, find(t, 0, open))
    && (find(t, 0, open).Some? ==>
          var at := find(t, 0, open).value;
          && find(s, idx + at, close) == LaterAt(idx, find(t, at, close))
          && ends(s, idx + (at + |open|)) == ends(t, at + |open|))
  }

  lemma AgreesInRest(find: Finder, ends: Bounds, s: string, t: string, open: string, close: string, idx: nat)
    requires Sound(find) && Local(find, ends) && idx < |s| && t == s[idx..]
    ensures TurnAgrees(find, ends, s, t, open, close, idx)
  {
    assert FindsAlike(find, s, idx, 0, open) && idx + 0 == idx;
    if find(t, 0, open).Some? {
      var at := find(t, 0, open).value;
      assert FindsAlike(find, s, idx, at, close) && EndsAlike(ends, s, idx, at + |open|);
    }
  }

  lemma CutInRest(find: Finder, ends: Bounds, low: string, lowT: string, open: string, close: string, idx: nat)
    requires Sound(find) && idx < |low| && lowT == low[idx..] && TurnAgrees(find, ends, low, lowT, open, close, idx)
    ensures Cut(find, ends, low, open, close, idx).0 == idx + Cut(find, ends, lowT, open, close, 0).0
    ensures Cut(find, ends, low, open, close, idx).1 == idx + Cut(find, ends, lowT, open, close, 0).1
  {
  }

  /** One level of WithoutSpans, with the treatment of what is left given. */
  function OneSpan(find: Finder, ends: Bounds, keep: (string, string) -> string,
                   s: string, low: string, open: string, close: string): (t: string)
    requires Sound(find) && |s| == |low|
  {
    match find(low, 0, open)
    case None => s
    case Some(at) =>
      var after := at + |open|;
      if !ends(low, after) then s[..after] + keep(s[after..], low[after..])
      else
        match find(low, at, close)
        case None => s[..at]
        case Some(end) => s[..at] + keep(s[end + |close|..], low[end + |close|..])
  }

  ghost function Keeping(find: Finder, ends: Bounds, open: string, close: string): (keep: (string, string) -> string)
    requires Sound(find) && open != [] && close != []
    ensures forall s: string, low: string ::
              keep(s, low) == if |s| == |low| then WithoutSpans(find, ends, s, low, open, close) else ""
  {
    (s: string, low: string) => if |s| == |low| then WithoutSpans(find, ends, s, low, open, close) else ""
  }

  lemma {:induction false} SpansUnfold(find: Finder, ends: Bounds, s: string, low: string, open: string, close: string)
    requires Sound(find) && |s| == |low| && open != [] && close != []
    ensures WithoutSpans(find, ends, s, low, open, close)
         == OneSpan(find, ends, Keeping(find, ends, open, close), s, low, open, close)
  {
  }

  lemma {:induction false} NothingLeft(find: Finder, ends: Bounds, open: string, close: string)
    requires Sound(find) && open != [] && close != []
    ensures Keeping(find, ends, open, close)("", "") == ""
  {
  }

  /** One level keeps what its turn keeps, and goes on where its turn does. */
  lemma OneSpanIsTurn(find: Finder, ends: Bounds, keep: (string, string) -> string,
                      t: string, lowT: string, open: string, close: string)
    requires Sound(find) && |t| == |lowT| && keep("", "") == ""
    ensures var (end, next) := Cut(find, ends, lowT, open, close, 0);
            && end <= |t| && next <= |t|
            && OneSpan(find, ends, keep, t, lowT, open, close) == t[..end] + keep(t[next..], lowT[next..])
  {
    assert t[|t|..] == "" && lowT[|t|..] == "" && t[..|t|] == t;
  }

  lemma RestOfRest(s: string, k: nat, i: nat, j: nat)
    requires i <= j && k + j <= |s|
    ensures s[k..][..i] == s[k..k + i] && s[k..][j..] == s[k + j..]
  {
  }

  lemma {:induction false} Turn(find: Finder, ends: Bounds, keep: (string, string) -> string, s: string, low: string,
                                t: string, lowT: string, open: string, close: string, idx: nat)
    requires Sound(find) && |s| == |low| && keep("", "") == "" && open != [] && close != []
    requires idx < |s| && t == s[idx..] && lowT == low[idx..]
    requires TurnAgrees(find, ends, low, lowT, open, close, idx)
    ensures var (end, next) := Cut(find, ends, low, open, close, idx);
            OneSpan(find, ends, keep, t, lowT, open, close) == s[idx..end] + keep(s[next..], low[next..])
  {
    CutInRest(find, ends, low, lowT, open, close, idx);
    OneSpanIsTurn(find, ends, keep, t, lowT, open, close);
    var (end, next) := Cut(find, ends, lowT, open, close, 0);
    RestOfRest(s, idx, end, next);
    RestOfRest(low, idx, end, next);
  }

  function CutsOf(find: Finder, ends: Bounds, low: string, open: string, close: string): (cuts: Cuts)
    requires Sound(find) && open != [] && close != []
    ensures Advances(cuts, |low|)
    ensures forall idx: nat :: cuts(idx) == Cut(find, ends, low, open, close, idx)
  {
    (idx: nat) => Cut(find, ends, low, open, close, idx)
  }

  /** What is kept of the text from a position on. */
  ghost function KeptFrom(find: Finder, ends: Bounds, s: string, low: string, open: string, close: string)
    : (want: nat -> string)
    requires Sound(find) && |s| == |low| && open != [] && close != []
    ensures forall idx: nat :: idx <= |s| ==> want(idx) == WithoutSpans(find, ends, s[idx..], low[idx..], open, close)
  {
    (idx: nat) => if idx > |s| then "" else WithoutSpans(find, ends, s[idx..], low[idx..], open, close)
  }

  lemma SpansUnroll(find: Finder, ends: Bounds, s: string, low: string, open: string, close: string)
    requires Sound(find) && Local(find, ends) && |s| == |low| && open != [] && close != []
    ensures Unrolls(s, CutsOf(find, ends, low, open, close), KeptFrom(find, ends, s, low, open, close))
  {
    var keep, cuts := Keeping(find, ends, open, close), CutsOf(find, ends, low, open, close);
    var want := KeptFrom(find, ends, s, low, open, close);
    NothingLeft(find, ends, open, close);
    assert s[|s|..] == "" && low[|s|..] == "";
    forall idx: nat | idx < |s|
      ensures want(idx) == s[idx..cuts(idx).0] + want(cuts(idx).1)
    {
      AgreesInRest(find, ends, low, low[idx..], open, close, idx);
      SpansUnfold(find, ends, s[idx..], low[idx..], open, close);
      Turn(find, ends, keep, s, low, s[idx..], low[idx..], open, close, idx);
    }
  }

  method StripSpans(find: Finder, ends: Bounds, input: string, low: string, open: string, close: string)
    returns (output: string)
    requires Sound(find) && Local(find, ends) && |input| == |low| && open != [] && close != []
    ensures output == WithoutSpans(find, ends, input, low, open, close)
  {
    SpansUnroll(find, ends, input, low, open, close);
    assert input[0..] == input && low[0..] == low;
    output := RemovePieces(input, CutsOf(find, ends, low, open, close), KeptFrom(find, ends, input, low, open, close));
  }

  /** `strip_comments`. */
  method StripComments(input: string) returns (output: string)
    ensures output == WithoutComments(input)
  {
    SearchIsSound();
    SearchIsLocal();
    output := StripSpans(SEARCH, ANYWHERE, input, input, "<!--", "-->");
  }

  /** `strip_element`. */
  method StripElement(input: string, tag: string) returns (output: string)
    ensures output == WithoutElement(input, tag)
  {
    SearchIsSound();
    SearchIsLocal();
    output := StripSpans(SEARCH, NAME_END, input, Lower(input), "<" + tag, "</" + tag + ">");
  }

  // ---- all of them --------------------------------------------------------------------------

  const NOISE_TAGS: seq<string> := ["script", "style", "head", "noscript", "svg"]

  /** The elements of one tag after another, by any way of removing those of one. */
  function Successively(strip: (string, string) -> string, s: string, tags: seq<string>): (t: string) {
    if tags == [] then s
    else strip(Successively(strip, s, tags[..|tags| - 1]), tags[|tags| - 1])
  }

  lemma {:induction false} SuccessivelyShrinks(strip: (string, string) -> string, s: string, tags: seq<string>)
    requires forall u: string, tag: string :: |strip(u, tag)| <= |u|
    ensures |Successively(strip, s, tags)| <= |s|
  {
    if tags != [] {
      SuccessivelyShrinks(strip, s, tags[..|tags| - 1]);
    }
  }

  function Stripped(s: string): (t: string)
    ensures |t| <= |s|
  {
    SuccessivelyShrinks(WithoutElement, WithoutComments(s), NOISE_TAGS);
    Successively(WithoutElement, WithoutComments(s), NOISE_TAGS)
  }

  method StripElements(input: string, tags: seq<string>) returns (output: string)
    ensures output == Successively(WithoutElement, input, tags)
  {
    output := input;
    for i := 0 to |tags|
      invariant output == Successively(WithoutElement, input, tags[..i])
    {
      assert tags[..i + 1][..i] == tags[..i];
      output := StripElement(output, tags[i]);
    }
    assert tags[..|tags|] == tags;
  }

  /** `strip_noise_blocks`. */
  method StripNoiseBlocks(input: string) returns (output: string)
    ensures output == Stripped(input)
  {
    output := StripComments(input);
    output := StripElements(output, NOISE_TAGS);
  }

  // ---- text without markup is left alone --------------------------------------------------------

  lemma LowerKeepsTagFree(s: string)
    requires '<' !in s
    ensures '<' !in Lower(s)
  {
  }

  lemma {:induction false} NoElement(s: string, tag: string)
    requires '<' !in s
    ensures WithoutElement(s, tag) == s
  {
    LowerKeepsTagFree(s);
    NotFound(Lower(s), 0, "<" + tag);
  }

  /** What every tag leaves alone stays as it is. */
  lemma {:induction false} NoneToStrip(strip: (string, string) -> string, s: string, tags: seq<string>)
    requires forall i :: 0 <= i < |tags| ==> strip(s, tags[i]) == s
    ensures Successively(strip, s, tags) == s
  {
    if tags != [] {
      NoneToStrip(strip, s, tags[..|tags| - 1]);
    }
  }

  lemma {:induction false} NoElementToStrip(s: string, tags: seq<string>)
    requires '<' !in s
    ensures Successively(WithoutElement, s, tags) == s
  {
    forall i | 0 <= i < |tags|
      ensures WithoutElement(s, tags[i]) == s
    {
      NoElement(s, tags[i]);
    }
    NoneToStrip(WithoutElement, s, tags);
  }

  lemma {:induction false} StripKeepsPlainText(s: string)
    requires '<' !in s
    ensures Stripped(s) == s
  {
    NotFound(s, 0, "<!--");
    NoElementToStrip(s, NOISE_TAGS);
  }
}
