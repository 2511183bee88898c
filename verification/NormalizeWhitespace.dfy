/** White-space collapsing: trimmed single-spaced lines, no runs of blank lines, no blank
    first or last line. */
module NormalizeWhitespace {
  import opened Bytes
  import opened Text

  // ---- one line ---------------------------------------------------------------------------

  /** Runs of white space become one space; a leading run goes too when one was just written. */
  function Squeezed(line: string, lastSpace: bool): (t: string)
    ensures |t| <= |line|
    decreases |line|
  {
    if line == [] then []
    else if IsWhitespace(line[0]) then (if lastSpace then [] else " ") + Squeezed(line[1..], true)
    else [line[0]] + Squeezed(line[1..], false)
  }

  function Inline(line: string): (t: string)
    ensures |t| <= |line|
  {
    Trim(Squeezed(line, false))
  }

  lemma SqueezeTurn(line: string, i: nat, lastSpace: bool)
    requires i < |line|
    ensures Squeezed(line[i..], lastSpace)
         == (if !IsWhitespace(line[i]) then [line[i]] else if lastSpace then "" else " ")
            + Squeezed(line[i + 1..], IsWhitespace(line[i]))
  {
    assert line[i..][1..] == line[i + 1..];
  }

  /** `collapse_inline_spaces`. */
  method CollapseInlineSpaces(line: string) returns (output: string)
    ensures output == Inline(line)
  {
    output := "";
    var lastSpace := false;
    assert line[0..] == line;
    for i := 0 to |line|
      invariant output + Squeezed(line[i..], lastSpace) == Squeezed(line, false)
    {
      SqueezeTurn(line, i, lastSpace);
      var ch := line[i];
      var pushed := "";
      if IsWhitespace(ch) {
        if !lastSpace {
          pushed := " ";
        }
        lastSpace := true;
      } else {
        pushed := [ch];
        lastSpace := false;
      }
      Reassociate(output, pushed, Squeezed(line[i + 1..], lastSpace));
      output := output + pushed;
    }
    assert line[|line|..] == "" && output + "" == output;
    output := Trim(output);
  }

  /** The only white space is single spaces between other characters. */
  ghost predicate SingleSpaced(t: string) {
    forall i :: 0 <= i < |t| && IsWhitespace(t[i]) ==>
      t[i] == ' ' && (i + 1 < |t| ==> !IsWhitespace(t[i + 1]))
  }

  ghost predicate InlineNormal(t: string) {
    && SingleSpaced(t)
    && (t != [] ==> !IsWhitespace(t[0]) && !IsWhitespace(t[|t| - 1]))
  }

  lemma {:induction false} SqueezedIsSingleSpaced(line: string, lastSpace: bool)
    ensures SingleSpaced(Squeezed(line, lastSpace))
    ensures lastSpace && Squeezed(line, lastSpace) != [] ==> !IsWhitespace(Squeezed(line, lastSpace)[0])
    decreases |line|
  {
    if line != [] {
      SqueezedIsSingleSpaced(line[1..], IsWhitespace(line[0]));
    }
  }

  lemma PartSingleSpaced(t: string, a: nat, b: nat)
    requires SingleSpaced(t) && a <= b <= |t|
    ensures SingleSpaced(t[a..b])
  {
    assert forall i :: 0 <= i < b - a ==> t[a..b][i] == t[a + i];
  }

  lemma TrimIsPart(q: string)
    ensures exists a, b :: 0 <= a <= b <= |q| && Trim(q) == q[a..b]
  {
    var t, u := TrimStart(q), Trim(q);
    var a := |q| - |t|;
    assert u == t[..|u|] == q[a..a + |u|];
  }

  lemma TrimHasEdges(q: string)
    ensures Trim(q) != [] ==> !IsWhitespace(Trim(q)[0]) && !IsWhitespace(Trim(q)[|Trim(q)| - 1])
  {
  }

  lemma InlineIsNormal(line: string)
    ensures InlineNormal(Inline(line))
  {
    var q := Squeezed(line, false);
    SqueezedIsSingleSpaced(line, false);
    TrimIsPart(q);
    var a, b :| 0 <= a <= b <= |q| && Trim(q) == q[a..b];
    PartSingleSpaced(q, a, b);
    TrimHasEdges(q);
  }

  lemma {:induction false} SqueezeKeepsNormal(t: string, lastSpace: bool)
    requires SingleSpaced(t) && (lastSpace && t != [] ==> !IsWhitespace(t[0]))
    ensures Squeezed(t, lastSpace) == t
    decreases |t|
  {
    if t != [] {
      assert SingleSpaced(t[1..]) by {
        assert forall i :: 0 <= i < |t| - 1 ==> t[1..][i] == t[i + 1];
      }
      SqueezeKeepsNormal(t[1..], IsWhitespace(t[0]));
    }
  }

  lemma InlineKeepsNormal(t: string)
    requires InlineNormal(t)
    ensures Inline(t) == t
  {
    SqueezeKeepsNormal(t, false);
    TrimOfTrimmed(t);
  }

  // ---- the characters that are not white space --------------------------------------------------

  function NonWs(s: string): (t: string) {
    if s == [] then []
    else if IsWhitespace(s[0]) then NonWs(s[1..]) else [s[0]] + NonWs(s[1..])
  }

  lemma {:induction false} NonWsConcat(a: string, b: string)
    ensures NonWs(a + b) == NonWs(a) + NonWs(b)
  {
    if a == [] {
      assert a + b == b;
    } else {
      assert (a + b)[1..] == a[1..] + b;
      NonWsConcat(a[1..], b);
    }
  }

  lemma {:induction false} NonWsOfBlank(s: string)
    requires forall i :: 0 <= i < |s| ==> IsWhitespace(s[i])
    ensures NonWs(s) == ""
  {
    if s != [] {
      NonWsOfBlank(s[1..]);
    }
  }

  lemma {:induction false} SqueezeKeepsText(line: string, lastSpace: bool)
    ensures NonWs(Squeezed(line, lastSpace)) == NonWs(line)
    decreases |line|
  {
    if line != [] {
      var rest := Squeezed(line[1..], IsWhitespace(line[0]));
      SqueezeKeepsText(line[1..], IsWhitespace(line[0]));
      if IsWhitespace(line[0]) && !lastSpace {
        NonWsConcat(" ", rest);
        NonWsOfBlank(" ");
      } else if IsWhitespace(line[0]) {
        assert "" + rest == rest;
      }
    }
  }

  lemma {:induction false} TrimStartKeepsText(s: string)
    ensures NonWs(TrimStart(s)) == NonWs(s)
  {
    if s != [] && IsWhitespace(s[0]) {
      TrimStartKeepsText(s[1..]);
    }
  }

  lemma {:induction false} TrimEndKeepsText(s: string)
    ensures NonWs(TrimEnd(s)) == NonWs(s)
  {
    if s != [] && IsWhitespace(s[|s| - 1]) {
      var init := s[..|s| - 1];
      TrimEndKeepsText(init);
      assert s == init + [s[|s| - 1]];
      NonWsConcat(init, [s[|s| - 1]]);
      NonWsOfBlank([s[|s| - 1]]);
    }
  }

  lemma InlineKeepsText(line: string)
    ensures NonWs(Inline(line)) == NonWs(line)
  {
    SqueezeKeepsText(line, false);
    TrimStartKeepsText(Squeezed(line, false));
    TrimEndKeepsText(TrimStart(Squeezed(line, false)));
  }

  // ---- lines --------------------------------------------------------------------------------

  function Chomp(line: string): (t: string)
    ensures |t| <= |line|
  {
    if line != [] && line[|line| - 1] == '\r' then line[..|line| - 1] else line
  }

  /** `str::lines`: split at newlines, dropping a carriage return before one; a final newline
      starts no further line. */
  function Lines(s: string): (ls: seq<string>)
    decreases |s|
  {
    if s == [] then []
    else
      match FindChar(s, '\n')
      case None => [s]
      case Some(i) => [Chomp(s[..i])] + Lines(s[i + 1..])
  }

  function Join(ls: seq<string>): (s: string) {
    if ls == [] then ""
    else if |ls| == 1 then ls[0]
    else ls[0] + ("\n" + Join(ls[1..]))
  }

  function MapLines(f: string -> string, ls: seq<string>): (cs: seq<string>)
    ensures |cs| == |ls|
    ensures forall i :: 0 <= i < |ls| ==> cs[i] == f(ls[i])
  {
    seq(|ls|, i requires 0 <= i < |ls| => f(ls[i]))
  }

  function InlineAll(ls: seq<string>): (cs: seq<string>) {
    MapLines(Inline, ls)
  }

  /** The lines kept so far and the length of the blank run they end in. */
  function Kept(cs: seq<string>): (r: (seq<string>, nat)) {
    if cs == [] then ([], 0)
    else
      var (lines, blanks) := Kept(cs[..|cs| - 1]);
      KeepLine(lines, blanks, cs[|cs| - 1])
  }

  function PopBlank(lines: seq<string>): (r: seq<string>)
    ensures r <= lines && (r != [] ==> r[|r| - 1] != "")
  {
    if lines != [] && lines[|lines| - 1] == "" then PopBlank(lines[..|lines| - 1]) else lines
  }

  function TidyLines(s: string): (ls: seq<string>) {
    PopBlank(Kept(InlineAll(Lines(s))).0)
  }

  function Collapsed(s: string): (t: string) {
    Join(TidyLines(s))
  }

  /** What one collapsed line does to the lines kept and the blank run. */
  function KeepLine(lines: seq<string>, blanks: nat, line: string): (r: (seq<string>, nat)) {
    if line != "" then (lines + [line], 0)
    else (if blanks == 0 && lines != [] then lines + [""] else lines, blanks + 1)
  }

  lemma KeptStep(cs: seq<string>, i: nat)
    requires i < |cs|
    ensures Kept(cs[..i + 1]) == KeepLine(Kept(cs[..i]).0, Kept(cs[..i]).1, cs[i])
  {
    assert cs[..i + 1][..i] == cs[..i];
  }

  /** The first loop of `collapse_whitespace`: collapse each line, keep single blank ones. */
  method KeepLines(raw: seq<string>) returns (lines: seq<string>)
    ensures lines == Kept(InlineAll(raw)).0
  {
    ghost var cs := InlineAll(raw);
    lines := [];
    var blankRun := 0;
    for i := 0 to |raw|
      invariant (lines, blankRun) == Kept(cs[..i])
    {
      KeptStep(cs, i);
      var collapsed := CollapseInlineSpaces(raw[i]);
      if collapsed == "" {
        blankRun := blankRun + 1;
        if blankRun <= 1 && lines != [] {
          lines := lines + [""];
        }
      } else {
        blankRun := 0;
        lines := lines + [collapsed];
      }
    }
    assert cs[..|raw|] == cs;
  }

  /** Its second loop: drop blank lines at the end. */
  method DropTrailingBlank(kept: seq<string>) returns (lines: seq<string>)
    ensures lines == PopBlank(kept)
  {
    lines := kept;
    while lines != [] && lines[|lines| - 1] == ""
      invariant PopBlank(lines) == PopBlank(kept)
    {
      lines := lines[..|lines| - 1];
    }
  }

  /** `collapse_whitespace`. */
  method CollapseWhitespace(input: string) returns (output: string)
    ensures output == Collapsed(input)
  {
    var lines := KeepLines(Lines(input));
    lines := DropTrailingBlank(lines);
    output := Join(lines);
  }

  // ---- the normal form -----------------------------------------------------------------------

  ghost predicate NoDoubleBlank(ls: seq<string>) {
    && (ls != [] ==> ls[0] != "")
    && (forall i :: 0 <= i < |ls| - 1 && ls[i] == "" ==> ls[i + 1] != "")
  }

  /** Trimmed single-spaced lines, no two adjacent blank ones, none first or last. */
  ghost predicate Tidy(ls: seq<string>) {
    && (forall i :: 0 <= i < |ls| ==> InlineNormal(ls[i]))
    && NoDoubleBlank(ls)
    && (ls != [] ==> ls[|ls| - 1] != "")
  }

  lemma {:induction false} KeptShape(cs: seq<string>)
    requires forall i :: 0 <= i < |cs| ==> InlineNormal(cs[i])
    ensures var (lines, blanks) := Kept(cs);
            && NoDoubleBlank(lines)
            && (forall i :: 0 <= i < |lines| ==> InlineNormal(lines[i]))
            && (lines != [] ==> (lines[|lines| - 1] == "" <==> blanks > 0))
  {
    if cs != [] {
      KeptShape(cs[..|cs| - 1]);
      assert InlineNormal("");
    }
  }

  /** Collapsing always gives a tidy text. */
  lemma CollapsedIsTidy(s: string)
    ensures Tidy(TidyLines(s))
  {
    var cs := InlineAll(Lines(s));
    forall i | 0 <= i < |cs|
      ensures InlineNormal(cs[i])
    {
      InlineIsNormal(Lines(s)[i]);
    }
    KeptShape(cs);
    var kept, popped := Kept(cs).0, TidyLines(s);
    assert forall i :: 0 <= i < |popped| ==> popped[i] == kept[i];
  }

  // ---- a tidy text is left alone --------------------------------------------------------------

  lemma NormalHasNoNewline(t: string)
    requires InlineNormal(t)
    ensures '\n' !in t && Chomp(t) == t
  {
  }

  lemma {:induction false} LinesOfJoin(ls: seq<string>)
    requires forall i :: 0 <= i < |ls| ==> InlineNormal(ls[i])
    requires ls != [] ==> ls[|ls| - 1] != ""
    ensures Lines(Join(ls)) == ls
    decreases |ls|
  {
    if ls != [] {
      NormalHasNoNewline(ls[0]);
      if |ls| > 1 {
        var rest := Join(ls[1..]);
        LinesOfJoin(ls[1..]);
        LinesCons(ls[0], rest);
        assert ls == [ls[0]] + ls[1..];
      }
    }
  }

  lemma LinesCons(line: string, rest: string)
    requires '\n' !in line && Chomp(line) == line
    ensures Lines(line + ("\n" + rest)) == [line] + Lines(rest)
  {
    var s := line + ("\n" + rest);
    assert s[..|line|] == line && s[|line|] == '\n' && s[|line| + 1..] == rest;
    FirstIs(s, '\n', |line|);
  }

  lemma {:induction false} KeptOfTidy(cs: seq<string>)
    requires NoDoubleBlank(cs)
    ensures Kept(cs).0 == cs
    ensures cs != [] ==> (cs[|cs| - 1] == "" <==> Kept(cs).1 > 0)
  {
    if cs != [] {
      var init := cs[..|cs| - 1];
      KeptOfTidy(init);
      assert cs == init + [cs[|cs| - 1]];
      assert init != [] ==> init[|init| - 1] == cs[|cs| - 2];
    }
  }

  lemma InlineAllKeepsNormal(ls: seq<string>)
    requires forall i :: 0 <= i < |ls| ==> InlineNormal(ls[i])
    ensures InlineAll(ls) == ls
  {
    var cs := InlineAll(ls);
    forall i | 0 <= i < |ls|
      ensures cs[i] == ls[i]
    {
      InlineKeepsNormal(ls[i]);
    }
  }

  lemma KeepsTidy(ls: seq<string>)
    requires Tidy(ls)
    ensures PopBlank(Kept(ls).0) == ls
  {
    KeptOfTidy(ls);
  }

  lemma TidyLinesOfJoin(ls: seq<string>)
    requires Tidy(ls)
    ensures TidyLines(Join(ls)) == ls
  {
    var s := Join(ls);
    calc {
      TidyLines(s);
      PopBlank(Kept(InlineAll(Lines(s))).0);
      { LinesOfJoin(ls); }
      PopBlank(Kept(InlineAll(ls)).0);
      { InlineAllKeepsNormal(ls); }
      PopBlank(Kept(ls).0);
      { KeepsTidy(ls); }
      ls;
    }
  }

  /** A tidy text is left alone. */
  lemma TidyIsFixed(ls: seq<string>)
    requires Tidy(ls)
    ensures Collapsed(Join(ls)) == Join(ls)
  {
    TidyLinesOfJoin(ls);
  }

  /** Collapsing twice is collapsing once. */
  lemma CollapseIdempotent(s: string)
    ensures Collapsed(Collapsed(s)) == Collapsed(s)
  {
    CollapsedIsTidy(s);
    TidyIsFixed(TidyLines(s));
  }

  /** The texts that collapsing leaves alone are exactly the tidy ones. */
  lemma FixedIffTidy(s: string)
    ensures Collapsed(s) == s <==> exists ls :: Tidy(ls) && s == Join(ls)
  {
    if Collapsed(s) == s {
      CollapsedIsTidy(s);
      assert Tidy(TidyLines(s)) && s == Join(TidyLines(s));
    }
    if ls :| Tidy(ls) && s == Join(ls) {
      TidyIsFixed(ls);
    }
  }

  // ---- nothing is lost, nothing invented ---------------------------------------------------------

  function NonWsAll(ls: seq<string>): (t: string) {
    if ls == [] then "" else NonWsAll(ls[..|ls| - 1]) + NonWs(ls[|ls| - 1])
  }

  lemma {:induction false} NonWsAllHead(ls: seq<string>)
    requires ls != []
    ensures NonWsAll(ls) == NonWs(ls[0]) + NonWsAll(ls[1..])
    decreases |ls|
  {
    var n := |ls|;
    if n == 1 {
      assert NonWsAll(ls[..0]) == "" && NonWsAll(ls[1..]) == "";
      assert "" + NonWs(ls[0]) == NonWs(ls[0]) + "";
    } else {
      NonWsAllHead(ls[..n - 1]);
      assert ls[..n - 1][1..] == ls[1..][..n - 2];
      Reassociate(NonWs(ls[0]), NonWsAll(ls[1..][..n - 2]), NonWs(ls[n - 1]));
    }
  }

  lemma SplitKeepsText(line: string, rest: string)
    ensures NonWs(line + ("\n" + rest)) == NonWs(Chomp(line)) + NonWs(rest)
  {
    ChompKeepsText(line);
    NonWsConcat(line, "\n" + rest);
    NonWsConcat("\n", rest);
    NonWsOfBlank("\n");
  }

  lemma OneLineText(s: string)
    ensures NonWsAll([s]) == NonWs(s)
  {
    NonWsAllHead([s]);
    assert [s][1..] == [];
    assert NonWs(s) + "" == NonWs(s);
  }

  lemma ConsLineText(line: string, rest: seq<string>)
    ensures NonWsAll([line] + rest) == NonWs(line) + NonWsAll(rest)
  {
    NonWsAllHead([line] + rest);
    assert ([line] + rest)[1..] == rest;
  }

  lemma {:induction false} LinesKeepText(s: string)
    ensures NonWsAll(Lines(s)) == NonWs(s)
    decreases |s|
  {
    if s != [] {
      var i := FindChar(s, '\n');
      if i == None {
        OneLineText(s);
      } else {
        var line, rest := s[..i.value], s[i.value + 1..];
        LinesKeepText(rest);
        ConsLineText(Chomp(line), Lines(rest));
        SplitKeepsText(line, rest);
        SplitAt(s, i.value);
      }
    }
  }

  lemma SplitAt(s: string, i: nat)
    requires i < |s| && s[i] == '\n'
    ensures s == s[..i] + ("\n" + s[i + 1..])
  {
  }

  lemma ChompKeepsText(line: string)
    ensures NonWs(Chomp(line)) == NonWs(line)
  {
    if Chomp(line) != line {
      assert line == Chomp(line) + "\r";
      NonWsConcat(Chomp(line), "\r");
      NonWsOfBlank("\r");
    }
  }

  lemma {:induction false} JoinKeepsText(ls: seq<string>)
    ensures NonWs(Join(ls)) == NonWsAll(ls)
    decreases |ls|
  {
    if ls != [] {
      NonWsAllHead(ls);
      if |ls| == 1 {
        assert NonWs(ls[0]) + "" == NonWs(ls[0]);
      } else {
        JoinKeepsText(ls[1..]);
        NonWsConcat(ls[0], "\n" + Join(ls[1..]));
        NonWsConcat("\n", Join(ls[1..]));
        NonWsOfBlank("\n");
      }
    }
  }

  lemma {:induction false} MapKeepsText(f: string -> string, ls: seq<string>)
    requires forall l :: NonWs(f(l)) == NonWs(l)
    ensures NonWsAll(MapLines(f, ls)) == NonWsAll(ls)
    decreases |ls|
  {
    if ls != [] {
      var n := |ls|;
      MapKeepsText(f, ls[..n - 1]);
      assert MapLines(f, ls)[..n - 1] == MapLines(f, ls[..n - 1]);
    }
  }

  lemma InlineAllKeepsText(ls: seq<string>)
    ensures NonWsAll(InlineAll(ls)) == NonWsAll(ls)
  {
    forall l
      ensures NonWs(Inline(l)) == NonWs(l)
    {
      InlineKeepsText(l);
    }
    MapKeepsText(Inline, ls);
  }

  lemma NonWsAllAppend(ls: seq<string>, line: string)
    ensures NonWsAll(ls + [line]) == NonWsAll(ls) + NonWs(line)
  {
    assert (ls + [line])[..|ls|] == ls;
  }

  lemma {:induction false} KeptKeepsText(cs: seq<string>)
    ensures NonWsAll(Kept(cs).0) == NonWsAll(cs)
  {
    if cs != [] {
      var init, last := cs[..|cs| - 1], cs[|cs| - 1];
      KeptKeepsText(init);
      NonWsAllAppend(Kept(init).0, last);
      assert NonWs("") == "" && NonWsAll(init) + "" == NonWsAll(init);
    }
  }

  lemma {:induction false} PopKeepsText(ls: seq<string>)
    ensures NonWsAll(PopBlank(ls)) == NonWsAll(ls)
  {
    if ls != [] && ls[|ls| - 1] == "" {
      PopKeepsText(ls[..|ls| - 1]);
      assert NonWsAll(ls[..|ls| - 1]) + "" == NonWsAll(ls[..|ls| - 1]);
    }
  }

  /** Collapsing keeps every character that is not white space, in order. */
  lemma CollapseKeepsText(s: string)
    ensures NonWs(Collapsed(s)) == NonWs(s)
  {
    LinesKeepText(s);
    InlineAllKeepsText(Lines(s));
    KeptKeepsText(InlineAll(Lines(s)));
    PopKeepsText(Kept(InlineAll(Lines(s))).0);
    JoinKeepsText(TidyLines(s));
  }

  // ---- size -------------------------------------------------------------------------------------

  /** The characters of the lines, each with a line break. */
  function Weight(ls: seq<string>): (n: nat) {
    if ls == [] then 0 else Weight(ls[..|ls| - 1]) + |ls[|ls| - 1]| + 1
  }

  lemma {:induction false} WeightHead(ls: seq<string>)
    requires ls != []
    ensures Weight(ls) == |ls[0]| + 1 + Weight(ls[1..])
    decreases |ls|
  {
    var n := |ls|;
    if n > 1 {
      WeightHead(ls[..n - 1]);
      assert ls[..n - 1][1..] == ls[1..][..n - 2];
    }
  }

  lemma {:induction false} JoinSize(ls: seq<string>)
    ensures |Join(ls)| == if ls == [] then 0 else Weight(ls) - 1
    decreases |ls|
  {
    if ls != [] {
      WeightHead(ls);
      JoinSize(ls[1..]);
    }
  }

  lemma WeightCons(line: string, rest: seq<string>)
    ensures Weight([line] + rest) == |line| + 1 + Weight(rest)
  {
    WeightHead([line] + rest);
    assert ([line] + rest)[1..] == rest;
  }

  lemma {:induction false} LinesSize(s: string)
    ensures Weight(Lines(s)) <= if s == [] then 0 else |s| + 1
    decreases |s|
  {
    if s != [] {
      var i := FindChar(s, '\n');
      if i == None {
        WeightCons(s, []);
        assert [s] + [] == [s];
      } else {
        LinesSize(s[i.value + 1..]);
        WeightCons(Chomp(s[..i.value]), Lines(s[i.value + 1..]));
      }
    }
  }

  lemma {:induction false} MapSize(f: string -> string, ls: seq<string>)
    requires forall l :: |f(l)| <= |l|
    ensures Weight(MapLines(f, ls)) <= Weight(ls)
    decreases |ls|
  {
    if ls != [] {
      MapSize(f, ls[..|ls| - 1]);
      assert MapLines(f, ls)[..|ls| - 1] == MapLines(f, ls[..|ls| - 1]);
    }
  }

  lemma {:induction false} KeptSize(cs: seq<string>)
    ensures Weight(Kept(cs).0) <= Weight(cs)
  {
    if cs != [] {
      var init, last := cs[..|cs| - 1], cs[|cs| - 1];
      KeptSize(init);
      assert (Kept(init).0 + [last])[..|Kept(init).0|] == Kept(init).0;
    }
  }

  lemma {:induction false} PopSize(ls: seq<string>)
    ensures Weight(PopBlank(ls)) <= Weight(ls)
  {
    if ls != [] && ls[|ls| - 1] == "" {
      PopSize(ls[..|ls| - 1]);
    }
  }

  lemma CollapseShrinks(s: string)
    ensures |Collapsed(s)| <= |s|
  {
    LinesSize(s);
    MapSize(Inline, Lines(s));
    KeptSize(InlineAll(Lines(s)));
    PopSize(Kept(InlineAll(Lines(s))).0);
    JoinSize(TidyLines(s));
  }
}
