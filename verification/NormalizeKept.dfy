/** Which characters of a line and which lines of a text survive white-space collapsing, told by
    position: whatever is not blank, and of each run of blanks between two that are not, one. */
module NormalizeKept {
  import opened Bytes
  import opened Text
  import opened NormalizeWhitespace

  /** The i-th item stays: it is not blank, or it is the first of a run of blanks that has
      something before it and something after it. */
  ghost predicate Stays<T>(x: seq<T>, blank: T -> bool, i: nat)
    requires i < |x|
  {
    !blank(x[i]) || (i > 0 && !blank(x[i - 1]) && exists j :: i < j < |x| && !blank(x[j]))
  }

  /** Those of the first n items that stay. */
  ghost function Chosen<T>(x: seq<T>, blank: T -> bool, n: nat): (c: seq<T>)
    requires n <= |x|
  {
    if n == 0 then [] else Chosen(x, blank, n - 1) + if Stays(x, blank, n - 1) then [x[n - 1]] else []
  }

  /** Just behind the last item that is not blank. */
  ghost predicate IsEnd<T>(x: seq<T>, blank: T -> bool, e: nat) {
    e <= |x| && (e > 0 ==> !blank(x[e - 1])) && forall j :: e <= j < |x| ==> blank(x[j])
  }

  lemma {:induction false} EndExists<T>(x: seq<T>, blank: T -> bool, n: nat) returns (e: nat)
    requires n <= |x| && forall j :: n <= j < |x| ==> blank(x[j])
    ensures e <= n && IsEnd(x, blank, e)
  {
    e := n;
    if n > 0 && blank(x[n - 1]) {
      e := EndExists(x, blank, n - 1);
    }
  }

  /** Up to the end a blank stays exactly where it follows something else; behind it none does. */
  lemma StaysIff<T>(x: seq<T>, blank: T -> bool, e: nat, i: nat)
    requires IsEnd(x, blank, e) && i < |x|
    ensures Stays(x, blank, i) <==> if i < e then !blank(x[i]) || (i > 0 && !blank(x[i - 1])) else false
  {
    if i < e {
      assert e - 1 == i || !blank(x[e - 1]);
    }
  }

  lemma {:induction false} NothingBehind<T>(x: seq<T>, blank: T -> bool, e: nat, n: nat)
    requires IsEnd(x, blank, e) && e <= n <= |x|
    ensures Chosen(x, blank, n) == Chosen(x, blank, e)
    decreases n
  {
    if n > e {
      StaysIff(x, blank, e, n - 1);
      NothingBehind(x, blank, e, n - 1);
    }
  }

  /** What is chosen up to the end ends in what is not blank. */
  lemma ChosenEnds<T>(x: seq<T>, blank: T -> bool, e: nat)
    requires IsEnd(x, blank, e)
    ensures var c := Chosen(x, blank, e); if e == 0 then c == [] else c != [] && c[|c| - 1] == x[e - 1]
  {
    if e > 0 {
      StaysIff(x, blank, e, e - 1);
    }
  }

  // ---- lines -------------------------------------------------------------------------------

  predicate BlankLine(line: string) {
    line == ""
  }

  /** While there is something to come, the lines kept are those chosen. */
  lemma {:induction false} KeptIsChosen(cs: seq<string>, e: nat, n: nat)
    requires IsEnd(cs, BlankLine, e) && n <= e
    ensures Kept(cs[..n]).0 == Chosen(cs, BlankLine, n)
    ensures n > 0 ==> (Kept(cs[..n]).1 == 0 <==> cs[n - 1] != "")
    ensures n > 0 && cs[n - 1] != "" ==> Kept(cs[..n]).0 != []
    ensures n == 0 ==> Kept(cs[..n]) == ([], 0)
  {
    if n > 0 {
      KeptIsChosen(cs, e, n - 1);
      KeptStep(cs, n - 1);
      StaysIff(cs, BlankLine, e, n - 1);
    }
  }

  /** Behind the last line that is not blank, at most one blank line is added. */
  lemma {:induction false} KeptBehind(cs: seq<string>, e: nat, n: nat)
    requires IsEnd(cs, BlankLine, e) && e <= n <= |cs|
    ensures PopBlank(Kept(cs[..n]).0) == PopBlank(Kept(cs[..e]).0)
    decreases n
  {
    if n > e {
      KeptBehind(cs, e, n - 1);
      KeptStep(cs, n - 1);
      PopAppended(Kept(cs[..n - 1]).0);
    }
  }

  lemma PopAppended(lines: seq<string>)
    ensures PopBlank(lines + [""]) == PopBlank(lines)
  {
    assert (lines + [""])[..|lines|] == lines;
  }

  lemma LinesChosen(cs: seq<string>)
    ensures PopBlank(Kept(cs).0) == Chosen(cs, BlankLine, |cs|)
  {
    var e := EndExists(cs, BlankLine, |cs|);
    KeptBehind(cs, e, |cs|);
    KeptIsChosen(cs, e, e);
    ChosenEnds(cs, BlankLine, e);
    NothingBehind(cs, BlankLine, e, |cs|);
    assert cs[..|cs|] == cs;
  }

  /** The lines of the result: the collapsed lines of the text that are not blank, and one blank
      line for each run of blank ones between two that are not. */
  lemma CollapsedLines(s: string)
    ensures Collapsed(s) == Join(Chosen(InlineAll(Lines(s)), BlankLine, |InlineAll(Lines(s))|))
  {
    LinesChosen(InlineAll(Lines(s)));
  }

  // ---- characters -----------------------------------------------------------------------------

  /** The line with a space for each character that is white space. */
  function Spaces(line: string): (t: string)
    ensures |t| == |line|
    ensures forall i :: 0 <= i < |line| ==> t[i] == if IsWhitespace(line[i]) then ' ' else line[i]
  {
    seq(|line|, i requires 0 <= i < |line| => if IsWhitespace(line[i]) then ' ' else line[i])
  }

  /** What the loop has pushed after n characters. */
  function Pushed(line: string, n: nat): (t: string)
    requires n <= |line|
  {
    if n == 0 then ""
    else
      var c := line[n - 1];
      Pushed(line, n - 1)
      + if !IsWhitespace(c) then [c] else if n > 1 && IsWhitespace(line[n - 2]) then "" else " "
  }

  lemma {:induction false} SqueezedIsPushed(line: string, n: nat)
    requires n <= |line|
    ensures Squeezed(line, false) == Pushed(line, n) + Squeezed(line[n..], n > 0 && IsWhitespace(line[n - 1]))
  {
    if n == 0 {
      assert line[0..] == line;
    } else {
      var c, again := line[n - 1], n > 1 && IsWhitespace(line[n - 2]);
      var piece := if !IsWhitespace(c) then [c] else if again then "" else " ";
      SqueezedIsPushed(line, n - 1);
      SqueezeTurn(line, n - 1, again);
      Reassociate(Pushed(line, n - 1), piece, Squeezed(line[n..], IsWhitespace(c)));
    }
  }

  /** Up to the last character that is not white space, the loop has pushed a space for leading
      white space, if any, and what is chosen. */
  lemma {:induction false} PushedIsChosen(line: string, e: nat, n: nat)
    requires IsEnd(line, IsWhitespace, e) && n <= e
    ensures Pushed(line, n)
         == (if n > 0 && IsWhitespace(line[0]) then " " else "") + Chosen(Spaces(line), IsWhitespace, n)
  {
    if n > 0 {
      PushedIsChosen(line, e, n - 1);
      assert IsEnd(Spaces(line), IsWhitespace, e);
      StaysIff(Spaces(line), IsWhitespace, e, n - 1);
    }
  }

  lemma {:induction false} PushedBehind(line: string, e: nat, n: nat)
    requires IsEnd(line, IsWhitespace, e) && e <= n <= |line| && e > 0
    ensures Pushed(line, n) == Pushed(line, e) + if n > e then " " else ""
    decreases n
  {
    if n > e {
      PushedBehind(line, e, n - 1);
    }
  }

  lemma {:induction false} PushedBlank(line: string, n: nat)
    requires n <= |line| && forall j :: 0 <= j < |line| ==> IsWhitespace(line[j])
    ensures Pushed(line, n) == if n > 0 then " " else ""
  {
    if n > 0 {
      PushedBlank(line, n - 1);
    }
  }

  lemma {:induction false} ChosenStarts(line: string, e: nat, n: nat)
    requires IsEnd(line, IsWhitespace, e) && n <= e
    ensures var c := Chosen(Spaces(line), IsWhitespace, n); c != [] ==> !IsWhitespace(c[0])
  {
    if n > 0 {
      ChosenStarts(line, e, n - 1);
      assert IsEnd(Spaces(line), IsWhitespace, e);
      StaysIff(Spaces(line), IsWhitespace, e, n - 1);
      if n > 1 && !IsWhitespace(Spaces(line)[n - 2]) {
        StaysIff(Spaces(line), IsWhitespace, e, n - 2);
      }
    }
  }

  lemma {:induction false} LeadGone(x: string)
    requires x != "" && !IsWhitespace(x[0])
    ensures TrimStart(" " + x) == x && TrimStart(x) == x
  {
    var y := " " + x;
    assert y[0] == ' ' && y[1..] == x;
  }

  lemma {:induction false} TrailGone(t: string)
    requires t != "" && !IsWhitespace(t[|t| - 1])
    ensures TrimEnd(t + " ") == t && TrimEnd(t) == t
  {
    var y := t + " ";
    assert y[|y| - 1] == ' ' && y[..|y| - 1] == t;
  }

  lemma {:induction false} TrimSides(lead: bool, t: string, trail: bool)
    requires t != "" && !IsWhitespace(t[0]) && !IsWhitespace(t[|t| - 1])
    ensures Trim((if lead then " " else "") + t + (if trail then " " else "")) == t
  {
    var x := t + if trail then " " else "";
    assert (if lead then " " else "") + t + (if trail then " " else "") == if lead then " " + x else x;
    assert trail || x == t;
    LeadGone(x);
    TrailGone(t);
  }

  lemma {:induction false} BlankCollapsed(line: string)
    requires IsEnd(line, IsWhitespace, 0)
    ensures Inline(line) == "" && Chosen(Spaces(line), IsWhitespace, |line|) == ""
  {
    SqueezedIsPushed(line, |line|);
    PushedBlank(line, |line|);
    assert line[|line|..] == "" && Pushed(line, |line|) + "" == Pushed(line, |line|);
    NothingBehind(Spaces(line), IsWhitespace, 0, |line|);
    BlankTrimmed(Pushed(line, |line|));
  }

  lemma BlankTrimmed(t: string)
    requires t in {"", " "}
    ensures Trim(t) == ""
  {
    assert t == " " ==> t[1..] == "";
  }

  /** A collapsed line: its characters that are not white space, and one space for each run of
      white space between two of them. */
  lemma {:induction false} CollapsedLine(line: string)
    ensures Inline(line) == Chosen(Spaces(line), IsWhitespace, |line|)
  {
    var e := EndExists(line, IsWhitespace, |line|);
    if e == 0 {
      BlankCollapsed(line);
    } else {
      var c := Chosen(Spaces(line), IsWhitespace, e);
      SqueezedIsPushed(line, |line|);
      assert line[|line|..] == "" && Pushed(line, |line|) + "" == Pushed(line, |line|);
      PushedBehind(line, e, |line|);
      PushedIsChosen(line, e, e);
      ChosenStarts(line, e, e);
      assert IsEnd(Spaces(line), IsWhitespace, e);
      ChosenEnds(Spaces(line), IsWhitespace, e);
      NothingBehind(Spaces(line), IsWhitespace, e, |line|);
      TrimSides(IsWhitespace(line[0]), c, |line| > e);
    }
  }
}
