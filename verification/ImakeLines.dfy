/** The output side of config/imake/imake.c: ReadLine cuts the cpp output at newlines and at soft line
    ends, CleanCppOutput writes the lines back with runs of empty lines reduced to one. */
module ImakeLines {
  import opened Names
  import opened ImakeComments

  // @@ ends a line, unless it stands behind a character that is no space and in front of a slash.
  predicate SoftEnd(t: string, i: nat) {
    At(t, i) == '@' && At(t, i + 1) == '@' && !(0 < i <= |t| && !IsSpace(t[i - 1]) && At(t, i + 2) == '/')
  }

  predicate EndsAt(t: string, i: nat) {
    At(t, i) == '\n' || SoftEnd(t, i)
  }

  // Where the line that begins t ends, looking from i on.
  function LineEnd(t: string, i: nat): (e: nat)
    requires i <= |t|
    ensures i <= e <= |t| && (e < |t| ==> EndsAt(t, e))
    ensures forall k :: i <= k < e ==> !EndsAt(t, k)
    decreases |t| - i
  {
    if i == |t| || EndsAt(t, i) then i else LineEnd(t, i + 1)
  }

  function Separator(t: string, e: nat): (s: string)
    ensures |s| <= 2 && (e < |t| && EndsAt(t, e) ==> s != [] && e + |s| <= |t|)
  {
    if e >= |t| then "" else if t[e] == '\n' then "\n" else "@@"
  }

  datatype Line = Line(text: string, end: string)

  // What one call of ReadLine returns, and what it leaves.
  function First(t: string): Line
    requires t != []
  {
    var e := LineEnd(t, 0);
    Line(t[..e], Separator(t, e))
  }

  function Remainder(t: string): (r: string)
    requires t != []
    ensures |r| < |t|
  {
    var e := LineEnd(t, 0);
    t[e + |Separator(t, e)|..]
  }

  // Call by call.
  function LinesOf(t: string): seq<Line>
    decreases |t|
  {
    if t == [] then [] else [First(t)] + LinesOf(Remainder(t))
  }

  function Joined(ls: seq<Line>): string {
    if ls == [] then [] else ls[0].text + (ls[0].end + Joined(ls[1..]))
  }

  lemma {:induction false} CutAt(t: string, e: nat)
    requires e <= |t| && (e < |t| ==> EndsAt(t, e))
    ensures var s := Separator(t, e); t[..e] + (s + t[e + |s|..]) == t
  {
    var s := Separator(t, e);
    assert s == t[e..e + |s|];
    assert t[e..e + |s|] + t[e + |s|..] == t[e..];
  }

  /** No character is lost or added: the lines with their ends are the text. */
  lemma {:induction false} LinesPartition(t: string)
    ensures Joined(LinesOf(t)) == t
    decreases |t|
  {
    if t != [] {
      LinesPartition(Remainder(t));
      CutAt(t, LineEnd(t, 0));
    }
  }

  // What is left of the text before the k-th call.
  function LeftFor(t: string, k: nat): string {
    if k == 0 || t == [] then t else LeftFor(Remainder(t), k - 1)
  }

  lemma {:induction false} FirstEndsAtBreak(t: string)
    requires t != []
    ensures var line := First(t);
      && |line.text| <= |t| && line.text == t[..|line.text|]
      && (forall i: nat :: i < |line.text| ==> !EndsAt(t, i))
      && (if line.end == "" then |line.text| == |t| && Remainder(t) == []
          else EndsAt(t, |line.text|) && line.end == if t[|line.text|] == '\n' then "\n" else "@@")
  {
  }

  /** Every line ends where it should: it is what stands in front of the first newline or soft end of the
      text that was left; only the last may end with the text. */
  lemma {:induction false} LinesEndAtBreaks(t: string, k: nat)
    requires k < |LinesOf(t)|
    ensures var line, u := LinesOf(t)[k], LeftFor(t, k);
      && |line.text| <= |u| && line.text == u[..|line.text|]
      && (forall i: nat :: i < |line.text| ==> !EndsAt(u, i))
      && (if line.end == "" then |line.text| == |u| && k == |LinesOf(t)| - 1
          else EndsAt(u, |line.text|) && line.end == if u[|line.text|] == '\n' then "\n" else "@@")
    decreases |t|
  {
    if k > 0 {
      LinesEndAtBreaks(Remainder(t), k - 1);
      assert LinesOf(t)[k] == LinesOf(Remainder(t))[k - 1];
    } else {
      FirstEndsAtBreak(t);
    }
  }

  // ---------------------------------------------------------------- the ends on whole texts

  // Nothing in the text ends a line.
  predicate HasNoEnd(a: string) {
    (forall i :: 0 <= i < |a| ==> a[i] != '\n') && forall i :: 0 <= i < |a| - 1 ==> !(a[i] == '@' && a[i + 1] == '@')
  }

  lemma {:induction false} EndIsFirst(t: string, i: nat, e: nat)
    requires i <= e < |t| && EndsAt(t, e) && forall k :: i <= k < e ==> !EndsAt(t, k)
    ensures LineEnd(t, i) == e
    decreases e - i
  {
    if i < e { EndIsFirst(t, i + 1, e); }
  }

  lemma {:induction false} NoEndIsNone(t: string, i: nat)
    requires i <= |t| && forall k :: i <= k < |t| ==> !EndsAt(t, k)
    ensures LineEnd(t, i) == |t|
    decreases |t| - i
  {
    if i < |t| { NoEndIsNone(t, i + 1); }
  }

  lemma {:induction false} CutsOff(line: string, end: string, t: string)
    requires end == "\n" || end == "@@"
    requires EndsAt(line + end + t, |line|) && forall k :: 0 <= k < |line| ==> !EndsAt(line + end + t, k)
    ensures LinesOf(line + end + t) == [Line(line, end)] + LinesOf(t)
  {
    var u := line + end + t;
    EndIsFirst(u, 0, |line|);
    assert u[|line|] == end[0] && u[..|line|] == line && u[|line| + |end|..] == t;
  }

  /** A newline ends a line, and what is left of the text is its last line. */
  lemma {:induction false} NewlineEndsLine(line: string, t: string)
    requires HasNoEnd(line)
    ensures LinesOf(line + "\n" + t) == [Line(line, "\n")] + LinesOf(t)
    ensures line != [] ==> LinesOf(line) == [Line(line, "")]
  {
    var u := line + "\n" + t;
    assert forall k :: 0 <= k < |line| ==> u[k] == line[k];
    assert u[|line|] == '\n' && EndsAt(u, |line|);
    CutsOff(line, "\n", t);
    NoEndIsNone(line, 0);
    assert line[..|line|] == line;
  }

  /** @@ ends a line at the front of it, behind a space of any kind, and wherever no slash follows. */
  lemma {:induction false} SoftEndEndsLine(line: string, t: string)
    requires HasNoEnd(line) && (line != [] ==> line[|line| - 1] != '@')
    requires var last := if line == [] then ' ' else line[|line| - 1];
      last == ' ' || '\t' <= last <= '\r' || t == [] || t[0] != '/'
    ensures LinesOf(line + "@@" + t) == [Line(line, "@@")] + LinesOf(t)
  {
    var u := line + "@@" + t;
    assert forall k :: 0 <= k < |line| ==> u[k] == line[k];
    assert u[|line|] == '@' && u[|line| + 1] == '@' && (t != [] ==> u[|line| + 2] == t[0]);
    assert SoftEnd(u, |line|);
    CutsOff(line, "@@", t);
  }

  /** Behind any other character and in front of a slash, as in the name of a file, it does not. */
  lemma {:induction false} SignsInNameStay(name: string, more: string, t: string)
    requires HasNoEnd(name) && HasNoEnd(more) && name != [] && name[|name| - 1] != '@'
    requires var last := name[|name| - 1]; last != ' ' && !('\t' <= last <= '\r')
    ensures LinesOf(name + "@@/" + more + "\n" + t) == [Line(name + "@@/" + more, "\n")] + LinesOf(t)
  {
    var line, n := name + "@@/" + more, |name|;
    var u := line + "\n" + t;
    assert forall k :: 0 <= k < n ==> u[k] == name[k];
    assert u[n] == '@' && u[n + 1] == '@' && u[n + 2] == '/';
    assert forall k :: n + 3 <= k < |line| ==> u[k] == more[k - n - 3];
    assert u[|line|] == '\n' && EndsAt(u, |line|);
    CutsOff(line, "\n", t);
  }

  // ---------------------------------------------------------------- what is written

  // The lines written for those read; blankline says that the last one written was empty.
  function Cleaned(ls: seq<Line>, blankline: bool): seq<string> {
    if ls == [] then []
    else
      var (empty, text) := Emptied(ls[0].text);
      if empty then (if blankline then [] else [""]) + Cleaned(ls[1..], true)
      else [text] + Cleaned(ls[1..], false)
  }

  function Unlines(out: seq<string>): string {
    if out == [] then [] else out[0] + ("\n" + Unlines(out[1..]))
  }

  function CleanedOutput(t: string): string {
    Unlines(Cleaned(LinesOf(t), false))
  }

  // Neither a blank at the end of a line nor two empty lines in a row.
  predicate Tidy(out: seq<string>) {
    && (forall k :: 0 <= k < |out| ==> out[k] == [] || out[k][|out[k]| - 1] !in " \t")
    && forall k :: 0 <= k < |out| - 1 ==> !(out[k] == [] && out[k + 1] == [])
  }

  // What is left of the lines that are neither empty nor dropped.
  function Kept(ls: seq<Line>): seq<string> {
    if ls == [] then []
    else (if Emptied(ls[0].text).0 then [] else [Emptied(ls[0].text).1]) + Kept(ls[1..])
  }

  function NonEmpty(out: seq<string>): seq<string> {
    if out == [] then [] else (if out[0] == [] then [] else [out[0]]) + NonEmpty(out[1..])
  }

  lemma {:induction false} EmptiedIsTrimmed(line: string)
    ensures !Emptied(line).0 ==> Emptied(line).1 != [] && !IsBlank(Emptied(line).1[|Emptied(line).1| - 1])
  {
  }

  lemma {:induction false} CleanedIsTidy(ls: seq<Line>, blankline: bool)
    ensures Tidy(Cleaned(ls, blankline))
    ensures blankline && Cleaned(ls, blankline) != [] ==> Cleaned(ls, blankline)[0] != []
  {
    if ls != [] {
      var (empty, text) := Emptied(ls[0].text);
      var rest := Cleaned(ls[1..], empty);
      EmptiedIsTrimmed(ls[0].text);
      CleanedIsTidy(ls[1..], empty);
      if !empty { TidyWithLine(text, rest); } else if !blankline { TidyWithLine("", rest); }
    }
  }

  lemma {:induction false} TidyWithLine(line: string, rest: seq<string>)
    requires Tidy(rest) && (line == [] || !IsBlank(line[|line| - 1])) && (line == [] && rest != [] ==> rest[0] != [])
    ensures Tidy([line] + rest)
  {
  }

  lemma {:induction false} CleanedKeepsLines(ls: seq<Line>, blankline: bool)
    ensures NonEmpty(Cleaned(ls, blankline)) == Kept(ls)
  {
    if ls != [] {
      EmptiedIsTrimmed(ls[0].text);
      CleanedKeepsLines(ls[1..], Emptied(ls[0].text).0);
      var rest := Cleaned(ls[1..], Emptied(ls[0].text).0);
      var out := Cleaned(ls, blankline);
      if Emptied(ls[0].text).0 {
        assert out == rest || (out == [""] + rest && out[1..] == rest);
      } else {
        assert out[1..] == rest;
      }
    }
  }

  /** For every text: what is written has no two empty lines in a row and no line that ends in a
      blank, and its other lines are, in order, those read that are neither empty nor markers of
      cpp. */
  lemma {:induction false} OutputIsTidy(t: string)
    ensures Tidy(Cleaned(LinesOf(t), false))
    ensures NonEmpty(Cleaned(LinesOf(t), false)) == Kept(LinesOf(t))
  {
    CleanedIsTidy(LinesOf(t), false);
    CleanedKeepsLines(LinesOf(t), false);
  }

  // What a list of lines leaves behind for the next.
  function BlankAfter(ls: seq<Line>, blankline: bool): bool {
    if ls == [] then blankline else Emptied(ls[|ls| - 1].text).0
  }

  lemma {:induction false} CleanedJoin(a: seq<Line>, b: seq<Line>, blankline: bool)
    ensures Cleaned(a + b, blankline) == Cleaned(a, blankline) + Cleaned(b, BlankAfter(a, blankline))
    decreases |a|
  {
    if a == [] {
      assert a + b == b;
    } else {
      var empty := Emptied(a[0].text).0;
      assert (a + b)[0] == a[0] && (a + b)[1..] == a[1..] + b;
      CleanedJoin(a[1..], b, empty);
      Regroup(FirstCleaned(a[0], blankline), Cleaned(a[1..], empty), Cleaned(b, BlankAfter(a[1..], empty)));
    }
  }

  function FirstCleaned(l: Line, blankline: bool): seq<string> {
    if !Emptied(l.text).0 then [Emptied(l.text).1] else if blankline then [] else [""]
  }

  lemma {:induction false} OnlyDropped(gap: seq<Line>, blankline: bool)
    requires forall k :: 0 <= k < |gap| ==> Emptied(gap[k].text).0
    ensures Cleaned(gap, blankline) == if gap == [] || blankline then [] else [""]
  {
    if gap != [] { OnlyDropped(gap[1..], true); }
  }

  /** Wherever lines are dropped, at the front of the text, between two lines that are kept or at its end,
      one empty line is written for all of them, and none otherwise. */
  lemma {:induction false} GapsAreKept(t: string, before: seq<Line>, gap: seq<Line>, behind: seq<Line>)
    requires LinesOf(t) == before + (gap + behind)
    requires before != [] ==> !Emptied(before[|before| - 1].text).0
    requires forall k :: 0 <= k < |gap| ==> Emptied(gap[k].text).0
    requires behind != [] ==> !Emptied(behind[0].text).0
    ensures CleanedOutput(t) ==
      Unlines(Cleaned(before, false) + ((if gap == [] then [] else [""]) + Cleaned(behind, false)))
  {
    CleanedJoin(before, gap + behind, false);
    CleanedJoin(gap, behind, false);
    OnlyDropped(gap, false);
    assert Cleaned(behind, true) == Cleaned(behind, false);
  }

  /** A line that is kept is written as it has become, and ended by a newline. */
  lemma {:induction false} KeptLineIsWritten(t: string, line: Line, rest: seq<Line>)
    requires LinesOf(t) == [line] + rest && !Emptied(line.text).0
    ensures CleanedOutput(t) == Emptied(line.text).1 + ("\n" + Unlines(Cleaned(rest, false)))
  {
    assert ([line] + rest)[1..] == rest;
    var text := Emptied(line.text).1;
    assert ([text] + Cleaned(rest, false))[1..] == Cleaned(rest, false);
  }
}
