/** The string tables of config/util/makestrs.c: the offsets written to the headers, and the arrays
    that the emitted source defines, read back as C character lists. */
module MakeStrs {
  import opened Names

  // An entry as the headers see it: the string, and where it is said to start.
  datatype Entry = Entry(right: CString, offset: nat)

  datatype Table = Table(name: string, entries: seq<Entry>)

  datatype Abi = Default | Intel | IntelBC | Function

  // ---------------------------------------------------------------- what is emitted

  // WriteSourceLine: the characters, a zero, and a comma unless it is the last line.
  function LineText(right: string, comma: bool): string {
    if right == [] then "0" + ((if comma then "," else "") + "\n")
    else ['\'', right[0], '\'', ','] + LineText(right[1..], comma)
  }

  // The lines of one table; fudge asks for a comma behind the last one as well.
  function TableText(es: seq<Entry>, fudge: bool): string {
    if es == [] then "" else LineText(es[0].right, |es| > 1 || fudge) + TableText(es[1..], fudge)
  }

  // The lines of several tables. Only with fudging is there a comma behind every line but those of
  // the last table.
  function TablesText(ts: seq<Table>, fudging: bool): string {
    if ts == [] then "" else TableText(ts[0].entries, fudging && |ts| > 1) + TablesText(ts[1..], fudging)
  }

  // An array definition: its name, and the text between the braces and up to their end.
  datatype Array = Array(name: string, body: string)

  function PerTable(ts: seq<Table>): seq<Array> {
    if ts == [] then [] else [Array(ts[0].name, TableText(ts[0].entries, false) + "};")] + PerTable(ts[1..])
  }

  // The arrays that the source writer of each ABI defines.
  function Source(abi: Abi, ts: seq<Table>): seq<Array>
    requires ts != []
  {
    match abi
    case Default => [Array(ts[0].name, TablesText(ts, true) + "};")]
    case Function => [Array("_" + ts[0].name, TablesText(ts, true) + "};")]
    case Intel => PerTable(ts)
    case IntelBC =>
      [Array(ts[0].name, TablesText(ts, true) + "};")]
      + if |ts| > 1 then [Array(ts[1].name, TablesText(ts[1..], false) + "};")] else []
  }

  // The array that the header of each ABI refers to for an entry of the i-th table.
  function Referred(abi: Abi, ts: seq<Table>, i: nat): string
    requires i < |ts|
  {
    match abi
    case Default => ts[0].name
    case Function => "_" + ts[0].name
    case _ => ts[i].name
  }

  // ---------------------------------------------------------------- what C makes of it

  // A character constant may hold neither a quote nor a backslash nor a newline as it is.
  predicate Plain(c: char) {
    c != '\'' && c != '\\' && c != '\n'
  }

  // Reads an initialiser up to its closing brace: constants separated by commas, one of which may
  // stand behind the last. comma says that a constant has just been read.
  function ReadList(s: string, comma: bool): (r: Option<string>)
    decreases |s|
  {
    if s == [] then None
    else if s[0] == '\n' then ReadList(s[1..], comma)
    else if s[0] == '}' then Some([])
    else if comma then if s[0] == ',' then ReadList(s[1..], false) else None
    else if s[0] == '0' then Prepend("\0", ReadList(s[1..], true))
    else if |s| >= 3 && s[0] == '\'' && s[2] == '\'' && Plain(s[1]) then Prepend([s[1]], ReadList(s[3..], true))
    else None
  }

  function Prepend(s: string, r: Option<string>): Option<string> {
    if r.None? then None else Some(s + r.value)
  }

  // What an array holds; C knows no empty one.
  function Contents(body: string): Option<string> {
    if ReadList(body, false) == Some([]) then None else ReadList(body, false)
  }

  // ---------------------------------------------------------------- the offsets

  // The characters that the entries take up, each ended by a NUL.
  function Image(es: seq<Entry>): string {
    if es == [] then "" else es[0].right + ("\0" + Image(es[1..]))
  }

  function ImageOf(ts: seq<Table>): string {
    if ts == [] then "" else Image(ts[0].entries) + ImageOf(ts[1..])
  }

  // The entries of a table indexed from offset on.
  ghost predicate Indexed(es: seq<Entry>, offset: nat)
    decreases |es|
  {
    es != [] ==> es[0].offset == offset && Indexed(es[1..], offset + |es[0].right| + 1)
  }

  // IntelABIIndexEntries starts every table at zero, DefaultIndexEntries goes on where the last ended.
  ghost predicate IndexedFrom(abi: Abi, ts: seq<Table>, offset: nat)
    decreases |ts|
  {
    ts != [] ==>
      && Indexed(ts[0].entries, if abi.Intel? || abi.IntelBC? then 0 else offset)
      && IndexedFrom(abi, ts[1..], offset + |Image(ts[0].entries)|)
  }

  // At the offset, the array holds the string and a NUL.
  predicate Points(contents: string, e: Entry) {
    e.offset + |e.right| + 1 <= |contents| && contents[e.offset..e.offset + |e.right| + 1] == e.right + "\0"
  }

  // Behind whatever takes up the first offset characters, every entry is where it says.
  lemma {:induction false} IndexedPoints(before: string, es: seq<Entry>, j: nat)
    requires Indexed(es, |before|) && j < |es|
    ensures Points(before + Image(es), es[j])
    decreases |es|
  {
    var first := es[0].right + "\0";
    Regroup(es[0].right, "\0", Image(es[1..]));
    Regroup(before, first, Image(es[1..]));
    if j == 0 {
    } else {
      IndexedPoints(before + first, es[1..], j - 1);
    }
  }

  lemma {:induction false} DefaultPoints(abi: Abi, before: string, ts: seq<Table>, i: nat, j: nat)
    requires (abi.Default? || abi.Function?) && IndexedFrom(abi, ts, |before|)
    requires i < |ts| && j < |ts[i].entries|
    ensures Points(before + ImageOf(ts), ts[i].entries[j])
    decreases |ts|
  {
    var image := Image(ts[0].entries);
    Regroup(before, image, ImageOf(ts[1..]));
    if i == 0 {
      IndexedPoints(before, ts[0].entries, j);
    } else {
      DefaultPoints(abi, before + image, ts[1..], i - 1, j);
    }
  }

  // ---------------------------------------------------------------- reading the arrays back

  predicate AllPlain(es: seq<Entry>) {
    forall i :: 0 <= i < |es| ==> PlainText(es[i].right)
  }

  predicate PlainText(s: string) {
    forall i :: 0 <= i < |s| ==> Plain(s[i])
  }

  lemma {:induction false} PrependTwice(a: string, b: string, r: Option<string>)
    ensures Prepend(a, Prepend(b, r)) == Prepend(a + b, r)
  {
    if r.Some? { Regroup(a, b, r.value); }
  }

  lemma {:induction false} ReadZero(comma: bool, rest: string)
    ensures ReadList(("0" + ((if comma then "," else "") + "\n")) + rest, false) ==
      Prepend("\0", ReadList(rest, !comma))
  {
    var s := ("0" + ((if comma then "," else "") + "\n")) + rest;
    var eol := "\n" + rest;
    assert eol[1..] == rest;
    assert ReadList(eol, !comma) == ReadList(rest, !comma);
    if comma {
      assert s[1..] == "," + eol && s[1..][1..] == eol;
      assert ReadList(s[1..], true) == ReadList(eol, false);
    } else {
      assert s[1..] == eol;
    }
  }

  lemma {:induction false} ReadsLine(right: string, comma: bool, rest: string)
    ensures ReadList(LineText(right, comma) + rest, false) ==
      if PlainText(right) then Prepend(right + "\0", ReadList(rest, !comma)) else None
    decreases |right|
  {
    if right == [] {
      ReadZero(comma, rest);
      assert right + "\0" == "\0";
    } else {
      var more := LineText(right[1..], comma);
      Regroup(['\'', right[0], '\'', ','], more, rest);
      ReadsLine(right[1..], comma, rest);
      PrependTwice([right[0]], right[1..] + "\0", ReadList(rest, !comma));
      assert [right[0]] + (right[1..] + "\0") == right + "\0";
    }
  }

  lemma {:induction false} ReadsTable(es: seq<Entry>, fudge: bool, rest: string)
    ensures ReadList(TableText(es, fudge) + rest, false) ==
      if AllPlain(es) then Prepend(Image(es), ReadList(rest, es != [] && !fudge)) else None
    decreases |es|
  {
    if es == [] {
      assert TableText(es, fudge) + rest == rest;
      PrependNothing(ReadList(rest, false));
    } else if |es| == 1 {
      ReadsLastEntry(es, fudge, rest);
    } else {
      ReadsTable(es[1..], fudge, rest);
      ReadsFirstEntry(es, fudge, rest, ReadList(rest, !fudge));
    }
  }

  lemma {:induction false} ReadsFirstEntry(es: seq<Entry>, fudge: bool, rest: string, r: Option<string>)
    requires |es| > 1
    requires ReadList(TableText(es[1..], fudge) + rest, false) ==
      if AllPlain(es[1..]) then Prepend(Image(es[1..]), r) else None
    ensures ReadList(TableText(es, fudge) + rest, false) == if AllPlain(es) then Prepend(Image(es), r) else None
  {
    var right, more := es[0].right, TableText(es[1..], fudge);
    Regroup(LineText(right, true), more, rest);
    ReadsLine(right, true, more + rest);
    PrependTwice(right + "\0", Image(es[1..]), r);
    assert (right + "\0") + Image(es[1..]) == Image(es);
    assert TableText(es, fudge) == LineText(right, true) + more;
    assert AllPlain(es) == (PlainText(right) && AllPlain(es[1..]));
  }

  lemma {:induction false} ReadsLastEntry(es: seq<Entry>, fudge: bool, rest: string)
    requires |es| == 1
    ensures ReadList(TableText(es, fudge) + rest, false) ==
      if AllPlain(es) then Prepend(Image(es), ReadList(rest, !fudge)) else None
  {
    var right := es[0].right;
    assert TableText(es[1..], fudge) == [] && Image(es[1..]) == [];
    assert TableText(es, fudge) == LineText(right, fudge) && Image(es) == right + "\0";
    ReadsLine(right, fudge, rest);
  }

  lemma {:induction false} PrependNothing(r: Option<string>)
    ensures Prepend("", r) == r
  {
    if r.Some? { assert "" + r.value == r.value; }
  }

  predicate TablesPlain(ts: seq<Table>) {
    forall i :: 0 <= i < |ts| ==> AllPlain(ts[i].entries)
  }

  predicate NoEntries(ts: seq<Table>) {
    forall i :: 0 <= i < |ts| ==> ts[i].entries == []
  }

  // All tables in one array, with a comma behind every line but those of the last table.
  lemma {:induction false} ReadsTables(ts: seq<Table>)
    ensures ReadList(TablesText(ts, true) + "};", false) == if TablesPlain(ts) then Some(ImageOf(ts)) else None
    decreases |ts|
  {
    if ts == [] {
      assert TablesText(ts, true) + "};" == "};";
    } else {
      var es, more := ts[0].entries, TablesText(ts[1..], true);
      Regroup(TableText(es, |ts| > 1), more, "};");
      ReadsTable(es, |ts| > 1, more + "};");
      if |ts| == 1 {
        assert more + "};" == "};";
        assert Image(es) + "" == ImageOf(ts);
      } else {
        ReadsTables(ts[1..]);
      }
    }
  }

  lemma {:induction false} ReadsOneTable(es: seq<Entry>)
    ensures ReadList(TableText(es, false) + "};", false) == if AllPlain(es) then Some(Image(es)) else None
  {
    ReadsTable(es, false, "};");
    assert Image(es) + "" == Image(es);
  }

  // ---------------------------------------------------------------- headers against sources

  // Every array that is defined can be compiled.
  ghost predicate Compiles(abi: Abi, ts: seq<Table>)
    requires ts != []
  {
    forall k :: 0 <= k < |Source(abi, ts)| ==> Contents(Source(abi, ts)[k].body).Some?
  }

  // The header's macro for the j-th entry of the i-th table points at its string.
  ghost predicate Resolves(abi: Abi, ts: seq<Table>, i: nat, j: nat)
    requires i < |ts| && j < |ts[i].entries|
  {
    exists k :: 0 <= k < |Source(abi, ts)| && Source(abi, ts)[k].name == Referred(abi, ts, i)
      && Contents(Source(abi, ts)[k].body).Some?
      && Points(Contents(Source(abi, ts)[k].body).value, ts[i].entries[j])
  }

  ghost predicate HeaderMatchesSource(abi: Abi, ts: seq<Table>)
    requires ts != []
  {
    Compiles(abi, ts) && forall i: nat, j: nat :: i < |ts| && j < |ts[i].entries| ==> Resolves(abi, ts, i, j)
  }

  predicate DistinctNames(ts: seq<Table>) {
    forall i, j :: 0 <= i < j < |ts| ==> ts[i].name != ts[j].name
  }

  // The shapes of a file that each source writer can handle.
  predicate Fits(abi: Abi, ts: seq<Table>)
    requires ts != []
  {
    match abi
    case Default => !NoEntries(ts)
    case Function => !NoEntries(ts)
    case Intel => forall i :: 0 <= i < |ts| ==> ts[i].entries != []
    case IntelBC => if |ts| == 1 then ts[0].entries != [] else ts[1].entries != [] && NoEntries(ts[2..])
  }

  lemma {:induction false} ImageOfIsEmpty(ts: seq<Table>)
    ensures ImageOf(ts) == "" <==> NoEntries(ts)
    decreases |ts|
  {
    if ts != [] {
      ImageOfIsEmpty(ts[1..]);
    }
  }

  lemma {:induction false} AllTablesContents(ts: seq<Table>)
    ensures Contents(TablesText(ts, true) + "};") ==
      if TablesPlain(ts) && !NoEntries(ts) then Some(ImageOf(ts)) else None
  {
    ReadsTables(ts);
    ImageOfIsEmpty(ts);
  }

  lemma {:induction false} OneTableContents(es: seq<Entry>)
    ensures Contents(TableText(es, false) + "};") == if AllPlain(es) && es != [] then Some(Image(es)) else None
  {
    ReadsOneTable(es);
  }

  /** Default and Function ABI: every macro of the header points, in the one array of the source, at
      exactly its string and a NUL, if and only if there is an entry at all and no string holds a
      quote, a backslash or a newline. */
  lemma {:induction false} OneArrayMatches(abi: Abi, ts: seq<Table>)
    requires ts != [] && (abi.Default? || abi.Function?) && IndexedFrom(abi, ts, 0)
    ensures HeaderMatchesSource(abi, ts) <==> TablesPlain(ts) && Fits(abi, ts)
  {
    AllTablesContents(ts);
    var a := Source(abi, ts)[0];
    if TablesPlain(ts) && Fits(abi, ts) {
      assert "" + ImageOf(ts) == ImageOf(ts);
      forall i: nat, j: nat | i < |ts| && j < |ts[i].entries| ensures Resolves(abi, ts, i, j) {
        DefaultPoints(abi, "", ts, i, j);
        assert Source(abi, ts)[0].name == Referred(abi, ts, i);
      }
    } else {
      assert Contents(Source(abi, ts)[0].body).None?;
    }
  }

  lemma {:induction false} PerTableAt(ts: seq<Table>, k: nat)
    requires k < |ts|
    ensures |PerTable(ts)| == |ts|
    ensures PerTable(ts)[k] == Array(ts[k].name, TableText(ts[k].entries, false) + "};")
    decreases |ts|
  {
    if k > 0 {
      PerTableAt(ts[1..], k - 1);
    } else if |ts| > 1 {
      PerTableAt(ts[1..], 0);
    }
  }

  lemma {:induction false} TableIsIndexed(abi: Abi, ts: seq<Table>, offset: nat, i: nat)
    requires (abi.Intel? || abi.IntelBC?) && IndexedFrom(abi, ts, offset) && i < |ts|
    ensures Indexed(ts[i].entries, 0)
    decreases |ts|
  {
    if i > 0 { TableIsIndexed(abi, ts[1..], offset + |Image(ts[0].entries)|, i - 1); }
  }

  lemma {:induction false} TablePoints(abi: Abi, ts: seq<Table>, i: nat, j: nat)
    requires (abi.Intel? || abi.IntelBC?) && IndexedFrom(abi, ts, 0) && i < |ts| && j < |ts[i].entries|
    ensures Points(Image(ts[i].entries), ts[i].entries[j])
  {
    TableIsIndexed(abi, ts, 0, i);
    IndexedPoints("", ts[i].entries, j);
    assert "" + Image(ts[i].entries) == Image(ts[i].entries);
  }

  /** Intel ABI: the same, each entry in the array of its own table, if and only if no table is empty
      and the strings are plain. */
  lemma {:induction false} ArrayPerTableMatches(ts: seq<Table>)
    requires ts != [] && IndexedFrom(Intel, ts, 0)
    ensures HeaderMatchesSource(Intel, ts) <==> TablesPlain(ts) && Fits(Intel, ts)
  {
    var source := Source(Intel, ts);
    PerTableAt(ts, 0);
    forall k | 0 <= k < |ts|
      ensures source[k].name == ts[k].name
      ensures Contents(source[k].body) ==
        if AllPlain(ts[k].entries) && ts[k].entries != [] then Some(Image(ts[k].entries)) else None
    {
      PerTableAt(ts, k);
      OneTableContents(ts[k].entries);
    }
    if TablesPlain(ts) && Fits(Intel, ts) {
      forall i: nat, j: nat | i < |ts| && j < |ts[i].entries| ensures Resolves(Intel, ts, i, j) {
        TablePoints(Intel, ts, i, j);
        assert source[i].name == Referred(Intel, ts, i);
      }
    } else {
      var k :| 0 <= k < |ts| && !(AllPlain(ts[k].entries) && ts[k].entries != []);
      assert Contents(source[k].body).None?;
    }
  }

  lemma {:induction false} NoLines(ts: seq<Table>)
    requires NoEntries(ts)
    ensures TablesText(ts, false) == "" && ImageOf(ts) == ""
    decreases |ts|
  {
    if ts != [] {
      NoLines(ts[1..]);
    }
  }

  // The second array of the Intel BC source, when only its first table has lines.
  lemma {:induction false} SecondArray(us: seq<Table>)
    requires us != [] && NoEntries(us[1..])
    ensures Contents(TablesText(us, false) + "};") == Contents(TableText(us[0].entries, false) + "};")
  {
    NoLines(us[1..]);
    assert TablesText(us, false) == TableText(us[0].entries, false);
  }

  /** Intel BC ABI: the same, if and only if moreover all entries belong to the first two tables, the
      second of which has some if there is one: for a third table no array is defined. */
  lemma {:induction false} TwoArraysMatch(ts: seq<Table>)
    requires ts != [] && IndexedFrom(IntelBC, ts, 0) && DistinctNames(ts)
    ensures HeaderMatchesSource(IntelBC, ts) <==> TablesPlain(ts) && Fits(IntelBC, ts)
  {
    AllTablesContents(ts);
    var source := Source(IntelBC, ts);
    assert Contents(source[0].body) == if TablesPlain(ts) && !NoEntries(ts) then Some(ImageOf(ts)) else None;
    if !TablesPlain(ts) {
      assert !Compiles(IntelBC, ts);
    } else if |ts| == 1 {
      assert source == [source[0]];
      FirstTableMatches(ts);
    } else {
      SecondTableMatches(ts);
    }
  }

  lemma {:induction false} FirstTablePoints(ts: seq<Table>, j: nat)
    requires ts != [] && IndexedFrom(IntelBC, ts, 0) && TablesPlain(ts) && j < |ts[0].entries|
    ensures Resolves(IntelBC, ts, 0, j)
  {
    AllTablesContents(ts);
    TablePoints(IntelBC, ts, 0, j);
    assert Source(IntelBC, ts)[0].name == Referred(IntelBC, ts, 0);
    assert !NoEntries(ts);
  }

  lemma {:induction false} FirstTableMatches(ts: seq<Table>)
    requires |ts| == 1 && IndexedFrom(IntelBC, ts, 0) && TablesPlain(ts)
    ensures HeaderMatchesSource(IntelBC, ts) <==> Fits(IntelBC, ts)
  {
    AllTablesContents(ts);
    assert Source(IntelBC, ts)[0].body == TablesText(ts, true) + "};";
    assert NoEntries(ts) <==> ts[0].entries == [];
    forall j: nat | j < |ts[0].entries| ensures Resolves(IntelBC, ts, 0, j) { FirstTablePoints(ts, j); }
  }

  lemma {:induction false} ThirdTableIsMissed(ts: seq<Table>, i: nat)
    requires 2 <= i < |ts| && ts[i].entries != [] && DistinctNames(ts)
    ensures !Resolves(IntelBC, ts, i, 0)
  {
  }

  lemma {:induction false} SecondTableContents(ts: seq<Table>)
    requires |ts| > 1 && NoEntries(ts[2..])
    ensures |Source(IntelBC, ts)| == 2 && Source(IntelBC, ts)[1].name == ts[1].name
    ensures Contents(Source(IntelBC, ts)[1].body) ==
      if AllPlain(ts[1].entries) && ts[1].entries != [] then Some(Image(ts[1].entries)) else None
  {
    assert ts[1..][1..] == ts[2..];
    SecondArray(ts[1..]);
    OneTableContents(ts[1].entries);
  }

  lemma {:induction false} SecondTablePoints(ts: seq<Table>, j: nat)
    requires |ts| > 1 && IndexedFrom(IntelBC, ts, 0) && AllPlain(ts[1].entries) && NoEntries(ts[2..])
    requires j < |ts[1].entries|
    ensures Resolves(IntelBC, ts, 1, j)
  {
    SecondTableContents(ts);
    TablePoints(IntelBC, ts, 1, j);
    assert Source(IntelBC, ts)[1].name == Referred(IntelBC, ts, 1);
  }

  lemma {:induction false} SecondTableMatches(ts: seq<Table>)
    requires |ts| > 1 && IndexedFrom(IntelBC, ts, 0) && TablesPlain(ts) && DistinctNames(ts)
    ensures HeaderMatchesSource(IntelBC, ts) <==> Fits(IntelBC, ts)
  {
    if !NoEntries(ts[2..]) {
      var m :| 0 <= m < |ts[2..]| && ts[2..][m].entries != [];
      assert ts[2..][m] == ts[m + 2];
      ThirdTableIsMissed(ts, m + 2);
    } else {
      SecondTableContents(ts);
      AllTablesContents(ts);
      assert forall m :: 2 <= m < |ts| ==> ts[m] == ts[2..][m - 2];
      forall i: nat, j: nat | i < |ts| && j < |ts[i].entries| ensures Resolves(IntelBC, ts, i, j) {
        if i == 0 { FirstTablePoints(ts, j); } else { SecondTablePoints(ts, j); }
      }
      assert ts[1].entries != [] ==> !NoEntries(ts);
    }
  }
}
