/** The lists of config/util/makestrs.c as they are indexed and written: the offset fields that
    IndexEntries fills in, and the text that the source writers print. */
module StringTables {
  import opened Names
  import M = MakeStrs

  class TableEnt {
    const left: string
    const right: CString
    var offset: nat

    constructor (left: string, right: CString)
      ensures this.left == left && this.right == right && offset == 0
    {
      this.left, this.right, offset := left, right, 0;
    }
  }

  class Table {
    const name: string
    const tableent: seq<TableEnt>
    var offset: nat

    constructor (name: string, tableent: seq<TableEnt>)
      ensures this.name == name && this.tableent == tableent && offset == 0
    {
      this.name, this.tableent, offset := name, tableent, 0;
    }
  }

  // No node is in two places.
  ghost predicate Apart(ts: seq<Table>) {
    && (forall i :: 0 <= i < |ts| ==> Distinct(ts[i].tableent))
    && (forall i, j :: 0 <= i < j < |ts| ==> ts[i] != ts[j])
    && forall i, j, e :: 0 <= i < j < |ts| && e in ts[i].tableent ==> e !in ts[j].tableent
  }

  ghost function Nodes(ts: seq<Table>): set<TableEnt> {
    set i, e | 0 <= i < |ts| && e in ts[i].tableent :: e
  }

  ghost function EntriesOf(es: seq<TableEnt>): (r: seq<M.Entry>)
    reads es
    ensures |r| == |es| && forall i :: 0 <= i < |es| ==> r[i] == M.Entry(es[i].right, es[i].offset)
  {
    seq(|es|, i requires 0 <= i < |es| reads es => M.Entry(es[i].right, es[i].offset))
  }

  ghost function ViewOf(ts: seq<Table>): (r: seq<M.Table>)
    reads Nodes(ts)
    ensures |r| == |ts|
    ensures forall i :: 0 <= i < |ts| ==> r[i] == M.Table(ts[i].name, EntriesOf(ts[i].tableent))
  {
    seq(|ts|, i requires 0 <= i < |ts| reads Nodes(ts) =>
      assert forall e :: e in ts[i].tableent ==> e in Nodes(ts);
      M.Table(ts[i].name, EntriesOf(ts[i].tableent)))
  }

  // ---------------------------------------------------------------- offsets by position

  // What the first k entries take up.
  ghost function Size(es: seq<M.Entry>, k: nat): nat
    requires k <= |es|
  {
    if k == 0 then 0 else |es[0].right| + 1 + Size(es[1..], k - 1)
  }

  lemma {:induction false} SizeStep(es: seq<M.Entry>, k: nat)
    requires k < |es|
    ensures Size(es, k + 1) == Size(es, k) + |es[k].right| + 1
  {
    if k > 0 { SizeStep(es[1..], k - 1); }
  }

  // Offsets do not count for the size.
  lemma {:induction false} SizeOfRights(es: seq<M.Entry>, fs: seq<M.Entry>, k: nat)
    requires k <= |es| == |fs| && forall i :: 0 <= i < |es| ==> es[i].right == fs[i].right
    ensures Size(es, k) == Size(fs, k)
  {
    if k > 0 { SizeOfRights(es[1..], fs[1..], k - 1); }
  }

  lemma {:induction false} SizeIsImage(es: seq<M.Entry>)
    ensures Size(es, |es|) == |M.Image(es)|
    decreases |es|
  {
    if es != [] { SizeIsImage(es[1..]); }
  }

  lemma {:induction false} IndexedByPosition(es: seq<M.Entry>, from: nat)
    requires forall k :: 0 <= k < |es| ==> es[k].offset == from + Size(es, k)
    ensures M.Indexed(es, from)
    decreases |es|
  {
    if es != [] {
      forall k | 0 <= k < |es[1..]| ensures es[1..][k].offset == from + |es[0].right| + 1 + Size(es[1..], k) {
        assert es[1..][k] == es[k + 1];
      }
      IndexedByPosition(es[1..], from + |es[0].right| + 1);
    }
  }

  // The inner loop of both indexing functions.
  method IndexTable(es: seq<TableEnt>, from: nat) returns (offset: nat)
    requires Distinct(es)
    modifies es
    ensures M.Indexed(EntriesOf(es), from) && offset == from + |M.Image(EntriesOf(es))|
  {
    ghost var was := EntriesOf(es);
    offset := from;
    var j := 0;
    while j < |es|
      invariant 0 <= j <= |es| && offset == from + Size(was, j)
      invariant forall k :: 0 <= k < j ==> es[k].offset == from + Size(was, k)
    {
      es[j].offset := offset;
      SizeStep(was, j);
      offset := offset + |es[j].right| + 1;
      j := j + 1;
    }
    ghost var now := EntriesOf(es);
    forall k | 0 <= k <= |es| ensures Size(was, k) == Size(now, k) { SizeOfRights(was, now, k); }
    IndexedByPosition(now, from);
    SizeIsImage(now);
  }

  // ---------------------------------------------------------------- all tables

  // One more table behind those indexed.
  lemma {:induction false} IndexedAppend(abi: M.Abi, ts: seq<M.Table>, t: M.Table, offset: nat)
    requires M.IndexedFrom(abi, ts, offset)
    requires M.Indexed(t.entries, if abi.Intel? || abi.IntelBC? then 0 else offset + |M.ImageOf(ts)|)
    ensures M.IndexedFrom(abi, ts + [t], offset)
    ensures |M.ImageOf(ts + [t])| == |M.ImageOf(ts)| + |M.Image(t.entries)|
    decreases |ts|
  {
    if ts == [] {
      assert ts + [t] == [t] && [t][1..] == [];
    } else {
      assert (ts + [t])[0] == ts[0] && (ts + [t])[1..] == ts[1..] + [t];
      IndexedAppend(abi, ts[1..], t, offset + |M.Image(ts[0].entries)|);
    }
  }

  // The inner loop for the i-th table; the tables before it are left alone.
  method IndexOne(ts: seq<Table>, i: nat, from: nat) returns (offset: nat)
    requires Apart(ts) && i < |ts|
    modifies ts[i].tableent
    ensures ViewOf(ts)[..i] == old(ViewOf(ts)[..i])
    ensures M.Indexed(ViewOf(ts)[i].entries, from) && offset == from + |M.Image(ViewOf(ts)[i].entries)|
  {
    ghost var was := ViewOf(ts);
    offset := IndexTable(ts[i].tableent, from);
    forall k | 0 <= k < i ensures ViewOf(ts)[k] == was[k] {
      forall m | 0 <= m < |ts[k].tableent| ensures EntriesOf(ts[k].tableent)[m] == was[k].entries[m] {
        assert ts[k].tableent[m] in ts[k].tableent;
      }
    }
  }

  // The first i tables are indexed as the ABI wants it.
  ghost predicate Done(abi: M.Abi, ts: seq<Table>, i: nat)
    requires i <= |ts|
    reads Nodes(ts)
  {
    M.IndexedFrom(abi, ViewOf(ts)[..i], 0)
  }

  ghost function Used(ts: seq<Table>, i: nat): nat
    requires i <= |ts|
    reads Nodes(ts)
  {
    |M.ImageOf(ViewOf(ts)[..i])|
  }

  // One turn of the outer loop.
  method IndexNext(abi: M.Abi, ts: seq<Table>, i: nat, from: nat) returns (offset: nat)
    requires Apart(ts) && i < |ts| && Done(abi, ts, i)
    requires from == if abi.Intel? || abi.IntelBC? then 0 else Used(ts, i)
    modifies ts[i].tableent
    ensures Done(abi, ts, i + 1) && (!abi.Intel? && !abi.IntelBC? ==> offset == Used(ts, i + 1))
  {
    ghost var before := ViewOf(ts)[..i];
    offset := IndexOne(ts, i, from);
    ghost var now := ViewOf(ts);
    IndexedAppend(abi, before, now[i], 0);
    assert now[..i + 1] == before + [now[i]];
  }

  /** DefaultIndexEntries: every entry gets the place where the last one ended, across tables. */
  method DefaultIndexEntries(ts: seq<Table>)
    requires Apart(ts)
    modifies Nodes(ts)
    ensures M.IndexedFrom(M.Default, ViewOf(ts), 0)
  {
    var offset, i := 0, 0;
    while i < |ts|
      invariant 0 <= i <= |ts| && Done(M.Default, ts, i) && offset == Used(ts, i)
    {
      assert forall e :: e in ts[i].tableent ==> e in Nodes(ts);
      offset := IndexNext(M.Default, ts, i, offset);
      i := i + 1;
    }
    assert ViewOf(ts)[..i] == ViewOf(ts);
  }

  /** IntelABIIndexEntries: the same table by table, from the table's own offset, which a new table
      has at zero. */
  method IntelABIIndexEntries(ts: seq<Table>)
    requires Apart(ts) && forall t :: t in ts ==> t.offset == 0
    modifies Nodes(ts), ts
    ensures M.IndexedFrom(M.Intel, ViewOf(ts), 0) && M.IndexedFrom(M.IntelBC, ViewOf(ts), 0)
  {
    var i := 0;
    while i < |ts|
      invariant 0 <= i <= |ts| && Done(M.Intel, ts, i)
      invariant forall k :: i <= k < |ts| ==> ts[k].offset == 0
    {
      assert forall e :: e in ts[i].tableent ==> e in Nodes(ts);
      var end := IndexNext(M.Intel, ts, i, ts[i].offset);
      SetOffset(M.Intel, ts, i, end);
      i := i + 1;
    }
    assert ViewOf(ts)[..i] == ViewOf(ts);
    BothIntel(ViewOf(ts), 0);
  }

  // t->offset, which no entry depends on.
  method SetOffset(ghost abi: M.Abi, ts: seq<Table>, i: nat, end: nat)
    requires i < |ts| && Done(abi, ts, i + 1)
    modifies ts[i]
    ensures ts[i].offset == end && Done(abi, ts, i + 1)
  {
    ghost var view := ViewOf(ts);
    ts[i].offset := end;
    assert ViewOf(ts) == view;
  }

  lemma {:induction false} BothIntel(ts: seq<M.Table>, offset: nat)
    requires M.IndexedFrom(M.Intel, ts, offset)
    ensures M.IndexedFrom(M.IntelBC, ts, offset)
    decreases |ts|
  {
    if ts != [] { BothIntel(ts[1..], offset + |M.Image(ts[0].entries)|); }
  }

  // ---------------------------------------------------------------- the printed text

  lemma {:induction false} LineTextAppend(right: string, k: nat, comma: bool)
    requires k <= |right|
    ensures M.LineText(right, comma) == Constants(right[..k]) + M.LineText(right[k..], comma)
    decreases k
  {
    if k == 0 {
      assert right[0..] == right;
    } else {
      LineTextAppend(right[1..], k - 1, comma);
      assert right[1..][..k - 1] == right[..k][1..] && right[1..][k - 1..] == right[k..];
      Regroup(['\'', right[0], '\'', ','], Constants(right[..k][1..]), M.LineText(right[k..], comma));
    }
  }

  // The constants of a prefix.
  function Constants(s: string): string {
    if s == [] then [] else ['\'', s[0], '\'', ','] + Constants(s[1..])
  }

  lemma {:induction false} ConstantsAppend(s: string, c: char)
    ensures Constants(s + [c]) == Constants(s) + ['\'', c, '\'', ',']
  {
    if s == [] {
      assert [] + [c] == [c] && [c][1..] == [];
    } else {
      assert (s + [c])[1..] == s[1..] + [c];
      ConstantsAppend(s[1..], c);
      Regroup(['\'', s[0], '\'', ','], Constants(s[1..]), ['\'', c, '\'', ',']);
    }
  }

  /** WriteSourceLine, its output appended to what has been printed. */
  method WriteSourceLine(out: string, te: TableEnt, comma: bool) returns (printed: string)
    ensures printed == out + M.LineText(te.right, comma)
  {
    var line := [];
    var c := 0;
    while c < |te.right|
      invariant 0 <= c <= |te.right| && line == Constants(te.right[..c])
    {
      ConstantsAppend(te.right[..c], te.right[c]);
      assert te.right[..c + 1] == te.right[..c] + [te.right[c]];
      line := line + ['\'', te.right[c], '\'', ','];
      c := c + 1;
    }
    LineTextAppend(te.right, c, comma);
    assert te.right[c..] == [];
    line := line + ("0" + ((if comma then "," else "") + "\n"));
    printed := out + line;
  }

  // The loop over the entries of one table.
  method WriteTable(out: string, es: seq<TableEnt>, fudge: bool) returns (printed: string)
    ensures printed == out + M.TableText(EntriesOf(es), fudge)
  {
    printed := out;
    ghost var view := EntriesOf(es);
    var j := 0;
    assert view[0..] == view;
    while j < |es|
      invariant 0 <= j <= |es|
      invariant printed + M.TableText(view[j..], fudge) == out + M.TableText(view, fudge)
    {
      ghost var line, rest := M.LineText(es[j].right, j + 1 < |es| || fudge), M.TableText(view[j + 1..], fudge);
      assert view[j..][0] == view[j] && view[j..][1..] == view[j + 1..];
      Regroup(printed, line, rest);
      printed := WriteSourceLine(printed, es[j], j + 1 < |es| || fudge);
      j := j + 1;
    }
    assert printed + "" == printed;
  }

  /** The nested loops of the source writers: Default, Function and the first array of Intel BC ask
      for fudging, the second array of Intel BC does not. */
  method WriteTables(ts: seq<Table>, fudging: bool) returns (printed: string)
    ensures printed == M.TablesText(ViewOf(ts), fudging) + "};"
  {
    printed := "";
    ghost var view := ViewOf(ts);
    var i := 0;
    assert view[0..] == view && "" + M.TablesText(view, fudging) == M.TablesText(view, fudging);
    while i < |ts|
      invariant 0 <= i <= |ts|
      invariant printed + M.TablesText(view[i..], fudging) == M.TablesText(view, fudging)
    {
      ghost var table := M.TableText(view[i].entries, fudging && i + 1 < |ts|);
      ghost var rest := M.TablesText(view[i + 1..], fudging);
      assert view[i..][0] == view[i] && view[i..][1..] == view[i + 1..];
      Regroup(printed, table, rest);
      printed := WriteTable(printed, ts[i].tableent, fudging && i + 1 < |ts|);
      i := i + 1;
    }
    assert view[i..] == [] && M.TablesText(view[i..], fudging) == "" && printed + "" == printed;
    assert ViewOf(ts) == view;
    printed := printed + "};";
  }
}
