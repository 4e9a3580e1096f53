/** fdefined, isdefined and undefine of config/makedepend/parse.c over the mutable file records,
    proved to act on them as the functions of Lookup and Undefinition say. */
module IncludeGraph {
  import opened Names
  import opened SymbolTable
  import opened Lookup
  import opened Undefinition
  import D = Dependencies

  ghost function ViewOf(f: IncList): FileView
    reads f
  {
    FileView(f.defs, f.i_list, f.i_merged, f.defchecked, f.finished)
  }

  ghost function Snap(files: set<IncList>): (g: Snapshot)
    reads files
    ensures g.Keys == files
  {
    map f | f in files :: ViewOf(f)
  }

  // Every table is sound; its array is one of store's, and no two files share an array, though
  // they may share entries.
  ghost predicate Tables(files: set<IncList>, store: set<object>)
    reads files, store
  {
    && (forall f :: f in files && f.i_defs != null ==> f.i_defs in store)
    && (forall f :: f in files ==> f.Valid())
    && (forall f, h :: f in files && h in files && f != h && f.i_defs != null ==> f.i_defs != h.i_defs)
  }

  // The pointer into a live table that a lookup returns.
  ghost predicate PointsAt(files: set<IncList>, srcfile: Option<IncList>, at: nat, symbol: CString)
    reads files
  {
    srcfile.Some? ==>
      srcfile.value in files && at < |srcfile.value.defs| && srcfile.value.defs[at].s_name == symbol
  }

  // A snapshot that differs in one file's record.
  lemma {:induction false} OneViewChanges(g: Snapshot, h: Snapshot, file: IncList, v: FileView)
    requires h.Keys == g.Keys && file in g && h[file] == v && forall f :: f in g && f != file ==> h[f] == g[f]
    ensures h == g[file := v]
  {
  }

  // ---------------------------------------------------------------- what directives record

  // define2, and the entry it makes.
  method DefineEntry(name: CString, val: string, file: IncList) returns (ghost e: Symtab)
    requires file.Valid()
    modifies file`i_defs, file`i_ndefs, file`defs, file.i_defs
    modifies set s: Symtab | s in file.defs && s.s_name == name
    ensures file.Valid() && (file.i_defs == old(file.i_defs) || fresh(file.i_defs))
    ensures e.s_name == name
    ensures file.defs == if name in NamesOf(old(file.defs)) then old(file.defs) else Merged(old(file.defs), [e])
    ensures file.Map() == old(file.Map())[name := val]
  {
    ghost var es := file.defs;
    file.Define2(name, val);
    if name in NamesOf(es) {
      e := es[IndexOf(es, name)];
    } else {
      ghost var k: nat :| k < |file.defs| && k <= |es| && file.defs[k].s_name == name
        && file.defs == InsertAt(es, k, file.defs[k]);
      e := file.defs[k];
      SortedInsertIsMerged(es, k, e);
    }
  }

  lemma {:induction false} SortedInsertIsMerged(es: seq<Symtab>, k: nat, e: Symtab)
    requires k <= |es| && Sorted(InsertAt(es, k, e))
    ensures InsertAt(es, k, e) == Merged(es, [e])
  {
    var r := InsertAt(es, k, e);
    assert r[k] == e && forall j :: 0 <= j < |es| ==> es[j] == r[if j < k then j else j + 1];
    InsertIsMerged(es, k, e);
  }

  lemma {:induction false} RecordedView(g: Snapshot, file: IncList, v: FileView, e: Symtab)
    requires WellFormed(g) && file in g && v == g[file].(defs := v.defs)
    requires v.defs == if Defines(g[file], e.s_name) then g[file].defs else Merged(g[file].defs, [e])
    ensures g[file := v] == Recorded(g, file, e)
  {
  }

  method DefineSoundly(ghost files: set<IncList>, ghost store: set<object>, name: CString, val: string, file: IncList)
    returns (ghost e: Symtab, ghost grown: set<object>)
    requires file in files && Tables(files, store)
    modifies file`i_defs, file`i_ndefs, file`defs, file.i_defs
    modifies set s: Symtab | s in file.defs && s.s_name == name
    ensures store <= grown && fresh(grown - store) && Tables(files, grown)
    ensures forall f :: f in files && f != file ==> f.defs == old(f.defs)
    ensures e.s_name == name && file.Map() == old(file.Map())[name := val]
    ensures file.defs == if name in NamesOf(old(file.defs)) then old(file.defs) else Merged(old(file.defs), [e])
  {
    e := DefineEntry(name, val, file);
    grown := store + if file.i_defs == null then {} else {file.i_defs};
  }

  method DefineTable(ghost files: set<IncList>, ghost store: set<object>, name: CString, val: string, file: IncList)
    returns (ghost e: Symtab, ghost grown: set<object>)
    requires file in files && Tables(files, store)
    modifies file`i_defs, file`i_ndefs, file`defs, file.i_defs
    modifies set s: Symtab | s in file.defs && s.s_name == name
    ensures store <= grown && fresh(grown - store) && Tables(files, grown)
    ensures Snap(files) == old(Snap(files))[file := old(ViewOf(file)).(defs := file.defs)]
    ensures e.s_name == name && file.Map() == old(file.Map())[name := val]
    ensures file.defs == if name in NamesOf(old(file.defs)) then old(file.defs) else Merged(old(file.defs), [e])
  {
    ghost var g := Snap(files);
    e, grown := DefineSoundly(files, store, name, val, file);
    OneViewChanges(g, Snap(files), file, ViewOf(file));
  }

  // define2 on one of the files.
  method Define(ghost files: set<IncList>, ghost store: set<object>, name: CString, val: string, file: IncList)
    returns (ghost e: Symtab, ghost grown: set<object>)
    requires file in files && Tables(files, store) && WellFormed(Snap(files))
    modifies file`i_defs, file`i_ndefs, file`defs, file.i_defs
    modifies set s: Symtab | s in file.defs && s.s_name == name
    ensures store <= grown && fresh(grown - store) && Tables(files, grown)
    ensures e.s_name == name && Snap(files) == Recorded(old(Snap(files)), file, e)
    ensures file.Map() == old(file.Map())[name := val]
  {
    ghost var g := Snap(files);
    e, grown := DefineTable(files, store, name, val, file);
    RecordedView(g, file, g[file].(defs := file.defs), e);
  }

  // included_by on two of them.
  method IncludedBy(ghost files: set<IncList>, ghost store: set<object>, file: IncList, newfile: IncList)
    requires file in files && newfile in files && Tables(files, store) && WellFormed(Snap(files))
    modifies file
    ensures Tables(files, store) && Snap(files) == Linked(old(Snap(files)), file, newfile)
  {
    ghost var g := Snap(files);
    AddEdge(file, newfile);
    ghost var v := ViewOf(file);
    LinkedView(g, file, newfile, v);
    OneViewChanges(g, Snap(files), file, v);
  }

  method AddEdge(file: IncList, newfile: IncList)
    requires |file.i_merged| == |file.i_list|
    modifies file
    ensures unchanged(file`i_defs, file`i_ndefs, file`defs, file`defchecked, file`finished)
    ensures file.i_list == if newfile in old(file.i_list) then old(file.i_list) else old(file.i_list) + [newfile]
    ensures file.i_merged == if newfile in old(file.i_list) then old(file.i_merged) else old(file.i_merged) + [false]
  {
    D.IncludedBy(file, newfile);
  }

  lemma {:induction false} LinkedView(g: Snapshot, file: IncList, newfile: IncList, v: FileView)
    requires WellFormed(g) && file in g && newfile in g && v == g[file].(list := v.list, merged := v.merged)
    requires v.list == if newfile in g[file].list then g[file].list else g[file].list + [newfile]
    requires v.merged == if newfile in g[file].list then g[file].merged else g[file].merged + [false]
    ensures g[file := v] == Linked(g, file, newfile)
  {
  }

  // FINISHED set at the end of find_includes.
  method Finish(ghost files: set<IncList>, ghost store: set<object>, file: IncList)
    requires file in files && Tables(files, store) && WellFormed(Snap(files))
    modifies file`finished
    ensures Tables(files, store) && Snap(files) == Completed(old(Snap(files)), file)
  {
    ghost var g := Snap(files);
    file.finished := true;
    OneViewChanges(g, Snap(files), file, g[file].(finished := true));
  }

  // ---------------------------------------------------------------- lookups

  method SetFlag(ghost files: set<IncList>, ghost store: set<object>, file: IncList, b: bool)
    requires file in files && Tables(files, store) && WellFormed(Snap(files))
    modifies file`defchecked
    ensures Tables(files, store) && Snap(files) == SetChecked(old(Snap(files)), file, b)
    ensures forall f :: f in files ==> f.defs == old(f.defs)
  {
    ghost var g := Snap(files);
    file.defchecked := b;
    OneViewChanges(g, Snap(files), file, g[file].(checked := b));
  }

  method MergeTable(ghost files: set<IncList>, ghost store: set<object>, file: IncList, child: IncList)
    returns (ghost grown: set<object>)
    requires file in files && child in files && Tables(files, store)
    modifies file`i_defs, file`i_ndefs, file`defs
    ensures store <= grown && fresh(grown - store) && Tables(files, grown)
    ensures Snap(files) == old(Snap(files))[file := ViewOf(file)]
    ensures file.defs == Merged(old(file.defs), old(child.defs))
  {
    ghost var g := Snap(files);
    file.Merge2Defines(child);
    grown := store + if file.i_defs == null then {} else {file.i_defs};
    OneViewChanges(g, Snap(files), file, ViewOf(file));
  }

  method MarkMerged(ghost files: set<IncList>, ghost store: set<object>, file: IncList, i: nat)
    requires file in files && Tables(files, store) && i < |file.i_merged|
    modifies file`i_merged
    ensures Tables(files, store)
    ensures Snap(files) == old(Snap(files))[file := old(ViewOf(file)).(merged := old(file.i_merged)[i := true])]
  {
    ghost var g := Snap(files);
    file.i_merged := file.i_merged[i := true];
    OneViewChanges(g, Snap(files), file, ViewOf(file));
  }

  // If the i-th child is FINISHED: merge2defines(file, child), and the edge retired.
  method FoldIn(ghost files: set<IncList>, ghost store: set<object>, file: IncList, i: nat)
    returns (ghost grown: set<object>)
    requires file in files && Tables(files, store) && WellFormed(Snap(files)) && i < |file.i_list|
    requires file.i_list[i] in files && |file.i_merged| == |file.i_list|
    modifies file`i_defs, file`i_ndefs, file`defs, file`i_merged
    ensures store <= grown && fresh(grown - store) && Tables(files, grown)
    ensures Snap(files) == FoldIfFinished(old(Snap(files)), file, i)
  {
    ghost var g := Snap(files);
    grown := store;
    if file.i_list[i].finished {
      grown := MergeTable(files, store, file, file.i_list[i]);
      ghost var v := ViewOf(file);
      MarkMerged(files, grown, file, i);
      FoldInTwo(g, file, i, v);
    }
  }

  // The table first, then the mark.
  lemma {:induction false} FoldInTwo(g: Snapshot, x: IncList, i: nat, v: FileView)
    requires WellFormed(g) && x in g && i < |g[x].list| && g[g[x].list[i]].finished
    requires v == g[x].(defs := Merged(g[x].defs, g[g[x].list[i]].defs))
    ensures g[x := v][x := v.(merged := v.merged[i := true])] == FoldIfFinished(g, x, i)
  {
  }

  method FDefined(ghost files: set<IncList>, ghost store: set<object>, symbol: CString, file: IncList)
    returns (srcfile: Option<IncList>, at: nat, ghost grown: set<object>)
    requires file in files && Tables(files, store) && WellFormed(Snap(files))
    modifies files
    ensures store <= grown && fresh(grown - store) && Tables(files, grown)
    ensures Outcome(Snap(files), srcfile) == Lookup.FDefined(old(Snap(files)), file, symbol)
    ensures PointsAt(files, srcfile, at, symbol)
    decreases files - Checked(Snap(files)), 1, 0
  {
    if file.defchecked {
      return None, 0, store;
    }
    ghost var g := Snap(files);
    assert file in files - Checked(g);
    SetFlag(files, store, file, true);
    srcfile, at, grown := SearchFlagged(files, store, symbol, file);
    SetFlag(files, grown, file, false);
    FDefinedUnfolds(g, file, symbol);
  }

  method SearchFlagged(ghost files: set<IncList>, ghost store: set<object>, symbol: CString, file: IncList)
    returns (srcfile: Option<IncList>, at: nat, ghost grown: set<object>)
    requires file in files && Tables(files, store) && WellFormed(Snap(files)) && file.defchecked
    modifies files
    ensures store <= grown && fresh(grown - store) && Tables(files, grown)
    ensures Outcome(Snap(files), srcfile) == Search(old(Snap(files)), file, symbol)
    ensures PointsAt(files, srcfile, at, symbol)
    decreases files - Checked(Snap(files)), 4
  {
    var val := file.SLookup(symbol);
    if val.None? {
      srcfile, at, grown := SearchChildren(files, store, symbol, file);
    } else {
      srcfile, at, grown := Some(file), val.value, store;
      assert file.defs[at] in file.defs;
    }
  }

  // The loop over i_list.
  method SearchChildren(ghost files: set<IncList>, ghost store: set<object>, symbol: CString, file: IncList)
    returns (srcfile: Option<IncList>, at: nat, ghost grown: set<object>)
    requires file in files && Tables(files, store) && WellFormed(Snap(files)) && file.defchecked
    modifies files
    ensures store <= grown && fresh(grown - store) && Tables(files, grown)
    ensures Outcome(Snap(files), srcfile) == Children(old(Snap(files)), file, symbol, 0)
    ensures PointsAt(files, srcfile, at, symbol)
    decreases files - Checked(Snap(files)), 3
  {
    srcfile, at, grown := None, 0, store;
    ghost var g := Snap(files);
    var i := 0;
    while i < |file.i_list| && srcfile.None?
      invariant i <= |file.i_list| && Resumes(g, Snap(files), file, symbol, srcfile, i)
      invariant store <= grown && fresh(grown - store) && Tables(files, grown)
      invariant PointsAt(files, srcfile, at, symbol)
      decreases srcfile.None?, |file.i_list| - i
    {
      srcfile, at, grown := SearchChild(files, grown, g, symbol, file, i);
      i := i + 1;
    }
  }

  // What is left of the search, from snapshot k on, is what was left of it at the start.
  ghost predicate Resumes(g: Snapshot, k: Snapshot, x: IncList, symbol: CString, hit: Option<IncList>, i: nat) {
    && WellFormed(g) && x in g && g[x].checked
    && WellFormed(k) && x in k && k[x].checked && k[x].list == g[x].list && i <= |g[x].list|
    && k.Keys - Checked(k) == g.Keys - Checked(g)
    && Children(g, x, symbol, 0) == if hit.None? then Children(k, x, symbol, i) else Outcome(k, hit)
  }

  lemma {:induction false} ResumesAfterTurn(g: Snapshot, k: Snapshot, x: IncList, symbol: CString, i: nat)
    requires Resumes(g, k, x, symbol, None, i) && i < |k[x].list| && !k[x].merged[i]
    ensures var r := Lookup.FDefined(k, k[x].list[i], symbol);
      && r.g[x].list == k[x].list
      && Resumes(g, FoldIfFinished(r.g, x, i), x, symbol, r.hit, i + 1)
  {
    var r := Lookup.FDefined(k, k[x].list[i], symbol);
    var h := FoldIfFinished(r.g, x, i);
    SameShapeTransitive(k, r.g, h);
    assert Evolves(k[x], r.g[x]) && Evolves(k[x], h[x]);
  }

  method SearchChild(ghost files: set<IncList>, ghost store: set<object>, ghost g: Snapshot,
                     symbol: CString, file: IncList, i: nat)
    returns (srcfile: Option<IncList>, at: nat, ghost grown: set<object>)
    requires file in files && Resumes(g, Snap(files), file, symbol, None, i)
    requires i < |file.i_list| && Tables(files, store)
    modifies files
    ensures Resumes(g, Snap(files), file, symbol, srcfile, i + 1)
    ensures store <= grown && fresh(grown - store) && Tables(files, grown)
    ensures PointsAt(files, srcfile, at, symbol)
    decreases files - Checked(Snap(files)), 2
  {
    if file.i_merged[i] {
      srcfile, at, grown := None, 0, store;
    } else {
      ResumesAfterTurn(g, Snap(files), file, symbol, i);
      srcfile, at, grown := SearchAndFold(files, store, symbol, file, i);
    }
  }

  method SearchAndFold(ghost files: set<IncList>, ghost store: set<object>, symbol: CString, file: IncList, i: nat)
    returns (srcfile: Option<IncList>, at: nat, ghost grown: set<object>)
    requires file in files && Tables(files, store) && WellFormed(Snap(files)) && file.defchecked
    requires i < |file.i_list|
    modifies files
    ensures var r := Lookup.FDefined(old(Snap(files)), old(file.i_list[i]), symbol);
      srcfile == r.hit && r.g[file].list == old(file.i_list) && Snap(files) == FoldIfFinished(r.g, file, i)
    ensures store <= grown && fresh(grown - store) && Tables(files, grown)
    ensures PointsAt(files, srcfile, at, symbol)
    decreases files - Checked(Snap(files)), 1, 1
  {
    ghost var k := Snap(files);
    srcfile, at, grown := FDefined(files, store, symbol, file.i_list[i]);
    assert Evolves(k[file], Snap(files)[file]);
    assert srcfile.Some? ==> srcfile.value != file;
    grown := FoldIn(files, grown, file, i);
  }

  method IsDefined(ghost files: set<IncList>, ghost store: set<object>, main: IncList, symbol: CString, file: IncList)
    returns (srcfile: Option<IncList>, at: nat, ghost grown: set<object>)
    requires main in files && file in files && Tables(files, store) && WellFormed(Snap(files))
    modifies files
    ensures store <= grown && fresh(grown - store) && Tables(files, grown)
    ensures Outcome(Snap(files), srcfile) == Undefinition.IsDefined(old(Snap(files)), main, file, symbol)
    ensures PointsAt(files, srcfile, at, symbol)
  {
    var val := main.SLookup(symbol);
    if val.Some? {
      assert main.defs[val.value] in main.defs;
      return Some(main), val.value, store;
    }
    srcfile, at, grown := FDefined(files, store, symbol, file);
  }

  // The deletion, seen by all files at once.
  method DeleteEntry(ghost files: set<IncList>, ghost store: set<object>, srcfile: IncList, at: nat)
    requires srcfile in files && Tables(files, store) && WellFormed(Snap(files)) && at < |srcfile.defs|
    modifies srcfile`i_ndefs, srcfile`defs, srcfile.i_defs
    ensures Tables(files, store)
    ensures Defines(old(Snap(files))[srcfile], old(srcfile.defs[at].s_name))
    ensures Snap(files) == Delete(old(Snap(files)), srcfile, old(srcfile.defs[at].s_name))
  {
    DeleteIsRemoveAt(Snap(files), srcfile, at);
    RemoveFrom(files, store, srcfile, at);
  }

  method RemoveFrom(ghost files: set<IncList>, ghost store: set<object>, file: IncList, at: nat)
    requires file in files && Tables(files, store) && at < |file.defs|
    modifies file`i_ndefs, file`defs, file.i_defs
    ensures Tables(files, store)
    ensures Snap(files) == old(Snap(files))[file := old(ViewOf(file)).(defs := RemoveAt(old(file.defs), at))]
  {
    ghost var g := Snap(files);
    file.DeleteAt(at);
    OneViewChanges(g, Snap(files), file, ViewOf(file));
  }

  lemma {:induction false} DeleteIsRemoveAt(g: Snapshot, f: IncList, at: nat)
    requires WellFormed(g) && f in g && at < |g[f].defs|
    ensures Defines(g[f], g[f].defs[at].s_name)
    ensures Delete(g, f, g[f].defs[at].s_name) == g[f := g[f].(defs := RemoveAt(g[f].defs, at))]
  {
    SortedIndexUnique(g[f].defs, at);
  }

  /** undefine: while isdefined still finds the symbol, delete the entry it points at. */
  method Undefine(ghost files: set<IncList>, ghost store: set<object>, main: IncList, symbol: CString, file: IncList)
    returns (ghost grown: set<object>)
    requires main in files && file in files && Tables(files, store) && WellFormed(Snap(files))
    requires Checked(Snap(files)) == {}
    modifies files, store
    ensures store <= grown && fresh(grown - store) && Tables(files, grown)
    ensures Snap(files) == Undefined(old(Snap(files)), main, file, symbol)
  {
    grown := store;
    ghost var goal := Undefined(Snap(files), main, file, symbol);
    var more := true;
    while more
      invariant Pending(more, Snap(files), main, file, symbol, goal)
      invariant store <= grown && fresh(grown - store) && Tables(files, grown)
      decreases more, LiveEdges(Snap(files)), Entries(Snap(files))
    {
      more, grown := UndefineOnce(files, grown, main, symbol, file, goal);
    }
  }

  ghost predicate Undefining(g: Snapshot, main: IncList, file: IncList, symbol: CString, goal: Snapshot) {
    && main in g && file in g && WellFormed(g) && Checked(g) == {}
    && Undefined(g, main, file, symbol) == goal
  }

  ghost predicate Pending(more: bool, g: Snapshot, main: IncList, file: IncList, symbol: CString, goal: Snapshot) {
    if more then Undefining(g, main, file, symbol, goal) else g == goal
  }

  // One test and one pass of the loop.
  method UndefineOnce(ghost files: set<IncList>, ghost store: set<object>, main: IncList, symbol: CString,
                      file: IncList, ghost goal: Snapshot)
    returns (more: bool, ghost grown: set<object>)
    requires Undefining(Snap(files), main, file, symbol, goal) && Tables(files, store)
    modifies files, store
    ensures store <= grown && fresh(grown - store) && Tables(files, grown)
    ensures Pending(more, Snap(files), main, file, symbol, goal)
    ensures more ==> Shrinks(old(Snap(files)), Snap(files))
  {
    PassDecreases(Snap(files), main, file, symbol);
    UndefinedPass(Snap(files), main, file, symbol);
    var srcfile, at;
    srcfile, at, grown := IsDefined(files, store, main, symbol, file);
    more := srcfile.Some?;
    if more {
      DeleteEntry(files, grown, srcfile.value, at);
    }
  }
}
