/** find_includes, gobble, add_include and inc_path as they run: loops over a shared cursor and
    shared tables, proved to do what the functions of Directives say. */
module DirectiveScan {
  import opened Names
  import opened Directives

  class LineCursor {
    var f_p: Lines

    constructor (lines: Lines)
      ensures f_p == lines
    {
      f_p := lines;
    }

    method GetNextLine() returns (line: Option<Line>)
      modifies this
      ensures line == if old(f_p).End? then None else Some(old(f_p).line)
      ensures f_p == if old(f_p).End? then End else old(f_p).rest
    {
      match f_p {
        case End => line := None;
        case Next(first, rest) =>
          line := Some(first);
          f_p := rest;
      }
    }
  }

  class MakeDepend<S> {
    const k: Kit<S>
    var file_red: nat
    var inclist: seq<Entry>
    var searched: set<nat>
    var soft: set<nat>
    var env: S
    var trace: seq<Event>
    var aborted: bool

    constructor (k: Kit<S>, file_red: nat, inclist: seq<Entry>, env: S)
      ensures W() == World(file_red, inclist, {}, {}, env, [], false) && this.k == k
    {
      this.k, this.file_red, this.inclist, this.env := k, file_red, inclist, env;
      searched, soft, trace, aborted := {}, {}, [], false;
    }

    ghost function W(): World<S>
      reads this
    {
      World(file_red, inclist, searched, soft, env, trace, aborted)
    }

    method Record(e: Event, env': S)
      modifies this
      ensures W() == Log(old(W()), e, env')
    {
      if !aborted {
        env, trace := env', trace + [e];
      }
    }

    method Asks(t: Test) returns (holds: bool)
      requires Sound(W())
      modifies this
      ensures (holds, W()) == Ask(k, old(W()), t)
    {
      holds := false;
      if !aborted {
        var r := k.test(file_red, t, env);
        holds, env := r.0, r.1;
      }
    }

    // ---------------------------------------------------------------- gobble

    method Gobble(filep: LineCursor) returns (end: Terminator)
      requires Sound(W())
      modifies this, filep
      ensures Stop(W(), filep.f_p, end) == Directives.Gobble(k, old(W()), old(filep.f_p))
      decreases Count(filep.f_p), 0
    {
      ghost var all := Directives.Gobble(k, W(), filep.f_p);
      while true
        invariant Sound(W()) && Directives.Gobble(k, W(), filep.f_p) == all
        invariant Count(filep.f_p) <= Count(old(filep.f_p))
        decreases Count(filep.f_p)
      {
        var line := filep.GetNextLine();
        if line.None? {
          return AtEof;
        }
        match line.value {
          case If(_) =>
            end := Gobble(filep);
            GobbleOn(filep, end);
          case Elif(text, _) =>
            var holds := Asks(Expression(text));
            return AtElif(holds);
          case Else(_) => return AtElse;
          case Endif(_) => return AtEndif;
          case Do(_) =>
        }
      }
    }

    // Skips the branches that are left of a group of which one has been read.
    method GobbleOn(filep: LineCursor, from: Terminator)
      requires Sound(W())
      modifies this, filep
      ensures var r := GobbleRest(k, Stop(old(W()), old(filep.f_p), from)); W() == r.w && filep.f_p == r.rest
      decreases Count(filep.f_p), 1
    {
      var end := from;
      ghost var all := GobbleRest(k, Stop(W(), filep.f_p, end));
      while end.AtElif?
        invariant Sound(W()) && GobbleRest(k, Stop(W(), filep.f_p, end)) == all
        invariant Count(filep.f_p) <= Count(old(filep.f_p))
        decreases end.AtElif?, Count(filep.f_p)
      {
        end := Gobble(filep);
      }
      if end.AtElse? {
        end := Gobble(filep);
      }
    }

    // ---------------------------------------------------------------- the name of a header

    // The case INCLUDE of deftype: the text and then the value of each symbol found are looked up, and
    // the cursor p runs to the name in what is left.
    method DefType(file: nat, text: CString, values: seq<CString>) returns (name: Option<(string, bool)>)
      requires Sound(W())
      modifies this
      ensures (W(), name) == ReadName(k, old(W()), file, text, values)
    {
      ghost var all, w := Expand(k, W(), text, values), W();
      var p, n, included_sym := text, 0, false;
      var sym := Asks(Present(p));
      while sym && n < |values|
        invariant n <= |values| && Sound(w) && (sym, W()) == Ask(k, w, Present(p))
        invariant all == var e := Expand(k, w, p, values[n..]); e.(soft := included_sym || e.soft)
        decreases |values| - n
      {
        assert values[n..][0] == values[n] && values[n..][1..] == values[n + 1..];
        w := W();
        p, n, included_sym := values[n], n + 1, true;
        sym := Asks(Present(p));
      }
      if (included_sym || sym) && !aborted { soft := soft + {file}; }
      name := Separate(p);
    }

    // Separates the name of the include file: what stands between the first " and the next one, or between
    // the first < and the next >, whichever opens first.
    static method Separate(text: CString) returns (name: Option<(string, bool)>)
      ensures name == HeaderIn(text)
      ensures match name
        case None => '"' !in text && '<' !in text
        case Some(header) => exists i, j :: NamedBetween(text, i, j, header.0, header.1)
    {
      var p := SkipToName(text);
      if p == |text| {
        return None;
      }
      var dot := text[p] == '"';
      assert text[p..][1..] == text[p + 1..];
      var line := CopyUpTo(text, p + 1, if dot then '"' else '>');
      name := Some((line, dot));
      assert NamedBetween(text, p, p + 1 + |line|, line, dot);
    }

    static method SkipToName(text: CString) returns (p: nat)
      ensures p <= |text| && HeaderIn(text[p..]) == HeaderIn(text)
      ensures if p < |text| then OpensAt(text, p) else '"' !in text && '<' !in text
    {
      p := 0;
      assert text[0..] == text;
      while p < |text| && text[p] != '"' && text[p] != '<'
        invariant p <= |text| && HeaderIn(text[p..]) == HeaderIn(text)
        invariant forall i :: 0 <= i < p ==> text[i] != '"' && text[i] != '<'
      {
        assert text[p..][1..] == text[p + 1..];
        p := p + 1;
      }
    }

    static method CopyUpTo(text: CString, from: nat, closing: char) returns (line: string)
      requires from <= |text|
      ensures line == UpTo(text[from..], closing) && closing !in line
      ensures from + |line| <= |text| && line == text[from..from + |line|]
      ensures from + |line| < |text| ==> text[from + |line|] == closing
    {
      line := [];
      var p := from;
      while p < |text| && text[p] != closing
        invariant from <= p <= |text| && line + UpTo(text[p..], closing) == UpTo(text[from..], closing)
        invariant line == text[from..p] && closing !in line
      {
        assert text[p..][1..] == text[p + 1..];
        line, p := line + [text[p]], p + 1;
      }
      assert line == line + UpTo(text[p..], closing);
    }

    // ---------------------------------------------------------------- inc_path

    method NewInclude(path: string, incstring: string) returns (at: Option<nat>)
      requires Sound(W())
      modifies this
      ensures W() == Directives.NewInclude(old(W()), path, incstring)
      ensures at == if aborted then None else Some(old(|inclist|))
    {
      if aborted {
        return None;
      }
      if |inclist| + 1 == MAXFILES - 1 {
        aborted := true;
        return None;
      }
      at := Some(|inclist|);
      inclist := inclist + [Entry(path, incstring)];
    }

    method IncPath(file: nat, name: string, dot: bool) returns (found: Option<nat>)
      requires Sound(W()) && file < |inclist|
      modifies this
      ensures (W(), found) == Directives.IncPath(k, old(W()), file, name, dot)
    {
      if aborted {
        return None;
      }
      ghost var cached := FirstCached(W(), name, 0);
      var i := 0;
      while i < |inclist|
        invariant i <= |inclist| && FirstCached(W(), name, i) == cached
        modifies {}
      {
        if inclist[i].incstring == name && i !in soft {
          return Some(i);
        }
        i := i + 1;
      }
      var paths := k.paths(inclist[file].file, name, dot);
      ghost var first := FirstPresent(k.present, paths, 0);
      var j := 0;
      while j < |paths| && !k.present(paths[j])
        invariant j <= |paths| && (forall i :: 0 <= i < j ==> !k.present(paths[i]))
        invariant FirstPresent(k.present, paths, j) == first
        modifies {}
      {
        j := j + 1;
      }
      if j < |paths| {
        found := NewInclude(paths[j], name);
      } else {
        found := None;
      }
    }

    // ---------------------------------------------------------------- find_includes

    method AddInclude(file: nat, name: string, dot: bool)
      requires Sound(W()) && file < |inclist|
      modifies this
      ensures W() == Directives.AddInclude(k, old(W()), file, name, dot)
      decreases Unsearched(W()), 0, 1
    {
      var newfile := IncPath(file, name, dot);
      if newfile.Some? {
        var entry := newfile.value;
        ghost var w := W();
        Record(Included(file, entry), k.includedBy(file, entry, env));
        if entry !in searched {
          searched, trace := searched + {entry}, trace + [Opened(entry)];
          assert W() == Enter(k, w, file, entry);
          EnterShrinks(k, w, file, entry);
          var content := new LineCursor(k.contents(inclist[entry].file));
          var end := FindIncludes(content, entry, false);
        }
      }
    }

    method Perform(file: nat, a: Action)
      requires Sound(W()) && file < |inclist|
      modifies this
      ensures W() == Directives.Perform(k, old(W()), file, a)
      decreases Unsearched(W()), 0, 2
    {
      match a {
        case Define(text) => Record(Defined(file, text), k.define(file, text, env));
        case Undef(name) => if name != "" { Record(Undefined(name), k.undef(file_red, name, env)); }
        case Include(text, values) =>
          var name := DefType(file, text, values);
          if name.Some? { AddInclude(file, name.value.0, name.value.1); }
        case Ignored =>
      }
    }

    method FindIncludes(filep: LineCursor, file: nat, nested: bool) returns (end: Terminator)
      requires Sound(W()) && file < |inclist|
      modifies this, filep
      ensures Stop(W(), filep.f_p, end) == Directives.FindIncludes(k, old(W()), file, old(filep.f_p), nested)
      decreases Unsearched(W()), Count(filep.f_p), 3
    {
      ghost var all := Directives.FindIncludes(k, W(), file, filep.f_p, nested);
      while true
        invariant Sound(W()) && Grows(old(W()), W()) && file < |inclist|
        invariant Directives.FindIncludes(k, W(), file, filep.f_p, nested) == all
        invariant Count(filep.f_p) <= Count(old(filep.f_p))
        decreases Count(filep.f_p)
      {
        var line := filep.GetNextLine();
        if line.None? {
          break;
        }
        match line.value {
          case If(t) =>
            var holds := Asks(t);
            if holds { DoIf(filep, file); } else { DoIfFalse(filep, file); }
          case Elif(_, raw) =>
            if nested { return AtElif(true); }
            end := Gobble(filep);
            Record(Defined(file, raw), k.define(file, raw, env));
          case Else(raw) =>
            if nested { return AtElse; }
            end := Gobble(filep);
            Record(Defined(file, raw), k.define(file, raw, env));
          case Endif(raw) =>
            if nested { return AtEndif; }
            Record(Defined(file, raw), k.define(file, raw, env));
          case Do(a) => Perform(file, a);
        }
      }
      Record(Finished(file), k.finish(file, env));
      end := AtEof;
    }

    // The label doif.
    method DoIf(filep: LineCursor, file: nat)
      requires Sound(W()) && file < |inclist|
      modifies this, filep
      ensures var r := Taken(k, old(W()), file, old(filep.f_p)); W() == r.w && filep.f_p == r.rest
      decreases Unsearched(W()), Count(filep.f_p), 4
    {
      var end := FindIncludes(filep, file, true);
      GobbleOn(filep, end);
    }

    // The label doiffalse, to which an #elif that does not hold jumps back.
    method DoIfFalse(filep: LineCursor, file: nat)
      requires Sound(W()) && file < |inclist|
      modifies this, filep
      ensures var r := Skipped(k, old(W()), file, old(filep.f_p)); W() == r.w && filep.f_p == r.rest
      decreases Unsearched(W()), Count(filep.f_p), 4
    {
      ghost var all := Skipped(k, W(), file, filep.f_p);
      while true
        invariant Sound(W()) && Grows(old(W()), W()) && file < |inclist|
        invariant Skipped(k, W(), file, filep.f_p) == all
        invariant Count(filep.f_p) <= Count(old(filep.f_p))
        decreases Count(filep.f_p)
      {
        var end := Gobble(filep);
        match end {
          case AtElse =>
            end := FindIncludes(filep, file, true);
            return;
          case AtElif(holds) =>
            if holds {
              DoIf(filep, file);
              return;
            }
          case _ => return;
        }
      }
    }

    // ---------------------------------------------------------------- main

    // The loop over filelist; after a fatalerr nothing happens any more.
    method ReadSources(filelist: seq<string>)
      requires Sound(W())
      modifies this
      ensures W() == Directives.ReadSources(k, old(W()), filelist)
    {
      ghost var all := Directives.ReadSources(k, W(), filelist);
      var fp := 0;
      while fp < |filelist|
        invariant fp <= |filelist| && Sound(W()) && Directives.ReadSources(k, W(), filelist[fp..]) == all
      {
        assert filelist[fp..][0] == filelist[fp] && filelist[fp..][1..] == filelist[fp + 1..];
        ReadSource(filelist[fp]);
        fp := fp + 1;
      }
    }

    method ReadSource(path: string)
      requires Sound(W())
      modifies this
      ensures W() == AfterSource(k, old(W()), path)
    {
      var ip := NewInclude(path, path);
      if ip.Some? {
        file_red := ip.value;
        var filecontent := new LineCursor(k.contents(path));
        var end := FindIncludes(filecontent, ip.value, false);
      }
    }
  }
}
