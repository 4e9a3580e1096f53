/** What find_includes and gobble of config/makedepend/parse.c, with add_include, inc_path and
    newinclude around them, do to a stream of directives, as functions. */
module Directives {
  import opened Names

  // What decides a conditional: an expression, or the presence or absence of one name.
  datatype Test = Expression(text: string) | Present(name: CString) | Absent(name: CString)

  datatype Action =
    | Define(text: string)
    | Undef(name: CString)
    | Include(rest: CString, values: seq<CString>)
    | Ignored

  // A directive line as deftype classifies it; raw is the text of the line itself. The rest of an
  // #include may be the name of a symbol, and the symbol's value the name of another; values are the
  // values that are met in this way.
  datatype Line =
    | If(test: Test)
    | Elif(text: string, raw: string)
    | Else(raw: string)
    | Endif(raw: string)
    | Do(act: Action)

  // The lines of a file from the cursor f_p on.
  datatype Lines = End | Next(line: Line, rest: Lines)

  function Count(ls: Lines): nat {
    if ls.End? then 0 else 1 + Count(ls.rest)
  }

  // How a scan over lines came to its end.
  datatype Terminator = AtElif(holds: bool) | AtElse | AtEndif | AtEof

  // A slot of inclist.
  datatype Entry = Entry(file: string, incstring: string)

  datatype Event =
    | Defined(file: nat, text: string)
    | Undefined(name: CString)
    | Included(file: nat, entry: nat)
    | Opened(entry: nat)
    | Finished(entry: nat)

  // The definition environment S and all that is not modelled: how a test is decided against it
  // (a lookup may fold tables, so testing may change it), how it records what happens, which
  // files exist, and what they contain.
  datatype Kit<!S> = Kit(
    test: (nat, Test, S) -> (bool, S),
    define: (nat, string, S) -> S,
    undef: (nat, CString, S) -> S,
    includedBy: (nat, nat, S) -> S,
    finish: (nat, S) -> S,
    paths: (string, string, bool) -> seq<string>,
    present: string -> bool,
    contents: string -> Lines)

  // root is the file named on the command line, the file_red of the source; searched and soft are
  // the entries with the flags SEARCHED and INCLUDED_SYM. After a fatalerr the process is gone:
  // aborted worlds never change again.
  datatype World<S> = World(root: nat, entries: seq<Entry>, searched: set<nat>, soft: set<nat>, env: S,
                            trace: seq<Event>, aborted: bool)

  datatype Stop<S> = Stop(w: World<S>, rest: Lines, end: Terminator)

  // ---------------------------------------------------------------- what every step keeps

  // Room is left in inclist.
  ghost predicate Sound<S>(w: World<S>) {
    |w.entries| <= MAXFILES - 2
  }

  // No slot is given back, no SEARCHED flag cleared; the source is the same.
  ghost predicate Grows<S>(w: World<S>, v: World<S>) {
    w.searched <= v.searched && |w.entries| <= |v.entries| && v.root == w.root
  }

  // Asking questions and skipping lines leave no trace.
  ghost predicate OnlyEnv<S>(w: World<S>, v: World<S>) {
    v == w.(env := v.env)
  }

  ghost function Slots(n: nat): (s: set<nat>)
    ensures forall i: nat :: i in s <==> i < n
  {
    if n == 0 then {} else Slots(n - 1) + {n - 1}
  }

  // Entries of inclist that could still be opened; with the lines left, the termination measure.
  ghost function Unsearched<S>(w: World<S>): set<nat> {
    Slots(MAXFILES) - w.searched
  }

  // ---------------------------------------------------------------- single steps

  ghost function Log<S>(w: World<S>, e: Event, env: S): World<S> {
    if w.aborted then w else w.(env := env, trace := w.trace + [e])
  }

  // zero_value or isdefined: the answer, and the environment after the lookups it took.
  ghost function Ask<S>(k: Kit<S>, w: World<S>, t: Test): (r: (bool, World<S>))
    requires Sound(w)
    ensures Sound(r.1) && OnlyEnv(w, r.1)
  {
    if w.aborted then (false, w)
    else (k.test(w.root, t, w.env).0, w.(env := k.test(w.root, t, w.env).1))
  }

  ghost function DefineIn<S>(k: Kit<S>, w: World<S>, file: nat, text: string): (v: World<S>)
    requires Sound(w)
    ensures Sound(v) && Grows(w, v)
  {
    Log(w, Defined(file, text), k.define(file, text, w.env))
  }

  // undefine(line, file_red); an #undef without a name only draws a warning.
  ghost function UndefIn<S>(k: Kit<S>, w: World<S>, name: CString): (v: World<S>)
    requires Sound(w)
    ensures Sound(v) && Grows(w, v)
  {
    if name == "" then w else Log(w, Undefined(name), k.undef(w.root, name, w.env))
  }

  ghost function Finish<S>(k: Kit<S>, w: World<S>, file: nat): (v: World<S>)
    requires Sound(w)
    ensures Sound(v) && Grows(w, v)
  {
    Log(w, Finished(file), k.finish(file, w.env))
  }

  // newinclude: the next slot of inclist. The process ends, and only then, when one slot is left
  // besides the empty one at the end.
  ghost function NewInclude<S>(w: World<S>, path: string, incstring: string): (v: World<S>)
    requires Sound(w)
    ensures Sound(v) && Grows(w, v) && v == w.(entries := v.entries, aborted := v.aborted)
    ensures v.aborted <==> w.aborted || |w.entries| == MAXFILES - 2
    ensures v.entries == if v.aborted then w.entries else w.entries + [Entry(path, incstring)]
  {
    if w.aborted then w
    else if |w.entries| + 1 == MAXFILES - 1 then w.(aborted := true)
    else w.(entries := w.entries + [Entry(path, incstring)])
  }

  // The i-th entry is what the name of an #include was expanded to before. A file that has included
  // through a symbol does not count.
  predicate Expanded<S>(w: World<S>, name: string, i: nat) {
    i < |w.entries| && w.entries[i].incstring == name && i !in w.soft
  }

  ghost function FirstCached<S>(w: World<S>, name: string, from: nat): (r: Option<nat>)
    requires from <= |w.entries|
    ensures match r
      case Some(n) => from <= n && Expanded(w, name, n) && forall i :: from <= i < n ==> !Expanded(w, name, i)
      case None => forall i :: from <= i ==> !Expanded(w, name, i)
    decreases |w.entries| - from
  {
    if from == |w.entries| then None
    else if Expanded(w, name, from) then Some(from)
    else FirstCached(w, name, from + 1)
  }

  ghost predicate FirstPresentAt(present: string -> bool, paths: seq<string>, j: nat) {
    j < |paths| && present(paths[j]) && forall i :: 0 <= i < j ==> !present(paths[i])
  }

  ghost function FirstPresent(present: string -> bool, paths: seq<string>, from: nat): (r: Option<nat>)
    requires from <= |paths| && forall i :: 0 <= i < from ==> !present(paths[i])
    ensures match r
      case Some(j) => FirstPresentAt(present, paths, j)
      case None => forall p :: p in paths ==> !present(p)
    decreases |paths| - from
  {
    if from == |paths| then None
    else if present(paths[from]) then Some(from)
    else FirstPresent(present, paths, from + 1)
  }

  // inc_path: an entry expanded before, or a new one for the first candidate path that exists.
  ghost function IncPath<S>(k: Kit<S>, w: World<S>, file: nat, name: string, dot: bool): (r: (World<S>, Option<nat>))
    requires Sound(w) && file < |w.entries|
    ensures Sound(r.0) && Grows(w, r.0) && r.0 == w.(entries := r.0.entries, aborted := r.0.aborted)
    ensures r.1.Some? ==> r.1.value < |r.0.entries|
    ensures r.0.aborted ==> r.1.None?
  {
    if w.aborted then (w, None)
    else
      var cached := FirstCached(w, name, 0);
      if cached.Some? then (w, cached)
      else
        var paths := k.paths(w.entries[file].file, name, dot);
        var path := FirstPresent(k.present, paths, 0);
        if path.None? then (w, None)
        else
          var v := NewInclude(w, paths[path.value], name);
          (v, if v.aborted then None else Some(|w.entries|))
  }

  /** The entry found is the first that the name was expanded to before. Without one it is a new entry
      for the first candidate path that exists, unless inclist is full, which ends the process; and
      none at all if no candidate exists. */
  lemma {:induction false} IncPathFinds<S>(k: Kit<S>, w: World<S>, file: nat, name: string, dot: bool)
    requires Sound(w) && file < |w.entries| && !w.aborted
    ensures var r := IncPath(k, w, file, name, dot);
      var paths := k.paths(w.entries[file].file, name, dot);
      if exists n: nat :: n < |w.entries| && w.entries[n].incstring == name && n !in w.soft then
        && r.0 == w && r.1.Some? && var n := r.1.value;
        && n < |w.entries| && w.entries[n].incstring == name && n !in w.soft
        && forall i: nat :: i < n && w.entries[i].incstring == name ==> i in w.soft
      else if exists p :: p in paths && k.present(p) then
        exists j: nat :: j < |paths| && k.present(paths[j]) && (forall i: nat :: i < j ==> !k.present(paths[i])) &&
          if |w.entries| == 1022 then r == (w.(aborted := true), None)
          else r == (w.(entries := w.entries + [Entry(paths[j], name)]), Some(|w.entries|))
      else r == (w, None)
  {
    var cached := FirstCached(w, name, 0);
    if cached.Some? {
      forall i: nat | i < cached.value && w.entries[i].incstring == name ensures i in w.soft {
        assert !Expanded(w, name, i);
      }
    } else {
      forall n: nat | n < |w.entries| ensures !(w.entries[n].incstring == name && n !in w.soft) {
        assert !Expanded(w, name, n);
      }
      var paths := k.paths(w.entries[file].file, name, dot);
      var path := FirstPresent(k.present, paths, 0);
      assert path.Some? ==> FirstPresentAt(k.present, paths, path.value) && paths[path.value] in paths;
    }
  }

  // The mark of a file that includes through a symbol.
  ghost function Soften<S>(w: World<S>, file: nat, soft: bool): (v: World<S>)
    requires Sound(w)
    ensures Sound(v) && Grows(w, v) && v == w.(soft := v.soft)
  {
    if soft && !w.aborted then w.(soft := w.soft + {file}) else w
  }

  // The characters up to a closing sign, or all of them.
  function UpTo(s: string, closing: char): string {
    if s == [] || s[0] == closing then [] else [s[0]] + UpTo(s[1..], closing)
  }

  // The name of the header in the text of an #include, and whether it is in quotes.
  function HeaderIn(text: string): Option<(string, bool)> {
    if text == [] then None
    else if text[0] == '"' then Some((UpTo(text[1..], '"'), true))
    else if text[0] == '<' then Some((UpTo(text[1..], '>'), false))
    else HeaderIn(text[1..])
  }

  // The first sign that can open a name is the one at i.
  predicate OpensAt(text: string, i: nat) {
    i < |text| && (text[i] == '"' || text[i] == '<') && forall j :: 0 <= j < i ==> text[j] != '"' && text[j] != '<'
  }

  // The name stands between the sign at i and the first closing sign behind it, or the end.
  predicate NamedBetween(text: string, i: nat, j: nat, name: string, quoted: bool) {
    && OpensAt(text, i) && i < j <= |text| && name == text[i + 1..j]
    && (quoted ==> text[i] == '"' && '"' !in name && (j < |text| ==> text[j] == '"'))
    && (!quoted ==> text[i] == '<' && '>' !in name && (j < |text| ==> text[j] == '>'))
  }

  lemma {:induction false} UpToClosing(name: string, closing: char, post: string)
    requires closing !in name
    ensures UpTo(name, closing) == name && UpTo(name + [closing] + post, closing) == name
  {
    if name != [] {
      assert (name + [closing] + post)[1..] == name[1..] + [closing] + post;
      UpToClosing(name[1..], closing, post);
    }
  }

  lemma {:induction false} HeaderBehind(pre: string, text: string)
    requires '"' !in pre && '<' !in pre
    ensures HeaderIn(pre + text) == HeaderIn(text)
  {
    if pre == [] {
      assert pre + text == text;
    } else {
      assert (pre + text)[1..] == pre[1..] + text;
      HeaderBehind(pre[1..], text);
    }
  }

  /** Behind anything without an opening sign, a name in quotes is read as a quoted name, closed or not. */
  lemma {:induction false} QuotedName(pre: string, name: string, post: string)
    requires '"' !in pre && '<' !in pre && '"' !in name
    ensures HeaderIn(pre + ['"'] + name + ['"'] + post) == HeaderIn(pre + ['"'] + name) == Some((name, true))
  {
    assert pre + ['"'] + name + ['"'] + post == pre + (['"'] + (name + ['"'] + post));
    assert pre + ['"'] + name == pre + (['"'] + name);
    HeaderBehind(pre, ['"'] + (name + ['"'] + post));
    HeaderBehind(pre, ['"'] + name);
    assert (['"'] + (name + ['"'] + post))[1..] == name + ['"'] + post && (['"'] + name)[1..] == name;
    UpToClosing(name, '"', post);
  }

  lemma {:induction false} QuotedAlone(name: string)
    requires '"' !in name
    ensures HeaderIn(['"'] + name + ['"']) == Some((name, true))
  {
    QuotedName([], name, []);
    assert [] + ['"'] + name + ['"'] + [] == ['"'] + name + ['"'];
  }

  /** And a name in angle brackets as one that is not quoted. */
  lemma {:induction false} AngleName(pre: string, name: string, post: string)
    requires '"' !in pre && '<' !in pre && '>' !in name
    ensures HeaderIn(pre + ['<'] + name + ['>'] + post) == HeaderIn(pre + ['<'] + name) == Some((name, false))
  {
    assert pre + ['<'] + name + ['>'] + post == pre + (['<'] + (name + ['>'] + post));
    assert pre + ['<'] + name == pre + (['<'] + name);
    HeaderBehind(pre, ['<'] + (name + ['>'] + post));
    HeaderBehind(pre, ['<'] + name);
    assert (['<'] + (name + ['>'] + post))[1..] == name + ['>'] + post && (['<'] + name)[1..] == name;
    UpToClosing(name, '>', post);
  }

  /** There is a name exactly if the text has one of the two signs. */
  lemma {:induction false} NameExactlyWhen(text: string)
    ensures HeaderIn(text).Some? <==> '"' in text || '<' in text
  {
    if text != [] {
      NameExactlyWhen(text[1..]);
      assert text == [text[0]] + text[1..];
    }
  }

  // The text of an #include once symbols have been replaced, and whether any has.
  datatype Expansion<S> = Expansion(w: World<S>, text: CString, soft: bool)

  // deftype looks up every text of an #include, a quoted name too; as long as there is a symbol of that
  // name, its value takes the place of the text.
  ghost function Expand<S>(k: Kit<S>, w: World<S>, text: CString, values: seq<CString>): (r: Expansion<S>)
    requires Sound(w)
    ensures Sound(r.w) && OnlyEnv(w, r.w)
    decreases |values|
  {
    var a := Ask(k, w, Present(text));
    if !a.0 then Expansion(a.1, text, false)
    else if values == [] then Expansion(a.1, text, true)
    else Expand(k, a.1, values[0], values[1..]).(soft := true)
  }

  // The case INCLUDE of deftype: the name of the header, unless there is none in the text.
  ghost function ReadName<S>(k: Kit<S>, w: World<S>, file: nat, text: CString, values: seq<CString>)
    : (r: (World<S>, Option<(string, bool)>))
    requires Sound(w)
    ensures Sound(r.0) && Grows(w, r.0) && r.0 == w.(env := r.0.env, soft := r.0.soft)
  {
    var e := Expand(k, w, text, values);
    (Soften(e.w, file, e.soft), HeaderIn(e.text))
  }

  // What the lookups of the texts answer one after the other, from the environment envs[0] on: the first n
  // are names of symbols, the next is not.
  ghost predicate SymbolsThenNone<S>(k: Kit<S>, root: nat, texts: seq<CString>, envs: seq<S>, n: nat) {
    && n < |texts| && |envs| == n + 2
    && (forall i: nat :: i < n ==> k.test(root, Present(texts[i]), envs[i]) == (true, envs[i + 1]))
    && k.test(root, Present(texts[n]), envs[n]) == (false, envs[n + 1])
  }

  /** The name of a header is read from the first text that is no symbol, in the environment behind all the
      lookups; and the including file is marked exactly if there was a symbol before it. */
  lemma {:induction false} SymbolsAreReplaced<S>(k: Kit<S>, w: World<S>, file: nat, text: CString,
                                               values: seq<CString>, envs: seq<S>, n: nat)
    requires Sound(w) && !w.aborted && SymbolsThenNone(k, w.root, [text] + values, envs, n) && w.env == envs[0]
    ensures ReadName(k, w, file, text, values) ==
      (w.(env := envs[n + 1], soft := if n == 0 then w.soft else w.soft + {file}), HeaderIn(([text] + values)[n]))
  {
    ExpandsAlong(k, w, text, values, envs, n);
  }

  lemma {:induction false} ExpandsAlong<S>(k: Kit<S>, w: World<S>, text: CString, values: seq<CString>,
                                           envs: seq<S>, n: nat)
    requires Sound(w) && !w.aborted && SymbolsThenNone(k, w.root, [text] + values, envs, n) && w.env == envs[0]
    ensures Expand(k, w, text, values) == Expansion(w.(env := envs[n + 1]), ([text] + values)[n], n > 0)
    decreases n
  {
    assert Ask(k, w, Present(text)) == (n > 0, w.(env := envs[1]));
    if n > 0 {
      var u := w.(env := envs[1]);
      RestIsAsked(k, w.root, text, values, envs, n);
      ExpandsAlong(k, u, values[0], values[1..], envs[1..], n - 1);
      assert Expand(k, w, text, values) == Expand(k, u, values[0], values[1..]).(soft := true);
    }
  }

  lemma {:induction false} RestIsAsked<S>(k: Kit<S>, root: nat, text: CString, values: seq<CString>, envs: seq<S>,
                                          n: nat)
    requires n > 0 && SymbolsThenNone(k, root, [text] + values, envs, n)
    ensures values != [] && SymbolsThenNone(k, root, [values[0]] + values[1..], envs[1..], n - 1)
    ensures ([text] + values)[n] == ([values[0]] + values[1..])[n - 1] && envs[1..][n] == envs[n + 1]
  {
    assert [values[0]] + values[1..] == values && ([text] + values)[1..] == values;
    assert forall i: nat :: i < n - 1 ==> envs[1..][i] == envs[i + 1] && values[i] == ([text] + values)[i + 1];
  }

  // Without a name there is only a warning.
  ghost function Find<S>(k: Kit<S>, w: World<S>, file: nat, name: Option<(string, bool)>): (r: (World<S>, Option<nat>))
    requires Sound(w) && file < |w.entries|
    ensures Sound(r.0) && Grows(w, r.0) && r.0 == w.(entries := r.0.entries, aborted := r.0.aborted)
    ensures r.1.Some? ==> r.1.value < |r.0.entries|
    ensures r.0.aborted ==> r.1.None?
  {
    if name.None? then (w, None) else IncPath(k, w, file, name.value.0, name.value.1)
  }

  // included_by, then SEARCHED set on a file about to be opened.
  ghost function Enter<S>(k: Kit<S>, w: World<S>, file: nat, entry: nat): (v: World<S>)
    requires Sound(w) && !w.aborted && entry < |w.entries|
    ensures Sound(v) && Grows(w, v) && !v.aborted && v.entries == w.entries
    ensures v.searched == w.searched + {entry}
  {
    var u := Log(w, Included(file, entry), k.includedBy(file, entry, w.env));
    if entry in u.searched then u
    else u.(searched := u.searched + {entry}, trace := u.trace + [Opened(entry)])
  }

  lemma {:induction false} EnterShrinks<S>(k: Kit<S>, w: World<S>, file: nat, entry: nat)
    requires Sound(w) && !w.aborted && entry < |w.entries| && entry !in w.searched
    ensures Unsearched(Enter(k, w, file, entry)) < Unsearched(w)
  {
    assert entry in Unsearched(w) && entry !in Unsearched(Enter(k, w, file, entry));
  }

  // ---------------------------------------------------------------- the flat machine

  // gobble: skip to the terminator of the current group, evaluating every #elif on the way.
  ghost function Gobble<S>(k: Kit<S>, w: World<S>, ls: Lines): (r: Stop<S>)
    requires Sound(w)
    ensures Sound(r.w) && OnlyEnv(w, r.w)
    ensures Count(r.rest) <= Count(ls) && (r.end != AtEof ==> Count(r.rest) < Count(ls))
    decreases Count(ls), 0
  {
    match ls
    case End => Stop(w, End, AtEof)
    case Next(If(_), rest) =>
      var r := GobbleRest(k, Gobble(k, w, rest));
      Gobble(k, r.w, r.rest)
    case Next(Elif(text, _), rest) =>
      var a := Ask(k, w, Expression(text));
      Stop(a.1, rest, AtElif(a.0))
    case Next(Else(_), rest) => Stop(w, rest, AtElse)
    case Next(Endif(_), rest) => Stop(w, rest, AtEndif)
    case Next(Do(_), rest) => Gobble(k, w, rest)
  }

  // While the scan stopped at an #elif, gobble on; after an #else gobble once more.
  ghost function GobbleRest<S>(k: Kit<S>, at: Stop<S>): (r: Stop<S>)
    requires Sound(at.w)
    ensures Sound(r.w) && OnlyEnv(at.w, r.w)
    ensures Count(r.rest) <= Count(at.rest)
    decreases Count(at.rest), 1
  {
    match at.end
    case AtElif(_) =>
      var r := Gobble(k, at.w, at.rest);
      if r.end.AtEof? then r else GobbleRest(k, r)
    case AtElse => Gobble(k, at.w, at.rest)
    case _ => at
  }

  // add_include: find the file, record the edge, and read it unless that was done before.
  ghost function AddInclude<S>(k: Kit<S>, w: World<S>, file: nat, name: string, dot: bool): (v: World<S>)
    requires Sound(w) && file < |w.entries|
    ensures Sound(v) && Grows(w, v)
    decreases Unsearched(w), 0, 1
  {
    var found := IncPath(k, w, file, name, dot);
    if found.1.None? then found.0
    else
      var entry := found.1.value;
      var u := Enter(k, found.0, file, entry);
      if entry in w.searched then u
      else
        EnterShrinks(k, found.0, file, entry);
        FindIncludes(k, u, entry, k.contents(u.entries[entry].file), false).w
  }

  ghost function Perform<S>(k: Kit<S>, w: World<S>, file: nat, a: Action): (v: World<S>)
    requires Sound(w) && file < |w.entries|
    ensures Sound(v) && Grows(w, v)
    decreases Unsearched(w), 0, 2
  {
    match a
    case Define(text) => DefineIn(k, w, file, text)
    case Undef(name) => UndefIn(k, w, name)
    case Include(text, values) =>
      var n := ReadName(k, w, file, text, values);
      if n.1.None? then n.0 else AddInclude(k, n.0, file, n.1.value.0, n.1.value.1)
    case Ignored => w
  }

  // find_includes, nested in a conditional (recursion > 0) or not.
  ghost function FindIncludes<S>(k: Kit<S>, w: World<S>, file: nat, ls: Lines, nested: bool): (r: Stop<S>)
    requires Sound(w) && file < |w.entries|
    ensures Sound(r.w) && Grows(w, r.w)
    ensures Count(r.rest) <= Count(ls) && (r.end != AtEof ==> Count(r.rest) < Count(ls))
    decreases Unsearched(w), Count(ls), 3
  {
    match ls
    case End => Stop(Finish(k, w, file), End, AtEof)
    case Next(If(t), rest) =>
      var a := Ask(k, w, t);
      var r := if a.0 then Taken(k, a.1, file, rest) else Skipped(k, a.1, file, rest);
      FindIncludes(k, r.w, file, r.rest, nested)
    case Next(Elif(_, raw), rest) =>
      if nested then Stop(w, rest, AtElif(true)) else Unbalanced(k, w, file, rest, raw)
    case Next(Else(raw), rest) =>
      if nested then Stop(w, rest, AtElse) else Unbalanced(k, w, file, rest, raw)
    case Next(Endif(raw), rest) =>
      if nested then Stop(w, rest, AtEndif) else FindIncludes(k, DefineIn(k, w, file, raw), file, rest, nested)
    case Next(Do(a), rest) => FindIncludes(k, Perform(k, w, file, a), file, rest, nested)
  }

  // An #else or #elif outside any group: gobble, and then fall through to the case of #define.
  ghost function Unbalanced<S>(k: Kit<S>, w: World<S>, file: nat, ls: Lines, raw: string): (r: Stop<S>)
    requires Sound(w) && file < |w.entries|
    ensures Sound(r.w) && Grows(w, r.w)
    ensures Count(r.rest) <= Count(ls)
    decreases Unsearched(w), Count(ls), 4
  {
    var r := Gobble(k, w, ls);
    FindIncludes(k, DefineIn(k, r.w, file, raw), file, r.rest, false)
  }

  // The label doif: the branch is read, and what follows it up to the #endif is skipped.
  ghost function Taken<S>(k: Kit<S>, w: World<S>, file: nat, ls: Lines): (r: Stop<S>)
    requires Sound(w) && file < |w.entries|
    ensures Sound(r.w) && Grows(w, r.w) && Count(r.rest) <= Count(ls)
    decreases Unsearched(w), Count(ls), 4
  {
    GobbleRest(k, FindIncludes(k, w, file, ls, true))
  }

  // The label doiffalse: skip to the next branch and see whether that one is to be taken.
  ghost function Skipped<S>(k: Kit<S>, w: World<S>, file: nat, ls: Lines): (r: Stop<S>)
    requires Sound(w) && file < |w.entries|
    ensures Sound(r.w) && Grows(w, r.w) && Count(r.rest) <= Count(ls)
    decreases Unsearched(w), Count(ls), 4
  {
    var r := Gobble(k, w, ls);
    match r.end
    case AtElse => FindIncludes(k, r.w, file, r.rest, true)
    case AtElif(holds) => if holds then Taken(k, r.w, file, r.rest) else Skipped(k, r.w, file, r.rest)
    case _ => r
  }

  // ---------------------------------------------------------------- after a fatalerr

  lemma {:induction false} GobbleWhenAborted<S>(k: Kit<S>, w: World<S>, ls: Lines)
    requires Sound(w) && w.aborted
    ensures Gobble(k, w, ls).w == w
    decreases Count(ls), 0
  {
    match ls {
      case Next(If(_), rest) =>
        GobbleWhenAborted(k, w, rest);
        var r := Gobble(k, w, rest);
        GobbleRestWhenAborted(k, r);
        GobbleWhenAborted(k, w, GobbleRest(k, r).rest);
      case Next(Do(_), rest) => GobbleWhenAborted(k, w, rest);
      case _ =>
    }
  }

  lemma {:induction false} GobbleRestWhenAborted<S>(k: Kit<S>, at: Stop<S>)
    requires Sound(at.w) && at.w.aborted
    ensures GobbleRest(k, at).w == at.w
    decreases Count(at.rest), 1
  {
    if at.end.AtElif? || at.end.AtElse? {
      GobbleWhenAborted(k, at.w, at.rest);
      var r := Gobble(k, at.w, at.rest);
      if !r.end.AtEof? { GobbleRestWhenAborted(k, r); }
    }
  }

  lemma {:induction false} PerformWhenAborted<S>(k: Kit<S>, w: World<S>, file: nat, a: Action)
    requires Sound(w) && file < |w.entries| && w.aborted
    ensures Perform(k, w, file, a) == w
  {
    if a.Include? {
      assert Ask(k, w, Present(a.rest)) == (false, w);
      assert ReadName(k, w, file, a.rest, a.values).0 == w;
    }
  }

  /** Once the process has ended, nothing is read, recorded or looked up any more. */
  lemma {:induction false} EndedStaysAsItIs<S>(k: Kit<S>, w: World<S>, file: nat, ls: Lines, nested: bool)
    requires Sound(w) && file < |w.entries| && w.aborted
    ensures FindIncludes(k, w, file, ls, nested).w == w
    decreases Count(ls), 3
  {
    match ls {
      case End =>
      case Next(If(t), rest) =>
        SkippedWhenAborted(k, w, file, rest);
        EndedStaysAsItIs(k, w, file, Skipped(k, w, file, rest).rest, nested);
      case Next(Do(a), rest) =>
        PerformWhenAborted(k, w, file, a);
        EndedStaysAsItIs(k, w, file, rest, nested);
      case Next(_, rest) =>
        if !nested {
          GobbleWhenAborted(k, w, rest);
          EndedStaysAsItIs(k, w, file, Gobble(k, w, rest).rest, false);
          EndedStaysAsItIs(k, w, file, rest, false);
        }
    }
  }

  lemma {:induction false} SkippedWhenAborted<S>(k: Kit<S>, w: World<S>, file: nat, ls: Lines)
    requires Sound(w) && file < |w.entries| && w.aborted
    ensures Skipped(k, w, file, ls).w == w
    decreases Count(ls), 4
  {
    GobbleWhenAborted(k, w, ls);
    var r := Gobble(k, w, ls);
    if r.end.AtElse? || r.end.AtElif? {
      EndedStaysAsItIs(k, w, file, r.rest, true);
      GobbleRestWhenAborted(k, FindIncludes(k, w, file, r.rest, true));
      SkippedWhenAborted(k, w, file, r.rest);
    }
  }

  // ---------------------------------------------------------------- one source after the other

  // The next source takes the next slot, its path for the name it was expanded from.
  ghost function NextSource<S>(w: World<S>, path: string): (v: World<S>)
    requires Sound(w)
    ensures Sound(v) && v.env == w.env && v.searched == w.searched && v.soft == w.soft && v.trace == w.trace
    ensures (v.aborted <==> w.aborted || |w.entries| == MAXFILES - 2) && |w.entries| <= |v.entries|
    ensures !v.aborted ==> v.root == |w.entries| && v.entries == w.entries + [Entry(path, path)]
  {
    var v := NewInclude(w, path, path);
    if v.aborted then v else v.(root := |w.entries|)
  }

  ghost function AfterSource<S>(k: Kit<S>, w: World<S>, path: string): (v: World<S>)
    requires Sound(w)
    ensures Sound(v) && (v.aborted || |w.entries| < |v.entries|)
  {
    var u := NextSource(w, path);
    if u.aborted then u else FindIncludes(k, u, u.root, k.contents(path), false).w
  }

  // The loop of main over the files named on the command line.
  ghost function ReadSources<S>(k: Kit<S>, w: World<S>, paths: seq<string>): (v: World<S>)
    requires Sound(w)
    ensures Sound(v)
    decreases |paths|
  {
    if paths == [] then w else ReadSources(k, AfterSource(k, w, paths[0]), paths[1..])
  }
}
