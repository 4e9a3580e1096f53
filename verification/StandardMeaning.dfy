/** What reading a well-nested file means by section 6.10.1 of ISO/IEC 9899:1999, in an environment that tests
    do not change, and when reading it with tests that fold tables as they go comes to the same. Also: no
    header is read twice. */
module StandardMeaning {
  import opened Names
  import opened Directives
  import opened DirectiveTrees

  // ---------------------------------------------------------------- the meaning

  ghost predicate Holds<S>(k: Kit<S>, w: World<S>, t: Test) {
    !w.aborted && k.test(w.root, t, w.env).0
  }

  // The symbols of an #include are replaced by their values.
  ghost function Replaced<S>(k: Kit<S>, w: World<S>, text: CString, values: seq<CString>): (CString, bool)
    decreases |values|
  {
    if !Holds(k, w, Present(text)) then (text, false)
    else if values == [] then (text, true)
    else (Replaced(k, w, values[0], values[1..]).0, true)
  }

  ghost function NameMeaning<S>(k: Kit<S>, w: World<S>, file: nat, text: CString, values: seq<CString>)
    : (r: (World<S>, Option<(string, bool)>))
    requires Sound(w)
    ensures Sound(r.0) && Grows(w, r.0) && r.0 == w.(soft := r.0.soft)
  {
    var e := Replaced(k, w, text, values);
    (Soften(w, file, e.1), HeaderIn(e.0))
  }

  // Tests are only looked at, and only until one of the group holds.
  ghost function Meaning<S>(k: Kit<S>, trees: string -> Items, w: World<S>, file: nat, t: Items): (v: World<S>)
    requires Sound(w) && file < |w.entries|
    ensures Sound(v) && Grows(w, v)
    decreases Unsearched(w), t, 0
  {
    match t
    case Nil => w
    case Leaf(a, next) => Meaning(k, trees, ActionMeaning(k, trees, w, file, a), file, next)
    case Group(test, body, rest, next) =>
      var v := if Holds(k, w, test) then Meaning(k, trees, w, file, body) else RestMeaning(k, trees, w, file, rest);
      Meaning(k, trees, v, file, next)
  }

  ghost function RestMeaning<S>(k: Kit<S>, trees: string -> Items, w: World<S>, file: nat, r: Rest): (v: World<S>)
    requires Sound(w) && file < |w.entries|
    ensures Sound(v) && Grows(w, v)
    decreases Unsearched(w), r, 0
  {
    match r
    case Closed(_) => w
    case Otherwise(_, body, _) => Meaning(k, trees, w, file, body)
    case ElseIf(text, _, body, rest) =>
      if Holds(k, w, Expression(text)) then Meaning(k, trees, w, file, body) else RestMeaning(k, trees, w, file, rest)
  }

  ghost function ActionMeaning<S>(k: Kit<S>, trees: string -> Items, w: World<S>, file: nat, a: Action): (v: World<S>)
    requires Sound(w) && file < |w.entries|
    ensures Sound(v) && Grows(w, v)
    decreases Unsearched(w), a, 0
  {
    match a
    case Define(text) => DefineIn(k, w, file, text)
    case Undef(name) => UndefIn(k, w, name)
    case Include(text, values) =>
      var n := NameMeaning(k, w, file, text, values);
      var found := Find(k, n.0, file, n.1);
      if found.1.None? then found.0
      else
        var entry := found.1.value;
        var u := Enter(k, found.0, file, entry);
        if entry in w.searched then u
        else
          EnterShrinks(k, found.0, file, entry);
          Finish(k, Meaning(k, trees, u, entry, trees(u.entries[entry].file)), entry)
    case Ignored => w
  }

  ghost function SourceMeaning<S>(k: Kit<S>, trees: string -> Items, w: World<S>, path: string): (v: World<S>)
    requires Sound(w)
    ensures Sound(v)
  {
    var u := NextSource(w, path);
    if u.aborted then u else Finish(k, Meaning(k, trees, u, u.root, trees(path)), u.root)
  }

  // One source after the other.
  ghost function SourcesMeaning<S>(k: Kit<S>, trees: string -> Items, w: World<S>, paths: seq<string>): (v: World<S>)
    requires Sound(w)
    ensures Sound(v)
    decreases |paths|
  {
    if paths == [] then w else SourcesMeaning(k, trees, SourceMeaning(k, trees, w, paths[0]), paths[1..])
  }

  // ---------------------------------------------------------------- simulation

  // The branches behind the first: #elif lines with their texts, and an #else or none.
  ghost function Branches(texts: seq<string>, bodies: seq<Items>, last: Option<Items>): Rest
    requires |texts| == |bodies|
  {
    if texts == [] then
      match last
      case Some(body) => Otherwise("", body, "")
      case None => Closed("")
    else ElseIf(texts[0], "", bodies[0], Branches(texts[1..], bodies[1..], last))
  }

  ghost predicate FirstHolding<S>(k: Kit<S>, w: World<S>, texts: seq<string>, i: nat) {
    && i < |texts| && k.test(w.root, Expression(texts[i]), w.env).0
    && forall j :: 0 <= j < i ==> !k.test(w.root, Expression(texts[j]), w.env).0
  }

  ghost predicate NoneHolds<S>(k: Kit<S>, w: World<S>, texts: seq<string>) {
    forall j :: 0 <= j < |texts| ==> !k.test(w.root, Expression(texts[j]), w.env).0
  }

  /** Of the branches behind a test that fails the one read is the first #elif whose expression holds; if
      none does, the #else, and nothing without one. */
  lemma {:induction false} FirstBranchIsRead<S>(k: Kit<S>, trees: string -> Items, w: World<S>, file: nat,
                                                test: Test, body: Items, texts: seq<string>, bodies: seq<Items>,
                                                last: Option<Items>)
    requires Sound(w) && file < |w.entries| && !w.aborted && |texts| == |bodies| && !k.test(w.root, test, w.env).0
    ensures var v := Meaning(k, trees, w, file, Group(test, body, Branches(texts, bodies, last), Nil));
      && (forall i: nat :: FirstHolding(k, w, texts, i) ==> v == Meaning(k, trees, w, file, bodies[i]))
      && (NoneHolds(k, w, texts) ==>
            v == match last case Some(b) => Meaning(k, trees, w, file, b) case None => w)
  {
    ReadsFirstOf(k, trees, w, file, texts, bodies, last);
    var v := RestMeaning(k, trees, w, file, Branches(texts, bodies, last));
    assert Meaning(k, trees, v, file, Nil) == v;
  }

  lemma {:induction false} ReadsFirstOf<S>(k: Kit<S>, trees: string -> Items, w: World<S>, file: nat,
                                           texts: seq<string>, bodies: seq<Items>, last: Option<Items>)
    requires Sound(w) && file < |w.entries| && !w.aborted && |texts| == |bodies|
    ensures var v := RestMeaning(k, trees, w, file, Branches(texts, bodies, last));
      && (forall i: nat :: FirstHolding(k, w, texts, i) ==> v == Meaning(k, trees, w, file, bodies[i]))
      && (NoneHolds(k, w, texts) ==>
            v == match last case Some(b) => Meaning(k, trees, w, file, b) case None => w)
    decreases |texts|
  {
    if texts != [] && !k.test(w.root, Expression(texts[0]), w.env).0 {
      ReadsFirstOf(k, trees, w, file, texts[1..], bodies[1..], last);
      forall i: nat | FirstHolding(k, w, texts, i) ensures i > 0 && FirstHolding(k, w, texts[1..], i - 1) {
        assert forall j :: 0 <= j < |texts| - 1 ==> texts[1..][j] == texts[j + 1];
      }
    }
  }

  // An environment s of the program and the environment t of the meaning at one moment; the files
  // being read, the source first, the files that have been opened, and what has been recorded.
  datatype Stage<S, T> = Stage(reading: seq<nat>, searched: set<nat>, trace: seq<Event>, s: S, t: T)

  // When a test leaves an environment as it is for the meaning; when an #undef does what it should; and
  // which files can be included while others are being read, after what has been recorded.
  datatype Manners<!S> = Manners(
    quiet: (nat, Test, S) -> bool,
    clean: (nat, CString, S) -> bool,
    includable: (seq<nat>, nat, seq<Event>, S) -> bool)

  predicate Top(reading: seq<nat>, file: nat) {
    reading != [] && reading[|reading| - 1] == file
  }

  predicate AtFile<S, T>(p: Stage<S, T>, root: nat, file: nat) {
    Top(p.reading, file) && p.reading[0] == root
  }

  ghost function With<S, T>(p: Stage<S, T>, s: S, t: T): Stage<S, T> {
    p.(s := s, t := t)
  }

  ghost function After<S, T>(p: Stage<S, T>, e: Event, s: S, t: T): Stage<S, T> {
    Stage(p.reading, p.searched, p.trace + [e], s, t)
  }

  // What an included file is entered with.
  ghost function Entered<S, T>(k: Kit<S>, m: Kit<T>, p: Stage<S, T>, file: nat, entry: nat): Stage<S, T> {
    Stage(p.reading + [entry], p.searched + {entry}, p.trace + [Included(file, entry)] + [Opened(entry)],
          k.includedBy(file, entry, p.s), m.includedBy(file, entry, p.t))
  }

  ghost function Left<S, T>(k: Kit<S>, m: Kit<T>, p: Stage<S, T>, file: nat): Stage<S, T>
    requires p.reading != []
  {
    Stage(p.reading[..|p.reading| - 1], p.searched, p.trace + [Finished(file)],
          k.finish(file, p.s), m.finish(file, p.t))
  }

  ghost predicate TestsAgree<S, T>(k: Kit<S>, m: Kit<T>, sim: iset<Stage<S, T>>, c: Manners<S>) {
    forall p: Stage<S, T>, root: nat, file: nat, q: Test ::
      p in sim && AtFile(p, root, file) && c.quiet(root, q, p.s) ==>
        k.test(root, q, p.s).0 == m.test(root, q, p.t).0 && With(p, k.test(root, q, p.s).1, p.t) in sim
  }

  ghost predicate DefinesAgree<S, T>(k: Kit<S>, m: Kit<T>, sim: iset<Stage<S, T>>) {
    forall p: Stage<S, T>, root: nat, file: nat, text: string :: p in sim && AtFile(p, root, file) ==>
      After(p, Defined(file, text), k.define(file, text, p.s), m.define(file, text, p.t)) in sim
  }

  ghost predicate UndefsAgree<S, T>(k: Kit<S>, m: Kit<T>, sim: iset<Stage<S, T>>, c: Manners<S>) {
    forall p: Stage<S, T>, root: nat, file: nat, name: CString ::
      p in sim && AtFile(p, root, file) && c.clean(root, name, p.s) ==>
        After(p, Undefined(name), k.undef(root, name, p.s), m.undef(root, name, p.t)) in sim
  }

  ghost predicate EndsAgree<S, T>(k: Kit<S>, m: Kit<T>, sim: iset<Stage<S, T>>) {
    forall p: Stage<S, T>, root: nat, file: nat :: p in sim && AtFile(p, root, file) ==>
      Left(k, m, p, file) in sim
  }

  ghost predicate InclusionsAgree<S, T>(k: Kit<S>, m: Kit<T>, sim: iset<Stage<S, T>>, c: Manners<S>) {
    forall p: Stage<S, T>, root: nat, file: nat, entry: nat ::
      p in sim && AtFile(p, root, file) && c.includable(p.reading, entry, p.trace, p.s) && entry < MAXFILES ==>
        if entry in p.searched
        then After(p, Included(file, entry), k.includedBy(file, entry, p.s), m.includedBy(file, entry, p.t)) in sim
        else Entered(k, m, p, file, entry) in sim
  }

  ghost predicate Simulates<S, T>(k: Kit<S>, m: Kit<T>, sim: iset<Stage<S, T>>, c: Manners<S>) {
    && TestsAgree(k, m, sim, c) && DefinesAgree(k, m, sim) && UndefsAgree(k, m, sim, c)
    && EndsAgree(k, m, sim) && InclusionsAgree(k, m, sim, c)
    && m.paths == k.paths && m.present == k.present && m.contents == k.contents
  }

  // Only slots in use are flagged SEARCHED.
  ghost predicate FlagsInUse<S>(w: World<S>) {
    forall i :: i in w.searched ==> i < |w.entries|
  }

  // The same events, files and flags, and environments that belong together.
  ghost predicate Alike<S, T>(sim: iset<Stage<S, T>>, reading: seq<nat>, w: World<S>, v: World<T>) {
    && v.root == w.root && v.entries == w.entries && v.searched == w.searched && v.soft == w.soft
    && v.trace == w.trace && v.aborted == w.aborted && FlagsInUse(w)
    && (!w.aborted ==> Stage(reading, w.searched, w.trace, w.env, v.env) in sim)
  }

  // ---------------------------------------------------------------- runs that keep together

  ghost predicate CalmAsk<S>(c: Manners<S>, w: World<S>, t: Test) {
    w.aborted || c.quiet(w.root, t, w.env)
  }

  // So are the lookups that an #include makes.
  ghost predicate CalmExpand<S>(k: Kit<S>, c: Manners<S>, w: World<S>, text: CString, values: seq<CString>)
    requires Sound(w)
    decreases |values|
  {
    var a := Ask(k, w, Present(text));
    CalmAsk(c, w, Present(text)) && (a.0 && values != [] ==> CalmExpand(k, c, a.1, values[0], values[1..]))
  }

  // Every test that is evaluated when t is skipped is quiet at that moment.
  ghost predicate CalmPeek<S>(k: Kit<S>, c: Manners<S>, w: World<S>, t: Items)
    requires Sound(w)
    decreases t
  {
    match t
    case Nil => true
    case Leaf(_, next) => CalmPeek(k, c, w, next)
    case Group(_, body, rest, next) =>
      var u := Peek(k, w, body);
      && CalmPeek(k, c, w, body) && CalmPeekRest(k, c, u, rest)
      && CalmPeek(k, c, PeekRest(k, u, rest), next)
  }

  ghost predicate CalmPeekRest<S>(k: Kit<S>, c: Manners<S>, w: World<S>, r: Rest)
    requires Sound(w)
    decreases r
  {
    match r
    case Closed(_) => true
    case Otherwise(_, body, _) => CalmPeek(k, c, w, body)
    case ElseIf(text, _, body, rest) =>
      var u := Ask(k, w, Expression(text)).1;
      && CalmAsk(c, w, Expression(text)) && CalmPeek(k, c, u, body)
      && CalmPeekRest(k, c, Peek(k, u, body), rest)
  }

  ghost predicate CalmPassOver<S>(k: Kit<S>, c: Manners<S>, w: World<S>, r: Rest)
    requires Sound(w)
  {
    match r
    case Closed(_) => true
    case Otherwise(_, body, _) => CalmPeek(k, c, w, body)
    case ElseIf(_, _, body, rest) => CalmPeek(k, c, w, body) && CalmPeekRest(k, c, Peek(k, w, body), rest)
  }

  // Every test evaluated when t is read is quiet at that moment, every #undef clean, every lookup of an
  // #include quiet, and none names a file that cannot be included then.
  ghost predicate CalmRun<S>(k: Kit<S>, c: Manners<S>, trees: string -> Items, reading: seq<nat>, w: World<S>,
                             file: nat, t: Items)
    requires Sound(w) && file < |w.entries|
    decreases Unsearched(w), t, 0
  {
    match t
    case Nil => true
    case Leaf(a, next) =>
      && CalmAction(k, c, trees, reading, w, file, a)
      && CalmRun(k, c, trees, reading, RunAction(k, trees, w, file, a), file, next)
    case Group(test, body, rest, next) =>
      var a := Ask(k, w, test);
      && CalmAsk(c, w, test)
      && if a.0 then
        var u := Run(k, trees, a.1, file, body);
        && CalmRun(k, c, trees, reading, a.1, file, body) && CalmPassOver(k, c, u, rest)
        && CalmRun(k, c, trees, reading, PassOver(k, u, rest), file, next)
      else
        var u := Peek(k, a.1, body);
        && CalmPeek(k, c, a.1, body) && CalmRest(k, c, trees, reading, u, file, rest)
        && CalmRun(k, c, trees, reading, RunRest(k, trees, u, file, rest), file, next)
  }

  ghost predicate CalmRest<S>(k: Kit<S>, c: Manners<S>, trees: string -> Items, reading: seq<nat>, w: World<S>,
                              file: nat, r: Rest)
    requires Sound(w) && file < |w.entries|
    decreases Unsearched(w), r, 0
  {
    match r
    case Closed(_) => true
    case Otherwise(_, body, _) => CalmRun(k, c, trees, reading, w, file, body)
    case ElseIf(text, _, body, rest) =>
      var a := Ask(k, w, Expression(text));
      && CalmAsk(c, w, Expression(text))
      && if a.0 then
        && CalmRun(k, c, trees, reading, a.1, file, body)
        && CalmPassOver(k, c, Run(k, trees, a.1, file, body), rest)
      else
        && CalmPeek(k, c, a.1, body)
        && CalmRest(k, c, trees, reading, Peek(k, a.1, body), file, rest)
  }

  ghost predicate CalmAction<S>(k: Kit<S>, c: Manners<S>, trees: string -> Items, reading: seq<nat>, w: World<S>,
                                file: nat, a: Action)
    requires Sound(w) && file < |w.entries|
    decreases Unsearched(w), a, 0
  {
    match a
    case Undef(name) => name == "" || w.aborted || c.clean(w.root, name, w.env)
    case Include(text, values) =>
      var n := ReadName(k, w, file, text, values);
      var found := Find(k, n.0, file, n.1);
      CalmExpand(k, c, w, text, values) && (found.1.Some? ==>
        var entry := found.1.value;
        var u := Enter(k, found.0, file, entry);
        && c.includable(reading, entry, found.0.trace, found.0.env)
        && (entry !in w.searched ==>
              (EnterShrinks(k, found.0, file, entry);
               CalmRun(k, c, trees, reading + [entry], u, entry, trees(u.entries[entry].file)))))
    case _ => true
  }

  // ---------------------------------------------------------------- the two runs

  lemma {:induction false} AskAlike<S, T>(k: Kit<S>, m: Kit<T>, sim: iset<Stage<S, T>>, c: Manners<S>,
                                          reading: seq<nat>, file: nat, w: World<S>, v: World<T>, t: Test)
    requires Simulates(k, m, sim, c) && Sound(w) && Sound(v) && Alike(sim, reading, w, v) && CalmAsk(c, w, t)
    requires Top(reading, file) && reading[0] == w.root
    ensures Alike(sim, reading, Ask(k, w, t).1, v) && Ask(k, w, t).0 == Holds(m, v, t)
  {
    assert !w.aborted ==> AtFile(Stage(reading, w.searched, w.trace, w.env, v.env), w.root, file);
  }

  lemma {:induction false} PeekAlike<S, T>(k: Kit<S>, m: Kit<T>, sim: iset<Stage<S, T>>, c: Manners<S>,
                                           reading: seq<nat>, file: nat, w: World<S>, v: World<T>, t: Items)
    requires Simulates(k, m, sim, c) && Sound(w) && Sound(v) && Alike(sim, reading, w, v) && CalmPeek(k, c, w, t)
    requires Top(reading, file) && reading[0] == w.root
    ensures Alike(sim, reading, Peek(k, w, t), v)
    decreases t
  {
    match t {
      case Nil =>
      case Leaf(_, next) => PeekAlike(k, m, sim, c, reading, file, w, v, next);
      case Group(_, body, rest, next) =>
        PeekAlike(k, m, sim, c, reading, file, w, v, body);
        PeekRestAlike(k, m, sim, c, reading, file, Peek(k, w, body), v, rest);
        PeekAlike(k, m, sim, c, reading, file, PeekRest(k, Peek(k, w, body), rest), v, next);
    }
  }

  lemma {:induction false} PeekRestAlike<S, T>(k: Kit<S>, m: Kit<T>, sim: iset<Stage<S, T>>, c: Manners<S>,
                                               reading: seq<nat>, file: nat, w: World<S>, v: World<T>, r: Rest)
    requires Simulates(k, m, sim, c) && Sound(w) && Sound(v) && Alike(sim, reading, w, v) && CalmPeekRest(k, c, w, r)
    requires Top(reading, file) && reading[0] == w.root
    ensures Alike(sim, reading, PeekRest(k, w, r), v)
    decreases r
  {
    match r {
      case Closed(_) =>
      case Otherwise(_, body, _) => PeekAlike(k, m, sim, c, reading, file, w, v, body);
      case ElseIf(text, _, body, rest) =>
        var u := Ask(k, w, Expression(text)).1;
        AskAlike(k, m, sim, c, reading, file, w, v, Expression(text));
        PeekAlike(k, m, sim, c, reading, file, u, v, body);
        PeekRestAlike(k, m, sim, c, reading, file, Peek(k, u, body), v, rest);
    }
  }

  lemma {:induction false} PassOverAlike<S, T>(k: Kit<S>, m: Kit<T>, sim: iset<Stage<S, T>>, c: Manners<S>,
                                               reading: seq<nat>, file: nat, w: World<S>, v: World<T>, r: Rest)
    requires Simulates(k, m, sim, c) && Sound(w) && Sound(v) && Alike(sim, reading, w, v) && CalmPassOver(k, c, w, r)
    requires Top(reading, file) && reading[0] == w.root
    ensures Alike(sim, reading, PassOver(k, w, r), v)
  {
    match r {
      case Closed(_) =>
      case Otherwise(_, body, _) => PeekAlike(k, m, sim, c, reading, file, w, v, body);
      case ElseIf(_, _, body, rest) =>
        PeekAlike(k, m, sim, c, reading, file, w, v, body);
        PeekRestAlike(k, m, sim, c, reading, file, Peek(k, w, body), v, rest);
    }
  }

  /** On a calm run skipping and testing make no difference: the same is recorded as in the meaning. */
  lemma {:induction false} RunAlike<S, T>(k: Kit<S>, m: Kit<T>, sim: iset<Stage<S, T>>, c: Manners<S>,
                                          trees: string -> Items, reading: seq<nat>, w: World<S>, v: World<T>,
                                          file: nat, t: Items)
    requires Simulates(k, m, sim, c) && Sound(w) && Sound(v) && Alike(sim, reading, w, v) && file < |w.entries|
    requires Top(reading, file) && reading[0] == w.root && CalmRun(k, c, trees, reading, w, file, t)
    ensures Alike(sim, reading, Run(k, trees, w, file, t), Meaning(m, trees, v, file, t))
    decreases Unsearched(w), t, 1
  {
    match t {
      case Nil =>
      case Leaf(a, next) =>
        ActionAlike(k, m, sim, c, trees, reading, w, v, file, a);
        var u, n := RunAction(k, trees, w, file, a), ActionMeaning(m, trees, v, file, a);
        RunAlike(k, m, sim, c, trees, reading, u, n, file, next);
      case Group(test, body, rest, next) =>
        var u, n := GroupAlike(k, m, sim, c, trees, reading, w, v, file, t);
        RunAlike(k, m, sim, c, trees, reading, u, n, file, next);
    }
  }

  lemma {:induction false} GroupAlike<S, T>(k: Kit<S>, m: Kit<T>, sim: iset<Stage<S, T>>, c: Manners<S>,
                                            trees: string -> Items, reading: seq<nat>, w: World<S>, v: World<T>,
                                            file: nat, t: Items)
    returns (u: World<S>, n: World<T>)
    requires Simulates(k, m, sim, c) && Sound(w) && Sound(v) && Alike(sim, reading, w, v) && file < |w.entries|
    requires Top(reading, file) && reading[0] == w.root && CalmRun(k, c, trees, reading, w, file, t) && t.Group?
    ensures Sound(u) && Grows(w, u) && Sound(n) && Grows(v, n) && Alike(sim, reading, u, n)
    ensures Run(k, trees, w, file, t) == Run(k, trees, u, file, t.next)
    ensures Meaning(m, trees, v, file, t) == Meaning(m, trees, n, file, t.next)
    ensures CalmRun(k, c, trees, reading, u, file, t.next)
    decreases Unsearched(w), t, 0
  {
    var a := Ask(k, w, t.test);
    AskAlike(k, m, sim, c, reading, file, w, v, t.test);
    if a.0 {
      var x := Run(k, trees, a.1, file, t.body);
      n := Meaning(m, trees, v, file, t.body);
      RunAlike(k, m, sim, c, trees, reading, a.1, v, file, t.body);
      PassOverAlike(k, m, sim, c, reading, file, x, n, t.rest);
      u := PassOver(k, x, t.rest);
    } else {
      var x := Peek(k, a.1, t.body);
      PeekAlike(k, m, sim, c, reading, file, a.1, v, t.body);
      RestAlike(k, m, sim, c, trees, reading, x, v, file, t.rest);
      u, n := RunRest(k, trees, x, file, t.rest), RestMeaning(m, trees, v, file, t.rest);
    }
  }

  lemma {:induction false} RestAlike<S, T>(k: Kit<S>, m: Kit<T>, sim: iset<Stage<S, T>>, c: Manners<S>,
                                           trees: string -> Items, reading: seq<nat>, w: World<S>, v: World<T>,
                                           file: nat, r: Rest)
    requires Simulates(k, m, sim, c) && Sound(w) && Sound(v) && Alike(sim, reading, w, v) && file < |w.entries|
    requires Top(reading, file) && reading[0] == w.root && CalmRest(k, c, trees, reading, w, file, r)
    ensures Alike(sim, reading, RunRest(k, trees, w, file, r), RestMeaning(m, trees, v, file, r))
    decreases Unsearched(w), r, 0
  {
    match r {
      case Closed(_) =>
      case Otherwise(_, body, _) => RunAlike(k, m, sim, c, trees, reading, w, v, file, body);
      case ElseIf(text, _, body, rest) =>
        var a := Ask(k, w, Expression(text));
        AskAlike(k, m, sim, c, reading, file, w, v, Expression(text));
        if a.0 {
          RunAlike(k, m, sim, c, trees, reading, a.1, v, file, body);
          var u, n := Run(k, trees, a.1, file, body), Meaning(m, trees, v, file, body);
          PassOverAlike(k, m, sim, c, reading, file, u, n, rest);
        } else {
          PeekAlike(k, m, sim, c, reading, file, a.1, v, body);
          RestAlike(k, m, sim, c, trees, reading, Peek(k, a.1, body), v, file, rest);
        }
    }
  }

  lemma {:induction false} ActionAlike<S, T>(k: Kit<S>, m: Kit<T>, sim: iset<Stage<S, T>>, c: Manners<S>,
                                             trees: string -> Items, reading: seq<nat>, w: World<S>, v: World<T>,
                                             file: nat, a: Action)
    requires Simulates(k, m, sim, c) && Sound(w) && Sound(v) && Alike(sim, reading, w, v) && file < |w.entries|
    requires Top(reading, file) && reading[0] == w.root && CalmAction(k, c, trees, reading, w, file, a)
    ensures Alike(sim, reading, RunAction(k, trees, w, file, a), ActionMeaning(m, trees, v, file, a))
    decreases Unsearched(w), a, 0
  {
    assert !w.aborted ==> AtFile(Stage(reading, w.searched, w.trace, w.env, v.env), w.root, file);
    if a.Include? {
      var x, y := ReadName(k, w, file, a.rest, a.values), NameMeaning(m, v, file, a.rest, a.values);
      NameAlike(k, m, sim, c, reading, w, v, file, a.rest, a.values);
      var found, there := Find(k, x.0, file, x.1), Find(m, y.0, file, y.1);
      FoundAlike(k, m, sim, c, reading, x.0, y.0, file, x.1);
      if found.1.Some? {
        var entry := found.1.value;
        if entry in w.searched {
          SeenAgainAlike(k, m, sim, c, reading, found.0, there.0, file, entry);
        } else {
          var u, n := Enter(k, found.0, file, entry), Enter(m, there.0, file, entry);
          EnterAlike(k, m, sim, c, reading, found.0, there.0, file, entry);
          EnterShrinks(k, found.0, file, entry);
          RunAlike(k, m, sim, c, trees, reading + [entry], u, n, entry, trees(u.entries[entry].file));
          FinishAlike(k, m, sim, c, reading, Run(k, trees, u, entry, trees(u.entries[entry].file)),
                      Meaning(m, trees, n, entry, trees(n.entries[entry].file)), entry);
        }
      }
    }
  }

  lemma {:induction false} FoundAlike<S, T>(k: Kit<S>, m: Kit<T>, sim: iset<Stage<S, T>>, c: Manners<S>,
                                            reading: seq<nat>, w: World<S>, v: World<T>, file: nat,
                                            name: Option<(string, bool)>)
    requires Simulates(k, m, sim, c) && Sound(w) && Sound(v) && Alike(sim, reading, w, v) && file < |w.entries|
    ensures var found, there := Find(k, w, file, name), Find(m, v, file, name);
      found.1 == there.1 && Alike(sim, reading, found.0, there.0)
  {
    if name.Some? { CachedAlike(w, v, name.value.0, 0); }
  }

  lemma {:induction false} NameAlike<S, T>(k: Kit<S>, m: Kit<T>, sim: iset<Stage<S, T>>, c: Manners<S>,
                                           reading: seq<nat>, w: World<S>, v: World<T>, file: nat, text: CString,
                                           values: seq<CString>)
    requires Simulates(k, m, sim, c) && Sound(w) && Sound(v) && Alike(sim, reading, w, v)
    requires Top(reading, file) && reading[0] == w.root && CalmExpand(k, c, w, text, values)
    ensures var x, y := ReadName(k, w, file, text, values), NameMeaning(m, v, file, text, values);
      x.1 == y.1 && Alike(sim, reading, x.0, y.0)
  {
    ExpandAlike(k, m, sim, c, reading, file, w, v, text, values);
  }

  lemma {:induction false} ExpandAlike<S, T>(k: Kit<S>, m: Kit<T>, sim: iset<Stage<S, T>>, c: Manners<S>,
                                             reading: seq<nat>, file: nat, w: World<S>, v: World<T>, text: CString,
                                             values: seq<CString>)
    requires Simulates(k, m, sim, c) && Sound(w) && Sound(v) && Alike(sim, reading, w, v)
    requires Top(reading, file) && reading[0] == w.root && CalmExpand(k, c, w, text, values)
    ensures var e := Expand(k, w, text, values);
      Alike(sim, reading, e.w, v) && (e.text, e.soft) == Replaced(m, v, text, values)
    decreases |values|
  {
    var a := Ask(k, w, Present(text));
    AskAlike(k, m, sim, c, reading, file, w, v, Present(text));
    if a.0 && values != [] { ExpandAlike(k, m, sim, c, reading, file, a.1, v, values[0], values[1..]); }
  }

  lemma {:induction false} CachedAlike<S, T>(w: World<S>, v: World<T>, name: string, from: nat)
    requires v.entries == w.entries && v.soft == w.soft && from <= |w.entries|
    ensures FirstCached(w, name, from) == FirstCached(v, name, from)
    decreases |w.entries| - from
  {
    if from < |w.entries| { CachedAlike(w, v, name, from + 1); }
  }

  lemma {:induction false} SeenAgainAlike<S, T>(k: Kit<S>, m: Kit<T>, sim: iset<Stage<S, T>>, c: Manners<S>,
                                                reading: seq<nat>, w: World<S>, v: World<T>, file: nat, entry: nat)
    requires Simulates(k, m, sim, c) && Sound(w) && Sound(v) && !w.aborted && entry < |w.entries|
    requires Alike(sim, reading, w, v) && Top(reading, file) && reading[0] == w.root
    requires c.includable(reading, entry, w.trace, w.env)
    requires entry in w.searched
    ensures Alike(sim, reading, Enter(k, w, file, entry), Enter(m, v, file, entry))
  {
    var p := Stage(reading, w.searched, w.trace, w.env, v.env);
    assert AtFile(p, w.root, file) && entry in p.searched;
  }

  lemma {:induction false} EnterAlike<S, T>(k: Kit<S>, m: Kit<T>, sim: iset<Stage<S, T>>, c: Manners<S>,
                                            reading: seq<nat>, w: World<S>, v: World<T>, file: nat, entry: nat)
    requires Simulates(k, m, sim, c) && Sound(w) && Sound(v) && !w.aborted && entry < |w.entries|
    requires Alike(sim, reading, w, v) && Top(reading, file) && reading[0] == w.root
    requires c.includable(reading, entry, w.trace, w.env)
    requires entry !in w.searched
    ensures Alike(sim, reading + [entry], Enter(k, w, file, entry), Enter(m, v, file, entry))
  {
    var p := Stage(reading, w.searched, w.trace, w.env, v.env);
    assert AtFile(p, w.root, file) && entry !in p.searched;
  }

  lemma {:induction false} FinishAlike<S, T>(k: Kit<S>, m: Kit<T>, sim: iset<Stage<S, T>>, c: Manners<S>,
                                             reading: seq<nat>, w: World<S>, v: World<T>, entry: nat)
    requires Simulates(k, m, sim, c) && Sound(w) && Sound(v) && Alike(sim, reading + [entry], w, v)
    requires (reading + [entry])[0] == w.root
    ensures Alike(sim, reading, Finish(k, w, entry), Finish(m, v, entry))
  {
    var p := Stage(reading + [entry], w.searched, w.trace, w.env, v.env);
    assert AtFile(p, w.root, entry) && p.reading[..|p.reading| - 1] == reading;
  }

  /** Reading a well-nested file on a calm run records the definitions, undefinitions and inclusions of exactly
      the first branch of each group whose test holds, in order, and leaves environments that belong
      together. */
  lemma {:induction false} FileMeaning<S, T>(k: Kit<S>, m: Kit<T>, sim: iset<Stage<S, T>>, c: Manners<S>,
                                             trees: string -> Items, w: World<S>, v: World<T>, file: nat)
    requires Simulates(k, m, sim, c) && WellNested(k, trees) && Sound(w) && Sound(v) && file < |w.entries|
    requires w.root == file && Alike(sim, [file], w, v)
    requires CalmRun(k, c, trees, [file], w, file, trees(w.entries[file].file))
    ensures var path := w.entries[file].file;
      Alike(sim, [], FindIncludes(k, w, file, k.contents(path), false).w,
            Finish(m, Meaning(m, trees, v, file, trees(path)), file))
  {
    var tree := trees(w.entries[file].file);
    ReadsFile(k, trees, w, file);
    RunAlike(k, m, sim, c, trees, [file], w, v, file, tree);
    assert [] + [file] == [file];
    FinishAlike(k, m, sim, c, [], Run(k, trees, w, file, tree), Meaning(m, trees, v, file, tree), file);
  }

  // The plainest manners: a test is quiet if it changes nothing at all.
  ghost function Unmoved<S>(k: Kit<S>): Manners<S> {
    Manners((root, q, s) => k.test(root, q, s).1 == s, (_, _, _) => true, (_, _, _, _) => true)
  }

  /** Where every test evaluated on the run changes nothing at all, the result is the meaning to the letter,
      unless the process ends for want of slots, after which only the environment is out of account. */
  lemma {:induction false} QuietTestsGiveTheMeaning<S(!new)>(k: Kit<S>, trees: string -> Items, w: World<S>, file: nat)
    requires WellNested(k, trees) && Sound(w) && FlagsInUse(w) && file < |w.entries| && w.root == file
    requires CalmRun(k, Unmoved(k), trees, [file], w, file, trees(w.entries[file].file))
    ensures var path := w.entries[file].file;
      var r := FindIncludes(k, w, file, k.contents(path), false).w;
      var e := Finish(k, Meaning(k, trees, w, file, trees(path)), file);
      r == e.(env := r.env) && (!r.aborted ==> r == e)
  {
    var sim := iset p: Stage<S, S> | p.s == p.t;
    assert Simulates(k, k, sim, Unmoved(k));
    FileMeaning(k, k, sim, Unmoved(k), trees, w, w, file);
  }

  // ---------------------------------------------------------------- read once

  // Each entry was opened at most once, and its SEARCHED flag is set if it was.
  ghost predicate OpenedOnce<S>(w: World<S>) {
    && (forall i :: 0 <= i < |w.trace| && w.trace[i].Opened? ==> w.trace[i].entry in w.searched)
    && forall i, j :: 0 <= i < j < |w.trace| && w.trace[i].Opened? ==> w.trace[i] != w.trace[j]
  }

  lemma {:induction false} LogOnce<S>(w: World<S>, e: Event, env: S)
    requires OpenedOnce(w) && !e.Opened?
    ensures OpenedOnce(Log(w, e, env))
  {
  }

  lemma {:induction false} EnterOnce<S>(k: Kit<S>, w: World<S>, file: nat, entry: nat)
    requires OpenedOnce(w) && Sound(w) && !w.aborted && entry < |w.entries|
    ensures OpenedOnce(Enter(k, w, file, entry))
  {
    LogOnce(w, Included(file, entry), k.includedBy(file, entry, w.env));
  }

  /** Whatever the lines are, well-nested or not, and even when headers include one another, no
      inclist entry is opened twice. */
  lemma {:induction false} ReadOnce<S>(k: Kit<S>, w: World<S>, file: nat, ls: Lines, nested: bool)
    requires Sound(w) && file < |w.entries| && OpenedOnce(w)
    ensures OpenedOnce(FindIncludes(k, w, file, ls, nested).w)
    decreases Unsearched(w), Count(ls), 3
  {
    match ls {
      case End => LogOnce(w, Finished(file), k.finish(file, w.env));
      case Next(If(t), rest) =>
        var a := Ask(k, w, t);
        var r := if a.0 then Taken(k, a.1, file, rest) else Skipped(k, a.1, file, rest);
        if a.0 { ReadOnce(k, a.1, file, rest, true); } else { SkippedReadOnce(k, a.1, file, rest); }
        ReadOnce(k, r.w, file, r.rest, nested);
      case Next(Elif(_, raw), rest) => if !nested { UnbalancedReadOnce(k, w, file, rest, raw); }
      case Next(Else(raw), rest) => if !nested { UnbalancedReadOnce(k, w, file, rest, raw); }
      case Next(Endif(raw), rest) =>
        if !nested {
          LogOnce(w, Defined(file, raw), k.define(file, raw, w.env));
          ReadOnce(k, DefineIn(k, w, file, raw), file, rest, nested);
        }
      case Next(Do(a), rest) =>
        PerformOnce(k, w, file, a);
        ReadOnce(k, Perform(k, w, file, a), file, rest, nested);
    }
  }

  lemma {:induction false} UnbalancedReadOnce<S>(k: Kit<S>, w: World<S>, file: nat, ls: Lines, raw: string)
    requires Sound(w) && file < |w.entries| && OpenedOnce(w)
    ensures OpenedOnce(Unbalanced(k, w, file, ls, raw).w)
    decreases Unsearched(w), Count(ls), 4
  {
    var r := Gobble(k, w, ls);
    LogOnce(r.w, Defined(file, raw), k.define(file, raw, r.w.env));
    ReadOnce(k, DefineIn(k, r.w, file, raw), file, r.rest, false);
  }

  lemma {:induction false} SkippedReadOnce<S>(k: Kit<S>, w: World<S>, file: nat, ls: Lines)
    requires Sound(w) && file < |w.entries| && OpenedOnce(w)
    ensures OpenedOnce(Skipped(k, w, file, ls).w)
    decreases Unsearched(w), Count(ls), 4
  {
    var r := Gobble(k, w, ls);
    match r.end {
      case AtElse => ReadOnce(k, r.w, file, r.rest, true);
      case AtElif(holds) =>
        if holds { ReadOnce(k, r.w, file, r.rest, true); } else { SkippedReadOnce(k, r.w, file, r.rest); }
      case _ =>
    }
  }

  lemma {:induction false} PerformOnce<S>(k: Kit<S>, w: World<S>, file: nat, a: Action)
    requires Sound(w) && file < |w.entries| && OpenedOnce(w)
    ensures OpenedOnce(Perform(k, w, file, a))
    decreases Unsearched(w), 0, 2
  {
    match a {
      case Define(text) => LogOnce(w, Defined(file, text), k.define(file, text, w.env));
      case Undef(name) => LogOnce(w, Undefined(name), k.undef(w.root, name, w.env));
      case Include(text, values) =>
        var n := ReadName(k, w, file, text, values);
        var found := Find(k, n.0, file, n.1);
        if found.1.Some? {
          var entry := found.1.value;
          var u := Enter(k, found.0, file, entry);
          EnterOnce(k, found.0, file, entry);
          if entry !in w.searched {
            EnterShrinks(k, found.0, file, entry);
            ReadOnce(k, u, entry, k.contents(u.entries[entry].file), false);
          }
        }
      case Ignored =>
    }
  }
}
