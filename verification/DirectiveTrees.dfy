/** The nested form of a directive stream, and the proof that the flat scan of find_includes and
    gobble means the same: the first branch whose test holds is read, the others are skipped. */
module DirectiveTrees {
  import opened Names
  import opened Directives

  datatype Items =
    | Nil
    | Leaf(act: Action, next: Items)
    | Group(test: Test, body: Items, rest: Rest, next: Items)

  // What follows the first branch of a group, down to its #endif.
  datatype Rest =
    | Closed(raw: string)
    | Otherwise(raw: string, body: Items, endRaw: string)
    | ElseIf(text: string, raw: string, body: Items, rest: Rest)

  // The lines of t, followed by tail.
  ghost function Flatten(t: Items, tail: Lines): Lines {
    match t
    case Nil => tail
    case Leaf(a, next) => Next(Do(a), Flatten(next, tail))
    case Group(test, body, rest, next) => Next(If(test), Flatten(body, FlattenRest(rest, Flatten(next, tail))))
  }

  ghost function FlattenRest(r: Rest, tail: Lines): Lines {
    match r
    case Closed(raw) => Next(Endif(raw), tail)
    case Otherwise(raw, body, endRaw) => Next(Else(raw), Flatten(body, Next(Endif(endRaw), tail)))
    case ElseIf(text, raw, body, rest) => Next(Elif(text, raw), Flatten(body, FlattenRest(rest, tail)))
  }

  // ---------------------------------------------------------------- the nested meaning

  // Skipping performs nothing, but evaluates the test of every #elif passed over.
  ghost function Peek<S>(k: Kit<S>, w: World<S>, t: Items): (v: World<S>)
    requires Sound(w)
    ensures Sound(v) && OnlyEnv(w, v)
    decreases t
  {
    match t
    case Nil => w
    case Leaf(_, next) => Peek(k, w, next)
    case Group(_, body, rest, next) => Peek(k, PeekRest(k, Peek(k, w, body), rest), next)
  }

  ghost function PeekRest<S>(k: Kit<S>, w: World<S>, r: Rest): (v: World<S>)
    requires Sound(w)
    ensures Sound(v) && OnlyEnv(w, v)
    decreases r
  {
    match r
    case Closed(_) => w
    case Otherwise(_, body, _) => Peek(k, w, body)
    case ElseIf(text, _, body, rest) => PeekRest(k, Peek(k, Ask(k, w, Expression(text)).1, body), rest)
  }

  // Behind the branch that was taken; the first #elif there is the one test not evaluated.
  ghost function PassOver<S>(k: Kit<S>, w: World<S>, r: Rest): (v: World<S>)
    requires Sound(w)
    ensures Sound(v) && OnlyEnv(w, v)
  {
    match r
    case Closed(_) => w
    case Otherwise(_, body, _) => Peek(k, w, body)
    case ElseIf(_, _, body, rest) => PeekRest(k, Peek(k, w, body), rest)
  }

  // What reading a file directive by directive does: in each group the first branch whose test
  // holds is read. trees gives the nested form of every file.
  ghost function Run<S>(k: Kit<S>, trees: string -> Items, w: World<S>, file: nat, t: Items): (v: World<S>)
    requires Sound(w) && file < |w.entries|
    ensures Sound(v) && Grows(w, v)
    decreases Unsearched(w), t, 0
  {
    match t
    case Nil => w
    case Leaf(a, next) => Run(k, trees, RunAction(k, trees, w, file, a), file, next)
    case Group(test, body, rest, next) =>
      var a := Ask(k, w, test);
      var v := if a.0 then PassOver(k, Run(k, trees, a.1, file, body), rest)
               else RunRest(k, trees, Peek(k, a.1, body), file, rest);
      Run(k, trees, v, file, next)
  }

  // No branch has been taken so far.
  ghost function RunRest<S>(k: Kit<S>, trees: string -> Items, w: World<S>, file: nat, r: Rest): (v: World<S>)
    requires Sound(w) && file < |w.entries|
    ensures Sound(v) && Grows(w, v)
    decreases Unsearched(w), r, 0
  {
    match r
    case Closed(_) => w
    case Otherwise(_, body, _) => Run(k, trees, w, file, body)
    case ElseIf(text, _, body, rest) =>
      var a := Ask(k, w, Expression(text));
      if a.0 then PassOver(k, Run(k, trees, a.1, file, body), rest)
      else RunRest(k, trees, Peek(k, a.1, body), file, rest)
  }

  ghost function RunAction<S>(k: Kit<S>, trees: string -> Items, w: World<S>, file: nat, a: Action): (v: World<S>)
    requires Sound(w) && file < |w.entries|
    ensures Sound(v) && Grows(w, v)
    decreases Unsearched(w), a, 0
  {
    match a
    case Define(text) => DefineIn(k, w, file, text)
    case Undef(name) => UndefIn(k, w, name)
    case Include(text, values) =>
      var n := ReadName(k, w, file, text, values);
      var found := Find(k, n.0, file, n.1);
      if found.1.None? then found.0
      else
        var entry := found.1.value;
        var u := Enter(k, found.0, file, entry);
        if entry in w.searched then u
        else
          EnterShrinks(k, found.0, file, entry);
          Finish(k, Run(k, trees, u, entry, trees(u.entries[entry].file)), entry)
    case Ignored => w
  }

  // ---------------------------------------------------------------- gobble

  /** gobble runs over a whole balanced stretch of lines and goes on behind it. */
  lemma {:induction false} GobbleOver<S>(k: Kit<S>, w: World<S>, t: Items, tail: Lines)
    requires Sound(w)
    ensures Gobble(k, w, Flatten(t, tail)) == Gobble(k, Peek(k, w, t), tail)
    decreases t
  {
    match t {
      case Nil =>
      case Leaf(a, next) => GobbleOver(k, w, next, tail);
      case Group(test, body, rest, next) =>
        GobbleOver(k, w, body, FlattenRest(rest, Flatten(next, tail)));
        GobbleOverRest(k, Peek(k, w, body), rest, Flatten(next, tail));
        GobbleOver(k, PeekRest(k, Peek(k, w, body), rest), next, tail);
    }
  }

  /** From the terminator of any branch on, gobble and its loop run exactly to the group's #endif. */
  lemma {:induction false} GobbleOverRest<S>(k: Kit<S>, w: World<S>, r: Rest, tail: Lines)
    requires Sound(w)
    ensures var s := GobbleRest(k, Gobble(k, w, FlattenRest(r, tail)));
      s.w == PeekRest(k, w, r) && s.rest == tail
    decreases r
  {
    match r {
      case Closed(raw) =>
      case Otherwise(raw, body, endRaw) => GobbleOver(k, w, body, Next(Endif(endRaw), tail));
      case ElseIf(text, raw, body, rest) =>
        var v := Ask(k, w, Expression(text)).1;
        GobbleOver(k, v, body, FlattenRest(rest, tail));
        GobbleOverRest(k, Peek(k, v, body), rest, tail);
    }
  }

  // ---------------------------------------------------------------- find_includes

  // Every file is a well-nested stream, trees giving its form.
  ghost predicate WellNested<S>(k: Kit<S>, trees: string -> Items) {
    forall path :: k.contents(path) == Flatten(trees(path), End)
  }

  // Behind a branch that was read, find_includes has stopped at the terminator without acting on
  // it; the loop under doif then runs to the group's #endif.
  lemma {:induction false} PassesOver<S>(k: Kit<S>, w: World<S>, file: nat, r: Rest, tail: Lines)
    requires Sound(w) && file < |w.entries|
    ensures var s := GobbleRest(k, FindIncludes(k, w, file, FlattenRest(r, tail), true));
      s.w == PassOver(k, w, r) && s.rest == tail
  {
    match r {
      case Closed(raw) =>
      case Otherwise(raw, body, endRaw) => GobbleOver(k, w, body, Next(Endif(endRaw), tail));
      case ElseIf(text, raw, body, rest) =>
        GobbleOver(k, w, body, FlattenRest(rest, tail));
        GobbleOverRest(k, Peek(k, w, body), rest, tail);
    }
  }

  /** find_includes on a balanced stretch of lines does what its nested form says, and goes on
      behind it. */
  lemma {:induction false} Reads<S>(k: Kit<S>, trees: string -> Items, w: World<S>, file: nat,
                                    t: Items, tail: Lines, nested: bool)
    requires WellNested(k, trees) && Sound(w) && file < |w.entries|
    ensures FindIncludes(k, w, file, Flatten(t, tail), nested) ==
      FindIncludes(k, Run(k, trees, w, file, t), file, tail, nested)
    decreases Unsearched(w), t, 1
  {
    match t {
      case Nil =>
      case Leaf(a, next) => ReadsLeaf(k, trees, w, file, t, tail, nested);
      case Group(test, body, rest, next) =>
        var v := ReadsGroup(k, trees, w, file, t, Flatten(next, tail), nested);
        Reads(k, trees, v, file, next, tail, nested);
    }
  }

  lemma {:induction false} ReadsLeaf<S>(k: Kit<S>, trees: string -> Items, w: World<S>, file: nat,
                                        t: Items, tail: Lines, nested: bool)
    requires WellNested(k, trees) && Sound(w) && file < |w.entries| && t.Leaf?
    ensures FindIncludes(k, w, file, Flatten(t, tail), nested) ==
      FindIncludes(k, Run(k, trees, w, file, t), file, tail, nested)
    decreases Unsearched(w), t, 0
  {
    ReadsAction(k, trees, w, file, t.act);
    Reads(k, trees, RunAction(k, trees, w, file, t.act), file, t.next, tail, nested);
    LeafUnfolds(k, trees, w, file, t, tail, nested);
  }

  lemma {:induction false} LeafUnfolds<S>(k: Kit<S>, trees: string -> Items, w: World<S>, file: nat,
                                          t: Items, tail: Lines, nested: bool)
    requires Sound(w) && file < |w.entries| && t.Leaf?
    ensures FindIncludes(k, w, file, Flatten(t, tail), nested) ==
      FindIncludes(k, Perform(k, w, file, t.act), file, Flatten(t.next, tail), nested)
    ensures Run(k, trees, w, file, t) == Run(k, trees, RunAction(k, trees, w, file, t.act), file, t.next)
  {
  }

  // A group at the cursor: whichever way its test goes, find_includes goes on behind its #endif.
  lemma {:induction false} ReadsGroup<S>(k: Kit<S>, trees: string -> Items, w: World<S>, file: nat,
                                         t: Items, after: Lines, nested: bool) returns (v: World<S>)
    requires WellNested(k, trees) && Sound(w) && file < |w.entries| && t.Group?
    ensures Sound(v) && Grows(w, v) && Run(k, trees, w, file, t) == Run(k, trees, v, file, t.next)
    ensures FindIncludes(k, w, file, Next(If(t.test), Flatten(t.body, FlattenRest(t.rest, after))), nested) ==
      FindIncludes(k, v, file, after, nested)
    decreases Unsearched(w), t, 0
  {
    var a := Ask(k, w, t.test);
    if a.0 {
      var u := Run(k, trees, a.1, file, t.body);
      v := PassOver(k, u, t.rest);
      Reads(k, trees, a.1, file, t.body, FlattenRest(t.rest, after), true);
      PassesOver(k, u, file, t.rest, after);
    } else {
      v := RunRest(k, trees, Peek(k, a.1, t.body), file, t.rest);
      SkipsTo(k, trees, a.1, file, t.body, t.rest, after);
    }
  }

  /** After a test that fails, the first branch whose test holds is read, or else the #else one. */
  lemma {:induction false} SkipsTo<S>(k: Kit<S>, trees: string -> Items, w: World<S>, file: nat,
                                      body: Items, r: Rest, tail: Lines)
    requires WellNested(k, trees) && Sound(w) && file < |w.entries|
    ensures var s := Skipped(k, w, file, Flatten(body, FlattenRest(r, tail)));
      s.w == RunRest(k, trees, Peek(k, w, body), file, r) && s.rest == tail
    decreases Unsearched(w), r, 1
  {
    var v := Peek(k, w, body);
    SkippedOver(k, w, file, body, r, tail);
    match r {
      case Closed(raw) =>
      case Otherwise(raw, last, endRaw) =>
        Reads(k, trees, v, file, last, Next(Endif(endRaw), tail), true);
      case ElseIf(text, raw, next, rest) =>
        if Ask(k, v, Expression(text)).0 {
          TakesElif(k, trees, v, file, r, tail);
        } else {
          SkipsTo(k, trees, Ask(k, v, Expression(text)).1, file, next, rest, tail);
        }
    }
  }

  // Where the skipped branch ends.
  lemma {:induction false} SkippedOver<S>(k: Kit<S>, w: World<S>, file: nat, body: Items, r: Rest, tail: Lines)
    requires Sound(w) && file < |w.entries|
    ensures var v := Peek(k, w, body);
      Skipped(k, w, file, Flatten(body, FlattenRest(r, tail))) == match r
        case Closed(_) => Stop(v, tail, AtEndif)
        case Otherwise(_, last, endRaw) => FindIncludes(k, v, file, Flatten(last, Next(Endif(endRaw), tail)), true)
        case ElseIf(text, _, next, rest) =>
          var a := Ask(k, v, Expression(text));
          if a.0 then Taken(k, a.1, file, Flatten(next, FlattenRest(rest, tail)))
          else Skipped(k, a.1, file, Flatten(next, FlattenRest(rest, tail)))
  {
    GobbleOver(k, w, body, FlattenRest(r, tail));
  }

  // An #elif whose test holds, after a branch that was skipped.
  lemma {:induction false} TakesElif<S>(k: Kit<S>, trees: string -> Items, w: World<S>, file: nat, r: Rest, tail: Lines)
    requires WellNested(k, trees) && Sound(w) && file < |w.entries| && r.ElseIf? && Ask(k, w, Expression(r.text)).0
    ensures var s := Taken(k, Ask(k, w, Expression(r.text)).1, file, Flatten(r.body, FlattenRest(r.rest, tail)));
      s.w == RunRest(k, trees, w, file, r) && s.rest == tail
    decreases Unsearched(w), r, 0
  {
    var u := Ask(k, w, Expression(r.text)).1;
    Reads(k, trees, u, file, r.body, FlattenRest(r.rest, tail), true);
    PassesOver(k, Run(k, trees, u, file, r.body), file, r.rest, tail);
  }

  // #define, #undef and #include, the last by the same theorem for the file it opens.
  lemma {:induction false} ReadsAction<S>(k: Kit<S>, trees: string -> Items, w: World<S>, file: nat, a: Action)
    requires WellNested(k, trees) && Sound(w) && file < |w.entries|
    ensures Perform(k, w, file, a) == RunAction(k, trees, w, file, a)
    decreases Unsearched(w), a, 0
  {
    if a.Include? {
      var n := ReadName(k, w, file, a.rest, a.values);
      var found := Find(k, n.0, file, n.1);
      if found.1.Some? {
        var entry := found.1.value;
        if entry !in w.searched {
          var u := Enter(k, found.0, file, entry);
          EnterShrinks(k, found.0, file, entry);
          Reads(k, trees, u, entry, trees(u.entries[entry].file), End, false);
        }
      }
    }
  }

  /** Reading a whole well-nested file directive by directive performs, in order, what its nested
      form says, every test being decided in the environment reached at that point; and so, in
      turn, for every file it includes. */
  lemma {:induction false} ReadsFile<S>(k: Kit<S>, trees: string -> Items, w: World<S>, file: nat)
    requires WellNested(k, trees) && Sound(w) && file < |w.entries|
    ensures var path := w.entries[file].file;
      FindIncludes(k, w, file, k.contents(path), false).w == Finish(k, Run(k, trees, w, file, trees(path)), file)
  {
    Reads(k, trees, w, file, trees(w.entries[file].file), End, false);
  }

  // ---------------------------------------------------------------- lines outside any group

  /** An #endif outside any group is recorded as a definition, with the text of the whole line. */
  lemma {:induction false} StrayEndifIsDefined<S>(k: Kit<S>, w: World<S>, file: nat, raw: string, rest: Lines)
    requires Sound(w) && file < |w.entries| && !w.aborted
    ensures FindIncludes(k, w, file, Next(Endif(raw), rest), false) ==
      FindIncludes(k, w.(env := k.define(file, raw, w.env), trace := w.trace + [Defined(file, raw)]), file, rest, false)
  {
    assert DefineIn(k, w, file, raw) == w.(env := k.define(file, raw, w.env), trace := w.trace + [Defined(file, raw)]);
  }

  /** An #else or #elif outside any group skips what follows it up to an #endif, and is then recorded as a
      definition. */
  lemma {:induction false} StrayElseIsDefined<S>(k: Kit<S>, w: World<S>, file: nat, line: Line, raw: string,
                                                 body: Items, endRaw: string, tail: Lines)
    requires Sound(w) && file < |w.entries| && !w.aborted
    requires line == Else(raw) || (line.Elif? && line.raw == raw)
    ensures var env := Peek(k, w, body).env;
      FindIncludes(k, w, file, Next(line, Flatten(body, Next(Endif(endRaw), tail))), false) ==
        FindIncludes(k, w.(env := k.define(file, raw, env), trace := w.trace + [Defined(file, raw)]), file, tail, false)
  {
    GobbleOver(k, w, body, Next(Endif(endRaw), tail));
    assert Gobble(k, Peek(k, w, body), Next(Endif(endRaw), tail)) == Stop(Peek(k, w, body), tail, AtEndif);
    var v := Peek(k, w, body);
    assert DefineIn(k, v, file, raw) == w.(env := k.define(file, raw, v.env), trace := w.trace + [Defined(file, raw)]);
  }

  /** An #undef with a name asks for the undefinition seen from the source; without one it does nothing. */
  lemma {:induction false} NamelessUndefDoesNothing<S>(k: Kit<S>, w: World<S>, file: nat, name: CString)
    requires Sound(w) && file < |w.entries| && !w.aborted
    ensures Perform(k, w, file, Undef(name)) ==
      if name == [] then w else w.(env := k.undef(w.root, name, w.env), trace := w.trace + [Undefined(name)])
  {
    assert name == [] <==> name == "";
  }
}
