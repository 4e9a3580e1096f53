/** remove_dotdot of config/makedepend/include.c: a path is cut into components, the x/.. pairs are
    shifted out of the array of components in place, and the rest is put together again. */
module RemoveDotDot {
  import opened Names
  import opened Paths

  // ---------------------------------------------------------------- text and components

  // A leading slash is copied before the components are cut.
  function Lead(path: string): string {
    if path != [] && path[0] == '/' then "/" else ""
  }

  function SkipSlashes(path: string): (r: string)
    ensures |r| <= |path| && (r != [] ==> r[0] != '/')
  {
    if path != [] && path[0] == '/' then SkipSlashes(path[1..]) else path
  }

  function UpToSlash(path: string): (w: string)
    ensures |w| <= |path| && (path != [] && path[0] != '/' ==> w != [])
  {
    if path != [] && path[0] != '/' then [path[0]] + UpToSlash(path[1..]) else []
  }

  function Split(path: string): (cs: Components)
    ensures cs != []
    decreases |path|
  {
    var p := SkipSlashes(path);
    var w := UpToSlash(p);
    if |w| == |p| then [w] else [w] + Split(p[|w|..])
  }

  function Join(cs: Components): string {
    if cs == [] then "" else if |cs| == 1 then cs[0] else cs[0] + ("/" + Join(cs[1..]))
  }

  predicate EndsInSlash(path: string) {
    path != [] && path[|path| - 1] == '/'
  }

  // The name that issymbolic asks about: the directory is the leading slash or nothing, whatever
  // components precede.
  function IsSymbolic(links: string -> bool, dir: string): string -> bool {
    x => links(dir + (if dir == [] then "" else "/") + x)
  }

  function Simplified(links: string -> bool, path: string): string {
    Lead(path) + Join(Reduce(IsSymbolic(links, Lead(path)), Split(path)))
  }

  lemma {:induction false} UpToSlashStops(w: string, t: string)
    requires '/' !in w && (t == [] || t[0] == '/')
    ensures UpToSlash(w + t) == w
  {
    if w == [] {
      assert w + t == t;
    } else {
      assert (w + t)[1..] == w[1..] + t;
      UpToSlashStops(w[1..], t);
    }
  }

  // Components are cut where they were joined.
  lemma {:induction false} SplitOfWord(w: string, t: string)
    requires IsComponent(w) && (t == [] || t[0] == '/')
    ensures Split(w + t) == if t == [] then [w] else [w] + Split(t)
  {
    UpToSlashStops(w, t);
    assert SkipSlashes(w + t) == w + t && (w + t)[|w|..] == t;
  }

  lemma {:induction false} SplitJoin(cs: Components)
    requires cs != [] && AreComponents(cs)
    ensures Split(Join(cs)) == cs
  {
    assert IsComponent(cs[0]);
    if |cs| == 1 {
      SplitOfWord(cs[0], []);
      assert cs[0] + [] == cs[0];
    } else {
      var rest := Join(cs[1..]);
      SplitOfWord(cs[0], "/" + rest);
      SplitJoin(cs[1..]);
    }
  }

  /** A path is cut at its slashes, any number of which count as one; slashes in front count for nothing. */
  lemma {:induction false} CutAtSlashes(x: string, slashes: string, rest: string)
    requires IsComponent(x) && slashes != [] && rest != [] && rest[0] != '/'
    requires forall c :: c in slashes ==> c == '/'
    ensures Split(slashes + rest) == Split(rest)
    ensures Split(x + (slashes + rest)) == [x] + Split(rest) && Split(x) == [x]
  {
    var t := slashes + rest;
    assert t[0] == slashes[0] && slashes[0] in slashes;
    SplitOfWord(x, t);
    SplitOfWord(x, []);
    assert x + [] == x;
    SlashesAreSkipped(slashes, rest);
    assert SkipSlashes(rest) == rest;
  }

  lemma {:induction false} SlashesAreSkipped(slashes: string, rest: string)
    requires (rest == [] || rest[0] != '/') && forall c :: c in slashes ==> c == '/'
    ensures SkipSlashes(slashes + rest) == rest
  {
    if slashes == [] {
      assert slashes + rest == rest;
    } else {
      assert slashes[0] in slashes && (slashes + rest)[1..] == slashes[1..] + rest;
      assert forall c :: c in slashes[1..] ==> c in slashes;
      SlashesAreSkipped(slashes[1..], rest);
    }
  }

  lemma {:induction false} UpToSlashHasNoSlash(p: string)
    ensures '/' !in UpToSlash(p)
    ensures |UpToSlash(p)| < |p| ==> p[|UpToSlash(p)|] == '/'
    ensures UpToSlash(p) == p[..|UpToSlash(p)|]
  {
    if p != [] && p[0] != '/' { UpToSlashHasNoSlash(p[1..]); }
  }

  lemma {:induction false} SkipSlashesKeepsEnd(p: string)
    requires !EndsInSlash(p)
    ensures !EndsInSlash(SkipSlashes(p)) && (p != [] ==> SkipSlashes(p) != [])
    ensures |SkipSlashes(p)| + |Lead(p)| <= |p|
  {
    if p != [] && p[0] == '/' {
      assert p[1..] != [] && p[1..][|p| - 2] == p[|p| - 1];
      SkipSlashesKeepsEnd(p[1..]);
    }
  }

  // Every path that is not empty and does not end in a slash is cut into real components, which
  // with the leading slash are no longer than the path.
  lemma {:induction false} SplitYieldsComponents(path: string)
    requires path != [] && !EndsInSlash(path)
    ensures AreComponents(Split(path))
    ensures |Lead(path)| + |Join(Split(path))| <= |path|
    decreases |path|
  {
    var p := SkipSlashes(path);
    SkipSlashesKeepsEnd(path);
    var w := UpToSlash(p);
    UpToSlashHasNoSlash(p);
    if |w| < |p| {
      var rest := p[|w|..];
      assert rest[|rest| - 1] == p[|p| - 1];
      assert Lead(rest) == "/";
      SplitYieldsComponents(rest);
      assert ([w] + Split(rest))[1..] == Split(rest);
    }
  }

  // ---------------------------------------------------------------- laws of the whole function

  lemma {:induction false} FoldedAreComponents(symbolic: string -> bool, stack: Components, rest: Components)
    requires AreComponents(stack) && AreComponents(rest)
    ensures AreComponents(Fold(symbolic, stack, rest))
    decreases |rest|
  {
    if rest != [] {
      assert IsComponent(rest[0]);
      FoldedAreComponents(symbolic, Push(symbolic, stack, rest[0]), rest[1..]);
    }
  }

  lemma {:induction false} ReducedAreComponents(symbolic: string -> bool, cs: Components)
    requires AreComponents(cs)
    ensures AreComponents(Reduce(symbolic, cs))
  {
    FoldedAreComponents(symbolic, [], cs);
  }

  lemma {:induction false} ReducedIsShorter(symbolic: string -> bool, cs: Components)
    ensures |Join(Reduce(symbolic, cs))| <= |Join(cs)|
    decreases |cs|
  {
    if Irreducible(symbolic, cs) {
      ReduceIsTheNormalForm(symbolic, cs, cs);
    } else {
      var i :| CancelsAt(symbolic, cs, i);
      CancelKeepsFold(symbolic, [], cs, i);
      ShorterJoin(cs, i);
      ReducedIsShorter(symbolic, Cancelled(cs, i));
    }
  }

  lemma {:induction false} ShorterJoin(cs: Components, i: nat)
    requires i + 1 < |cs|
    ensures |Join(Cancelled(cs, i))| <= |Join(cs)|
    decreases i
  {
    if i == 0 {
      assert Cancelled(cs, 0) == cs[2..] == cs[1..][1..];
    } else {
      assert Cancelled(cs, i)[0] == cs[0] && Cancelled(cs, i)[1..] == Cancelled(cs[1..], i - 1);
      ShorterJoin(cs[1..], i - 1);
    }
  }

  /** The path never grows. */
  lemma {:induction false} NeverLonger(links: string -> bool, path: string)
    requires !EndsInSlash(path)
    ensures |Simplified(links, path)| <= |path|
  {
    if path == [] {
      EmptyPath(links);
    } else {
      SplitYieldsComponents(path);
      ReducedIsShorter(IsSymbolic(links, Lead(path)), Split(path));
    }
  }

  lemma {:induction false} EmptyPath(links: string -> bool)
    ensures Split("") == [""] && Simplified(links, "") == ""
  {
    var symbolic := IsSymbolic(links, "");
    ReduceIsTheNormalForm(symbolic, [""], [""]);
  }

  lemma {:induction false} JoinEnds(cs: Components)
    requires cs != [] && AreComponents(cs)
    ensures Join(cs) != [] && Join(cs)[0] != '/' && Join(cs)[|Join(cs)| - 1] != '/'
  {
    assert IsComponent(cs[0]);
    if |cs| == 1 {
      assert cs[0][|cs[0]| - 1] in cs[0];
    } else {
      JoinEnds(cs[1..]);
    }
  }

  lemma {:induction false} SplitBehindLead(lead: string, cs: Components)
    requires (lead == "" || lead == "/") && AreComponents(cs) && cs != []
    ensures var path := lead + Join(cs);
      path != [] && !EndsInSlash(path) && Lead(path) == lead && Split(path) == cs
  {
    JoinEnds(cs);
    SplitJoin(cs);
    if lead == "" {
      assert "" + Join(cs) == Join(cs);
    } else {
      assert ("/" + Join(cs))[1..] == Join(cs);
    }
  }

  // The components of the result.
  lemma {:induction false} SimplifiedComponents(links: string -> bool, path: string)
    requires path != [] && !EndsInSlash(path)
    ensures var cs := Reduce(IsSymbolic(links, Lead(path)), Split(path));
      var r := Simplified(links, path);
      && Lead(r) == Lead(path)
      && if cs == [] then r == Lead(path) else Split(r) == cs && !EndsInSlash(r)
  {
    var cs := Reduce(IsSymbolic(links, Lead(path)), Split(path));
    SplitYieldsComponents(path);
    ReducedAreComponents(IsSymbolic(links, Lead(path)), Split(path));
    if cs != [] { SplitBehindLead(Lead(path), cs); }
  }

  // Every name is closed by a parent behind it, and none is reported as a link.
  predicate NothingLeft(links: string -> bool, path: string) {
    Balances(IsSymbolic(links, Lead(path)), Split(path), 0)
  }

  /** A second call changes nothing. The exception is an absolute path of which nothing is left: the
      result is then the bare root, on which the function is not defined. */
  lemma {:induction false} SecondCallChangesNothing(links: string -> bool, path: string)
    requires !EndsInSlash(path)
    ensures var bare := path != [] && path[0] == '/' && NothingLeft(links, path);
      && (EndsInSlash(Simplified(links, path)) <==> bare)
      && (bare ==> Simplified(links, path) == "/")
    ensures !(path != [] && path[0] == '/' && NothingLeft(links, path)) ==>
      Simplified(links, Simplified(links, path)) == Simplified(links, path)
  {
    EmptyPath(links);
    NothingLeftWhenBalanced(IsSymbolic(links, Lead(path)), Split(path));
    if path != [] {
      SimplifiedComponents(links, path);
      ReduceIsIdempotent(IsSymbolic(links, Lead(path)), Split(path));
    }
  }

  // ---------------------------------------------------------------- resolution of texts

  // POSIX pathname resolution: the empty pathname resolves to nothing, a bare slash to the root.
  function Resolve<D>(fs: FileSystem<D>, cwd: D, path: string): Option<D> {
    if path == [] then None
    else Walk(fs, StartOf(fs, cwd, path), if path == "/" then [] else Split(path))
  }

  function StartOf<D>(fs: FileSystem<D>, cwd: D, path: string): D {
    if path != [] && path[0] == '/' then fs.root else cwd
  }

  // What lstat answers: the name of a relative path is looked up in the working directory, that of
  // an absolute one, behind two slashes, in the root.
  ghost predicate Reports<D(!new)>(links: string -> bool, fs: FileSystem<D>, cwd: D) {
    forall x :: IsComponent(x) ==> links(x) == fs.link(cwd, x) && links("//" + x) == fs.link(fs.root, x)
  }

  // The function leads where the path leads, or nowhere if nothing is left of a relative path.
  predicate Faithful<D(==)>(links: string -> bool, fs: FileSystem<D>, cwd: D, path: string) {
    Resolve(fs, cwd, Simplified(links, path)) ==
      if (path == [] || path[0] != '/') && NothingLeft(links, path) then None else Resolve(fs, cwd, path)
  }

  lemma {:induction false} FoldAgrees(p: string -> bool, q: string -> bool, stack: Components, rest: Components)
    requires AreComponents(stack) && AreComponents(rest) && forall x :: IsComponent(x) ==> p(x) == q(x)
    ensures Fold(p, stack, rest) == Fold(q, stack, rest)
    decreases |rest|
  {
    if rest != [] {
      assert IsComponent(rest[0]);
      FoldAgrees(p, q, Push(p, stack, rest[0]), rest[1..]);
    }
  }

  // The reduction that the text undergoes is the one by the links of the directory where it starts.
  lemma {:induction false} ReducedByLinks<D(!new)>(links: string -> bool, fs: FileSystem<D>, cwd: D, path: string)
    requires Reports(links, fs, cwd) && path != [] && !EndsInSlash(path)
    ensures AreComponents(Split(path))
    ensures Reduce(IsSymbolic(links, Lead(path)), Split(path)) ==
      Reduce(LinksIn(fs, StartOf(fs, cwd, path)), Split(path))
  {
    SplitYieldsComponents(path);
    var symbolic, known := IsSymbolic(links, Lead(path)), LinksIn(fs, StartOf(fs, cwd, path));
    forall x | IsComponent(x) ensures symbolic(x) == known(x) {
      assert "" + "" + x == x && "/" + "/" + x == "//" + x;
    }
    FoldAgrees(symbolic, known, [], Split(path));
  }

  lemma {:induction false} FaithfulWhenSamePlace<D(!new)>(links: string -> bool, fs: FileSystem<D>, cwd: D,
                                                          path: string)
    requires Reports(links, fs, cwd) && path != [] && !EndsInSlash(path) && Resolve(fs, cwd, path).Some?
    ensures var start, cs := StartOf(fs, cwd, path), Split(path);
      && (SamePlace(fs, start, cs, Reduce(LinksIn(fs, start), cs)) ==> Faithful(links, fs, cwd, path))
      && (Faithful(links, fs, cwd, path) && !NothingLeft(links, path) ==>
            SamePlace(fs, start, cs, Reduce(LinksIn(fs, start), cs)))
  {
    var start, r := StartOf(fs, cwd, path), Simplified(links, path);
    var ds := Reduce(IsSymbolic(links, Lead(path)), Split(path));
    SimplifiedComponents(links, path);
    NothingLeftWhenBalanced(IsSymbolic(links, Lead(path)), Split(path));
    ReducedByLinks(links, fs, cwd, path);
    assert Resolve(fs, cwd, path) == Walk(fs, start, Split(path));
    if ds != [] {
      assert r != "/" by { assert EndsInSlash("/"); }
      assert r != [] by {
        EmptyPath(links);
        ReducedAreComponents(IsSymbolic(links, Lead(path)), Split(path));
      }
      assert Resolve(fs, cwd, r) == Walk(fs, start, ds);
    } else {
      assert Lead(path) == "/" ==> Resolve(fs, cwd, r) == Walk(fs, start, []);
    }
  }

  // A path that names a wild link.
  lemma {:induction false} WildLinkIsNamed<D(!new)>(links: string -> bool, fs: FileSystem<D>, cwd: D, lead: string)
    returns (path: string)
    requires Lawful(fs) && Reports(links, fs, cwd) && (lead == "" || lead == "/")
    requires !Tame(fs, if lead == "/" then fs.root else cwd)
    ensures !EndsInSlash(path) && Resolve(fs, cwd, path).Some? && !Faithful(links, fs, cwd, path)
  {
    var start := if lead == "/" then fs.root else cwd;
    var e, x, t :| Leads(fs, start, e) && IsComponent(x) && Ordinary(x) && !fs.link(start, x)
      && fs.enter(e, x) == Some(t) && fs.parent(t) != e;
    var cs :| AreComponents(cs) && Walk(fs, start, cs) == Some(e);
    var ds := ["."] + cs;
    assert ds[1..] == cs && (ds + [x, ".."])[0] == ".";
    WildLinkGoesWrong(fs, start, ds, e, x, t);
    WalkOn(fs, start, ds, [x, ".."]);
    assert [x, ".."][1..] == [".."] && Walk(fs, t, [".."]) == Some(fs.parent(t));
    path := NamedPath(links, fs, cwd, lead, ds);
    if Faithful(links, fs, cwd, path) {
      path := NamedPath(links, fs, cwd, lead, ds + [x, ".."]);
    }
  }

  lemma {:induction false} NamedPath<D(!new)>(links: string -> bool, fs: FileSystem<D>, cwd: D, lead: string,
                                              cs: Components) returns (path: string)
    requires Reports(links, fs, cwd) && (lead == "" || lead == "/") && AreComponents(cs) && cs != [] && cs[0] == "."
    requires Walk(fs, if lead == "/" then fs.root else cwd, cs).Some?
    ensures var start := if lead == "/" then fs.root else cwd;
      && !EndsInSlash(path) && Resolve(fs, cwd, path).Some?
      && (Faithful(links, fs, cwd, path) ==> SamePlace(fs, start, cs, Reduce(LinksIn(fs, start), cs)))
  {
    path := lead + Join(cs);
    SplitBehindLead(lead, cs);
    FaithfulWhenSamePlace(links, fs, cwd, path);
  }

  /** Every path that resolves is simplified to one that leads to the same place, except that one of
      which nothing is left resolves to nothing, if and only if the file system is tame from the
      working directory and from the root. */
  lemma {:induction false} ResolvesToTheSamePlace<D(!new)>(links: string -> bool, fs: FileSystem<D>, cwd: D)
    requires Lawful(fs) && Reports(links, fs, cwd)
    ensures Tame(fs, cwd) && Tame(fs, fs.root) <==>
      forall path :: !EndsInSlash(path) && Resolve(fs, cwd, path).Some? ==> Faithful(links, fs, cwd, path)
  {
    if Tame(fs, cwd) && Tame(fs, fs.root) {
      forall path | !EndsInSlash(path) && Resolve(fs, cwd, path).Some? ensures Faithful(links, fs, cwd, path) {
        ReducedByLinks(links, fs, cwd, path);
        TameIsRight(fs, StartOf(fs, cwd, path), Split(path));
        FaithfulWhenSamePlace(links, fs, cwd, path);
      }
    } else if !Tame(fs, cwd) {
      var path := WildLinkIsNamed(links, fs, cwd, "");
    } else {
      var path := WildLinkIsNamed(links, fs, cwd, "/");
    }
  }

  // ---------------------------------------------------------------- a link below the starting directory

  // The names entered so far, counted from the top or from where the one link leads.
  datatype Spot = Spot(elsewhere: bool, names: seq<string>)

  // far is a link in the directory a and nowhere else, and leads elsewhere.
  function OneLink(a: string, far: string): FileSystem<Spot> {
    FileSystem(
      Spot(false, []),
      (d: Spot, x: string) => Some(
        if d == Spot(false, [a]) && x == far then Spot(true, []) else Spot(d.elsewhere, d.names + [x])),
      (d: Spot) => if d.names == [] then d else Spot(d.elsewhere, d.names[..|d.names| - 1]),
      (d: Spot, x: string) => d == Spot(false, [a]) && x == far)
  }

  /** issymbolic asks in the starting directory only: the link a/far is not seen, far/.. is cut away,
      and the path leads to another place. */
  lemma {:induction false} LinkElsewhereIsMissed(a: string, far: string)
    requires IsComponent(a) && IsComponent(far) && Ordinary(a) && Ordinary(far)
    ensures var fs, cwd, links := OneLink(a, far), Spot(false, []), (_: string) => false;
      var path := a + ("/" + (far + ("/" + "..")));
      && Lawful(fs) && Reports(links, fs, cwd) && Simplified(links, path) == a
      && Resolve(fs, cwd, path) == Some(Spot(true, [])) && Resolve(fs, cwd, a) == Some(Spot(false, [a]))
  {
    var fs, cwd := OneLink(a, far), Spot(false, []);
    var cs := [a, far, ".."];
    JoinOfThree(a, far, "..");
    SplitJoin(cs);
    SplitJoin([a]);
    LinkIsCancelled(_ => false, a, far);
    assert [] + [a] == [a] && [a][1..] == [];
    assert Walk(fs, cwd, [a]) == Walk(fs, Spot(false, [a]), []);
    assert cs[1..] == [far, ".."] && [far, ".."][1..] == [".."];
    assert Walk(fs, Spot(true, []), [".."]) == Some(Spot(true, []));
    assert Walk(fs, Spot(false, [a]), [far, ".."]) == Some(Spot(true, []));
  }

  lemma {:induction false} JoinOfThree(a: string, b: string, c: string)
    ensures Join([a, b, c]) == a + ("/" + (b + ("/" + c)))
  {
    assert [a, b, c][1..] == [b, c] && [b, c][1..] == [c];
    assert Join([b, c]) == b + ("/" + c);
  }

  lemma {:induction false} LinkIsCancelled(links: string -> bool, a: string, far: string)
    requires Ordinary(far) && !links(far)
    ensures Reduce(IsSymbolic(links, ""), [a, far, ".."]) == [a]
  {
    var symbolic := IsSymbolic(links, "");
    assert "" + "" + far == far && [a, far, ".."] == [a] + [far, ".."];
    ReduceOfPair(symbolic, [a], far);
    ReduceIsTheNormalForm(symbolic, [a], [a]);
  }
}
