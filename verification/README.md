# A verified model of makedepend and its companions

This project models the programs of the repository that compute something worth proving and states what
they get right, for all inputs: the C preprocessor front end `makedepend`, the Win32 condition variable of
`include/Xthreads.h`, and three smaller tools, `checktree`, `makestrs` and the text filters of `imake`.
`dafny verify dfyconfig.toml` checks all of it.

Code that works on tables, buffers and cursors in place is modelled by classes and methods with the same
loops, each proved to do what a function says; the laws are then lemmas about those functions. Parsers,
walks and conditional trees are functions and datatypes. All lemmas switch automatic induction off, so
that every inductive argument is written out in a body.

## What the modules are about

* **Symbol tables** (`Names`, `SymbolTable`): the sorted arrays `i_defs` with binary search, insertion,
  merging and deletion, against finite maps; the allocation grown in steps of `SYMTABINC` always covers
  the next write. Merged tables share their entries, as in C.
* **Include graph** (`Graph`, `Lookup`, `Visibility`, `MissedLookups`, `HitLookups`, `Undefinition`,
  `CleanUndefs`, `DrainedSources`, `LastDefinitions`, `IncludeGraph`): `fdefined` walks a possibly cyclic
  graph depth first while it merges tables and retires edges under its own feet. Its answer is exact on every graph. Which lookups leave every file's
  view of the names alone is characterised twice: on any graph by the folds that the lookup makes, and on
  an acyclic graph by the state before the call. There a miss always does, and a hit exactly when it
  loses nothing on its way; a hit that hides a name and a miss on a cycle that does are given as
  counterexamples. `undefine`, a loop of such lookups, is given the exact condition under which it takes
  the name and nothing else out of sight, and a graph on which it leaves a copy behind. A lookup that
  misses leaves the source without unmerged headers, and `undefine` then takes the name from no header;
  it also decides which of several definitions of a name is found from then on, and that need not be the
  one made last.
* **Directives** (`Directives`, `DirectiveTrees`, `StandardMeaning`, `TableMeaning`, `LaterSources`,
  `TableRuns`, `DirectiveScan`): `find_includes` and `gobble` read a flat stream of directives; the stream
  is the flattening of a tree, and reading it is reading the tree. Skipped `#elif` tests are evaluated by
  the program, so the exact theorem keeps them. Where the tests of a run are quiet they drop out, and the
  meaning of section 6.10.1 of ISO/IEC 9899:1999 remains. `TableMeaning` proves this of the program's own
  tables and of any list of sources read one after the other, where a test is a lookup that folds tables,
  every `#include` line looks its text up as if that were the name of a symbol, a quoted name too, and
  `#undef` is the deleting loop. It says which tests are quiet and which `#undef`s clean. Behind an
  `#include` line no `#undef` comes to the headers read before that line, so they go on showing the name;
  that does no harm until such a header is included again, and `LaterSources` says exactly when it does then, and
  what a source finds of the headers that earlier ones have read. `TableRuns` gives a whole run of an
  include guard, and three runs that go wrong. A fatal error is a world that no longer changes.
* **`#if` expressions** (`IfParser`, `IfPrinter`, `IfGrammar`, `IfNesting`, `IfCapture`, `IfScanner`): the evaluator
  reads every way of writing an expression tree, with its own blanks in each gap and any superfluous
  parentheses, back as the tree's value, for any meaning of operators and operands, exactly when no
  identifier is taken for the operator `defined`. `IfGrammar` turns this around: every text that it reads
  to the end is such a phrase, or one of a few that C does not know. The header comment of the file promises the normal C
  order of precedence. Levels bind as in C, but within a level the code nests to the right, and the model
  follows the code: the tree read in place of C's is given, and exactly when its value is C's.
* **Path names** (`Paths`, `RemoveDotDot`, `ComponentArray`): removing `x/..` pairs has one normal form.
  The code asks whether `x` is a symbolic link in the starting directory, whatever precedes it in the
  path. The file systems in which the result is right for every path are characterised exactly, and so
  are the paths for which it is right in every file system.
* **Line scanner** (`CleanText`, `BareLines`, `LineScanner`): comments and continued lines are blanked in
  the buffer and the lines that begin with `#` are returned. Behind a line that is only `#` the next
  character is passed over; what is read then is stated for any number of such lines, and exactly when
  that is right.
* **Printed dependencies** (`Dependencies`): the marked walk over the include graph.
* **Condition variable** (`XCondition`): every interleaving of the statements of wait, signal and
  broadcast, and of entering and leaving the mutex in between, any number of times over, refines an atomic
  monitor. A wait gives the mutex up while it sleeps and returns with it as it was.
* **Clash check** (`CheckTree`), **string tables** (`MakeStrs`, `StringTables`), **imake filters**
  (`ImakeComments`, `ImakeLines`, `ImakeFilter`).

File existence, file contents, symbolic links, the names that an `#if` expression asks for and its
verdict on the answers are given functions. C strings are sequences of characters without NUL;
characters compare by their codes, as they do in ASCII. Integers are unbounded.

## Model
| member | source | states |
|---|---|---|
| `Names.CompareInline` | config/makedepend/parse.c:336-343 | the inlined comparison loop orders two C strings as strcmp does: equal, less or greater in the lexicographic order of their characters |
| `Names.BelowExactlyWhen` | config/makedepend/parse.c:336-343 | in that order one string comes before another exactly if it is a proper prefix of it or has the smaller character where they first differ |
| `SymbolTable.InsertKeepsSorted` | config/makedepend/parse.c:371-384 | an entry put between the names below and above it keeps the table strictly sorted and adds exactly its name |
| `SymbolTable.RemoveKeepsSorted` | config/makedepend/parse.c:515-517 | taking out one entry keeps the table strictly sorted and removes exactly its name |
| `SymbolTable.MergeIsRightBiasedUnion` | config/makedepend/parse.c:473-495 | merging two sorted tables gives a sorted table of the union of names, in which the second table's entry wins |
| `SymbolTable.MergedMap` | config/makedepend/parse.c:448-504 | as finite maps, merging is right-biased union |
| `SymbolTable.InsertIsMerged` | config/makedepend/parse.c:371-384 | inserting an entry at its slot is merging with a table of that entry alone |
| `SymbolTable.MapAfterInsert` | config/makedepend/parse.c:371-384 | inserting a new entry is a map update at its name alone |
| `SymbolTable.MapAfterRemove` | config/makedepend/parse.c:515-517 | deleting an entry removes its name from the map and nothing else |
| `SymbolTable.ShiftUp` | config/makedepend/parse.c:371-377 | the copying loop moves the entries behind the slot up by one and leaves the others |
| `SymbolTable.IncList.SLookup` | config/makedepend/parse.c:408-446 | bisection finds an entry of the symbol if there is one and NULL only if there is none |
| `SymbolTable.IncList.MakeRoom` | config/makedepend/parse.c:312-322 | growing only when the count is a multiple of SYMTABINC leaves room for one more entry, given the invariant that every operation keeps |
| `SymbolTable.IncList.SearchSlot` | config/makedepend/parse.c:327-360 | the bisection of define2 finds the entry, or its bookkeeping of below yields the one slot that keeps the table sorted |
| `SymbolTable.IncList.Define2` | config/makedepend/parse.c:303-385 | define2 is map update; the table stays sorted and within its allocation, and at most one entry is new or changed |
| `SymbolTable.IncList.Merge2Defines` | config/makedepend/parse.c:448-504 | the table becomes the right-biased union of both, in a fresh array rounded up to a multiple of SYMTABINC |
| `SymbolTable.IncList.MergeInto` | config/makedepend/parse.c:473-495 | the three merging loops fill the new array with exactly the merged table |
| `SymbolTable.IncList.DeleteAt` | config/makedepend/parse.c:515-517 | the loop at the bottom of undefine removes exactly the entry pointed at, keeping order and allocation sound |
| `Lookup.FDefinedExact` | config/makedepend/parse.c:235-268 | on every graph, cyclic or not, fdefined hits exactly when a file reachable over unmerged edges and clear of the files being checked defines the symbol; only files on the way that lack it are changed |
| `Lookup.ChildrenExact` | config/makedepend/parse.c:251-262 | the same of the loop over the included files from any position on |
| `Lookup.LookupFindsWhatIsVisible` | config/makedepend/parse.c:235-268 | with all DEFCHECKED flags clear the answer is whether the symbol is visible; the flags are clear again; the file named holds the symbol in its live table; after a miss it is still not visible |
| `Lookup.LookupInventsNothing` | config/makedepend/parse.c:251-262 | whatever a lookup merges and retires, no file ever sees a name that it did not see before |
| `Visibility.FoldIsHarmlessExactlyWhen` | config/makedepend/parse.c:256-260 | on any graph, cyclic or not, merging a child and retiring the edge hides no name from any file if and only if whatever the child sees is in its own table or the includer's or is seen by the includer through another unmerged child |
| `Visibility.LookupIsHarmlessExactlyWhen` | config/makedepend/parse.c:235-268 | on any graph and whatever the answer, a lookup leaves every file's set of visible names as it was if and only if each fold that it makes is harmless at the moment it is made |
| `MissedLookups.MissKeepsVisible` | config/makedepend/parse.c:251-262 | during a missing lookup on an acyclic graph of finished files every name stays visible wherever it was |
| `MissedLookups.MissLeavesVisibilityAlone` | config/makedepend/parse.c:235-268 | on such a graph a lookup that misses leaves every file's set of visible names exactly as it was |
| `HitLookups.LookupKeepsViewsExactlyWhen` | config/makedepend/parse.c:235-268 | on such a graph a lookup leaves every file's set of visible names as it was if and only if, in the graph before the call, each finished file that the search goes to sees only names that are looked over from there on or that its includer has from elsewhere |
| `HitLookups.HitHidesName` | config/makedepend/parse.c:255-260 | counterexample, from the source still being read: a lookup that hits a header retires the edge to it though the header has a child of its own, and hides what that child defines |
| `MissedLookups.CycleMissHidesName` | config/makedepend/parse.c:255-260 | counterexample, from the source still being read: where headers include one another even a miss can cut a file off from a name |
| `Undefinition.PassDecreases` | config/makedepend/parse.c:513-518 | each pass of undefine retires an edge or else removes an entry and changes nothing more, so the loop ends |
| `Undefinition.NoFoldNoChange` | config/makedepend/parse.c:251-262 | a lookup that retires no edge changes no table |
| `Undefinition.UndefinedIsOutOfSight` | config/makedepend/parse.c:506-519 | undefine always ends, and then the symbol is neither in the command-line table nor visible from the file |
| `Undefinition.UndefinedKeepsOtherNames` | config/makedepend/parse.c:506-519 | undefine removes no other name from any table |
| `Undefinition.UndefinedRetiresRead` | config/makedepend/parse.c:506-519 | over all its passes undefine retires edges only to files that have been read to their ends |
| `CleanUndefs.UndefIsCleanExactlyWhen` | config/makedepend/parse.c:506-519 | on any graph, cyclic or not, undefine takes the name, and only the name, out of every file's sight if and only if the lookup of each pass hides no other name at its moment and the last leaves no table with the name |
| `CleanUndefs.UndefIsTidyExactlyWhen` | config/makedepend/parse.c:506-519 | it leaves all other names in sight if and only if each of its lookups hides none, whatever copies of the name itself remain |
| `CleanUndefs.SymbolStays` | config/makedepend/parse.c:251-262 | on an acyclic graph a lookup never hides the name that it looks for, and a hit copies it into the table of every read file that it started from |
| `CleanUndefs.CleanWhenNothingIsLost` | config/makedepend/parse.c:506-519 | so there the condition on each lookup is one on the state it starts from: the name is on the command line, or the lookup loses nothing on its way |
| `CleanUndefs.LeafNamesAreClean` | config/makedepend/parse.c:506-519 | in particular, on the state before the call: undefine is clean if, besides the command line and the source, only headers see the name that have been read, have nothing left to merge and are included by the source itself |
| `CleanUndefs.CleanNeedsReach` | config/makedepend/parse.c:506-519 | and it is never clean while a file that the source does not reach defines the name |
| `CleanUndefs.UndefLeavesCopy` | config/makedepend/parse.c:255-260 | counterexample: the source includes c and c includes e; undefining a name of e leaves a copy in c, which the lookup has put there |
| `DrainedSources.MissDrains` | config/makedepend/parse.c:251-262 | on any graph, cyclic or not, after a lookup that misses no file that the source still reaches has an unmerged child that has been read to its end |
| `DrainedSources.DrainedLookup` | config/makedepend/parse.c:235-268 | from such a source lookups change nothing at all |
| `DrainedSources.DrainedUndefIsCleanExactlyWhen` | config/makedepend/parse.c:506-519 | and there undefine takes just the name out of every file's sight if and only if, in the state before the call, no table holds it but that of the command line and those of the files reached |
| `DrainedSources.DrainedUndefLeaves` | config/makedepend/parse.c:506-519 | in any case it leaves every other name in sight, and the name itself exactly where a table out of the source's reach shows it |
| `LastDefinitions.MissLeavesLast` | config/makedepend/parse.c:251-262 | which definition wins: on an acyclic graph a lookup that misses leaves in the source's table, for every name, the entry of the last file in the order of the includes, at every depth, that has one to merge |
| `LastDefinitions.DefinitionOutlastsMissExactlyWhen` | config/makedepend/parse.c:251-262 | so a definition of the source itself is still found after a lookup that misses if and only if the last header to be merged that sees the name has the same entry, or none sees it |
| `LastDefinitions.OlderDefinitionReturns` | config/makedepend/parse.c:473-495 | counterexample: a source that includes a header and then defines a name of it anew finds the header's definition again once anything else has been looked up in vain |
| `IncludeGraph.FDefined` | config/makedepend/parse.c:235-268 | on the mutable file records fdefined has the answer and the effect of the function, returns a pointer into a live table, and keeps all tables sound |
| `IncludeGraph.SearchChildren` | config/makedepend/parse.c:251-262 | the loop over i_list on the mutable records |
| `IncludeGraph.FoldIn` | config/makedepend/parse.c:256-259 | a finished child's table is merged and the edge retired, on the mutable records |
| `IncludeGraph.IsDefined` | config/makedepend/parse.c:270-286 | the command-line table is asked first, then the graph |
| `IncludeGraph.DeleteEntry` | config/makedepend/parse.c:515-517 | deletion through the returned pointer removes the symbol from the one file it lies in |
| `IncludeGraph.Undefine` | config/makedepend/parse.c:506-519 | the loop on the mutable records ends in exactly the state that the function describes |
| `IncludeGraph.Define` | config/makedepend/parse.c:303-385 | define2 on one of the mutable records acts on the snapshot of all as the function says, whatever entries the tables share |
| `IncludeGraph.IncludedBy` | config/makedepend/include.c:179-228 | so does included_by |
| `IncludeGraph.Finish` | config/makedepend/parse.c:645-645 | and so does the flag set at the end of find_includes |
| `Directives.NewInclude` | config/makedepend/include.c:158-177 | the process ends if and only if a single slot is left besides the empty one at the end; otherwise inclist grows by exactly the new entry |
| `Directives.IncPathFinds` | config/makedepend/include.c:240-320 | the entry found is the first to which the same name was expanded before by a file without #include SYMBOL lines, else a new one for the first candidate path that exists, else none; the process ends exactly when a new one finds no slot |
| `Directives.QuotedName` | config/makedepend/parse.c:197-208 | behind anything without an opening sign, text in double quotes, closed or not, is read as the name of a header to be looked for beside the including file |
| `Directives.AngleName` | config/makedepend/parse.c:197-208 | and text in angle brackets as the name of one that is not |
| `Directives.NameExactlyWhen` | config/makedepend/parse.c:197-200 | the text of an #include holds a name exactly if it has a double quote or an opening angle bracket |
| `Directives.SymbolsAreReplaced` | config/makedepend/parse.c:179-208 | the name is read from the first text that is no symbol, in the environment behind all the lookups, and the file is marked exactly if a symbol came before |
| `Directives.EndedStaysAsItIs` | config/makedepend/include.c:167-168 | once the process has ended, nothing is read, recorded or looked up, whatever lines are left |
| `Directives.EnterShrinks` | config/makedepend/pr.c:68-76 | opening an unsearched entry shrinks the set of entries that can still be opened, which bounds the mutual recursion |
| `DirectiveTrees.GobbleOver` | config/makedepend/parse.c:35-85 | gobble runs over any balanced stretch of lines and goes on behind it, performing nothing |
| `DirectiveTrees.GobbleOverRest` | config/makedepend/parse.c:50-56 | from any branch of a group on, gobble and its loop stop exactly behind the group's #endif |
| `DirectiveTrees.PassesOver` | config/makedepend/parse.c:535-543 | behind a branch that was read, the loop under doif runs exactly to the group's #endif |
| `DirectiveTrees.SkipsTo` | config/makedepend/parse.c:544-561 | after a failing test the first branch whose test holds is read, or the #else branch |
| `DirectiveTrees.Reads` | config/makedepend/parse.c:521-647 | on every balanced stretch, at any nesting, find_includes does what the nested form says and goes on behind it |
| `DirectiveTrees.ReadsAction` | config/makedepend/pr.c:40-77 | performing an #include, its lookups included, reads the file by the same rule |
| `DirectiveTrees.ReadsFile` | config/makedepend/parse.c:521-647 | reading a well-nested file performs, in order, exactly what its conditional tree says, each test being decided in the environment reached there |
| `DirectiveTrees.StrayEndifIsDefined` | config/makedepend/parse.c:598-603 | an #endif outside any group falls through to the case of #define: the whole line is recorded as a definition |
| `DirectiveTrees.StrayElseIsDefined` | config/makedepend/parse.c:592-603 | an #else or #elif outside any group skips what follows up to an #endif and is then recorded as a definition |
| `DirectiveTrees.NamelessUndefDoesNothing` | config/makedepend/parse.c:604-611 | an #undef without a name does nothing, and one with a name asks for the undefinition as seen from the source |
| `StandardMeaning.RunAlike` | config/makedepend/parse.c:121-144 | on a run whose tests are quiet at their moments, related environments stay related: testing the conditions of skipped #elif lines and tests that fold tables make no difference |
| `StandardMeaning.FileMeaning` | config/makedepend/parse.c:521-647 | then what is recorded is the meaning of section 6.10.1 of ISO/IEC 9899:1999: the first branch whose test holds, in order, the tests being those of an environment that testing does not change |
| `StandardMeaning.FirstBranchIsRead` | config/makedepend/parse.c:535-591 | in that meaning the branch read behind a test that fails is the first #elif whose expression holds, however many there are, else the #else, else nothing |
| `StandardMeaning.QuietTestsGiveTheMeaning` | config/makedepend/parse.c:521-647 | where every test evaluated on the run changes nothing at all the result is that meaning to the letter |
| `TableMeaning.TestKeepsCoupled` | config/makedepend/parse.c:535-546 | over the program's tables a quiet test, of however many names, is answered as the names then visible demand, and leaves tables and meaning belonging together |
| `TableMeaning.PresenceIsDecided` | config/makedepend/parse.c:562-566 | #ifdef holds exactly if the name is on the command line or visible from the source, #ifndef exactly if it is neither; in the meaning, exactly if it is known or not |
| `TableMeaning.ExpressionIsJudged` | config/makedepend/parse.c:533-534 | a quiet #if is what its expression makes of the answers, and these say of each name asked for whether it is on the command line or visible |
| `TableMeaning.DefineKeepsCoupled` | config/makedepend/parse.c:303-385 | so does a definition added to the file being read: every file that includes it, and no other, comes to see the name |
| `TableMeaning.UndefKeepsCoupled` | config/makedepend/parse.c:506-519 | so does an #undef of which each lookup hides no other name: no file being read sees the name any more, though headers read before may still show it |
| `TableMeaning.LinkAgain` | config/makedepend/include.c:179-228 | so does another #include of a header that has been read, if it shows no name undefined since |
| `TableMeaning.LinkEnters` | config/makedepend/pr.c:68-74 | so does the #include that opens a header: nothing reaches back from it, so no cycle arises |
| `TableMeaning.CloseKeepsCoupled` | config/makedepend/parse.c:645-645 | so does the end of a file, from which on lookups may fold it, and what it shows then is remembered |
| `TableMeaning.StartsCoupled` | config/makedepend/main.c:454-462 | before the first source is read, tables and meaning belong together |
| `TableMeaning.NextSourceStartsCoupled` | config/makedepend/main.c:454-458 | and so they do when, after any number of sources, the next one begins in a new slot |
| `TableMeaning.TablesSimulate` | config/makedepend/parse.c:521-647 | hence the program's tables, under lookups that fold them and the deleting loop of undefine, simulate the sets of names of the meaning in every step |
| `TableMeaning.TablesGiveTheMeaning` | config/makedepend/main.c:454-462 | reading any list of well-nested sources one after the other over the program's own tables, every #include line making its lookups, records exactly what they mean by section 6.10.1 of ISO/IEC 9899:1999 when each header is read once for all sources, if in each run every test and lookup of an #include is quiet, every #undef hides no other name, and no file includes one that is being read or a source, or a header that still shows a name undefined since it was read |
| `TableMeaning.QuietExactly` | config/makedepend/parse.c:270-286 | a test, of one name or of an expression that asks for any number, is quiet if and only if each of its lookups in turn finds its name on the command line or loses nothing on the way |
| `TableMeaning.UnseenIsQuiet` | config/makedepend/parse.c:270-286 | names that are not visible can always be tested |
| `TableMeaning.CleanUndefExactly` | config/makedepend/parse.c:506-519 | an #undef is clean if and only if each of its lookups in turn finds the name on the command line or loses nothing on its way, and the last leaves no table with the name |
| `TableMeaning.LeafUndefIsClean` | config/makedepend/parse.c:506-519 | as it is for names of the source, the command line, and read headers without includes left that the source includes itself |
| `TableMeaning.PlainIncludeIsCalm` | config/makedepend/parse.c:179-192 | the lookup of an #include line whose text is not the name of a symbol is always quiet |
| `TableMeaning.IncludeLineDrains` | config/makedepend/parse.c:179-192 | behind the lookups of an #include line the source reaches no file that has been read |
| `TableMeaning.DrainedTestsChangeNothing` | config/makedepend/parse.c:270-286 | then, until another header has been read, tests change nothing |
| `TableMeaning.DrainedUndefExactly` | config/makedepend/parse.c:506-519 | and an #undef is clean if and only if no table holds the name but those of the command line and of files being read |
| `TableMeaning.UndefSparesHeaders` | config/makedepend/parse.c:506-519 | clean or not, such an #undef takes nothing from any header that has been read |
| `LaterSources.NextSourceFindsHeader` | config/makedepend/main.c:454-462 | between two sources: a header shows nothing but what was seen from it at the end of its reading, and of that all that no #undef recorded since names; where every #undef was clean, it is as its reading left it if and only if none of them names anything seen from it then |
| `LaterSources.NextSourceFindsCommandLine` | config/makedepend/main.c:454-462 | and the command line defines what it was given, less every name that an #undef recorded |
| `LaterSources.IncludeIsRightExactlyWhen` | config/makedepend/include.c:179-228 | at any moment of a run: after including a header that has been read the source sees what it should if and only if every name undefined since that reading which the header still shows is one that it should see anyway |
| `TableRuns.SecondTestFails` | config/makedepend/parse.c:255-260 | counterexample, a whole run from the start: a source includes c, which includes e, tests for a name of c and then for one of e; the second test fails, and a definition that belongs to the program is not recorded |
| `TableRuns.GuardedHeaderIsRecorded` | config/makedepend/parse.c:562-575 | a whole run of a source that includes a header with an include guard: the definition under the guard is recorded exactly if the command line does not define the guard, by the program and in the meaning |
| `TableRuns.SymbolNamesHeader` | config/makedepend/parse.c:179-208 | #include of a symbol that the command line defines as a name in quotes reads that name, beside the including file, and marks the file |
| `TableRuns.UndefReachesNextSource` | config/makedepend/pr.c:68-76 | counterexample, a whole run of two sources: the first includes a header and undefines its name; for the second, which includes it too, a test for the name fails, though it holds when that source is read alone |
| `TableRuns.IncludeLineSparesHeader` | config/makedepend/parse.c:179-192 | counterexample, the same run with one more #include line in front of the #undef, whose header is not even found: the lookup of that line has merged the header, so the #undef does not come to it, and for the second source the test holds, which by the meaning it should not |
| `StandardMeaning.ReadOnce` | config/makedepend/pr.c:70-75 | whatever the lines are, and even when headers include one another, no inclist entry is opened twice |
| `DirectiveScan.MakeDepend.Gobble` | config/makedepend/parse.c:35-85 | the loop over the shared cursor does what the function says and leaves the cursor where it says |
| `DirectiveScan.MakeDepend.DefType` | config/makedepend/parse.c:175-192 | the case INCLUDE: the loop of lookups, by which the value of a symbol takes the place of its name, and the mark of the file that includes in this way |
| `DirectiveScan.MakeDepend.Separate` | config/makedepend/parse.c:194-208 | the cursor loops find what stands between the first double quote and the next, or between the first opening angle bracket and the next closing one, whichever opens first, up to the end if nothing closes it; or that neither sign occurs |
| `DirectiveScan.MakeDepend.NewInclude` | config/makedepend/include.c:158-177 | the method appends the entry or aborts |
| `DirectiveScan.MakeDepend.IncPath` | config/makedepend/include.c:253-320 | the loops over cached entries and candidate paths find the first match |
| `DirectiveScan.MakeDepend.AddInclude` | config/makedepend/pr.c:40-77 | the recursion into an unsearched file, proved equal to the function and to terminate |
| `DirectiveScan.MakeDepend.FindIncludes` | config/makedepend/parse.c:521-647 | the loop with its gotos does what the function says to world and cursor |
| `DirectiveScan.MakeDepend.DoIf` | config/makedepend/parse.c:535-543 | the code at the label doif |
| `DirectiveScan.MakeDepend.DoIfFalse` | config/makedepend/parse.c:546-561 | the code at the label doiffalse |
| `DirectiveScan.MakeDepend.ReadSources` | config/makedepend/main.c:454-462 | the loop over the files of the command line, each in the next slot, until a fatal error |
| `IfParser.ParseLevel` | config/makedepend/ifparser.c:242-530 | at every level the cursor never moves backwards, which is why the eleven mutually recursive functions end |
| `IfPrinter.ReadsText` | config/makedepend/ifparser.c:242-530 | at each of the eleven levels a phrase, with blanks of its own in every gap and parentheses wherever the writer put them, is read as exactly its tree's value, up to what follows it |
| `IfPrinter.ReadsOperand` | config/makedepend/ifparser.c:148-238 | the same of parse_value on numbers, variables, defined, assertions and unary operators |
| `IfPrinter.ReadsNumber` | config/makedepend/ifparser.c:94-114 | a literal, that is, a nonzero digit and decimal digits, 0 and octal digits, or 0x and hexadecimal ones, is read to its end with the suffixes behind it |
| `IfPrinter.LongestLiteralIsRead` | config/makedepend/ifparser.c:105-105 | of any text that begins with a digit, exactly the longest literal at its front is read |
| `IfPrinter.ReadsDefined` | config/makedepend/ifparser.c:206-224 | defined with parentheses yields the operand's value, whatever the blanks in each gap between the tokens |
| `IfPrinter.ReadsDefinedBare` | config/makedepend/ifparser.c:206-224 | so does defined without parentheses, behind a blank, or glued to a name that begins with an underscore |
| `IfPrinter.ReadsAssertion` | config/makedepend/ifparser.c:186-198 | an assertion with any list of answers, whatever characters and blanks separate them, is read to its closing parenthesis and counts as true |
| `IfPrinter.IfExpressionReadsBack` | config/makedepend/ifparser.c:538-544 | for every phrase grouped for nesting to the right, any blanks in each gap, any superfluous parentheses and every meaning of operators and operands, the whole text is consumed and the tree's value returned |
| `IfPrinter.AcceptedReadsBack` | config/makedepend/ifparser.c:538-544 | the same of the phrases that C does not know: an operand missing at the end of the text counts as zero, a single = as ==, and the separators of an assertion may be almost anything |
| `IfGrammar.AcceptsExactlyPhrases` | config/makedepend/ifparser.c:538-544 | for any text and value whatever: the evaluator reads the text to its end with that value if and only if the text is one of these phrases, grouped for nesting to the right, between blanks, whose tree has the value |
| `IfGrammar.ArithmeticOfC` | config/makedepend/ifparser.c:242-327 | between two names the arithmetic and shift operators are read as they are spelt in C |
| `IfGrammar.ComparisonsOfC` | config/makedepend/ifparser.c:329-393 | so are the comparisons |
| `IfGrammar.LogicOfC` | config/makedepend/ifparser.c:395-505 | and the bitwise and logical operators |
| `IfGrammar.PrecedenceOfArithmetic` | config/makedepend/ifparser.c:242-327 | the levels bind in the order of precedence that C has, written out operator by operator: products tighter than sums, and these than shifts |
| `IfGrammar.PrecedenceOfShifts` | config/makedepend/ifparser.c:299-363 | shifts tighter than inequalities |
| `IfGrammar.PrecedenceOfComparisons` | config/makedepend/ifparser.c:329-416 | inequalities tighter than equalities, and these than the bitwise and |
| `IfGrammar.PrecedenceOfLogic` | config/makedepend/ifparser.c:395-505 | and so on down to the logical or |
| `IfNesting.ReadsTurned` | config/makedepend/ifparser.c:242-530 | a text grouped for C's nesting is read as the tree in which every run of operators of one level is turned from the left to the right |
| `IfNesting.ValueIsCsExactlyWithoutRun` | config/makedepend/ifparser.c:242-530 | the value of a text is C's for all meanings of operators and operands if and only if no operator has one of its own level, without parentheses, for its left operand |
| `IfNesting.TreeIsReadAsCExactlyWhen` | config/makedepend/ifparser.c:242-530 | a tree printed with the fewest parentheses that C needs is read as itself for all meanings if and only if no node has one of its own level for its left child |
| `IfNesting.FewestIsGrouped` | config/makedepend/ifparser.c:55-55 | the printing with the fewest parentheses is a phrase for the tree, in either nesting |
| `IfNesting.NoneHasFewer` | config/makedepend/ifparser.c:55-55 | and no phrase for the tree in that nesting has fewer parentheses |
| `IfNesting.SubtractionsAgree` | config/makedepend/ifparser.c:273-296 | the evaluator's value of x - y - z is C's exactly when z is zero |
| `IfCapture.NeverEvaluatesCaptured` | config/makedepend/ifparser.c:206-235 | on any text the evaluator never evaluates, as a variable, a name that is taken for defined |
| `IfCapture.ReadsBackExactlyWhenUncaptured` | config/makedepend/ifparser.c:206-235 | the round trip holds for all meanings if and only if no variable of the phrase's tree is the word defined or continues it with an underscore |
| `IfCapture.CapturedNameIsSplit` | config/makedepend/ifparser.c:206-223 | such a name is cut: its tail from the underscore on becomes the operand of defined |
| `IfScanner.SkipSpaces` | config/makedepend/ifparser.c:72-72 | the SKIPSPACE loop |
| `IfScanner.ScanVariable` | config/makedepend/ifparser.c:76-91 | the loop of parse_variable delimits exactly the name that the function reads |
| `IfScanner.ScanNumber` | config/makedepend/ifparser.c:105-107 | the qualifier loop of parse_number |
| `IfScanner.ScanList` | config/makedepend/ifparser.c:191-196 | the do-while loop finds the closing parenthesis exactly when the function does |
| `Paths.ReduceIsTheNormalForm` | config/makedepend/include.c:113-132 | in whatever order pairs are removed, one list without a pair is reached, and it is this one |
| `Paths.ReduceIsIdempotent` | config/makedepend/include.c:113-132 | reducing again changes nothing |
| `Paths.ReduceDropsOnly` | config/makedepend/include.c:118-119 | a component reported as a link is never dropped |
| `Paths.NothingLeftWhenBalanced` | config/makedepend/include.c:113-132 | nothing is left of a path exactly when its parents close the names before them like brackets, none of which is reported as a link |
| `Paths.RightExactlyWhenTame` | config/makedepend/include.c:57-84 | in a given file system, with exactly its links in the starting directory reported, the reduced path leads to the same place for every path if and only if every link that can be reached and has no namesake link in the starting directory leads to a child of its own directory |
| `Paths.RightExactlyWhenDroppedAtStart` | config/makedepend/include.c:80-132 | a given path is reduced rightly in every file system whose links in the starting directory are the ones reported if and only if every name it loses stands in that directory |
| `RemoveDotDot.SimplifiedComponents` | config/makedepend/include.c:94-147 | cutting the result again gives exactly the reduced components, behind the same leading slash |
| `RemoveDotDot.CutAtSlashes` | config/makedepend/include.c:101-111 | a path is cut at its slashes, any number of which count as one, and slashes in front count for nothing |
| `RemoveDotDot.NeverLonger` | config/makedepend/include.c:85-153 | for any path without trailing slash the result is no longer than the path |
| `RemoveDotDot.SecondCallChangesNothing` | config/makedepend/include.c:85-153 | a second call changes nothing, except for an absolute path of which nothing is left, that is, whose parents close its names like brackets: the result is then the bare root, on which the function is not defined |
| `RemoveDotDot.ResolvesToTheSamePlace` | config/makedepend/include.c:57-153 | given a file system and the truth about its links in the working directory and the root, every path that resolves is simplified to one of the same place, or to nothing when nothing is left of a relative one, if and only if links elsewhere, of other names, lead to children of their own directories |
| `RemoveDotDot.LinkElsewhereIsMissed` | config/makedepend/include.c:97-119 | counterexample: the only link lies below a; issymbolic is asked in the working directory, truthfully says no, and a/far/.. is cut to a although it leads elsewhere |
| `ComponentArray.Slice` | config/makedepend/include.c:101-111 | the slicing loop fills the array with exactly the components and a NULL |
| `ComponentArray.ShiftDown` | config/makedepend/include.c:121-126 | the do-while loop moves the pointers down over the pair, the NULL included |
| `ComponentArray.CancelPairs` | config/makedepend/include.c:116-132 | the loop that goes back one component after each removal ends, and leaves the normal form |
| `ComponentArray.Concatenate` | config/makedepend/include.c:136-147 | the remaining components joined by single slashes behind the leading one |
| `ComponentArray.Remove` | config/makedepend/include.c:85-153 | the whole function computes the path whose laws are stated |
| `CleanText.WalkFinds` | config/makedepend/main.c:566-609 | without a bare line the character loop finds the first #-line of the cleaned text, the text behind it, and the newlines between |
| `CleanText.CommentIsBlanked` | config/makedepend/main.c:567-579 | a comment in a text becomes as many blanks as it has characters, also if it is never closed; what precedes it stays, and what follows is cleaned in turn |
| `CleanText.ContinuationIsBlanked` | config/makedepend/main.c:589-595 | a backslash and the newline behind it become two blanks |
| `CleanText.HashLinesLineByLine` | config/makedepend/main.c:596-608 | the lines found are, line by line, those that begin with #, and a bare one has nothing but blanks and tabs behind it and a newline at its end |
| `CleanText.ScannedAreTheHashLines` | config/makedepend/main.c:552-616 | without a line that is only #, the calls return exactly the #-lines of the cleaned text, in order |
| `BareLines.CallsAreTheDirectivesSeen` | config/makedepend/main.c:552-616 | on any text, however many lines are bare and wherever, the calls return exactly the directives of the text in which a newline stands for the character behind each bare line, with their places |
| `BareLines.RightExactlyWhenRejoined` | config/makedepend/main.c:552-616 | on any text, with any number of bare lines anywhere, the calls return the directives of the cleaned text, from their places, if and only if behind each bare line the reading that passes a character over and the one that does not come to the beginning of a line at the same place again, and neither comes by a directive before |
| `BareLines.SameExactlyWhenRejoined` | config/makedepend/main.c:601-607 | the same from any two places at which the two readings begin a line |
| `BareLines.RejoinsExactlyWhenHarmless` | config/makedepend/main.c:601-607 | unless a comment opens right behind the bare line this is so exactly when the character passed over is harmless, being a newline, or neither beginning nor hiding nor making a directive, and the rest is right from there on |
| `BareLines.DirectiveIsLost` | config/makedepend/main.c:601-607 | in particular a directive right behind a first bare line is lost |
| `LineScanner.FilePointer.BlankComment` | config/makedepend/main.c:567-579 | the inner loop blanks exactly the comment and counts its lines |
| `LineScanner.FilePointer.PassNewline` | config/makedepend/main.c:596-608 | at a newline the line is ended and returned, or the next one begins |
| `LineScanner.FilePointer.GetNextLine` | config/makedepend/main.c:552-616 | one call returns the line found as a C string in the buffer, leaves the text behind it, sets the line counter, and changes nothing outside what it has read |
| `LineScanner.FilePointer.ReadLine` | config/makedepend/main.c:552-616 | each call advances, takes the first line off, and keeps the sum of lines counted and newlines still to come |
| `LineScanner.FilePointer.ReadAll` | config/makedepend/main.c:552-616 | calling until NULL yields the #-lines of the cleaned text, and the counter has grown by the newlines of the text |
| `Dependencies.VisitsWhatIsReached` | config/makedepend/pr.c:116-130 | on any graph and from any marks the walk visits, each once, exactly the files reachable without touching a marked one |
| `Dependencies.PrintsEachDependencyOnce` | config/makedepend/pr.c:116-130 | a rule names every file the source includes, directly or not, exactly once and never the source |
| `Dependencies.EarlierIncludesFirst` | config/makedepend/pr.c:116-130 | what is reached, around the source, from the files that the source includes first is printed before everything else |
| `Dependencies.IncluderIsFirst` | config/makedepend/pr.c:116-130 | and a file is printed behind one that includes it, unless the source does |
| `Dependencies.IncludedBy` | config/makedepend/include.c:179-228 | an edge is added unless it is there; edges stay distinct and parallel to i_merged |
| `Dependencies.RecursivePrInclude` | config/makedepend/pr.c:116-130 | the recursion over the mutable records ends, and prints and marks what the function says |
| `Dependencies.IncClean` | config/makedepend/include.c:230-238 | no file stays marked |
| `Dependencies.PrintRule` | config/makedepend/main.c:464-465 | printing and cleaning together give the source's rule and restore the precondition for the next source |
| `CheckTree.Strncmp` | config/util/checktree.c:165-191 | the sign returned is that of comparing the folded prefixes lexicographically |
| `CheckTree.ShortNameOf` | config/util/checktree.c:201-211 | what is kept of a name are its first eight characters, the dot among them, and the first three behind its last dot, capitals as small letters and - as _ |
| `CheckTree.FnComp` | config/util/checktree.c:193-214 | the sign returned is the order of the short names; of two names with the same first eight characters one without a dot comes first |
| `CheckTree.BeforeTransitive` | config/util/checktree.c:193-214 | that order is transitive |
| `CheckTree.BeforeIsTotal` | config/util/checktree.c:193-214 | and total: one comes before the other, or they are the same |
| `CheckTree.ReportClashes` | config/util/checktree.c:288-295 | the scan reports exactly the neighbours that compare equal |
| `CheckTree.ClashesCountTheExcess` | config/util/checktree.c:287-295 | after sorting, the number of reports is the number of names less the number of short names |
| `CheckTree.ReportedIffClash` | config/util/checktree.c:286-295 | a clash is reported if and only if two names of the directory, in whatever order it lists them, have the same short name |
| `MakeStrs.ReadsLine` | config/util/makestrs.c:289-299 | a line read back as character constants is the string and a zero, if and only if it holds no quote, backslash or newline |
| `MakeStrs.ReadsTables` | config/util/makestrs.c:409-412 | the tables printed one after the other read back as one list, the commas falling where they must |
| `MakeStrs.OneArrayMatches` | config/util/makestrs.c:189-210 | Default and Function ABI: every macro of the header points at exactly its string and a NUL in the array of the source, if and only if there is an entry and all strings are plain |
| `MakeStrs.ArrayPerTableMatches` | config/util/makestrs.c:303-320 | Intel ABI: the same in the array of each table, if and only if moreover no table is empty |
| `MakeStrs.TwoArraysMatch` | config/util/makestrs.c:322-348 | Intel BC ABI: the same if and only if moreover all entries belong to the first two tables |
| `StringTables.IndexTable` | config/util/makestrs.c:624-628 | the inner indexing loop places each entry right behind the last |
| `StringTables.DefaultIndexEntries` | config/util/makestrs.c:631-644 | offsets run on across the tables of a file |
| `StringTables.IntelABIIndexEntries` | config/util/makestrs.c:617-629 | offsets begin anew in each table |
| `StringTables.WriteSourceLine` | config/util/makestrs.c:289-299 | the printed text of one entry |
| `StringTables.WriteTables` | config/util/makestrs.c:409-412 | the nested loops print exactly the text whose reading is stated |
| `ImakeComments.InputIsRewrittenByLines` | config/imake/imake.c:1229-1293 | line by line, exactly the # that begin a line, follow no continued line and begin no directive are replaced, and every other character is kept |
| `ImakeComments.HashLineIsKeptOrHidden` | config/imake/imake.c:1232-1268 | in any text a line that begins with #, blanks and one of the twelve words written out is kept as it is, and any other line that begins with # gets XCOMM in its place, with a blank behind it if there is none |
| `ImakeComments.PlainLineIsKept` | config/imake/imake.c:1232-1232 | and a line that begins otherwise is kept |
| `ImakeComments.DroppedExactlyWhenMarker` | config/imake/imake.c:1344-1359 | of the lines of the output that begin with #, exactly the markers are dropped: #, or # and a blank, perhaps the word line and a blank, a number, and then nothing or a blank and a quote; the others only lose the blanks at their ends |
| `ImakeComments.TokenBecomesHash` | config/imake/imake.c:1363-1371 | in any other line a token XCOMM with a blank or the edge of the line on either side becomes a # |
| `ImakeComments.TrimsBlanks` | config/imake/imake.c:1400-1401 | blanks and tabs at the end are cut off, and nothing else |
| `ImakeComments.CommentComesBack` | config/imake/imake.c:1332-1403 | a comment comes back as it was, but for one blank behind its # and blanks at its end, if and only if its text holds no XCOMM token |
| `ImakeLines.LinesPartition` | config/imake/imake.c:1407-1477 | the lines returned and their ends are the text, without loss |
| `ImakeLines.LinesEndAtBreaks` | config/imake/imake.c:1452-1469 | every line is what stands in front of the first newline or soft end of the text that was left, and ends there; only the last may end with the text |
| `ImakeLines.NewlineEndsLine` | config/imake/imake.c:1461-1468 | a newline ends a line, and what is left of the text is its last line |
| `ImakeLines.SoftEndEndsLine` | config/imake/imake.c:1453-1460 | @@ ends a line at its front, behind a space of any kind, and wherever no slash follows |
| `ImakeLines.SignsInNameStay` | config/imake/imake.c:1454-1455 | behind any other character and in front of a slash it does not |
| `ImakeLines.OutputIsTidy` | config/imake/imake.c:1297-1325 | the output has no two empty lines in a row and no line ending in a blank, and its other lines are the kept ones in order |
| `ImakeLines.GapsAreKept` | config/imake/imake.c:1304-1315 | wherever lines are dropped, at the front of the text, between two kept lines or at its end, one empty line is written for all of them, and none otherwise |
| `ImakeLines.KeptLineIsWritten` | config/imake/imake.c:1304-1320 | a line that is kept is written as it has become, and ended by a newline |
| `ImakeFilter.CleanCppInput` | config/imake/imake.c:1229-1293 | the walk with its pieces written yields the rewritten text, or the file itself when nothing is to be rewritten |
| `ImakeFilter.IsEmpty` | config/imake/imake.c:1332-1403 | the loops over markers, tokens and trailing blanks do what the function says |
| `ImakeFilter.Slurped.ReadLine` | config/imake/imake.c:1452-1476 | each call takes the first line off the buffer, ended by a NUL |
| `ImakeFilter.Slurped.CleanCppOutput` | config/imake/imake.c:1297-1325 | the loop writes exactly the cleaned lines of the whole buffer |
| `XCondition.StepRefines` | include/Xthreads.h:147-172 | every statement keeps the invariant (list without repeats; on the list with count zero, or off it with one release pending; a mutex left by who waits and entered again by who returns) and is one step of an atomic monitor with that mutex, or invisible |
| `XCondition.ExecutionRefines` | include/Xthreads.h:114-172 | every interleaving of any number of threads refines an atomic monitor: a queue on which wait, signal, broadcast and wake are atomic, the mutex given up behind the wait and taken again as it returns, every operation going through all its phases |
| `XCondition.WaitGivesTheMutexBack` | include/Xthreads.h:147-156 | in every run a wait called with the mutex returns with the mutex, entered just as many times as at the call; while it sleeps it has left it once, so that others can enter exactly if the caller was inside only once |
| `XCondition.CanStepExactlyWhen` | include/Xthreads.h:141-172 | in every reachable state a thread in an operation can go on exactly if what its statement waits for has come: the critical section is free, its semaphore has been released, or the mutex is free |
| `XCondition.NoWakeupLostOrSpurious` | include/Xthreads.h:147-172 | in every reachable state a thread past its enqueue is queued with no release pending or off the queue with exactly one, and any other thread has neither |
| `XCondition.CsHolderCanStep` | include/Xthreads.h:157-172 | whoever is inside the critical section can always go on |

## Left out
- IfParser.ParseValue: character constants are answered with an error; the code's reading of them depends on escapes and may run past the text.
- IfParser.NumberLength: the characters that strtol reads with base 0 are modelled, their value and its overflow are part of the given meaning.
- IfPrinter.IfExpressionReadsBack: the meaning of operators is a parameter, so division by zero, which C leaves undefined, has to be given a value by it; both arms of a conditional expression are evaluated, as in the code.
- LineScanner.FilePointer.GetNextLine: the variant that also strips // comments on Win32 and EMX is not modelled; a text that ends in a bare line makes the code read behind its buffer and is excluded.
- ComponentArray.Remove: a trailing slash makes the code run behind the path and is excluded; components are values rather than pointers into the path, which is not overwritten in place; the cache of links found is a fixed predicate.
- MissedLookups.MissLeavesVisibilityAlone: names only; which of several definitions of a name is found afterwards is the subject of LastDefinitions.
- LastDefinitions.DefinitionOutlastsMissExactlyWhen: lookups that miss, on acyclic graphs, and told by entries; two entries may hold equal values, and define2 changes the value of an entry wherever the entry is shared.
- HitLookups.LookupKeepsViewsExactlyWhen: acyclic graphs; where files include one another the exact condition is the one of Visibility.LookupIsHarmlessExactlyWhen, on each fold at the moment it is made, since on a cycle it depends on what earlier folds of the same lookup left.
- StandardMeaning.FileMeaning: one direction; a test that is not quiet may still do no harm, namely when nothing asks for the names it hides before they are defined again.
- TableMeaning.TablesGiveTheMeaning: the meaning reads a header once for all sources, as the program does, so its conditionals and #undefs act in the first source that opens it; for later sources LaterSources says what remains of it. Of an #if expression the names it asks for and its verdict on the answers are given functions, so values of variables are not followed through the tables. A header that includes one still being read is excluded: once read to its end it goes on to see what that one defines later, and may be merged before; so is a source that is also included as a header.
- Directives.IncPathFinds: of an #include that goes through symbols, the tables decide how far it goes, and the values of the symbols are given with the line.
- TableMeaning.LeafUndefIsClean: sufficient only; the exact condition, in TableMeaning.CleanUndefExactly, is on the state that each lookup of the loop starts from, which depends on what the earlier ones have folded.
- DirectiveScan.MakeDepend.FindIncludes: warnings and the flag failOK that only silences them are not modelled, nor is the pseudo type IFGUESSFALSE, which no code produces.
- XCondition.ExecutionRefines: one condition variable; a thread has one waiter record for all of them, so a broadcast that still walks over a released record can be led astray by a wait on another variable.
- CheckTree.FnComp: characters above 127, which compare as negative where char is signed.
- CheckTree.ReportedIffClash: qsort is taken to sort.
- MakeStrs.OneArrayMatches: strings as long as a line of input allows; the SPARC and array-per-string ABIs write no offsets.
- ImakeFilter.Slurped.CleanCppOutput: the two heading lines, carriage returns on Win32, FIXUP_CPP_WHITESPACE and MAGIC_MAKE_VARS.
- Classification of a directive line (config/makedepend/parse.c:90-170): lines come classified. A chain of #include symbols that leads back to itself, on which the program does not end, is cut off where the given values end.
- Alias chains in my_eval_variable (config/makedepend/cppsetup.c:197-216), which do not end when definitions are cyclic: the value of a variable is a given function.
- Line wrapping and the verbose listing in pr, option and @file parsing, the Makefile rewriting of redirect, and all file and process handling of makedepend.
- The other checks of checktree, the parsing of makestrs input, and everything of imake but its text filters.
- Failing malloc and the overflow of C integers.
- Headers of constants and layouts, the set macros of Xpoll.h, and the remaining utilities and scripts.
