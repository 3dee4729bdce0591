/** The source modules that a production build loads: a worklist over files and their resolved imports. */
module Reachability {
  import opened Wrappers

  type Path = string

  /**
   The file tree and what the scan takes from outside it: `imported` reads the specifiers off a source
   text, `base` turns a specifier of a file into a path without extension, or None for a package.
   */
  datatype Tree = Tree(
    files: map<Path, string>,
    directories: set<Path>,
    imported: string -> seq<string>,
    base: (Path, string) -> Option<Path>)

  const EXTENSIONS: seq<string> := ["", ".ts", ".tsx", "/index.ts", "/index.tsx"]

  predicate Exists(tree: Tree, path: Path) {
    path in tree.files || path in tree.directories
  }

  /** The file a path without extension stands for: the first candidate that is a regular file. */
  function FirstFile(tree: Tree, base: Path, extensions: seq<string>): (file: Option<Path>)
    ensures file.Some? ==> file.value in tree.files
  {
    if extensions == [] then None
    else if base + extensions[0] in tree.files then Some(base + extensions[0])
    else FirstFile(tree, base, extensions[1..])
  }

  function ResolveModule(tree: Tree, from: Path, specifier: string): (file: Option<Path>)
    ensures file.Some? ==> file.value in tree.files
  {
    var base := tree.base(from, specifier);
    if base.None? then None else FirstFile(tree, base.value, EXTENSIONS)
  }

  /** An import stands for the first of these files that exists, the path itself before any ending; a package for none. */
  lemma ImportStandsFor(tree: Tree, from: Path, specifier: string)
    ensures
      var base := tree.base(from, specifier);
      ResolveModule(tree, from, specifier)
      == if base.None? then None
         else if base.value in tree.files then Some(base.value)
         else if base.value + ".ts" in tree.files then Some(base.value + ".ts")
         else if base.value + ".tsx" in tree.files then Some(base.value + ".tsx")
         else if base.value + "/index.ts" in tree.files then Some(base.value + "/index.ts")
         else if base.value + "/index.tsx" in tree.files then Some(base.value + "/index.tsx")
         else None
  {
    var base := tree.base(from, specifier);
    if base.Some? {
      var b := base.value;
      assert b + "" == b;
      assert EXTENSIONS[1..] == [".ts", ".tsx", "/index.ts", "/index.tsx"];
      FirstOf(tree, b, "/index.tsx", []);
      FirstOf(tree, b, "/index.ts", ["/index.tsx"]);
      FirstOf(tree, b, ".tsx", ["/index.ts", "/index.tsx"]);
      FirstOf(tree, b, ".ts", [".tsx", "/index.ts", "/index.tsx"]);
      assert ["/index.tsx"] + [] == ["/index.tsx"];
      assert ["/index.ts"] + ["/index.tsx"] == ["/index.ts", "/index.tsx"];
      assert [".tsx"] + ["/index.ts", "/index.tsx"] == [".tsx", "/index.ts", "/index.tsx"];
      assert [".ts"] + [".tsx", "/index.ts", "/index.tsx"] == EXTENSIONS[1..];
    }
  }

  lemma FirstOf(tree: Tree, base: Path, head: string, tail: seq<string>)
    ensures FirstFile(tree, base, [head] + tail) == if base + head in tree.files then Some(base + head) else FirstFile(tree, base, tail)
  {
    assert ([head] + tail)[1..] == tail;
  }

  /** The modules that a file loads, in the order of its imports. */
  function Loads(tree: Tree, specifiers: seq<string>, from: Path): (modules: seq<Path>)
    ensures forall m :: m in modules ==> m in tree.files
    ensures |modules| <= |specifiers|
  {
    if specifiers == [] then []
    else
      var target, rest := ResolveModule(tree, from, specifiers[0]), Loads(tree, specifiers[1..], from);
      if target.Some? then [target.value] + rest else rest
  }

  ghost predicate Imports(tree: Tree, from: Path, to: Path) {
    from in tree.files && to in Loads(tree, tree.imported(tree.files[from]), from)
  }

  // ----- reachability, without an algorithm

  /** A chain of imports from `from` to `to`. */
  ghost predicate Chain(tree: Tree, chain: seq<Path>, from: Path, to: Path) {
    && chain != [] && chain[0] == from && chain[|chain| - 1] == to
    && forall i :: 0 <= i < |chain| - 1 ==> Imports(tree, chain[i], chain[i + 1])
  }

  ghost predicate Connected(tree: Tree, from: Path, to: Path) {
    exists chain :: Chain(tree, chain, from, to)
  }

  /** Some existing entry leads to the module through a chain of imports. */
  ghost predicate Reachable(tree: Tree, entries: seq<Path>, path: Path) {
    exists i :: 0 <= i < |entries| && entries[i] in tree.files && Connected(tree, entries[i], path)
  }

  ghost predicate Closed(tree: Tree, modules: set<Path>) {
    forall from, to :: from in modules && Imports(tree, from, to) ==> to in modules
  }

  ghost predicate HoldsEntries(tree: Tree, entries: seq<Path>, modules: set<Path>) {
    forall i :: 0 <= i < |entries| && entries[i] in tree.files ==> entries[i] in modules
  }

  lemma ConnectedToItself(tree: Tree, path: Path)
    ensures Connected(tree, path, path)
  {
    assert Chain(tree, [path], path, path);
  }

  lemma ReachesOn(tree: Tree, entries: seq<Path>, from: Path, to: Path)
    requires Reachable(tree, entries, from) && Imports(tree, from, to)
    ensures Reachable(tree, entries, to)
  {
    var i :| 0 <= i < |entries| && entries[i] in tree.files && Connected(tree, entries[i], from);
    var chain :| Chain(tree, chain, entries[i], from);
    assert Chain(tree, chain + [to], entries[i], to);
  }

  /** A closed set that holds the start of a chain holds its end. */
  lemma {:induction false} ClosedHoldsChains(tree: Tree, modules: set<Path>, chain: seq<Path>, from: Path, to: Path)
    requires Closed(tree, modules) && from in modules && Chain(tree, chain, from, to)
    ensures to in modules
    decreases |chain|
  {
    if |chain| > 1 {
      assert Imports(tree, chain[0], chain[1]);
      assert Chain(tree, chain[1..], chain[1], to);
      ClosedHoldsChains(tree, modules, chain[1..], chain[1], to);
    }
  }

  /** What entries reach lies in every closed set that holds the existing entries. */
  lemma ReachableIsLeast(tree: Tree, entries: seq<Path>, modules: set<Path>, path: Path)
    requires Closed(tree, modules) && HoldsEntries(tree, entries, modules) && Reachable(tree, entries, path)
    ensures path in modules
  {
    var i :| 0 <= i < |entries| && entries[i] in tree.files && Connected(tree, entries[i], path);
    var chain :| Chain(tree, chain, entries[i], path);
    ClosedHoldsChains(tree, modules, chain, entries[i], path);
  }

  // ----- the worklist

  /** What a seen module loads is seen or waiting. */
  ghost predicate Frontier(tree: Tree, seen: set<Path>, queue: seq<Path>) {
    forall from, to :: from in seen && Imports(tree, from, to) ==> to in seen || to in queue
  }

  /**
   Every module that the entries load, cycles included. Reading a directory throws: the answer is None
   exactly when an entry names a directory.
   */
  method ModulesInTheBuild(tree: Tree, entries: seq<Path>) returns (result: Option<set<Path>>)
    requires tree.files.Keys !! tree.directories
    ensures result.None? <==> exists i :: 0 <= i < |entries| && entries[i] in tree.directories
    ensures result.Some? ==> forall path :: path in result.value <==> Reachable(tree, entries, path)
  {
    hide Reachable, Loads, Connected;
    var seen: set<Path> := {};
    var queue := entries;
    EntriesReachable(tree, entries);
    while queue != []
      invariant seen <= tree.files.Keys
      invariant forall path :: path in seen ==> Reachable(tree, entries, path)
      invariant forall path :: path in queue && path in tree.files ==> Reachable(tree, entries, path)
      invariant forall path :: path in entries && path in tree.files ==> path in seen || path in queue
      invariant forall path :: path in entries && path in tree.directories ==> path in queue
      invariant forall path :: path in queue && path in tree.directories ==> path in entries
      invariant Frontier(tree, seen, queue)
      decreases tree.files.Keys - seen, |queue|
    {
      var next := queue[|queue| - 1];
      ghost var before := queue;
      queue := queue[..|queue| - 1];
      assert before == queue + [next];
      if next in seen || !Exists(tree, next) { continue; }
      if next in tree.directories {
        DirectoryAmongEntries(tree, entries, next);
        return None;
      }
      seen := seen + {next};
      var specifiers := tree.imported(tree.files[next]);
      ghost var popped := queue;
      queue := PushLoads(tree, specifiers, next, queue);
      forall path | path in Loads(tree, specifiers, next)
        ensures Reachable(tree, entries, path)
      {
        ReachesOn(tree, entries, next, path);
      }
    }
    forall path
      ensures path in seen <==> Reachable(tree, entries, path)
    {
      if Reachable(tree, entries, path) {
        ReachableIsLeast(tree, entries, seen, path);
      }
    }
    result := Some(seen);
  }

  lemma EntriesReachable(tree: Tree, entries: seq<Path>)
    ensures forall path :: path in entries && path in tree.files ==> Reachable(tree, entries, path)
  {
    forall path | path in entries && path in tree.files
      ensures Reachable(tree, entries, path)
    {
      ConnectedToItself(tree, path);
    }
  }

  lemma DirectoryAmongEntries(tree: Tree, entries: seq<Path>, path: Path)
    requires path in entries && path in tree.directories
    ensures exists i :: 0 <= i < |entries| && entries[i] in tree.directories
  {
  }

  /** Pushes every module that the specifiers resolve to. */
  method PushLoads(tree: Tree, specifiers: seq<string>, from: Path, queue: seq<Path>) returns (longer: seq<Path>)
    ensures longer == queue + Loads(tree, specifiers, from)
  {
    longer := queue;
    var i := 0;
    while i < |specifiers|
      invariant i <= |specifiers|
      invariant longer + Loads(tree, specifiers[i..], from) == queue + Loads(tree, specifiers, from)
    {
      assert specifiers[i..][1..] == specifiers[i + 1..];
      var target := ResolveModule(tree, from, specifiers[i]);
      if target.Some? { longer := longer + [target.value]; }
      i := i + 1;
    }
    assert longer + [] == longer;
  }

  // ----- what the answer means

  /** The answer is the least set that holds the existing entries and is closed under imports. */
  lemma AnswerIsTheLeastClosedSet(tree: Tree, entries: seq<Path>, modules: set<Path>)
    requires forall path :: path in modules <==> Reachable(tree, entries, path)
    ensures HoldsEntries(tree, entries, modules) && Closed(tree, modules)
    ensures forall other :: HoldsEntries(tree, entries, other) && Closed(tree, other) ==> modules <= other
  {
    EntriesReachable(tree, entries);
    forall from, to | from in modules && Imports(tree, from, to)
      ensures to in modules
    {
      ReachesOn(tree, entries, from, to);
    }
    forall other: set<Path> | HoldsEntries(tree, entries, other) && Closed(tree, other)
      ensures modules <= other
    {
      forall path | path in modules
        ensures path in other
      {
        ReachableIsLeast(tree, entries, other, path);
      }
    }
  }

  /** The order and the repetition of the entries make no difference. */
  lemma EntryOrderIsIrrelevant(tree: Tree, entries: seq<Path>, entries': seq<Path>, path: Path)
    requires forall e :: e in entries ==> e in entries'
    ensures Reachable(tree, entries, path) ==> Reachable(tree, entries', path)
  {
    if Reachable(tree, entries, path) {
      var i :| 0 <= i < |entries| && entries[i] in tree.files && Connected(tree, entries[i], path);
      assert entries[i] in entries';
      var j :| 0 <= j < |entries'| && entries'[j] == entries[i];
    }
  }

  // ----- calls

  datatype ServerFnCall = ServerFnCall(file: Path, exportName: string)

  /** The calls whose module is not in the given set, in order. */
  function CallsOutside(calls: seq<ServerFnCall>, modules: set<Path>): seq<ServerFnCall> {
    if calls == [] then []
    else
      var before, last := CallsOutside(calls[..|calls| - 1], modules), calls[|calls| - 1];
      if last.file in modules then before else before + [last]
  }

  /** The calls whose module no entry reaches, in order. */
  ghost function Unanswered(tree: Tree, calls: seq<ServerFnCall>, entries: seq<Path>): seq<ServerFnCall> {
    if calls == [] then []
    else
      var before, last := Unanswered(tree, calls[..|calls| - 1], entries), calls[|calls| - 1];
      if Reachable(tree, entries, last.file) then before else before + [last]
  }

  lemma {:induction false} OutsideIsUnanswered(tree: Tree, calls: seq<ServerFnCall>, entries: seq<Path>, modules: set<Path>)
    requires forall path :: path in modules <==> Reachable(tree, entries, path)
    ensures CallsOutside(calls, modules) == Unanswered(tree, calls, entries)
  {
    if calls != [] {
      OutsideIsUnanswered(tree, calls[..|calls| - 1], entries, modules);
    }
  }

  /** A call is unanswered as often as it is made, and only when no entry reaches its module. */
  lemma {:induction false} UnansweredCount(tree: Tree, calls: seq<ServerFnCall>, entries: seq<Path>, call: ServerFnCall)
    ensures
      multiset(Unanswered(tree, calls, entries))[call] == if Reachable(tree, entries, call.file) then 0 else multiset(calls)[call]
  {
    if calls != [] {
      UnansweredCount(tree, calls[..|calls| - 1], entries, call);
      assert calls == calls[..|calls| - 1] + [calls[|calls| - 1]];
    }
  }

  /** Reports exactly the calls whose module no entry reaches, in the order they were given. */
  method CallsOutsideTheBuild(tree: Tree, calls: seq<ServerFnCall>, entries: seq<Path>) returns (outside: Option<seq<ServerFnCall>>)
    requires tree.files.Keys !! tree.directories
    ensures outside.None? <==> exists i :: 0 <= i < |entries| && entries[i] in tree.directories
    ensures outside.Some? ==> outside.value == Unanswered(tree, calls, entries)
  {
    var inTheBuild := ModulesInTheBuild(tree, entries);
    if inTheBuild.None? { return None; }
    OutsideIsUnanswered(tree, calls, entries, inTheBuild.value);
    outside := Some(CallsOutside(calls, inTheBuild.value));
  }
}
