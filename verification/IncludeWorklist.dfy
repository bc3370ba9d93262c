/**
 The include-closure worklist that decides which files of a source tree are copied (others/li4.py).

 Files are named by resolved paths inside the source tree.  The file system appears only through
 `Tree`: which paths are files, which include names each file mentions, and how paths are joined.
 */
module IncludeWorklist {
  import opened Options

  datatype Tree = Tree(
    /** The files inside the source tree, with the include names each mentions, in order. */
    files: map<string, seq<string>>,
    /** The resolved path of a name below a directory. */
    join: (string, string) -> string,
    /** The directory a file is in. */
    dirOf: string -> string,
    /** Include prefixes and module roots, in search order. */
    prefixes: seq<string>,
    modules: seq<string>,
    /** Files anywhere, also outside the source tree. */
    isFile: string -> bool)

  // ---------------------------------------------------------------------------------------------
  // Resolving an include name
  // ---------------------------------------------------------------------------------------------

  function JoinAll(t: Tree, dirs: seq<string>, name: string): seq<string> {
    seq(|dirs|, i requires 0 <= i < |dirs| => t.join(dirs[i], name))
  }

  /** Where a name is looked for: next to the including file, below each prefix, below each module root. */
  function Candidates(t: Tree, name: string, from: string): seq<string> {
    [t.join(t.dirOf(from), name)] + JoinAll(t, t.prefixes, name) + JoinAll(t, t.modules, name)
  }

  function FirstFile(t: Tree, paths: seq<string>): Option<string> {
    if paths == [] then None else if t.isFile(paths[0]) then Some(paths[0]) else FirstFile(t, paths[1..])
  }

  /** The file a name stands for in the given file: the first candidate that exists, if it is in the tree. */
  function Resolve(t: Tree, name: string, from: string): Option<string> {
    var found := FirstFile(t, Candidates(t, name, from));
    if found.Some? && found.value in t.files then found else None
  }

  lemma {:induction false} FirstFileConcat(t: Tree, a: seq<string>, b: seq<string>)
    ensures FirstFile(t, a + b) == if FirstFile(t, a).Some? then FirstFile(t, a) else FirstFile(t, b)
    decreases |a|
  {
    if a == [] {
      assert a + b == b;
    } else {
      assert (a + b)[1..] == a[1..] + b;
      FirstFileConcat(t, a[1..], b);
    }
  }

  lemma {:induction false} FirstFileIsLeast(t: Tree, paths: seq<string>, i: nat)
    requires i <= |paths| && (forall j :: 0 <= j < i ==> !t.isFile(paths[j])) && (i < |paths| ==> t.isFile(paths[i]))
    ensures FirstFile(t, paths) == if i < |paths| then Some(paths[i]) else None
    decreases |paths|
  {
    if i == 0 {
    } else {
      FirstFileIsLeast(t, paths[1..], i - 1);
    }
  }

  /** A file found counts only inside the tree. */
  function InTree(t: Tree, path: string): Option<string> {
    if path in t.files then Some(path) else None
  }

  /** None of the directories has a file of that name. */
  ghost predicate NoneIn(t: Tree, dirs: seq<string>, name: string) {
    forall i :: 0 <= i < |dirs| ==> !t.isFile(t.join(dirs[i], name))
  }

  /** The i-th directory is the first that has a file of that name. */
  ghost predicate FirstIn(t: Tree, dirs: seq<string>, name: string, i: nat) {
    i < |dirs| && t.isFile(t.join(dirs[i], name)) && NoneIn(t, dirs[..i], name)
  }

  /**
   The order of precedence: the file beside the including one, then the first include prefix that has the
   file, then the first module root that has it; outside the tree it is not looked for further.
   */
  lemma ResolvePrecedence(t: Tree, name: string, from: string, i: nat)
    ensures var beside := t.join(t.dirOf(from), name);
            && (t.isFile(beside) ==> Resolve(t, name, from) == InTree(t, beside))
            && (!t.isFile(beside) && FirstIn(t, t.prefixes, name, i) ==>
                  Resolve(t, name, from) == InTree(t, t.join(t.prefixes[i], name)))
            && (!t.isFile(beside) && NoneIn(t, t.prefixes, name) && FirstIn(t, t.modules, name, i) ==>
                  Resolve(t, name, from) == InTree(t, t.join(t.modules[i], name)))
            && (!t.isFile(beside) && NoneIn(t, t.prefixes, name) && NoneIn(t, t.modules, name) ==>
                  Resolve(t, name, from) == None)
  {
    var beside := t.join(t.dirOf(from), name);
    FirstFileConcat(t, [beside] + JoinAll(t, t.prefixes, name), JoinAll(t, t.modules, name));
    FirstFileConcat(t, [beside], JoinAll(t, t.prefixes, name));
    assert FirstFile(t, [beside]) == if t.isFile(beside) then Some(beside) else None;
    SearchedDirs(t, t.prefixes, name, i);
    SearchedDirs(t, t.modules, name, i);
  }

  lemma SearchedDirs(t: Tree, dirs: seq<string>, name: string, i: nat)
    ensures FirstIn(t, dirs, name, i) ==> FirstFile(t, JoinAll(t, dirs, name)) == Some(t.join(dirs[i], name))
    ensures NoneIn(t, dirs, name) ==> FirstFile(t, JoinAll(t, dirs, name)) == None
  {
    var paths := JoinAll(t, dirs, name);
    if FirstIn(t, dirs, name, i) {
      forall j | 0 <= j < i ensures !t.isFile(paths[j]) { assert dirs[..i][j] == dirs[j]; }
      FirstFileIsLeast(t, paths, i);
    }
    if NoneIn(t, dirs, name) { FirstFileIsLeast(t, paths, |paths|); }
  }

  method SearchDirs(t: Tree, dirs: seq<string>, name: string) returns (found: Option<string>)
    ensures found == FirstFile(t, JoinAll(t, dirs, name))
  {
    var all := JoinAll(t, dirs, name);
    for i := 0 to |dirs|
      invariant FirstFile(t, all) == FirstFile(t, all[i..])
    {
      var candidate := t.join(dirs[i], name);
      assert all[i..][0] == candidate && all[i..][1..] == all[i + 1..];
      if t.isFile(candidate) {
        return Some(candidate);
      }
    }
    return None;
  }

  method ResolveInclude(t: Tree, name: string, from: string) returns (r: Option<string>)
    ensures r == Resolve(t, name, from)
  {
    var beside := t.join(t.dirOf(from), name);
    var found := if t.isFile(beside) then Some(beside) else None;
    FirstFileConcat(t, [beside] + JoinAll(t, t.prefixes, name), JoinAll(t, t.modules, name));
    FirstFileConcat(t, [beside], JoinAll(t, t.prefixes, name));
    assert FirstFile(t, [beside]) == found;
    if found.None? {
      found := SearchDirs(t, t.prefixes, name);
    }
    if found.None? {
      found := SearchDirs(t, t.modules, name);
    }
    return if found.Some? && found.value in t.files then found else None;
  }

  // ---------------------------------------------------------------------------------------------
  // The worklist
  // ---------------------------------------------------------------------------------------------

  datatype State = State(
    /** Include names already resolved. */
    visited: set<string>,
    /** Files waiting to be scanned. */
    queue: seq<string>,
    /** Files present in the destination. */
    dest: set<string>,
    /** Files copied by this run. */
    copied: nat,
    /** Files scanned so far. */
    processed: set<string>)

  function Copy(s: State, path: string): State {
    if path in s.dest then s else s.(dest := s.dest + {path}, copied := s.copied + 1)
  }

  /** resolve_and_copy, for one include name of one file. */
  function Include(t: Tree, from: string, name: string, s: State): State {
    var path := Resolve(t, name, from);
    if name in s.visited || path.None? then s
    else
      var s' := Copy(s.(visited := s.visited + {name}), path.value);
      if path.value in s'.queue then s' else s'.(queue := s'.queue + [path.value])
  }

  function IncludeAll(t: Tree, from: string, names: seq<string>, s: State): State {
    if names == [] then s
    else Include(t, from, names[|names| - 1], IncludeAll(t, from, names[..|names| - 1], s))
  }

  function NamesIn(t: Tree, path: string): seq<string> {
    if path in t.files then t.files[path] else []
  }

  /** One turn of the loop: take the first file off the queue, copy it, follow its includes. */
  function Step(t: Tree, s: State): State
    requires s.queue != []
  {
    var path := s.queue[0];
    var s' := Copy(s.(queue := s.queue[1..], processed := s.processed + {path}), path);
    IncludeAll(t, path, NamesIn(t, path), s')
  }

  /** Every include name that occurs in the tree. */
  function AllNames(t: Tree): set<string> {
    set path, name | path in t.files && name in t.files[path] :: name
  }

  /** Following includes only adds: new names to `visited`, and no more than that many files to the queue. */
  lemma {:induction false} IncludeAllGrows(t: Tree, from: string, names: seq<string>, s: State)
    requires forall n :: n in names ==> n in AllNames(t)
    ensures var s' := IncludeAll(t, from, names, s);
            && s.visited <= s'.visited <= s.visited + AllNames(t)
            && (s'.visited == s.visited ==> s' == s)
            && s'.processed == s.processed
    decreases |names|
  {
    if names == [] {
    } else {
      IncludeAllGrows(t, from, names[..|names| - 1], s);
    }
  }

  /** Each turn resolves a new name, or else leaves the queue one file shorter. */
  lemma StepDecreases(t: Tree, s: State)
    requires s.queue != []
    ensures var s' := Step(t, s);
            && AllNames(t) - s'.visited <= AllNames(t) - s.visited
            && (AllNames(t) - s'.visited == AllNames(t) - s.visited ==> |s'.queue| < |s.queue|)
  {
    var path := s.queue[0];
    var s0 := Copy(s.(queue := s.queue[1..], processed := s.processed + {path}), path);
    IncludeAllGrows(t, path, NamesIn(t, path), s0);
    var s' := Step(t, s);
    if AllNames(t) - s'.visited == AllNames(t) - s.visited {
      assert s'.visited == s.visited;
    }
  }

  /** The state in which the loop ends. */
  function Drain(t: Tree, s: State): State
    decreases AllNames(t) - s.visited, |s.queue|
  {
    if s.queue == [] then s
    else
      StepDecreases(t, s);
      Drain(t, Step(t, s))
  }

  function Initial(roots: seq<string>, dest: set<string>): State {
    State({}, roots, dest, 0, {})
  }

  /** The loop over the include names of one file. */
  method FollowIncludes(t: Tree, path: string, names: seq<string>, before: State) returns (s: State)
    ensures s == IncludeAll(t, path, names, before)
  {
    s := before;
    for i := 0 to |names|
      invariant s == IncludeAll(t, path, names[..i], before)
    {
      var resolved := ResolveInclude(t, names[i], path);
      assert names[..i + 1][..i] == names[..i];
      if names[i] !in s.visited && resolved.Some? {
        s := Copy(s.(visited := s.visited + {names[i]}), resolved.value);
        if resolved.value !in s.queue {
          s := s.(queue := s.queue + [resolved.value]);
        }
      }
    }
    assert names[..|names|] == names;
  }

  /**
   copy_module_tree, from a given order of the root files and a given destination directory: the run
   ends, with every root scanned, the scanned files copied and counted, and every include settled.
   */
  method CopyModuleTree(t: Tree, roots: seq<string>, dest: set<string>) returns (s: State)
    ensures s == Drain(t, Initial(roots, dest)) && s.queue == []
    ensures forall r :: r in roots ==> r in s.processed
    ensures s.dest == dest + s.processed && s.copied == |s.dest| - |dest|
    ensures NamesClosed(t, s.processed)
  {
    s := Initial(roots, dest);
    while s.queue != []
      invariant Drain(t, s) == Drain(t, Initial(roots, dest))
      decreases AllNames(t) - s.visited, |s.queue|
    {
      StepDecreases(t, s);
      ghost var before := s;
      var path := s.queue[0];
      s := Copy(s.(queue := s.queue[1..], processed := s.processed + {path}), path);
      s := FollowIncludes(t, path, NamesIn(t, path), s);
      assert s == Step(t, before);
    }
    RunCloses(t, roots, dest);
  }

  // ---------------------------------------------------------------------------------------------
  // What every turn keeps
  // ---------------------------------------------------------------------------------------------

  /** The file has been scanned or is waiting to be. */
  ghost predicate Known(s: State, path: string) {
    path in s.processed || path in s.queue
  }

  /** Some scanned file resolves the name to a file that is copied and known. */
  ghost predicate Witnessed(t: Tree, s: State, name: string) {
    exists from :: from in s.processed && name in NamesIn(t, from) && ResolvesTo(t, s, name, from)
  }

  ghost predicate ResolvesTo(t: Tree, s: State, name: string, from: string) {
    var path := Resolve(t, name, from);
    path.Some? && Known(s, path.value) && path.value in s.dest
  }

  ghost predicate Consistent(t: Tree, roots: seq<string>, dest: set<string>, s: State) {
    && (forall r :: r in roots ==> Known(s, r))
    && (forall n :: n in s.visited ==> Witnessed(t, s, n))
    && s.processed <= s.dest && dest <= s.dest
    && (forall p :: p in s.dest ==> p in dest || Known(s, p))
    && s.copied + |dest| == |s.dest|
  }

  /** The name needs no more work: it has been resolved somewhere, or does not resolve here. */
  ghost predicate Settled(t: Tree, s: State, name: string, from: string) {
    name in s.visited || Resolve(t, name, from).None?
  }

  /** Every scanned file has all its includes settled. */
  ghost predicate AllSettled(t: Tree, s: State) {
    forall from, name :: from in s.processed && name in NamesIn(t, from) ==> Settled(t, s, name, from)
  }

  lemma WitnessKept(t: Tree, s: State, s': State, name: string)
    requires Witnessed(t, s, name)
    requires s.processed <= s'.processed && s.dest <= s'.dest && forall p :: Known(s, p) ==> Known(s', p)
    ensures Witnessed(t, s', name)
  {
    var from :| from in s.processed && name in NamesIn(t, from) && ResolvesTo(t, s, name, from);
    assert ResolvesTo(t, s', name, from);
  }

  lemma IncludeKeeps(t: Tree, roots: seq<string>, dest: set<string>, from: string, name: string, s: State)
    requires Consistent(t, roots, dest, s) && from in s.processed && name in NamesIn(t, from)
    ensures var s' := Include(t, from, name, s);
            && Consistent(t, roots, dest, s') && Settled(t, s', name, from)
            && s.visited <= s'.visited && s'.processed == s.processed
  {
    var s' := Include(t, from, name, s);
    forall n | n in s'.visited ensures Witnessed(t, s', n) {
      if n in s.visited {
        WitnessKept(t, s, s', n);
      } else {
        assert ResolvesTo(t, s', name, from);
      }
    }
  }

  lemma SettledKept(t: Tree, from: string, names: seq<string>, mid: State, s': State)
    requires names != [] && mid.visited <= s'.visited && Settled(t, s', names[|names| - 1], from)
    requires forall n :: n in names[..|names| - 1] ==> Settled(t, mid, n, from)
    ensures forall n :: n in names ==> Settled(t, s', n, from)
  {
    forall n | n in names ensures Settled(t, s', n, from) {
      var i :| 0 <= i < |names| && names[i] == n;
      if i < |names| - 1 { assert names[..|names| - 1][i] == n && Settled(t, mid, n, from); }
    }
  }

  lemma {:induction false} IncludeAllKeeps(t: Tree, roots: seq<string>, dest: set<string>, from: string,
                                           names: seq<string>, s: State)
    requires Consistent(t, roots, dest, s) && from in s.processed && forall n :: n in names ==> n in NamesIn(t, from)
    ensures var s' := IncludeAll(t, from, names, s);
            && Consistent(t, roots, dest, s') && (forall n :: n in names ==> Settled(t, s', n, from))
            && s.visited <= s'.visited && s'.processed == s.processed
    decreases |names|
  {
    if names == [] {
    } else {
      var k := |names| - 1;
      var mid := IncludeAll(t, from, names[..k], s);
      IncludeAllKeeps(t, roots, dest, from, names[..k], s);
      IncludeKeeps(t, roots, dest, from, names[k], mid);
      SettledKept(t, from, names, mid, IncludeAll(t, from, names, s));
    }
  }

  lemma StepKeeps(t: Tree, roots: seq<string>, dest: set<string>, s: State)
    requires s.queue != [] && Consistent(t, roots, dest, s) && AllSettled(t, s)
    ensures Consistent(t, roots, dest, Step(t, s)) && AllSettled(t, Step(t, s))
  {
    var path := s.queue[0];
    var popped := Copy(s.(queue := s.queue[1..], processed := s.processed + {path}), path);
    forall p | Known(s, p) ensures Known(popped, p) { }
    forall n | n in popped.visited ensures Witnessed(t, popped, n) { WitnessKept(t, s, popped, n); }
    IncludeAllKeeps(t, roots, dest, path, NamesIn(t, path), popped);
  }

  lemma {:induction false} DrainKeeps(t: Tree, roots: seq<string>, dest: set<string>, s: State)
    requires Consistent(t, roots, dest, s) && AllSettled(t, s)
    ensures Consistent(t, roots, dest, Drain(t, s)) && AllSettled(t, Drain(t, s)) && Drain(t, s).queue == []
    decreases AllNames(t) - s.visited, |s.queue|
  {
    if s.queue == [] {
    } else {
      StepDecreases(t, s);
      StepKeeps(t, roots, dest, s);
      DrainKeeps(t, roots, dest, Step(t, s));
    }
  }

  // ---------------------------------------------------------------------------------------------
  // What the whole run achieves
  // ---------------------------------------------------------------------------------------------

  /**
   When the run ends, every root has been scanned, the destination holds what it held before and the
   scanned files, counted exactly; and each include of a scanned file either does not resolve there
   or has been resolved, from some scanned file, to a scanned file.
   */
  lemma RunCloses(t: Tree, roots: seq<string>, dest: set<string>)
    ensures var s := Drain(t, Initial(roots, dest));
            && (forall r :: r in roots ==> r in s.processed)
            && s.dest == dest + s.processed && s.copied == |s.dest| - |dest|
            && NamesClosed(t, s.processed)
  {
    var s := Drain(t, Initial(roots, dest));
    DrainKeeps(t, roots, dest, Initial(roots, dest));
    forall r | r in roots ensures r in s.processed { assert Known(s, r); }
    forall p | p in s.dest ensures p in dest || p in s.processed { assert p in dest || Known(s, p); }
    forall from, name | from in s.processed && name in NamesIn(t, from)
      ensures Resolve(t, name, from).None? || ResolvedSomewhere(t, s.processed, name)
    {
      assert Settled(t, s, name, from);
      if name in s.visited {
        var g :| g in s.processed && name in NamesIn(t, g) && ResolvesTo(t, s, name, g);
        assert ResolvedFrom(t, s.processed, name, g);
      }
    }
  }

  ghost predicate ResolvedFrom(t: Tree, files: set<string>, name: string, from: string) {
    name in NamesIn(t, from) && Resolve(t, name, from).Some? && Resolve(t, name, from).value in files
  }

  ghost predicate ResolvedSomewhere(t: Tree, files: set<string>, name: string) {
    exists from :: from in files && ResolvedFrom(t, files, name, from)
  }

  /** Each include of one of the files does not resolve there, or resolves from some file of the set to one in it. */
  ghost predicate NamesClosed(t: Tree, files: set<string>) {
    forall from, name :: from in files && name in NamesIn(t, from) ==>
      Resolve(t, name, from).None? || ResolvedSomewhere(t, files, name)
  }

  /** A set of files that holds every file one of its files includes. */
  ghost predicate Closed(t: Tree, files: set<string>) {
    forall from, name :: from in files && name in NamesIn(t, from) && Resolve(t, name, from).Some? ==>
      Resolve(t, name, from).value in files
  }

  ghost predicate Within(s: State, files: set<string>) {
    s.processed <= files && forall p :: p in s.queue ==> p in files
  }

  lemma {:induction false} IncludeAllWithin(t: Tree, from: string, names: seq<string>, s: State, files: set<string>)
    requires Closed(t, files) && Within(s, files) && from in files && forall n :: n in names ==> n in NamesIn(t, from)
    ensures Within(IncludeAll(t, from, names, s), files)
    decreases |names|
  {
    if names == [] {
    } else {
      IncludeAllWithin(t, from, names[..|names| - 1], s, files);
    }
  }

  /** Nothing is scanned but what includes lead to from the roots: the run stays in every closed set around them. */
  lemma {:induction false} DrainWithin(t: Tree, s: State, files: set<string>)
    requires Closed(t, files) && Within(s, files)
    ensures Drain(t, s).processed <= files
    decreases AllNames(t) - s.visited, |s.queue|
  {
    if s.queue == [] {
    } else {
      var path := s.queue[0];
      StepDecreases(t, s);
      IncludeAllWithin(t, path, NamesIn(t, path),
                       Copy(s.(queue := s.queue[1..], processed := s.processed + {path}), path), files);
      DrainWithin(t, Step(t, s), files);
    }
  }

  // ---------------------------------------------------------------------------------------------
  // The run and the include closure
  // ---------------------------------------------------------------------------------------------

  /** A closed set around the roots. */
  ghost predicate Around(t: Tree, roots: seq<string>, files: set<string>) {
    Closed(t, files) && forall r :: r in roots ==> r in files
  }

  /** The include closure of the roots: the least closed set around them. */
  ghost predicate IsClosure(t: Tree, roots: seq<string>, files: set<string>) {
    Around(t, roots, files) && forall other :: Around(t, roots, other) ==> files <= other
  }

  lemma ClosureExists(t: Tree, roots: seq<string>) returns (files: set<string>)
    ensures IsClosure(t, roots, files)
  {
    var all := t.files.Keys + set r | r in roots;
    assert Around(t, roots, all);
    files := set p | p in all && forall other :: Around(t, roots, other) ==> p in other;
  }

  /** In file `from` the name means the file p. */
  ghost predicate Means(t: Tree, from: string, name: string, p: string) {
    name in NamesIn(t, from) && Resolve(t, name, from) == Some(p)
  }

  /** No two of the files mean different files by the same include name. */
  ghost predicate NoNameClash(t: Tree, files: set<string>) {
    forall f, g, name, p, q :: f in files && g in files && Means(t, f, name, p) && Means(t, g, name, q) ==> p == q
  }

  /**
   Without name clashes inside some closed set around the roots, whatever the rest of the tree holds, the
   scanned files are exactly the include closure of the roots.
   */
  lemma RunIsExactClosure(t: Tree, roots: seq<string>, dest: set<string>, area: set<string>)
    requires Around(t, roots, area) && NoNameClash(t, area)
    ensures IsClosure(t, roots, Drain(t, Initial(roots, dest)).processed)
  {
    var files := Drain(t, Initial(roots, dest)).processed;
    RunCloses(t, roots, dest);
    DrainWithin(t, Initial(roots, dest), area);
    forall from, name | from in files && name in NamesIn(t, from) && Resolve(t, name, from).Some?
      ensures Resolve(t, name, from).value in files
    {
      var g :| g in files && ResolvedFrom(t, files, name, g);
      assert Means(t, from, name, Resolve(t, name, from).value) && Means(t, g, name, Resolve(t, name, g).value);
    }
    forall other | Around(t, roots, other) ensures files <= other { DrainWithin(t, Initial(roots, dest), other); }
  }

  /** Within these files, the only name for p is `name`. */
  ghost predicate OnlyName(t: Tree, files: set<string>, name: string, p: string) {
    forall from, other :: from in files && Means(t, from, other, p) ==> other == name
  }

  ghost predicate MeantIn(t: Tree, files: set<string>, name: string, p: string) {
    exists from :: from in files && Means(t, from, name, p)
  }

  /** `led` is the file each visited name led to; every known file is a root or was led to. */
  ghost predicate LedBy(t: Tree, roots: seq<string>, s: State, led: map<string, string>) {
    && led.Keys == s.visited
    && (forall n :: n in led ==> MeantIn(t, s.processed, n, led[n]))
    && forall p :: Known(s, p) && p !in roots ==> p in led.Values
  }

  lemma IncludeLed(t: Tree, roots: seq<string>, from: string, name: string, s: State, led: map<string, string>)
    returns (led': map<string, string>)
    requires LedBy(t, roots, s, led) && from in s.processed && name in NamesIn(t, from)
    ensures LedBy(t, roots, Include(t, from, name, s), led') && Include(t, from, name, s).processed == s.processed
  {
    var path := Resolve(t, name, from);
    led' := led;
    if name !in s.visited && path.Some? {
      led' := led[name := path.value];
      assert Means(t, from, name, path.value);
      forall p | Known(Include(t, from, name, s), p) && p !in roots ensures p in led'.Values {
        if p == path.value {
          assert led'[name] == p;
        } else {
          assert Known(s, p);
          var n :| n in led && led[n] == p;
          assert led'[n] == p;
        }
      }
    }
  }

  lemma {:induction false} IncludeAllLed(t: Tree, roots: seq<string>, from: string, names: seq<string>, s: State,
                                         led: map<string, string>) returns (led': map<string, string>)
    requires LedBy(t, roots, s, led) && from in s.processed && forall n :: n in names ==> n in NamesIn(t, from)
    ensures LedBy(t, roots, IncludeAll(t, from, names, s), led') && IncludeAll(t, from, names, s).processed == s.processed
    decreases |names|
  {
    led' := led;
    if names == [] {
    } else {
      var k := |names| - 1;
      led' := IncludeAllLed(t, roots, from, names[..k], s, led);
      led' := IncludeLed(t, roots, from, names[k], IncludeAll(t, from, names[..k], s), led');
    }
  }

  lemma {:induction false} DrainLed(t: Tree, roots: seq<string>, s: State, led: map<string, string>)
    returns (led': map<string, string>)
    requires LedBy(t, roots, s, led)
    ensures LedBy(t, roots, Drain(t, s), led')
    decreases AllNames(t) - s.visited, |s.queue|
  {
    led' := led;
    if s.queue == [] {
    } else {
      var path := s.queue[0];
      var popped := Copy(s.(queue := s.queue[1..], processed := s.processed + {path}), path);
      forall n | n in led ensures MeantIn(t, popped.processed, n, led[n]) {
        var from :| from in s.processed && Means(t, from, n, led[n]);
        assert from in popped.processed;
      }
      forall p | Known(popped, p) ensures Known(s, p) { }
      led' := IncludeAllLed(t, roots, path, NamesIn(t, path), popped, led);
      StepDecreases(t, s);
      led' := DrainLed(t, roots, Step(t, s), led');
    }
  }

  /** One name leads to one file: of two files that have only this name, and are no roots, the run scans at most one. */
  lemma OneFilePerName(t: Tree, roots: seq<string>, dest: set<string>, name: string, p: string, q: string)
    requires var files := Drain(t, Initial(roots, dest)).processed;
             && p in files && q in files && p !in roots && q !in roots
             && OnlyName(t, files, name, p) && OnlyName(t, files, name, q)
    ensures p == q
  {
    var s := Drain(t, Initial(roots, dest));
    var led := DrainLed(t, roots, Initial(roots, dest), map[]);
    assert Known(s, p) && Known(s, q);
    var n :| n in led && led[n] == p;
    var k :| k in led && led[k] == q;
    assert MeantIn(t, s.processed, n, led[n]) && MeantIn(t, s.processed, k, led[k]);
  }

  /** Two different files that some of these files mean by one name are no roots and have no other name. */
  ghost predicate ClashesHaveNoAliases(t: Tree, roots: seq<string>, files: set<string>) {
    forall f, g, name, p, q :: f in files && g in files && Means(t, f, name, p) && Means(t, g, name, q) && p != q ==>
      && p !in roots && OnlyName(t, files, name, p)
      && q !in roots && OnlyName(t, files, name, q)
  }

  /** Where clashing files have no aliases, the run scans exactly the include closure if and only if no names clash in it. */
  lemma ExactClosureIff(t: Tree, roots: seq<string>, dest: set<string>, area: set<string>)
    requires IsClosure(t, roots, area) && ClashesHaveNoAliases(t, roots, area)
    ensures Drain(t, Initial(roots, dest)).processed == area <==> NoNameClash(t, area)
  {
    var files := Drain(t, Initial(roots, dest)).processed;
    if NoNameClash(t, area) {
      RunIsExactClosure(t, roots, dest, area);
      assert files <= area && area <= files;
    }
    if files == area {
      forall f, g, name, p, q | f in area && g in area && Means(t, f, name, p) && Means(t, g, name, q) ensures p == q {
        if p != q { OneFilePerName(t, roots, dest, name, p, q); }
      }
    }
  }

  /**
   With a name clash the run need not be closed: when two roots mean different files p and q by the one
   name they include, and p includes nothing, q is neither scanned nor copied.
   */
  lemma NameClashMissesFile(t: Tree, x: string, y: string, h: string, p: string, q: string)
    requires x != y && p != x && p != y && q != x && q != y && q != p
    requires NamesIn(t, x) == [h] && NamesIn(t, y) == [h] && NamesIn(t, p) == []
    requires Resolve(t, h, x) == Some(p) && Resolve(t, h, y) == Some(q)
    ensures var s := Drain(t, Initial([x, y], {}));
            s.processed == {x, y, p} && s.dest == {x, y, p} && !Closed(t, s.processed)
  {
    var s0 := Initial([x, y], {});
    SingleInclude(t, x, h, State({}, [y], {x}, 1, {x}));
    assert s0.queue[1..] == [y] && s0.processed + {x} == {x} && s0.dest + {x} == {x};
    var s1 := Step(t, s0);
    assert s1 == State({h}, [y, p], {x, p}, 2, {x});
    SingleInclude(t, y, h, State({h}, [p], {x, p} + {y}, 3, {x} + {y}));
    assert s1.queue[1..] == [p];
    var s2 := Step(t, s1);
    assert s2 == State({h}, [p], {x, p} + {y}, 3, {x} + {y});
    var s3 := Step(t, s2);
    assert s3.queue == [] && s3.processed == {x, y, p} && s3.dest == {x, y, p};
    assert Drain(t, s3) == s3 && Drain(t, s2) == Drain(t, s3) && Drain(t, s1) == Drain(t, s2) && Drain(t, s0) == Drain(t, s1);
    assert h in NamesIn(t, y);
  }

  /** The directory part of a path. */
  function DirOf(path: string): string {
    if path == "" then ""
    else if path[|path| - 1] == '/' then path[..|path| - 1]
    else DirOf(path[..|path| - 1])
  }

  /** A tree of files with nothing outside it, without include prefixes and module roots. */
  function PlainTree(files: map<string, seq<string>>): Tree {
    Tree(files, (dir, name) => dir + "/" + name, DirOf, [], [], path => path in files)
  }

  lemma DirOfOneDeep(dir: char, name: char)
    requires dir != '/' && name != '/'
    ensures DirOf([dir, '/', name]) == [dir]
  {
    assert [dir, '/', name][..2] == [dir, '/'] && [dir, '/'][..1] == [dir];
  }

  /** Such a tree: a/x and b/y both include "h", and a header of that name lies next to each of them. */
  lemma NameClashHappens()
    ensures var t := PlainTree(map["a/x" := ["h"], "b/y" := ["h"], "a/h" := [], "b/h" := []]);
            var s := Drain(t, Initial(["a/x", "b/y"], {}));
            Means(t, "b/y", "h", "b/h") && "b/y" in s.processed && "b/h" !in s.dest
  {
    var t := PlainTree(map["a/x" := ["h"], "b/y" := ["h"], "a/h" := [], "b/h" := []]);
    DirOfOneDeep('a', 'x');
    DirOfOneDeep('b', 'y');
    assert "a/x" != "b/y" && "a/h" != "a/x" && "a/h" != "b/y" && "b/h" != "a/x" && "b/h" != "b/y" && "b/h"[0] != "a/h"[0];
    assert Candidates(t, "h", "a/x")[0] == "a/h" && Candidates(t, "h", "b/y")[0] == "b/h";
    NameClashMissesFile(t, "a/x", "b/y", "h", "a/h", "b/h");
  }

  lemma SingleInclude(t: Tree, from: string, name: string, s: State)
    ensures IncludeAll(t, from, [name], s) == Include(t, from, name, s)
  {
    assert [name][..0] == [];
  }
}
