/**
 Which modules a toolchain pass must set aside: the import-graph search of
 crates/aion-cli/src/generate.rs.
 */
module Imports {
  import opened Seqs

  datatype Source = Source(file: string, imports: seq<string>)

  type Graph = map<string, Source>

  // ----- reachability by import chains -----

  ghost predicate Links(graph: Graph, m: string, n: string) {
    m in graph && n in graph[m].imports
  }

  /** A non-empty chain of imports. */
  ghost predicate Chain(graph: Graph, p: seq<string>) {
    && |p| >= 2
    && forall i :: 0 <= i < |p| - 1 ==> Links(graph, p[i], p[i + 1])
  }

  ghost predicate LeadsFromTo(graph: Graph, p: seq<string>, m: string, target: string) {
    Chain(graph, p) && p[0] == m && p[|p| - 1] == target
  }

  ghost predicate Reachable(graph: Graph, m: string, target: string) {
    exists p :: LeadsFromTo(graph, p, m, target)
  }

  // ----- the search as written -----

  /** The search with `path` holding the modules on the current path. */
  ghost predicate Found(graph: Graph, m: string, target: string, path: set<string>)
    decreases graph.Keys - path
  {
    && m in graph
    && (|| target in graph[m].imports
        || (m !in path && exists n :: n in graph[m].imports && Found(graph, n, target, path + {m})))
  }

  class ImportSearch {
    const graph: Graph
    var stack: seq<string>

    constructor (graph: Graph)
      ensures this.graph == graph && stack == []
    {
      this.graph := graph;
      stack := [];
    }

    /** Depth-first search that refuses to re-enter a module of the current path. */
    method Reaches(m: string, target: string) returns (found: bool)
      modifies this
      ensures stack == old(stack)
      ensures found == Found(graph, m, target, Elements(stack))
      decreases graph.Keys - Elements(stack)
    {
      if m !in graph {
        return false;
      }
      var imports := graph[m].imports;
      if target in imports {
        return true;
      }
      if m in stack {
        return false;
      }
      ghost var path := Elements(stack);
      stack := stack + [m];
      assert Elements(stack) == path + {m};
      found := false;
      var i := 0;
      while i < |imports| && !found
        invariant 0 <= i <= |imports| && stack == old(stack) + [m]
        invariant found <==> exists k :: 0 <= k < i && Found(graph, imports[k], target, path + {m})
      {
        found := Reaches(imports[i], target);
        i := i + 1;
      }
      stack := stack[..|stack| - 1];
    }
  }

  /** Whatever the search finds is the end of a real chain. */
  lemma {:induction false} FoundHasChain(graph: Graph, m: string, target: string, path: set<string>)
    returns (p: seq<string>)
    requires Found(graph, m, target, path)
    ensures LeadsFromTo(graph, p, m, target)
    decreases graph.Keys - path
  {
    if target in graph[m].imports {
      p := [m, target];
      assert Links(graph, p[0], p[1]);
    } else {
      var n :| n in graph[m].imports && Found(graph, n, target, path + {m});
      var rest := FoundHasChain(graph, n, target, path + {m});
      p := [m] + rest;
      forall i | 0 <= i < |p| - 1 ensures Links(graph, p[i], p[i + 1]) {
        if i > 0 {
          assert Links(graph, rest[i - 1], rest[i]);
        }
      }
    }
  }

  lemma ChainSuffix(graph: Graph, p: seq<string>, i: nat)
    requires Chain(graph, p) && i < |p| - 1
    ensures Chain(graph, p[i..])
  {
    forall j | 0 <= j < |p[i..]| - 1 ensures Links(graph, p[i..][j], p[i..][j + 1]) {
      assert Links(graph, p[i + j], p[i + j + 1]);
    }
  }

  /** A chain whose inner modules avoid the path is found; a chain that revisits its start is shortened. */
  lemma {:induction false} ChainIsFound(graph: Graph, p: seq<string>, m: string, target: string, path: set<string>)
    requires LeadsFromTo(graph, p, m, target)
    requires forall i :: 0 <= i < |p| - 1 ==> p[i] !in path
    ensures Found(graph, m, target, path)
    decreases |p|
  {
    assert Links(graph, p[0], p[1]);
    if |p| > 2 {
      if i :| 1 <= i < |p| - 1 && p[i] == m {
        ChainSuffix(graph, p, i);
        ChainIsFound(graph, p[i..], m, target, path);
      } else {
        ChainSuffix(graph, p, 1);
        ChainIsFound(graph, p[1..], p[1], target, path + {m});
      }
    }
  }

  /** Started with an empty path, the search answers true exactly for reachable targets. */
  lemma {:induction false} SearchIsReachability(graph: Graph, m: string, target: string)
    ensures Found(graph, m, target, {}) <==> Reachable(graph, m, target)
  {
    if Found(graph, m, target, {}) {
      var p := FoundHasChain(graph, m, target, {});
    }
    if Reachable(graph, m, target) {
      var p :| LeadsFromTo(graph, p, m, target);
      ChainIsFound(graph, p, m, target, {});
    }
  }

  // ----- the modules to set aside -----

  /** A target, or a module from which a chain of imports leads to a target. */
  ghost predicate Blocked(graph: Graph, targets: seq<string>, m: string) {
    m in graph && (m in targets || exists t :: t in targets && Reachable(graph, m, t))
  }

  ghost predicate TotalOrder(le: (string, string) -> bool) {
    && (forall a, b :: le(a, b) || le(b, a))
    && (forall a, b :: le(a, b) && le(b, a) ==> a == b)
    && (forall a, b, c :: le(a, b) && le(b, c) ==> le(a, c))
  }

  ghost predicate AtMost(f: string, files: seq<string>, le: (string, string) -> bool) {
    forall g :: g in files ==> le(f, g)
  }

  ghost predicate SortedBy(files: seq<string>, le: (string, string) -> bool) {
    files == [] || (AtMost(files[0], files[1..], le) && SortedBy(files[1..], le))
  }

  function Insert(files: seq<string>, f: string, le: (string, string) -> bool): seq<string> {
    if files == [] || le(f, files[0]) then [f] + files else [files[0]] + Insert(files[1..], f, le)
  }

  function Sort(files: seq<string>, le: (string, string) -> bool): seq<string> {
    if files == [] then [] else Insert(Sort(files[1..], le), files[0], le)
  }

  lemma {:induction false} InsertAdds(files: seq<string>, f: string, le: (string, string) -> bool)
    ensures multiset(Insert(files, f, le)) == multiset(files) + multiset{f}
    ensures forall g :: g in Insert(files, f, le) <==> g in files || g == f
  {
    if files != [] && !le(f, files[0]) {
      InsertAdds(files[1..], f, le);
      assert files == [files[0]] + files[1..];
    }
  }

  lemma AtMostSmaller(f: string, g: string, files: seq<string>, le: (string, string) -> bool)
    requires TotalOrder(le) && le(f, g) && AtMost(g, files, le)
    ensures AtMost(f, files, le)
  {
  }

  lemma SortedCons(f: string, files: seq<string>, le: (string, string) -> bool)
    ensures SortedBy([f] + files, le) <==> AtMost(f, files, le) && SortedBy(files, le)
  {
    assert ([f] + files)[1..] == files;
  }

  lemma {:induction false} InsertKeepsOrder(files: seq<string>, f: string, le: (string, string) -> bool)
    requires TotalOrder(le) && SortedBy(files, le)
    ensures SortedBy(Insert(files, f, le), le)
  {
    SortedCons(f, files, le);
    if files != [] {
      var head, rest := files[0], files[1..];
      assert files == [head] + rest;
      SortedCons(head, rest, le);
      if le(f, head) {
        AtMostSmaller(f, head, rest, le);
      } else {
        InsertKeepsOrder(rest, f, le);
        InsertAdds(rest, f, le);
        SortedCons(head, Insert(rest, f, le), le);
      }
    }
  }

  lemma {:induction false} SortSorts(files: seq<string>, le: (string, string) -> bool)
    requires TotalOrder(le)
    ensures SortedBy(Sort(files, le), le) && multiset(Sort(files, le)) == multiset(files)
  {
    if files != [] {
      SortSorts(files[1..], le);
      InsertKeepsOrder(Sort(files[1..], le), files[0], le);
      InsertAdds(Sort(files[1..], le), files[0], le);
      assert files == [files[0]] + files[1..];
    }
  }

  /** The files of some modules, in the modules' order. */
  ghost function FilesOf(graph: Graph, modules: seq<string>): seq<string>
    requires forall m :: m in modules ==> m in graph
  {
    seq(|modules|, i requires 0 <= i < |modules| => assert modules[i] in modules; graph[modules[i]].file)
  }

  /** `modules` lists each blocked module once. */
  ghost predicate ListsBlocked(graph: Graph, targets: seq<string>, modules: seq<string>) {
    Distinct(modules) && forall m :: m in modules <==> Blocked(graph, targets, m)
  }

  /** The files to set aside, in order: exactly those of the blocked modules, one for each. */
  method ModulesReaching(graph: Graph, targets: seq<string>, le: (string, string) -> bool) returns (files: seq<string>)
    requires TotalOrder(le)
    ensures SortedBy(files, le)
    ensures exists modules :: ListsBlocked(graph, targets, modules) && multiset(files) == multiset(FilesOf(graph, modules))
  {
    var remaining := graph.Keys;
    var blocking: seq<string> := [];
    ghost var modules: seq<string> := [];
    while remaining != {}
      invariant remaining <= graph.Keys && Distinct(modules)
      invariant forall m :: m in modules <==> m !in remaining && Blocked(graph, targets, m)
      invariant blocking == FilesOf(graph, modules)
      decreases |remaining|
    {
      var m :| m in remaining;
      var blocked := IsBlocked(graph, targets, m);
      remaining := remaining - {m};
      if blocked {
        blocking := blocking + [graph[m].file];
        modules := modules + [m];
      }
    }
    SortSorts(blocking, le);
    files := Sort(blocking, le);
    assert ListsBlocked(graph, targets, modules);
  }

  method IsBlocked(graph: Graph, targets: seq<string>, m: string) returns (blocked: bool)
    requires m in graph
    ensures blocked <==> Blocked(graph, targets, m)
  {
    blocked := m in targets;
    var i := 0;
    while i < |targets| && !blocked
      invariant 0 <= i <= |targets|
      invariant blocked ==> Blocked(graph, targets, m)
      invariant !blocked ==> m !in targets && forall k :: 0 <= k < i ==> !Reachable(graph, m, targets[k])
    {
      var search := new ImportSearch(graph);
      assert Elements(search.stack) == {};
      blocked := search.Reaches(m, targets[i]);
      SearchIsReachability(graph, m, targets[i]);
      i := i + 1;
    }
  }

  /** No module that stays imports a module that is set aside. */
  lemma {:induction false} SurvivorsImportSurvivors(graph: Graph, targets: seq<string>, m: string, n: string)
    requires m in graph && !Blocked(graph, targets, m) && n in graph[m].imports
    ensures !Blocked(graph, targets, n)
  {
    if Blocked(graph, targets, n) {
      assert Links(graph, m, n);
      if n in targets {
        var p := [m, n];
        assert LeadsFromTo(graph, p, m, n);
      } else {
        var t :| t in targets && Reachable(graph, n, t);
        var p :| LeadsFromTo(graph, p, n, t);
        var q := [m] + p;
        forall i | 0 <= i < |q| - 1 ensures Links(graph, q[i], q[i + 1]) {
          if i > 0 {
            assert Links(graph, p[i - 1], p[i]);
          }
        }
        assert LeadsFromTo(graph, q, m, t);
      }
    }
  }

  /** A set of modules that holds the targets and, with a module, everything that imports it. */
  ghost predicate HoldsImporters(graph: Graph, targets: seq<string>, modules: set<string>) {
    && (forall t :: t in targets && t in graph ==> t in modules)
    && (forall m, n :: Links(graph, m, n) && (n in modules || n in targets) ==> m in modules)
  }

  lemma {:induction false} ChainStaysInside(graph: Graph, targets: seq<string>, modules: set<string>, p: seq<string>)
    requires HoldsImporters(graph, targets, modules) && Chain(graph, p) && p[|p| - 1] in targets
    ensures p[0] in modules
    decreases |p|
  {
    assert Links(graph, p[0], p[1]);
    if |p| > 2 {
      ChainSuffix(graph, p, 1);
      ChainStaysInside(graph, targets, modules, p[1..]);
    }
  }

  /** The blocked modules are the least such set: nothing is missing and nothing is set aside needlessly. */
  lemma {:induction false} BlockedIsLeast(graph: Graph, targets: seq<string>, modules: set<string>)
    ensures HoldsImporters(graph, targets, set m | m in graph && Blocked(graph, targets, m))
    ensures HoldsImporters(graph, targets, modules) ==>
              forall m :: Blocked(graph, targets, m) ==> m in modules
  {
    var blocked := set m | m in graph && Blocked(graph, targets, m);
    forall m, n | Links(graph, m, n) && (n in blocked || n in targets) ensures m in blocked {
      if m !in blocked {
        if n in targets {
          var p := [m, n];
          assert LeadsFromTo(graph, p, m, n);
        } else {
          SurvivorsImportSurvivors(graph, targets, m, n);
        }
      }
    }
    if HoldsImporters(graph, targets, modules) {
      forall m | Blocked(graph, targets, m) ensures m in modules {
        if m !in targets {
          var t :| t in targets && Reachable(graph, m, t);
          var p :| LeadsFromTo(graph, p, m, t);
          ChainStaysInside(graph, targets, modules, p);
        }
      }
    }
  }
}
