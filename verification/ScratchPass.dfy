/**
 The objects of a toolchain pass that change the source tree (crates/aion-cli/src/generate.rs):
 the tree itself, the scratch that remembers what to undo, and recovery.

 The system may refuse any rename or removal. `refused` holds the paths it will not touch.
 */
module ScratchPass {
  import opened Wrappers
  import opened Seqs
  import opened Scratch

  class SourceTree {
    var files: Tree
    /** The operations carried out so far; a renaming or removal of a missing file is among them, and does nothing. */
    ghost var log: seq<Op>

    constructor (files: Tree)
      ensures this.files == files && log == []
    {
      this.files := files;
      log := [];
    }

    method RenameFile(from: Path, to: Path, refused: set<Path>) returns (ok: bool)
      modifies this
      ensures ok <==> from in old(files) && from !in refused
      ensures files == if ok then Apply(old(files), Rename(from, to)) else old(files)
      ensures log == old(log) + (if from in refused then [] else [Rename(from, to)])
    {
      log := log + (if from in refused then [] else [Rename(from, to)]);
      ok := from in files && from !in refused;
      if ok {
        files := (files - {from})[to := files[from]];
      }
    }

    method WriteFile(path: Path, contents: string)
      modifies this
      ensures files == Apply(old(files), Write(path, contents)) && log == old(log) + [Write(path, contents)]
    {
      log := log + [Write(path, contents)];
      files := files[path := contents];
    }

    method RemoveFile(path: Path, refused: set<Path>) returns (ok: bool)
      modifies this
      ensures ok <==> path in old(files) && path !in refused
      ensures files == if path in refused then old(files) else Apply(old(files), Remove(path))
      ensures log == old(log) + (if path in refused then [] else [Remove(path)])
    {
      log := log + (if path in refused then [] else [Remove(path)]);
      ok := path in files && path !in refused;
      if ok {
        files := files - {path};
      } else {
        assert path !in files ==> files - {path} == files;
      }
    }

    /**
     Deals with every aside file below the tree, in whatever order the walk lists them, and
     stops at the first one that the system refuses. `done` files of `order` were dealt with.
     */
    method RecoverAsides(refused: set<Path>) returns (ok: bool, ghost order: seq<Path>, ghost done: nat)
      modifies this
      ensures Lists(order, old(files)) && done <= |order| && AllAside(order[..done])
      ensures files == RecoverInOrder(old(files), order[..done])
      ensures ok <==> done == |order|
      ensures !ok ==> order[done] in refused
    {
      ghost var was := files;
      ghost var visited: seq<Path> := [];
      var waiting := set p | p in files && IsAside(p);
      ghost var stuck := "";
      ok := true;
      while waiting != {} && ok
        invariant AllAside(visited) && Distinct(visited)
        invariant forall p :: p in visited <==> p in was && IsAside(p) && p !in waiting
        invariant forall p :: p in waiting ==> p in was && p in files && IsAside(p)
        invariant files == RecoverInOrder(was, visited)
        invariant !ok ==> stuck in waiting && stuck in refused
        decreases |waiting|, ok
      {
        var p :| p in waiting;
        if Original(p) in files {
          ok := RemoveFile(p, refused);
        } else {
          ok := RenameFile(p, Original(p), refused);
        }
        if ok {
          RecoverOneMore(was, visited, p);
          VisitOne(visited, p);
          visited := visited + [p];
          waiting := waiting - {p};
        } else {
          stuck := p;
        }
      }
      ghost var others: seq<Path> := [];
      if !ok {
        var behind := ListOfExists(waiting - {stuck});
        others := [stuck] + behind;
        DistinctPrepend(stuck, behind);
      }
      order, done := visited + others, |visited|;
      ListsAll(was, visited, others, waiting);
    }

    method RecoverLeftoverScratch(refused: set<Path>) returns (ok: bool, ghost order: seq<Path>, ghost done: nat)
      modifies this
      ensures Lists(order, old(files)) && done <= |order| && AllAside(order[..done])
      ensures files == if ok then Recover(old(files), order) else RecoverInOrder(old(files), order[..done])
      ensures !ok ==> if done < |order| then order[done] in refused else PROBE_PATH in refused && PROBE_PATH in files
    {
      ok, order, done := RecoverAsides(refused);
      assert order[..|order|] == order;
      if ok && PROBE_PATH in files && PROBE_DOC <= files[PROBE_PATH] {
        ok := RemoveFile(PROBE_PATH, refused);
      }
    }
  }

  lemma VisitOne(visited: seq<Path>, p: Path)
    requires AllAside(visited) && Distinct(visited) && IsAside(p) && p !in visited
    ensures AllAside(visited + [p]) && Distinct(visited + [p])
  {
  }

  /** What was visited and what is still waiting are together a listing of the tree. */
  lemma ListsAll(s: Tree, visited: seq<Path>, others: seq<Path>, waiting: set<Path>)
    requires AllAside(visited) && Distinct(visited) && Distinct(others)
    requires forall p :: p in visited <==> p in s && IsAside(p) && p !in waiting
    requires forall p :: p in waiting ==> p in s && IsAside(p)
    requires forall p :: p in others <==> p in waiting
    ensures Lists(visited + others, s) && (visited + others)[..|visited|] == visited
    ensures waiting == {} <==> others == []
  {
    assert forall i :: 0 <= i < |others| ==> others[i] in others;
    assert forall i :: 0 <= i < |visited| ==> visited[i] in visited;
    if others != [] {
      assert others[0] in waiting;
    }
  }

  // ----- the scratch of one pass -----

  /** How a file write goes: it succeeds, fails before the file is created, or fails with part of it written. */
  datatype WriteFault = Fine | NotOpened | Torn(written: nat)

  predicate Possible(fault: WriteFault, source: string) {
    fault.Torn? ==> fault.written <= |source|
  }

  function Written(source: string, fault: WriteFault): string
    requires Possible(fault, source)
  {
    if fault.Torn? then source[..fault.written] else source
  }

  /** The renames that undo `renamed`, as far as the system permits them, in order. */
  ghost function Undone(renamed: seq<(Path, Path)>, refused: set<Path>): seq<Op> {
    if renamed == [] then []
    else
      var (aside, original) := renamed[|renamed| - 1];
      Undone(renamed[..|renamed| - 1], refused) + (if aside in refused then [] else [Rename(aside, original)])
  }

  class ExtractionScratch {
    const tree: SourceTree
    var probe: Option<Path>
    /** Pairs of aside path and original path. */
    var renamed: seq<(Path, Path)>

    constructor (tree: SourceTree)
      ensures this.tree == tree && probe == None && renamed == []
    {
      this.tree := tree;
      probe := None;
      renamed := [];
    }

    method RenameAside(original: Path, refused: set<Path>) returns (ok: bool)
      modifies this, tree
      ensures probe == old(probe)
      ensures ok <==> original in old(tree.files) && original !in refused
      ensures tree.files == if ok then Apply(old(tree.files), Rename(original, Aside(original))) else old(tree.files)
      ensures renamed == old(renamed) + (if ok then [(Aside(original), original)] else [])
      ensures ok ==> tree.log == old(tree.log) + [Rename(original, Aside(original))]
    {
      ok := tree.RenameFile(original, Aside(original), refused);
      if ok {
        renamed := renamed + [(Aside(original), original)];
      }
    }

    /** The probe is remembered only once its write has succeeded. */
    method WriteProbe(source: string, fault: WriteFault) returns (ok: bool)
      requires Possible(fault, source)
      modifies this, tree
      ensures ok <==> fault.Fine?
      ensures renamed == old(renamed) && probe == if ok then Some(PROBE_PATH) else old(probe)
      ensures tree.files
           == if fault.NotOpened? then old(tree.files) else Apply(old(tree.files), Write(PROBE_PATH, Written(source, fault)))
      ensures ok ==> tree.log == old(tree.log) + [Write(PROBE_PATH, source)]
    {
      if !fault.NotOpened? {
        tree.WriteFile(PROBE_PATH, Written(source, fault));
      }
      if !fault.Fine? {
        return false;
      }
      probe := Some(PROBE_PATH);
      ok := true;
    }

    /**
     Removes the probe, then renames every module back in the order they were set aside. What the
     system refuses is only warned about: the rest is undone all the same.
     */
    method Drop(refused: set<Path>)
      modifies this, tree
      ensures probe == None && renamed == []
      ensures tree.files ==
        ApplyAll(
          if old(probe).Some? && old(probe).value !in refused
          then Apply(old(tree.files), Remove(old(probe).value)) else old(tree.files),
          Undone(old(renamed), refused))
      ensures tree.log == old(tree.log)
                        + (if old(probe).Some? && old(probe).value !in refused then [Remove(old(probe).value)] else [])
                        + Undone(old(renamed), refused)
    {
      if probe.Some? {
        var removed := tree.RemoveFile(probe.value, refused);
        probe := None;
      }
      ghost var before, logged := tree.files, tree.log;
      var pairs := renamed;
      for i := 0 to |pairs|
        invariant probe == None && renamed == pairs
        invariant tree.files == ApplyAll(before, Undone(pairs[..i], refused))
        invariant tree.log == logged + Undone(pairs[..i], refused)
      {
        UndoOneMore(before, pairs, i, refused);
        var ok := tree.RenameFile(pairs[i].0, pairs[i].1, refused);
      }
      assert pairs[..|pairs|] == pairs;
      renamed := [];
    }
  }

  lemma UndoOneMore(s: Tree, renamed: seq<(Path, Path)>, i: nat, refused: set<Path>)
    requires i < |renamed|
    ensures var was := ApplyAll(s, Undone(renamed[..i], refused));
            ApplyAll(s, Undone(renamed[..i + 1], refused))
            == if renamed[i].0 in refused then was else Apply(was, Rename(renamed[i].0, renamed[i].1))
    ensures Undone(renamed[..i + 1], refused)
         == Undone(renamed[..i], refused)
          + (if renamed[i].0 in refused then [] else [Rename(renamed[i].0, renamed[i].1)])
  {
    var (aside, original) := renamed[i];
    assert renamed[..i + 1][..i] == renamed[..i];
    if aside !in refused {
      ApplyAllConcat(s, Undone(renamed[..i], refused), [Rename(aside, original)]);
      ApplyOne(ApplyAll(s, Undone(renamed[..i], refused)), Rename(aside, original));
    } else {
      assert Undone(renamed[..i], refused) + [] == Undone(renamed[..i], refused);
    }
  }

  // ----- a whole pass -----

  /** Different module files, none of which has an aside name: modules end in `.gleam`. */
  ghost predicate DistinctModules(paths: seq<Path>) {
    Distinct(paths) && forall p :: p in paths ==> !IsAside(p)
  }

  /** The modules of `paths` that the system lets the scratch rename back. */
  ghost function Restorable(paths: seq<Path>, refused: set<Path>): seq<Path> {
    if paths == [] then []
    else
      var last := paths[|paths| - 1];
      Restorable(paths[..|paths| - 1], refused) + (if Aside(last) in refused then [] else [last])
  }

  lemma {:induction false} RestorableElements(paths: seq<Path>, refused: set<Path>)
    requires Distinct(paths)
    ensures Distinct(Restorable(paths, refused))
    ensures forall p :: p in Restorable(paths, refused) <==> p in paths && Aside(p) !in refused
  {
    if paths != [] {
      var front, last := paths[..|paths| - 1], paths[|paths| - 1];
      RestorableElements(front, refused);
      assert paths == front + [last];
      assert last !in front;
    }
  }

  lemma {:induction false} UndoneIsRestores(paths: seq<Path>, renamed: seq<(Path, Path)>, refused: set<Path>)
    requires |renamed| == |paths| && forall k :: 0 <= k < |paths| ==> renamed[k] == (Aside(paths[k]), paths[k])
    ensures Undone(renamed, refused) == Restores(Restorable(paths, refused))
  {
    if paths != [] {
      var n := |paths| - 1;
      UndoneIsRestores(paths[..n], renamed[..n], refused);
    }
  }

  /** The modules that the system refuses to rename back. */
  ghost function Stuck(paths: seq<Path>, refused: set<Path>): set<Path> {
    set p | p in paths && Aside(p) in refused
  }

  /** What is left at the probe's path by a pass that wrote `contents` there, if it wrote. */
  ghost function ProbeLeft(
    paths: seq<Path>, contents: Option<string>, remembered: bool, refused: set<Path>): ProbeState
  {
    if contents.None? || (PROBE_PATH in paths && Aside(PROBE_PATH) !in refused) then Untouched
    else if remembered && PROBE_PATH !in refused then Gone
    else Holds(contents.value)
  }

  /** `final` is `t` with the stuck modules of `paths` aside and the probe's path as `at` says. */
  ghost predicate EndsAs(final: Tree, t: Tree, paths: seq<Path>, refused: set<Path>, at: ProbeState) {
    Plan(t, paths) && exists base :: SetAside(base, t, Stuck(paths, refused)) && final == Layer(base, at)
  }

  /** Undoing a pass from the state in which it set `paths` aside. */
  lemma {:induction false} DropEndsAs(
    all: Tree, t: Tree, paths: seq<Path>, contents: Option<string>, remembered: bool, refused: set<Path>)
    requires Plan(t, paths) && SetAside(all, t, Elements(paths))
    ensures var probed := if contents.Some? then all[PROBE_PATH := contents.value] else all;
            var dropped := if contents.Some? && remembered && PROBE_PATH !in refused then probed - {PROBE_PATH} else probed;
            EndsAs(
              ApplyAll(dropped, Restores(Restorable(paths, refused))), t, paths, refused,
              ProbeLeft(paths, contents, remembered, refused))
  {
    var back := Restorable(paths, refused);
    var n := |back|;
    RestorableElements(paths, refused);
    assert back[..n] == back && Restores(back)[..n] == Restores(back);
    AfterRestores(all, t, Elements(paths), back, n);
    var base := ApplyAll(all, Restores(back));
    assert Elements(paths) - Elements(back) == Stuck(paths, refused);
    var at := if contents.None? then Untouched
              else if remembered && PROBE_PATH !in refused then Gone else Holds(contents.value);
    RestoresAround(all, t, Elements(paths), back, n, at);
    if at.Gone? {
      assert all[PROBE_PATH := contents.value] - {PROBE_PATH} == all - {PROBE_PATH};
    }
  }

  /** The tree in which the toolchain runs: `t` with exactly the modules of `blocking` aside, and the probe. */
  ghost predicate Prepared(s: Tree, t: Tree, blocking: seq<Path>, probe: Option<string>) {
    exists base ::
      SetAside(base, t, Elements(blocking)) && s == Layer(base, if probe.Some? then Holds(probe.value) else Untouched)
  }

  /** Sets the modules aside and writes the probe. `count` is how many modules were set aside. */
  method Begin(
    tree: SourceTree, scratch: ExtractionScratch, blocking: seq<Path>, probe: Option<string>,
    refused: set<Path>, fault: WriteFault)
    returns (ok: bool, ghost count: nat)
    requires scratch.tree == tree && scratch.probe == None && scratch.renamed == []
    requires probe.Some? ==> Possible(fault, probe.value)
    modifies tree, scratch
    ensures count <= |blocking| && (ok <==> count == |blocking| && (probe.None? || fault.Fine?))
    ensures count < |blocking| ==>
              blocking[count] in refused || blocking[count] !in ApplyAll(old(tree.files), Renames(blocking[..count]))
    ensures |scratch.renamed| == count
    ensures forall k :: 0 <= k < count ==> scratch.renamed[k] == (Aside(blocking[k]), blocking[k])
    ensures scratch.probe == if count == |blocking| && probe.Some? && fault.Fine? then Some(PROBE_PATH) else None
    ensures tree.files
         == var all := ApplyAll(old(tree.files), Renames(blocking[..count]));
            if count == |blocking| && probe.Some? && !fault.NotOpened?
            then all[PROBE_PATH := Written(probe.value, fault)] else all
    ensures NoAsides(old(tree.files)) && DistinctModules(blocking) ==>
              && Plan(old(tree.files), blocking[..count])
              && (ok ==> Prepared(tree.files, old(tree.files), blocking, probe))
    ensures ok ==> (tree.log == old(tree.log) + Renames(blocking)
                                + (if probe.Some? then [Write(PROBE_PATH, probe.value)] else []))
  {
    ghost var t := tree.files;
    ok, count := SetAllAside(tree, scratch, blocking, refused);
    ghost var all := tree.files;
    assert ok ==> blocking[..count] == blocking;
    if ok && probe.Some? {
      ok := scratch.WriteProbe(probe.value, fault);
    }
    if ok && NoAsides(t) && DistinctModules(blocking) {
      AllAsideAfterRenames(t, blocking);
      assert tree.files == Layer(all, if probe.Some? then Holds(probe.value) else Untouched);
    }
  }

  /**
   One toolchain pass: set the modules aside, write the probe, and put everything back, also
   when a rename or the write fails. `count` is how many modules were set aside. From a tree
   without asides, the only differences left are the modules that the system refuses to rename
   back and what `ProbeLeft` says of the probe's path. If nothing fails, the operations carried
   out are those of `PassOps`, in that order. `seen` is the tree that the toolchain ran in.
   */
  method RunPass(
    tree: SourceTree, blocking: seq<Path>, probe: Option<string>,
    renameRefused: set<Path>, fault: WriteFault, dropRefused: set<Path>)
    returns (ok: bool, ghost count: nat, ghost seen: Tree)
    requires probe.Some? ==> Possible(fault, probe.value)
    modifies tree
    ensures count <= |blocking|
    ensures ok <==> count == |blocking| && (probe.None? || fault.Fine?)
    ensures count < |blocking| ==>
              blocking[count] in renameRefused || blocking[count] !in ApplyAll(old(tree.files), Renames(blocking[..count]))
    ensures NoAsides(old(tree.files)) && DistinctModules(blocking) ==>
              && (ok ==> Prepared(seen, old(tree.files), blocking, probe))
              && var contents := if count == |blocking| && probe.Some? && !fault.NotOpened?
                                 then Some(Written(probe.value, fault)) else None;
              EndsAs(
                tree.files, old(tree.files), blocking[..count], dropRefused,
                ProbeLeft(blocking[..count], contents, fault.Fine?, dropRefused))
    ensures ok && dropRefused == {} ==> tree.log == old(tree.log) + PassOps(blocking, probe)
  {
    ghost var t := tree.files;
    var scratch := new ExtractionScratch(tree);
    ok, count := Begin(tree, scratch, blocking, probe, renameRefused, fault);
    seen := tree.files;
    ghost var paths := blocking[..count];
    ghost var all := ApplyAll(t, Renames(paths));
    ghost var contents := if count == |blocking| && probe.Some? && !fault.NotOpened?
                          then Some(Written(probe.value, fault)) else None;
    UndoneIsRestores(paths, scratch.renamed, dropRefused);
    ghost var logged := tree.log;
    // The toolchain runs here.
    scratch.Drop(dropRefused);
    if NoAsides(t) && DistinctModules(blocking) {
      AllAsideAfterRenames(t, paths);
      DropEndsAs(all, t, paths, contents, fault.Fine?, dropRefused);
    }
    if ok && dropRefused == {} {
      assert paths == blocking;
      AllRestorable(blocking);
      PassLog(old(tree.log), Renames(blocking), probe, Restores(blocking));
    }
  }

  lemma {:induction false} AllRestorable(paths: seq<Path>)
    ensures Restorable(paths, {}) == paths
  {
    if paths != [] {
      AllRestorable(paths[..|paths| - 1]);
    }
  }

  lemma PassLog(log: seq<Op>, renames: seq<Op>, probe: Option<string>, restores: seq<Op>)
    ensures log + renames + (if probe.Some? then [Write(PROBE_PATH, probe.value)] else [])
            + (if probe.Some? then [Remove(PROBE_PATH)] else []) + restores
         == log + (renames + ProbeOps(probe) + restores)
  {
  }

  method SetAllAside(tree: SourceTree, scratch: ExtractionScratch, blocking: seq<Path>, refused: set<Path>)
    returns (ok: bool, ghost count: nat)
    requires scratch.tree == tree && scratch.probe == None && scratch.renamed == []
    modifies tree, scratch
    ensures scratch.probe == None && count <= |blocking| && (ok <==> count == |blocking|)
    ensures tree.files == ApplyAll(old(tree.files), Renames(blocking[..count]))
    ensures ok ==> tree.log == old(tree.log) + Renames(blocking)
    ensures |scratch.renamed| == count
    ensures forall k :: 0 <= k < count ==> scratch.renamed[k] == (Aside(blocking[k]), blocking[k])
    ensures count < |blocking| ==> blocking[count] in refused || blocking[count] !in tree.files
    ensures NoAsides(old(tree.files)) && DistinctModules(blocking) ==> Plan(old(tree.files), blocking[..count])
  {
    ghost var t := tree.files;
    ghost var clean := NoAsides(t) && DistinctModules(blocking);
    count, ok := 0, true;
    var i := 0;
    assert Elements(blocking[..0]) == {};
    while i < |blocking| && ok
      invariant 0 <= i <= |blocking| && scratch.probe == None
      invariant if ok then count == i else count == i - 1
      invariant |scratch.renamed| == count <= |blocking|
      invariant forall k :: 0 <= k < count ==> scratch.renamed[k] == (Aside(blocking[k]), blocking[k])
      invariant tree.files == ApplyAll(t, Renames(blocking[..count]))
      invariant ok ==> tree.log == old(tree.log) + Renames(blocking[..count])
      invariant !ok ==> blocking[count] in refused || blocking[count] !in tree.files
      invariant clean ==> Plan(t, blocking[..count])
    {
      RenameOneMore(t, blocking, i);
      if clean {
        NextIsInTree(t, blocking, i);
      }
      ok := scratch.RenameAside(blocking[i], refused);
      if ok {
        count := count + 1;
      }
      i := i + 1;
    }
    assert blocking[..|blocking|] == blocking;
  }

  lemma RenameOneMore(t: Tree, blocking: seq<Path>, i: nat)
    requires i < |blocking|
    ensures ApplyAll(t, Renames(blocking[..i + 1]))
         == Apply(ApplyAll(t, Renames(blocking[..i])), Rename(blocking[i], Aside(blocking[i])))
    ensures Renames(blocking[..i + 1]) == Renames(blocking[..i]) + [Rename(blocking[i], Aside(blocking[i]))]
  {
    OneMore(t, Renames(blocking), i);
    assert Renames(blocking)[..i] == Renames(blocking[..i]);
    assert Renames(blocking)[..i + 1] == Renames(blocking[..i + 1]);
  }

  /** While modules are being set aside from a clean tree, a module that can still be renamed is an original one. */
  lemma {:induction false} NextIsInTree(t: Tree, blocking: seq<Path>, i: nat)
    requires DistinctModules(blocking) && i < |blocking| && Plan(t, blocking[..i])
    ensures blocking[i] in ApplyAll(t, Renames(blocking[..i])) ==> Plan(t, blocking[..i + 1])
  {
    AllAsideAfterRenames(t, blocking[..i]);
    assert blocking[..i + 1] == blocking[..i] + [blocking[i]];
  }

  // ----- what a pass gives back -----

  /**
   A pass gives the tree back exactly if no rename was refused on drop and the probe's path is as
   it was: no probe was written, a module was restored over it, it was removed from a free path,
   or it stayed and is what the file there held anyway.
   */
  lemma {:induction false} PassGivesBackIff(
    final: Tree, t: Tree, paths: seq<Path>, contents: Option<string>, remembered: bool, refused: set<Path>)
    requires EndsAs(final, t, paths, refused, ProbeLeft(paths, contents, remembered, refused))
    ensures final == t
       <==> && Stuck(paths, refused) == {}
            && (|| contents.None? || PROBE_PATH in paths
                || (if remembered && PROBE_PATH !in refused then PROBE_PATH !in t
                    else PROBE_PATH in t && t[PROBE_PATH] == contents.value))
  {
    var at := ProbeLeft(paths, contents, remembered, refused);
    var base :| SetAside(base, t, Stuck(paths, refused)) && final == Layer(base, at);
    if p :| p in Stuck(paths, refused) {
      StuckShows(base, t, Stuck(paths, refused), at, p);
    } else {
      NothingAsideIsOriginal(base, t);
      if PROBE_PATH !in t {
        assert t - {PROBE_PATH} == t;
      } else if contents.Some? && t[PROBE_PATH] == contents.value {
        assert t[PROBE_PATH := contents.value] == t;
      }
    }
  }

  lemma StuckShows(base: Tree, t: Tree, aside: set<Path>, at: ProbeState, p: Path)
    requires SetAside(base, t, aside) && p in aside
    ensures Aside(p) in Layer(base, at) && Aside(p) !in t
  {
    AsideRoundTrip(p);
    ProbeIsNoAside();
  }

  /**
   Whatever was refused on drop, the next recovery repairs: what it leaves is `Settled`, which is
   the tree that the pass found if there was no module at the probe's path and no torn first line.
   */
  lemma {:induction false} NextRecoveryRepairs(
    final: Tree, t: Tree, paths: seq<Path>, contents: Option<string>, remembered: bool, refused: set<Path>,
    order: seq<Path>)
    requires EndsAs(final, t, paths, refused, ProbeLeft(paths, contents, remembered, refused)) && Lists(order, final)
    ensures Recover(final, order) == Settled(t, Stuck(paths, refused), ProbeLeft(paths, contents, remembered, refused))
    ensures PROBE_PATH !in t ==>
              (Recover(final, order) == t
               <==> contents.None? || (remembered && PROBE_PATH !in refused) || PROBE_DOC <= contents.value)
  {
    var at := ProbeLeft(paths, contents, remembered, refused);
    var base :| SetAside(base, t, Stuck(paths, refused)) && final == Layer(base, at);
    RecoverSettles(base, t, Stuck(paths, refused), at, order);
    if PROBE_PATH !in t {
      SettledWithoutModule(t, paths, contents, remembered, refused);
    }
  }

  lemma SettledWithoutModule(
    t: Tree, paths: seq<Path>, contents: Option<string>, remembered: bool, refused: set<Path>)
    requires Plan(t, paths) && PROBE_PATH !in t
    ensures Settled(t, Stuck(paths, refused), ProbeLeft(paths, contents, remembered, refused)) == t
       <==> contents.None? || (remembered && PROBE_PATH !in refused) || PROBE_DOC <= contents.value
  {
    assert PROBE_PATH !in Elements(paths);
    assert t - {PROBE_PATH} == t;
  }

  // ----- an invocation: recovery, and then a pass -----

  /** Trees that recovery makes a tree without asides of have no aside of an aside. */
  lemma RecoverableHasNoDoubles(s: Tree, u: Tree)
    requires RecoversTo(s, u) && NoAsides(u)
    ensures NoDoubleAsides(s) && NoStaleProbe(u)
  {
    var listed := ListOfExists(set p | p in s && IsAside(p));
    assert forall i :: 0 <= i < |listed| ==> listed[i] in listed;
    assert Lists(listed, s);
    RecoverKeepsAsides(s, listed);
    forall order | Lists(order, s) ensures Clean(Recover(s, order)) {
      assert Recover(s, order) == u;
    }
    RecoveryIsCompleteIff(s);
  }

  /** A recovery that was stopped leaves a tree that still recovers to the same. */
  lemma {:induction false} StoppedRecoversTo(s: Tree, u: Tree, order: seq<Path>, done: nat)
    requires RecoversTo(s, u) && NoAsides(u) && Lists(order, s) && done <= |order| && AllAside(order[..done])
    ensures RecoversTo(RecoverInOrder(s, order[..done]), u)
  {
    RecoverableHasNoDoubles(s, u);
    forall again | Lists(again, RecoverInOrder(s, order[..done]))
      ensures Recover(RecoverInOrder(s, order[..done]), again) == u
    {
      InterruptedRecovery(s, order, done, again);
    }
  }

  /**
   One invocation on a tree that recovers to `u`, whatever earlier invocations left in it. If the
   system refuses a file during recovery, the tree still recovers to `u`; otherwise the pass runs
   on `u` itself. `refused` are the files refused during recovery.
   */
  method ToolchainPass(
    tree: SourceTree, ghost u: Tree, blocking: seq<Path>, probe: Option<string>,
    refused: set<Path>, renameRefused: set<Path>, fault: WriteFault, dropRefused: set<Path>)
    returns (ok: bool, recovered: bool, ghost count: nat)
    requires RecoversTo(tree.files, u) && NoAsides(u) && DistinctModules(blocking)
    requires probe.Some? ==> Possible(fault, probe.value)
    modifies tree
    ensures ok ==> recovered
    ensures refused == {} ==> recovered
    ensures !recovered ==> RecoversTo(tree.files, u)
    ensures recovered ==>
              && count <= |blocking| && (ok <==> count == |blocking| && (probe.None? || fault.Fine?))
              && var contents := if count == |blocking| && probe.Some? && !fault.NotOpened?
                                 then Some(Written(probe.value, fault)) else None;
              EndsAs(
                tree.files, u, blocking[..count], dropRefused,
                ProbeLeft(blocking[..count], contents, fault.Fine?, dropRefused))
  {
    ghost var was := tree.files;
    ghost var order, done;
    recovered, order, done := tree.RecoverLeftoverScratch(refused);
    if !recovered {
      StoppedRecoversTo(was, u, order, done);
      return false, false, 0;
    }
    ghost var seen;
    ok, count, seen := RunPass(tree, blocking, probe, renameRefused, fault, dropRefused);
  }
}
