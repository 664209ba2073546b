/**
 Setting modules aside for a toolchain pass, restoring them, and recovering what a killed
 pass left behind (crates/aion-cli/src/generate.rs).

 The source tree is a map from path to contents. A pass is a list of file operations, each
 atomic; a crash leaves the tree after some prefix of them.
 */
module Scratch {
  import opened Wrappers
  import opened Seqs

  type Path = string
  type Tree = map<Path, string>

  const ASIDE_SUFFIX: string := ".aiongen-aside"
  const PROBE_PATH: Path := "aion_generate_probe.gleam"
  const PROBE_DOC: string :=
    "//// Temporary manifest-extraction probe written by `aion generate`. Safe to delete."

  function Aside(p: Path): Path {
    p + ASIDE_SUFFIX
  }

  predicate IsAside(p: Path) {
    |p| >= |ASIDE_SUFFIX| && p[|p| - |ASIDE_SUFFIX|..] == ASIDE_SUFFIX
  }

  function Original(p: Path): (o: Path)
    requires IsAside(p)
    ensures Aside(o) == p
  {
    p[..|p| - |ASIDE_SUFFIX|]
  }

  lemma AsideRoundTrip(p: Path)
    ensures IsAside(Aside(p)) && Original(Aside(p)) == p
  {
  }

  lemma ProbeIsNoAside()
    ensures !IsAside(PROBE_PATH)
  {
    assert PROBE_PATH[|PROBE_PATH| - 1] == 'm';
    assert ASIDE_SUFFIX[|ASIDE_SUFFIX| - 1] == 'e';
  }

  // ----- file operations -----

  datatype Op = Rename(from: Path, to: Path) | Write(path: Path, contents: string) | Remove(path: Path)

  function Apply(t: Tree, op: Op): Tree {
    match op
    case Rename(from, to) => if from in t then (t - {from})[to := t[from]] else t
    case Write(path, contents) => t[path := contents]
    case Remove(path) => t - {path}
  }

  function ApplyAll(t: Tree, ops: seq<Op>): Tree
    decreases |ops|
  {
    if ops == [] then t else ApplyAll(Apply(t, ops[0]), ops[1..])
  }

  lemma {:induction false} ApplyAllConcat(t: Tree, a: seq<Op>, b: seq<Op>)
    ensures ApplyAll(t, a + b) == ApplyAll(ApplyAll(t, a), b)
    decreases |a|
  {
    if a == [] {
      assert a + b == b;
    } else {
      SplitFirst(a, b);
      ApplyAllConcat(Apply(t, a[0]), a[1..], b);
    }
  }

  // ----- a tree with some modules set aside -----

  /** No leftover of an earlier pass. */
  ghost predicate NoAsides(t: Tree) {
    forall p :: p in t ==> !IsAside(p)
  }

  /** `s` is `t` with exactly the modules of `aside` renamed aside. */
  ghost predicate SetAside(s: Tree, t: Tree, aside: set<Path>) {
    && NoAsides(t) && aside <= t.Keys
    && (forall p :: p in s <==> if IsAside(p) then Original(p) in aside else p in t && p !in aside)
    && (forall p :: p in s ==> s[p] == if IsAside(p) then t[Original(p)] else t[p])
  }

  lemma SetAsideNothing(t: Tree)
    requires NoAsides(t)
    ensures SetAside(t, t, {})
  {
  }

  lemma NothingAsideIsOriginal(s: Tree, t: Tree)
    requires SetAside(s, t, {})
    ensures s == t
  {
    assert s.Keys == t.Keys;
  }

  lemma RenameSetsAside(s: Tree, t: Tree, aside: set<Path>, p: Path)
    requires SetAside(s, t, aside) && p in t && p !in aside
    ensures p in s && SetAside(Apply(s, Rename(p, Aside(p))), t, aside + {p})
  {
    AsideRoundTrip(p);
    var s' := Apply(s, Rename(p, Aside(p)));
    forall q
      ensures q in s' <==> if IsAside(q) then Original(q) in aside + {p} else q in t && q !in aside + {p}
      ensures q in s' ==> s'[q] == if IsAside(q) then t[Original(q)] else t[q]
    {
    }
  }

  lemma RenameRestores(s: Tree, t: Tree, aside: set<Path>, p: Path)
    requires SetAside(s, t, aside) && p in aside
    ensures Aside(p) in s && SetAside(Apply(s, Rename(Aside(p), p)), t, aside - {p})
  {
    AsideRoundTrip(p);
    var s' := Apply(s, Rename(Aside(p), p));
    forall q
      ensures q in s' <==> if IsAside(q) then Original(q) in aside - {p} else q in t && q !in aside - {p}
      ensures q in s' ==> s'[q] == if IsAside(q) then t[Original(q)] else t[q]
    {
    }
  }

  // ----- one pass -----

  ghost function Renames(blocking: seq<Path>): seq<Op> {
    seq(|blocking|, i requires 0 <= i < |blocking| => Rename(blocking[i], Aside(blocking[i])))
  }

  ghost function Restores(blocking: seq<Path>): seq<Op> {
    seq(|blocking|, i requires 0 <= i < |blocking| => Rename(Aside(blocking[i]), blocking[i]))
  }

  /** The operations of an uninterrupted pass, in order; `probe` is the probe's source, if one is written. */
  ghost function PassOps(blocking: seq<Path>, probe: Option<string>): seq<Op> {
    Renames(blocking) + ProbeOps(probe) + Restores(blocking)
  }

  /** The modules to set aside are distinct files of a tree without leftovers. */
  ghost predicate Plan(t: Tree, blocking: seq<Path>) {
    NoAsides(t) && Distinct(blocking) && Elements(blocking) <= t.Keys
  }

  lemma {:induction false} OneMore(t: Tree, ops: seq<Op>, k: nat)
    requires k < |ops|
    ensures ApplyAll(t, ops[..k + 1]) == Apply(ApplyAll(t, ops[..k]), ops[k])
  {
    ApplyAllConcat(t, ops[..k], [ops[k]]);
    assert ops[..k] + [ops[k]] == ops[..k + 1];
    assert [ops[k]][1..] == [];
  }

  lemma ElementsUpTo(paths: seq<Path>, k: nat)
    requires Distinct(paths) && k < |paths|
    ensures paths[k] !in Elements(paths[..k])
    ensures Elements(paths[..k + 1]) == Elements(paths[..k]) + {paths[k]}
    ensures Elements(paths[k + 1..]) == Elements(paths[k..]) - {paths[k]}
    ensures paths[k] in Elements(paths[k..])
  {
    assert paths[..k + 1] == paths[..k] + [paths[k]];
    var rest := paths[k + 1..];
    assert paths[k..] == [paths[k]] + rest;
    forall q | q in rest ensures q != paths[k] {
      var i :| 0 <= i < |rest| && rest[i] == q;
      assert paths[k] != paths[k + 1 + i];
    }
  }

  /** After k renames, exactly the first k modules are aside. */
  lemma {:induction false} AfterRenames(t: Tree, blocking: seq<Path>, k: nat)
    requires Plan(t, blocking) && k <= |blocking|
    ensures SetAside(ApplyAll(t, Renames(blocking)[..k]), t, Elements(blocking[..k]))
    decreases k
  {
    if k == 0 {
      assert Elements(blocking[..0]) == {};
      SetAsideNothing(t);
    } else {
      AfterRenames(t, blocking, k - 1);
      ElementsUpTo(blocking, k - 1);
      OneMore(t, Renames(blocking), k - 1);
      assert blocking[k - 1] in Elements(blocking);
      RenameSetsAside(
        ApplyAll(t, Renames(blocking)[..k - 1]), t, Elements(blocking[..k - 1]), blocking[k - 1]);
    }
  }

  /** After k restores, exactly the modules that are not among the first k are still aside. */
  lemma {:induction false} AfterRestores(s: Tree, t: Tree, aside: set<Path>, paths: seq<Path>, k: nat)
    requires SetAside(s, t, aside) && Distinct(paths) && Elements(paths) <= aside && k <= |paths|
    ensures SetAside(ApplyAll(s, Restores(paths)[..k]), t, aside - Elements(paths[..k]))
    decreases k
  {
    if k == 0 {
      assert aside - Elements(paths[..0]) == aside;
    } else {
      AfterRestores(s, t, aside, paths, k - 1);
      ElementsUpTo(paths, k - 1);
      OneMore(s, Restores(paths), k - 1);
      assert paths[k - 1] in Elements(paths);
      RenameRestores(
        ApplyAll(s, Restores(paths)[..k - 1]), t, aside - Elements(paths[..k - 1]), paths[k - 1]);
      assert aside - Elements(paths[..k - 1]) - {paths[k - 1]} == aside - Elements(paths[..k]);
    }
  }

  /** What the probe's path holds, when it is not simply what the pass found there. */
  datatype ProbeState = Untouched | Holds(contents: string) | Gone

  ghost function Layer(base: Tree, at: ProbeState): Tree {
    match at
    case Untouched => base
    case Holds(contents) => base[PROBE_PATH := contents]
    case Gone => base - {PROBE_PATH}
  }

  /** Restores carry what is at the probe's path along, until a module is restored over it. */
  ghost function Carried(at: ProbeState, restored: seq<Path>): ProbeState {
    if PROBE_PATH in restored then Untouched else at
  }

  lemma {:induction false} RestoresAround(
    s: Tree, t: Tree, aside: set<Path>, paths: seq<Path>, k: nat, at: ProbeState)
    requires SetAside(s, t, aside) && Distinct(paths) && Elements(paths) <= aside && k <= |paths|
    ensures ApplyAll(Layer(s, at), Restores(paths)[..k])
         == Layer(ApplyAll(s, Restores(paths)[..k]), Carried(at, paths[..k]))
    decreases k
  {
    if k > 0 {
      RestoresAround(s, t, aside, paths, k - 1, at);
      AfterRestores(s, t, aside, paths, k - 1);
      ElementsUpTo(paths, k - 1);
      assert paths[k - 1] in Elements(paths);
      OneMore(s, Restores(paths), k - 1);
      OneMore(Layer(s, at), Restores(paths), k - 1);
      RestoreAround(
        ApplyAll(s, Restores(paths)[..k - 1]), t, aside - Elements(paths[..k - 1]), paths[k - 1],
        Carried(at, paths[..k - 1]));
      CarriedOneMore(at, paths, k - 1);
    }
  }

  lemma CarriedOneMore(at: ProbeState, paths: seq<Path>, k: nat)
    requires k < |paths|
    ensures Carried(at, paths[..k + 1]) == if paths[k] == PROBE_PATH then Untouched else Carried(at, paths[..k])
  {
    assert paths[..k + 1] == paths[..k] + [paths[k]];
  }

  lemma RestoreAround(s: Tree, t: Tree, aside: set<Path>, p: Path, at: ProbeState)
    requires SetAside(s, t, aside) && p in aside
    ensures Apply(Layer(s, at), Rename(Aside(p), p))
         == Layer(Apply(s, Rename(Aside(p), p)), if p == PROBE_PATH then Untouched else at)
  {
    AsideRoundTrip(p);
    ProbeIsNoAside();
    assert Aside(p) in s;
  }

  // ----- recovery -----

  /** What recovery does with one aside file: the original is authoritative if it exists. */
  function RecoverOne(s: Tree, p: Path): Tree
    requires IsAside(p)
  {
    if p !in s then s
    else if Original(p) in s then s - {p}
    else (s - {p})[Original(p) := s[p]]
  }

  ghost predicate AllAside(order: seq<Path>) {
    forall i :: 0 <= i < |order| ==> IsAside(order[i])
  }

  /** Recovery of the aside files in the order a directory walk happens to list them. */
  ghost function RecoverInOrder(s: Tree, order: seq<Path>): Tree
    requires AllAside(order)
    decreases |order|
  {
    if order == [] then s else RecoverInOrder(RecoverOne(s, order[0]), order[1..])
  }

  /** The walk lists every aside file exactly once. */
  ghost predicate Lists(order: seq<Path>, s: Tree) {
    && AllAside(order) && Distinct(order)
    && forall p :: p in order <==> p in s && IsAside(p)
  }

  /** A probe is stale, and removed, only if it carries the probe's own first line. */
  function RecoverProbe(s: Tree, path: Path, firstLine: string): Tree {
    if path in s && firstLine <= s[path] then s - {path} else s
  }

  ghost function Recover(s: Tree, order: seq<Path>): Tree
    requires AllAside(order)
  {
    RecoverProbe(RecoverInOrder(s, order), PROBE_PATH, PROBE_DOC)
  }

  /** No aside file of an aside file. */
  ghost predicate NoDoubleAsides(s: Tree) {
    forall p :: p in s && IsAside(p) ==> !IsAside(Original(p))
  }

  /** `r` is `s` with the aside files outside `waiting` dealt with. */
  ghost predicate PartlyRecovered(s: Tree, r: Tree, waiting: set<Path>) {
    && (forall p :: p in r <==>
          if IsAside(p) then p in s && p in waiting
          else p in s || (Aside(p) in s && Aside(p) !in waiting))
    && (forall p :: p in r ==> r[p] == if p in s then s[p] else if Aside(p) in s then s[Aside(p)] else "")
  }

  lemma RecoverOneStep(s: Tree, r: Tree, waiting: set<Path>, p: Path)
    requires NoDoubleAsides(s) && PartlyRecovered(s, r, waiting)
    requires p in s && IsAside(p) && p in waiting
    ensures PartlyRecovered(s, RecoverOne(r, p), waiting - {p})
  {
    var r' := RecoverOne(r, p);
    assert Aside(Original(p)) == p;
    forall q
      ensures q in r' <==>
        if IsAside(q) then q in s && q in waiting - {p}
        else q in s || (Aside(q) in s && Aside(q) !in waiting - {p})
      ensures q in r' ==> r'[q] == if q in s then s[q] else if Aside(q) in s then s[Aside(q)] else ""
    {
      AsideRoundTrip(q);
    }
  }

  lemma {:induction false} RecoverAnyOrder(s: Tree, r: Tree, order: seq<Path>)
    requires NoDoubleAsides(s) && AllAside(order) && Distinct(order)
    requires forall p :: p in order ==> p in s
    requires PartlyRecovered(s, r, Elements(order))
    ensures PartlyRecovered(s, RecoverInOrder(r, order), {})
    decreases |order|
  {
    if order == [] {
      assert Elements(order) == {};
    } else {
      var p, rest := order[0], order[1..];
      ElementsUpTo(order, 0);
      assert order[0..] == order && order[0 + 1..] == rest;
      RecoverOneStep(s, r, Elements(order), p);
      DistinctTail(order);
      RecoverAnyOrder(s, RecoverOne(r, p), rest);
    }
  }

  lemma DistinctTail(order: seq<Path>)
    requires Distinct(order) && order != []
    ensures Distinct(order[1..]) && order[0] !in order[1..]
  {
    var rest := order[1..];
    forall i, j | 0 <= i < j < |rest| ensures rest[i] != rest[j] {
      assert order[i + 1] != order[j + 1];
    }
    forall i | 0 <= i < |rest| ensures rest[i] != order[0] {
      assert order[0] != order[i + 1];
    }
  }

  lemma {:induction false} WalkRecovers(s: Tree, order: seq<Path>)
    requires NoDoubleAsides(s) && Lists(order, s)
    ensures PartlyRecovered(s, RecoverInOrder(s, order), {})
  {
    RecoverAnyOrder(s, s, order);
  }

  /** Whatever the walk order, recovering a tree with some modules aside gives the original back. */
  lemma {:induction false} RecoverSetAside(s: Tree, t: Tree, aside: set<Path>, order: seq<Path>)
    requires SetAside(s, t, aside) && Lists(order, s)
    ensures RecoverInOrder(s, order) == t
  {
    WalkRecovers(s, order);
    var r := RecoverInOrder(s, order);
    forall p ensures p in r <==> p in t {
      AsideRoundTrip(p);
    }
    forall p | p in t ensures r[p] == t[p] {
      AsideRoundTrip(p);
    }
    assert r.Keys == t.Keys;
  }

  /** A file outside the asides passes through recovery; what is aside of it is dropped. */
  lemma {:induction false} RecoverAround(s: Tree, t: Tree, aside: set<Path>, path: Path, contents: string, order: seq<Path>)
    requires SetAside(s, t, aside) && !IsAside(path) && Lists(order, s[path := contents])
    ensures RecoverInOrder(s[path := contents], order) == t[path := contents]
  {
    var s' := s[path := contents];
    WalkRecovers(s', order);
    var r, t' := RecoverInOrder(s', order), t[path := contents];
    forall p ensures p in r <==> p in t' {
      AsideRoundTrip(p);
    }
    forall p | p in t' ensures r[p] == t'[p] {
      AsideRoundTrip(p);
    }
    assert r.Keys == t'.Keys;
  }

  /** A file that is gone, and is not aside, stays gone. */
  lemma {:induction false} RecoverWithout(s: Tree, t: Tree, aside: set<Path>, path: Path, order: seq<Path>)
    requires SetAside(s, t, aside) && path !in aside && !IsAside(path) && Lists(order, s - {path})
    ensures RecoverInOrder(s - {path}, order) == t - {path}
  {
    var s' := s - {path};
    WalkRecovers(s', order);
    var r, t' := RecoverInOrder(s', order), t - {path};
    forall p ensures p in r <==> p in t' {
      AsideRoundTrip(p);
      assert Aside(p) in s' <==> Aside(p) in s;
    }
    forall p | p in t' ensures r[p] == t'[p] {
      AsideRoundTrip(p);
      assert Aside(p) in s' <==> Aside(p) in s;
    }
    assert r.Keys == t'.Keys;
  }

  /** No file at the probe's path that recovery would take for a stale probe. */
  ghost predicate NoStaleProbe(t: Tree) {
    PROBE_PATH in t ==> !(PROBE_DOC <= t[PROBE_PATH])
  }

  /** What recovery makes of a tree with modules aside and something at the probe's path. */
  ghost function Settled(t: Tree, aside: set<Path>, at: ProbeState): Tree {
    match at
    case Untouched => if NoStaleProbe(t) then t else t - {PROBE_PATH}
    case Holds(contents) => if PROBE_DOC <= contents then t - {PROBE_PATH} else t[PROBE_PATH := contents]
    case Gone => if PROBE_PATH in aside && NoStaleProbe(t) then t else t - {PROBE_PATH}
  }

  lemma {:induction false} UntouchedSettles(s: Tree, t: Tree, aside: set<Path>, order: seq<Path>)
    requires SetAside(s, t, aside) && Lists(order, s)
    ensures Recover(s, order) == Settled(t, aside, Untouched)
  {
    RecoverSetAside(s, t, aside, order);
  }

  lemma {:induction false} HoldsSettles(s: Tree, t: Tree, aside: set<Path>, contents: string, order: seq<Path>)
    requires SetAside(s, t, aside) && Lists(order, s[PROBE_PATH := contents])
    ensures Recover(s[PROBE_PATH := contents], order) == Settled(t, aside, Holds(contents))
  {
    ProbeIsNoAside();
    RecoverAround(s, t, aside, PROBE_PATH, contents, order);
    assert t[PROBE_PATH := contents] - {PROBE_PATH} == t - {PROBE_PATH};
  }

  lemma {:induction false} GoneSettles(s: Tree, t: Tree, aside: set<Path>, order: seq<Path>)
    requires SetAside(s, t, aside) && Lists(order, s - {PROBE_PATH})
    ensures Recover(s - {PROBE_PATH}, order) == Settled(t, aside, Gone)
  {
    ProbeIsNoAside();
    if PROBE_PATH in aside {
      assert s - {PROBE_PATH} == s;
      RecoverSetAside(s, t, aside, order);
    } else {
      RecoverWithout(s, t, aside, PROBE_PATH, order);
    }
  }

  lemma {:induction false} RecoverSettles(s: Tree, t: Tree, aside: set<Path>, at: ProbeState, order: seq<Path>)
    requires SetAside(s, t, aside) && Lists(order, Layer(s, at))
    ensures Recover(Layer(s, at), order) == Settled(t, aside, at)
  {
    match at
    case Untouched => UntouchedSettles(s, t, aside, order);
    case Holds(contents) => HoldsSettles(s, t, aside, contents, order);
    case Gone => GoneSettles(s, t, aside, order);
  }

  // ----- crashes -----

  ghost function ProbeOps(probe: Option<string>): seq<Op> {
    if probe.Some? then [Write(PROBE_PATH, probe.value), Remove(PROBE_PATH)] else []
  }

  /** The state after a prefix of the pass: some renames, then the probe, then some restores. */
  lemma {:induction false} PassPrefixState(t: Tree, blocking: seq<Path>, probe: Option<string>, k: nat)
    requires k <= |PassOps(blocking, probe)|
    ensures var n, m := |blocking|, |ProbeOps(probe)|;
            ApplyAll(t, PassOps(blocking, probe)[..k])
            == if k <= n then ApplyAll(t, Renames(blocking)[..k])
               else if k < n + m then ApplyAll(ApplyAll(t, Renames(blocking)), ProbeOps(probe)[..k - n])
               else ApplyAll(ApplyAll(ApplyAll(t, Renames(blocking)), ProbeOps(probe)), Restores(blocking)[..k - n - m])
  {
    var n, m := |blocking|, |ProbeOps(probe)|;
    var renames, middle, restores := Renames(blocking), ProbeOps(probe), Restores(blocking);
    var ops := renames + middle + restores;
    if k <= n {
      assert ops[..k] == renames[..k];
    } else if k < n + m {
      assert ops[..k] == renames + middle[..k - n];
      ApplyAllConcat(t, renames, middle[..k - n]);
    } else {
      assert ops[..k] == renames + middle + restores[..k - n - m];
      ApplyAllConcat(t, renames, middle);
      ApplyAllConcat(t, renames + middle, restores[..k - n - m]);
    }
  }

  lemma AllAsideAfterRenames(t: Tree, blocking: seq<Path>)
    requires Plan(t, blocking)
    ensures SetAside(ApplyAll(t, Renames(blocking)), t, Elements(blocking))
  {
    AfterRenames(t, blocking, |blocking|);
    assert Renames(blocking)[..|blocking|] == Renames(blocking) && blocking[..|blocking|] == blocking;
  }

  /** The modules that are aside after k operations of a pass. */
  ghost function AsideAfter(blocking: seq<Path>, probe: Option<string>, k: nat): set<Path>
    requires k <= |PassOps(blocking, probe)|
  {
    var n, m := |blocking|, |ProbeOps(probe)|;
    if k <= n then Elements(blocking[..k])
    else if k < n + m then Elements(blocking)
    else Elements(blocking) - Elements(blocking[..k - n - m])
  }

  /** What the probe's path holds then. A module that was there and is not aside has been overwritten. */
  ghost function ProbeAfter(blocking: seq<Path>, probe: Option<string>, k: nat): ProbeState {
    if probe.None? || k <= |blocking| then Untouched
    else if k == |blocking| + 1 then Holds(probe.value)
    else if PROBE_PATH in blocking then Untouched
    else Gone
  }

  /** Every prefix of a pass leaves just that: some modules aside, and the probe's path so. */
  lemma {:induction false} PassPrefix(t: Tree, blocking: seq<Path>, probe: Option<string>, k: nat)
    returns (base: Tree)
    requires Plan(t, blocking) && k <= |PassOps(blocking, probe)|
    ensures SetAside(base, t, AsideAfter(blocking, probe, k))
    ensures ApplyAll(t, PassOps(blocking, probe)[..k]) == Layer(base, ProbeAfter(blocking, probe, k))
  {
    var n, m := |blocking|, |ProbeOps(probe)|;
    PassPrefixState(t, blocking, probe, k);
    AllAsideAfterRenames(t, blocking);
    var all := ApplyAll(t, Renames(blocking));
    if k <= n {
      AfterRenames(t, blocking, k);
      base := ApplyAll(t, Renames(blocking)[..k]);
    } else if k < n + m {
      ProbeWritten(all, probe.value);
      base := all;
    } else {
      base := ApplyAll(all, Restores(blocking)[..k - n - m]);
      AfterRestores(all, t, Elements(blocking), blocking, k - n - m);
      RestoringPrefix(all, t, blocking, probe, k - n - m);
    }
  }

  lemma ProbeWritten(s: Tree, source: string)
    ensures ApplyAll(s, ProbeOps(Some(source))[..1]) == s[PROBE_PATH := source]
  {
    assert ProbeOps(Some(source))[..1] == [Write(PROBE_PATH, source)];
    ApplyOne(s, Write(PROBE_PATH, source));
  }

  /** While modules are being restored, behind the removal of the probe if there was one. */
  lemma {:induction false} RestoringPrefix(all: Tree, t: Tree, blocking: seq<Path>, probe: Option<string>, j: nat)
    requires Plan(t, blocking) && SetAside(all, t, Elements(blocking)) && j <= |blocking|
    ensures ApplyAll(ApplyAll(all, ProbeOps(probe)), Restores(blocking)[..j])
         == Layer(
              ApplyAll(all, Restores(blocking)[..j]),
              if probe.None? || PROBE_PATH in blocking then Untouched else Gone)
  {
    if probe.Some? {
      var base := ApplyAll(all, Restores(blocking)[..j]);
      WriteThenRemove(all, PROBE_PATH, probe.value);
      RestoresAround(all, t, Elements(blocking), blocking, j, Gone);
      AfterRestores(all, t, Elements(blocking), blocking, j);
      GoneIsNothingNew(base, t, Elements(blocking) - Elements(blocking[..j]), blocking, j);
    }
  }

  /** Removing the file at the probe's path matters only if a module there was left in place. */
  lemma GoneIsNothingNew(base: Tree, t: Tree, aside: set<Path>, blocking: seq<Path>, j: nat)
    requires j <= |blocking| && SetAside(base, t, aside) && aside == Elements(blocking) - Elements(blocking[..j])
    ensures Layer(base, Carried(Gone, blocking[..j])) == Layer(base, if PROBE_PATH in blocking then Untouched else Gone)
  {
    ProbeIsNoAside();
    if PROBE_PATH in blocking && PROBE_PATH !in blocking[..j] {
      assert PROBE_PATH in aside && PROBE_PATH !in base;
      assert base - {PROBE_PATH} == base;
    } else if PROBE_PATH !in blocking {
      assert forall i :: 0 <= i < j ==> blocking[..j][i] in blocking;
    }
  }

  lemma ApplyOne(s: Tree, op: Op)
    ensures ApplyAll(s, [op]) == Apply(s, op)
  {
    assert ApplyAll(Apply(s, op), [op][1..]) == Apply(s, op);
  }

  lemma WriteThenRemove(s: Tree, path: Path, contents: string)
    ensures ApplyAll(s, [Write(path, contents), Remove(path)]) == s - {path}
  {
    var ops := [Write(path, contents), Remove(path)];
    assert ops[1..] == [Remove(path)];
    ApplyOne(Apply(s, ops[0]), ops[1]);
    assert s[path := contents] - {path} == s - {path};
  }

  /**
   Whether recovery gives back the tree that a pass found when it was stopped after k operations.
   A module at the probe's path survives only until the probe is written over it; or, if it was
   set aside, also from the removal of the probe on.
   */
  ghost predicate Survives(t: Tree, blocking: seq<Path>, probe: Option<string>, k: nat) {
    && NoStaleProbe(t)
    && (|| probe.None? || PROBE_PATH !in t || k <= |blocking|
        || (PROBE_PATH in blocking && k >= |blocking| + 2))
  }

  /**
   Killed after any number of its operations, a pass leaves a tree from which recovery, in any
   walk order, gives the original back, or loses the one module at the probe's path.
   */
  lemma {:induction false} CrashThenRecover(
    t: Tree, blocking: seq<Path>, probe: Option<string>, k: nat, order: seq<Path>)
    requires Plan(t, blocking) && k <= |PassOps(blocking, probe)|
    requires probe.Some? ==> PROBE_DOC <= probe.value
    requires Lists(order, ApplyAll(t, PassOps(blocking, probe)[..k]))
    ensures var recovered := Recover(ApplyAll(t, PassOps(blocking, probe)[..k]), order);
            && (recovered == t <==> Survives(t, blocking, probe, k))
            && (recovered == t || (PROBE_PATH in t && recovered == t - {PROBE_PATH}))
  {
    var base := PassPrefix(t, blocking, probe, k);
    var aside, at := AsideAfter(blocking, probe, k), ProbeAfter(blocking, probe, k);
    RecoverSettles(base, t, aside, at, order);
    if PROBE_PATH in t {
      assert PROBE_PATH !in t - {PROBE_PATH};
    } else {
      assert t - {PROBE_PATH} == t;
    }
    if at.Gone? {
      assert PROBE_PATH !in aside;
    }
  }

  /** The failing input: a project with a module at the probe's path, stopped once the probe is written. */
  lemma ModuleAtProbePathIsLost(order: seq<Path>)
    requires var s := ApplyAll(map[PROBE_PATH := "author"], PassOps([PROBE_PATH], Some(PROBE_DOC))[..2]);
             Lists(order, s)
    ensures var s := ApplyAll(map[PROBE_PATH := "author"], PassOps([PROBE_PATH], Some(PROBE_DOC))[..2]);
            Recover(s, order) == map[]
    ensures ApplyAll(map[PROBE_PATH := "author"], PassOps([PROBE_PATH], Some(PROBE_DOC)))
         == map[PROBE_PATH := "author"]
  {
    var t: Tree := map[PROBE_PATH := "author"];
    ProbeIsNoAside();
    assert Plan(t, [PROBE_PATH]);
    assert |PassOps([PROBE_PATH], Some(PROBE_DOC))| == 4;
    CrashThenRecover(t, [PROBE_PATH], Some(PROBE_DOC), 2, order);
    assert !Survives(t, [PROBE_PATH], Some(PROBE_DOC), 2);
    assert t - {PROBE_PATH} == map[];
    PassRestoresIff(t, [PROBE_PATH], Some(PROBE_DOC));
  }

  lemma TornPrefix(source: string, line: string, n: nat)
    requires line <= source && n <= |source|
    ensures line <= source[..n] <==> |line| <= n
  {
  }

  lemma SettledHolds(t: Tree, aside: set<Path>, contents: string)
    ensures Settled(t, aside, Holds(contents)) == t
       <==> if PROBE_DOC <= contents then PROBE_PATH !in t else PROBE_PATH in t && t[PROBE_PATH] == contents
  {
    if PROBE_PATH !in t {
      assert t - {PROBE_PATH} == t;
    } else if t[PROBE_PATH] == contents {
      assert t[PROBE_PATH := contents] == t;
    }
  }

  /**
   The write of the probe is not atomic. Killed after writing only a prefix of its source, the
   tree is recovered exactly when that prefix holds the whole first line and there was no file
   at the probe's path, or it does not and is what the file there held anyway.
   */
  lemma {:induction false} TornProbeIsRecoveredIff(
    t: Tree, blocking: seq<Path>, source: string, n: nat, order: seq<Path>)
    requires Plan(t, blocking) && PROBE_DOC <= source && n <= |source|
    requires Lists(order, ApplyAll(t, Renames(blocking))[PROBE_PATH := source[..n]])
    ensures Recover(ApplyAll(t, Renames(blocking))[PROBE_PATH := source[..n]], order) == t
       <==> if |PROBE_DOC| <= n then PROBE_PATH !in t else PROBE_PATH in t && t[PROBE_PATH] == source[..n]
  {
    AllAsideAfterRenames(t, blocking);
    RecoverSettles(ApplyAll(t, Renames(blocking)), t, Elements(blocking), Holds(source[..n]), order);
    TornPrefix(source, PROBE_DOC, n);
    SettledHolds(t, Elements(blocking), source[..n]);
  }

  /**
   An uninterrupted pass restores the tree exactly when its probe does not land on a module the
   pass has left in place.
   */
  lemma {:induction false} PassRestoresIff(t: Tree, blocking: seq<Path>, probe: Option<string>)
    requires Plan(t, blocking)
    ensures ApplyAll(t, PassOps(blocking, probe)) == t
       <==> probe.None? || PROBE_PATH !in t || PROBE_PATH in blocking
  {
    var n, k := |blocking|, |PassOps(blocking, probe)|;
    assert PassOps(blocking, probe)[..k] == PassOps(blocking, probe);
    assert blocking[..n] == blocking;
    var base := PassPrefix(t, blocking, probe, k);
    assert AsideAfter(blocking, probe, k) == {};
    NothingAsideIsOriginal(base, t);
    if PROBE_PATH !in t {
      assert t - {PROBE_PATH} == t;
    }
  }

  // ----- recovery that is itself interrupted -----

  lemma NoDoublesAside(s: Tree, t: Tree, aside: set<Path>, at: ProbeState)
    requires SetAside(s, t, aside)
    ensures NoDoubleAsides(Layer(s, at))
  {
    ProbeIsNoAside();
  }

  lemma SamePartlyRecovered(s: Tree, r: Tree, r': Tree)
    requires PartlyRecovered(s, r, {}) && PartlyRecovered(s, r', {})
    ensures r == r'
  {
    assert r.Keys == r'.Keys;
  }

  /** After a prefix of a walk, the rest of it is still to be done. */
  lemma {:induction false} PartOfWalk(s: Tree, order: seq<Path>, j: nat)
    requires NoDoubleAsides(s) && Lists(order, s) && j <= |order|
    ensures AllAside(order[..j])
    ensures PartlyRecovered(s, RecoverInOrder(s, order[..j]), Elements(order[j..]))
    decreases j
  {
    if j == 0 {
      assert order[0..] == order;
    } else {
      PartOfWalk(s, order, j - 1);
      ElementsUpTo(order, j - 1);
      assert order[..j] == order[..j - 1] + [order[j - 1]];
      RecoverOneMore(s, order[..j - 1], order[j - 1]);
      RecoverOneStep(s, RecoverInOrder(s, order[..j - 1]), Elements(order[j - 1..]), order[j - 1]);
    }
  }

  /** Recovering a partly recovered tree completes it. */
  lemma ResumedRecovery(s: Tree, r: Tree, waiting: set<Path>, r': Tree)
    requires NoDoubleAsides(s) && PartlyRecovered(s, r, waiting) && PartlyRecovered(r, r', {})
    ensures PartlyRecovered(s, r', {})
  {
    forall p
      ensures p in r' <==> if IsAside(p) then false else p in s || Aside(p) in s
      ensures p in r' ==> r'[p] == if p in s then s[p] else if Aside(p) in s then s[Aside(p)] else ""
    {
      AsideRoundTrip(p);
    }
  }

  /**
   Stopped after any part of its walk, recovery leaves a tree from which another recovery, in
   any order of its own, ends where the first would have ended.
   */
  lemma {:induction false} InterruptedRecovery(s: Tree, order: seq<Path>, j: nat, again: seq<Path>)
    requires NoDoubleAsides(s) && Lists(order, s) && j <= |order| && AllAside(order[..j])
    requires Lists(again, RecoverInOrder(s, order[..j]))
    ensures NoDoubleAsides(RecoverInOrder(s, order[..j]))
    ensures Recover(RecoverInOrder(s, order[..j]), again) == Recover(s, order)
  {
    var r := RecoverInOrder(s, order[..j]);
    PartOfWalk(s, order, j);
    WalkRecovers(s, order);
    WalkRecovers(r, again);
    ResumedRecovery(s, r, Elements(order[j..]), RecoverInOrder(r, again));
    SamePartlyRecovered(s, RecoverInOrder(r, again), RecoverInOrder(s, order));
  }

  /** A pass that is killed, whose recovery is killed too, is recovered in the end all the same. */
  lemma {:induction false} CrashDuringRecovery(
    t: Tree, blocking: seq<Path>, probe: Option<string>, k: nat, order: seq<Path>, j: nat, again: seq<Path>)
    requires Plan(t, blocking) && k <= |PassOps(blocking, probe)|
    requires probe.Some? ==> PROBE_DOC <= probe.value
    requires Lists(order, ApplyAll(t, PassOps(blocking, probe)[..k])) && j <= |order| && AllAside(order[..j])
    requires Lists(again, RecoverInOrder(ApplyAll(t, PassOps(blocking, probe)[..k]), order[..j]))
    ensures Recover(RecoverInOrder(ApplyAll(t, PassOps(blocking, probe)[..k]), order[..j]), again) == t
       <==> Survives(t, blocking, probe, k)
  {
    var base := PassPrefix(t, blocking, probe, k);
    NoDoublesAside(base, t, AsideAfter(blocking, probe, k), ProbeAfter(blocking, probe, k));
    InterruptedRecovery(ApplyAll(t, PassOps(blocking, probe)[..k]), order, j, again);
    CrashThenRecover(t, blocking, probe, k, order);
  }

  // ----- when recovery is idempotent -----

  lemma {:induction false} RecoverKeepsForeign(s: Tree, order: seq<Path>, p: Path)
    requires AllAside(order) && p in s && p !in order
    ensures p in RecoverInOrder(s, order)
    decreases |order|
  {
    if order != [] {
      RecoverKeepsForeign(RecoverOne(s, order[0]), order[1..], p);
    }
  }

  /** No leftover at all. */
  ghost predicate Clean(t: Tree) {
    NoAsides(t) && NoStaleProbe(t)
  }

  lemma RecoverKeepsAsides(s: Tree, order: seq<Path>)
    requires AllAside(order)
    ensures NoStaleProbe(Recover(s, order))
    ensures forall p :: IsAside(p) ==> (p in Recover(s, order) <==> p in RecoverInOrder(s, order))
  {
    ProbeIsNoAside();
  }

  /** Every walk order leaves a clean tree exactly when no aside is aside of an aside. */
  lemma {:induction false} RecoveryIsCompleteIff(s: Tree)
    ensures NoDoubleAsides(s) <==> forall order :: Lists(order, s) ==> Clean(Recover(s, order))
  {
    if NoDoubleAsides(s) {
      forall order | Lists(order, s) ensures Clean(Recover(s, order)) {
        WalkRecovers(s, order);
        RecoverKeepsAsides(s, order);
      }
    } else {
      var q :| q in s && IsAside(q) && IsAside(Original(q));
      var order := AwkwardOrder(s, q);
      RecoverKeepsAsides(s, order);
      assert !Clean(Recover(s, order));
    }
  }

  /** Visiting an aside before the aside of that aside leaves the latter's target behind. */
  lemma {:induction false} AwkwardOrder(s: Tree, q: Path) returns (order: seq<Path>)
    requires q in s && IsAside(q) && IsAside(Original(q))
    ensures Lists(order, s) && Original(q) in RecoverInOrder(s, order)
  {
    var p := Original(q);
    var others := ListOfExists((set x | x in s && IsAside(x)) - {p, q});
    var tail := [q] + others;
    DistinctPrepend(q, others);
    assert tail[1..] == others;
    assert AllAside(others) && AllAside(tail) by {
      assert forall i :: 0 <= i < |others| ==> others[i] in others;
    }
    if p in s {
      order := [p] + tail;
      DistinctPrepend(p, tail);
      assert AllAside(order) && order[1..] == tail;
      RecoverKeepsForeign(RecoverOne(RecoverOne(s, p), q), others, p);
    } else {
      order := tail;
      RecoverKeepsForeign(RecoverOne(s, q), others, p);
    }
  }

  lemma DistinctPrepend(p: Path, rest: seq<Path>)
    requires Distinct(rest) && p !in rest
    ensures Distinct([p] + rest)
  {
  }

  /** Some listing of a set. */
  lemma {:induction false} ListOfExists(paths: set<Path>) returns (order: seq<Path>)
    ensures Distinct(order) && forall p :: p in order <==> p in paths
    decreases |paths|
  {
    if paths == {} {
      order := [];
    } else {
      var p :| p in paths;
      var rest := ListOfExists(paths - {p});
      DistinctPrepend(p, rest);
      order := [p] + rest;
    }
  }

  lemma {:induction false} RecoverOneMore(s: Tree, order: seq<Path>, p: Path)
    requires AllAside(order) && IsAside(p)
    ensures AllAside(order + [p])
    ensures RecoverInOrder(s, order + [p]) == RecoverOne(RecoverInOrder(s, order), p)
    decreases |order|
  {
    assert AllAside(order + [p]);
    if order == [] {
      assert order + [p] == [p] && [p][1..] == [];
    } else {
      assert (order + [p])[1..] == order[1..] + [p];
      RecoverOneMore(RecoverOne(s, order[0]), order[1..], p);
    }
  }

  /** If an aside file is left, some further recovery removes it. */
  lemma {:induction false} LeftoverMeansAnotherChange(r: Tree, p: Path) returns (order: seq<Path>)
    requires p in r && IsAside(p)
    ensures Lists(order, r) && p !in RecoverInOrder(r, order)
  {
    var others := ListOfExists((set x | x in r && IsAside(x)) - {p});
    assert AllAside(others) by {
      assert forall i :: 0 <= i < |others| ==> others[i] in others;
    }
    order := others + [p];
    assert Distinct(order);
    RecoverOneMore(r, others, p);
    assert p !in RecoverOne(RecoverInOrder(r, others), p);
  }

  lemma NothingToRecover(r: Tree, order: seq<Path>)
    requires Clean(r) && Lists(order, r)
    ensures Recover(r, order) == r
  {
  }

  /** Recovering twice is recovering once, for all walk orders, exactly when no aside has an aside. */
  lemma {:induction false} RecoveryIsIdempotentIff(s: Tree)
    ensures NoDoubleAsides(s) <==>
      forall order, again :: Lists(order, s) && Lists(again, Recover(s, order)) ==>
        Recover(Recover(s, order), again) == Recover(s, order)
  {
    RecoveryIsCompleteIff(s);
    if NoDoubleAsides(s) {
      forall order, again | Lists(order, s) && Lists(again, Recover(s, order))
        ensures Recover(Recover(s, order), again) == Recover(s, order)
      {
        NothingToRecover(Recover(s, order), again);
      }
    } else {
      var order :| Lists(order, s) && !Clean(Recover(s, order));
      var r := Recover(s, order);
      RecoverKeepsAsides(s, order);
      var p :| p in r && IsAside(p);
      var again := LeftoverMeansAnotherChange(r, p);
      RecoverKeepsAsides(r, again);
      assert Recover(r, again) != r;
    }
  }

  // ----- one killed pass after another -----

  /** One invocation: recovery in some walk order, and then a pass killed after k of its operations. */
  datatype Kill = Kill(order: seq<Path>, blocking: seq<Path>, probe: Option<string>, k: nat)

  /** The invocation can take place in `s`: a listing of it, and a plan for what recovery makes of it. */
  ghost predicate Happens(s: Tree, kill: Kill) {
    && Lists(kill.order, s) && Plan(Recover(s, kill.order), kill.blocking)
    && kill.k <= |PassOps(kill.blocking, kill.probe)|
    && (kill.probe.Some? ==> PROBE_DOC <= kill.probe.value)
  }

  ghost function AfterKill(s: Tree, kill: Kill): Tree
    requires Happens(s, kill)
  {
    ApplyAll(Recover(s, kill.order), PassOps(kill.blocking, kill.probe)[..kill.k])
  }

  ghost predicate AllHappen(s: Tree, kills: seq<Kill>)
    decreases |kills|
  {
    kills != [] ==> Happens(s, kills[0]) && AllHappen(AfterKill(s, kills[0]), kills[1..])
  }

  ghost function AfterKills(s: Tree, kills: seq<Kill>): Tree
    requires AllHappen(s, kills)
    decreases |kills|
  {
    if kills == [] then s else AfterKills(AfterKill(s, kills[0]), kills[1..])
  }

  /** Recovery, in any walk order, makes `u` of `s`. */
  ghost predicate RecoversTo(s: Tree, u: Tree) {
    forall order :: Lists(order, s) ==> Recover(s, order) == u
  }

  ghost predicate AllSurvive(t: Tree, kills: seq<Kill>) {
    forall i :: 0 <= i < |kills| ==> Survives(t, kills[i].blocking, kills[i].probe, kills[i].k)
  }

  /** After one more killed pass over `u`, recovery makes `u` again, or `u` without the file at the probe's path. */
  lemma {:induction false} KillRecoversTo(s: Tree, u: Tree, kill: Kill)
    requires RecoversTo(s, u) && NoStaleProbe(u) && Happens(s, kill)
    ensures RecoversTo(
              AfterKill(s, kill), if Survives(u, kill.blocking, kill.probe, kill.k) then u else u - {PROBE_PATH})
  {
    var s' := AfterKill(s, kill);
    forall order | Lists(order, s')
      ensures Recover(s', order) == if Survives(u, kill.blocking, kill.probe, kill.k) then u else u - {PROBE_PATH}
    {
      CrashThenRecover(u, kill.blocking, kill.probe, kill.k, order);
    }
  }

  lemma {:induction false} KillsRecoverTo(s: Tree, u: Tree, kills: seq<Kill>)
    requires RecoversTo(s, u) && NoStaleProbe(u) && AllHappen(s, kills)
    ensures RecoversTo(AfterKills(s, kills), if AllSurvive(u, kills) then u else u - {PROBE_PATH})
    decreases |kills|
  {
    if kills != [] {
      var u' := if Survives(u, kills[0].blocking, kills[0].probe, kills[0].k) then u else u - {PROBE_PATH};
      KillRecoversTo(s, u, kills[0]);
      KillsRecoverTo(AfterKill(s, kills[0]), u', kills[1..]);
      SurvivesFirst(u, kills);
      if u' != u {
        assert AllSurvive(u', kills[1..]);
      }
    }
  }

  lemma SurvivesFirst(u: Tree, kills: seq<Kill>)
    requires kills != []
    ensures AllSurvive(u, kills)
       <==> Survives(u, kills[0].blocking, kills[0].probe, kills[0].k) && AllSurvive(u, kills[1..])
  {
    assert forall i :: 1 <= i < |kills| ==> kills[i] == kills[1..][i - 1];
  }

  /** A tree without asides has nothing to recover but what looks like a stale probe. */
  lemma OriginalRecoversTo(t: Tree)
    requires NoAsides(t)
    ensures RecoversTo(t, if NoStaleProbe(t) then t else t - {PROBE_PATH})
  {
    forall order | Lists(order, t)
      ensures Recover(t, order) == if NoStaleProbe(t) then t else t - {PROBE_PATH}
    {
      SetAsideNothing(t);
      UntouchedSettles(t, t, {}, order);
    }
  }

  /**
   After any sequence of killed passes, each behind a recovery of what the one before left, a last
   recovery gives back the original tree if and only if the tree survives every single kill;
   otherwise it has lost the one file at the probe's path.
   */
  lemma {:induction false} KillsThenRecover(t: Tree, kills: seq<Kill>, order: seq<Path>)
    requires NoAsides(t) && AllHappen(t, kills) && Lists(order, AfterKills(t, kills))
    ensures var recovered := Recover(AfterKills(t, kills), order);
            && (recovered == t <==> NoStaleProbe(t) && AllSurvive(t, kills))
            && (recovered == t || (PROBE_PATH in t && recovered == t - {PROBE_PATH}))
  {
    var u := if NoStaleProbe(t) then t else t - {PROBE_PATH};
    OriginalRecoversTo(t);
    KillsRecoverTo(t, u, kills);
    assert u - {PROBE_PATH} == t - {PROBE_PATH};
    if PROBE_PATH in t {
      assert PROBE_PATH !in t - {PROBE_PATH};
    } else {
      assert t - {PROBE_PATH} == t;
    }
  }

  /** And the pass behind that recovery gives the tree back exactly if it also spares the probe's path. */
  lemma {:induction false} KillsThenPass(
    t: Tree, kills: seq<Kill>, order: seq<Path>, blocking: seq<Path>, probe: Option<string>)
    requires NoAsides(t) && AllHappen(t, kills) && Lists(order, AfterKills(t, kills))
    requires Plan(Recover(AfterKills(t, kills), order), blocking)
    ensures ApplyAll(Recover(AfterKills(t, kills), order), PassOps(blocking, probe)) == t
       <==> NoStaleProbe(t) && AllSurvive(t, kills) && (probe.None? || PROBE_PATH !in t || PROBE_PATH in blocking)
  {
    KillsThenRecover(t, kills, order);
    PassRestoresIff(Recover(AfterKills(t, kills), order), blocking, probe);
  }
}
