/**
 * The part of the operating system the toolbox touches: a tree of paths, the
 * calls os.mkdir, shutil.copyfile, os.remove, Image.save (as a plain file
 * write) and Path.iterdir, and the fail-stop loop every script runs over them.
 */
module FileSystem {
  import opened Wrappers
  import opened Exceptions

  /** File contents are opaque bytes. */
  type Content = seq<bv8>

  datatype Node = Dir | File(data: Content)

  /** A path is a sequence of components relative to the working directory; [] is '.'. */
  type Tree = map<Path, Node>

  function Parent(p: Path): Path
    requires p != []
  {
    p[..|p| - 1]
  }

  /** PurePath.name: the last component, '' for '.'. */
  function NameOf(p: Path): string {
    if p == [] then "" else p[|p| - 1]
  }

  predicate IsDir(t: Tree, p: Path) {
    p in t && t[p].Dir?
  }

  predicate IsFile(t: Tree, p: Path) {
    p in t && t[p].File?
  }

  /** Every entry hangs below a directory, and the working directory is one. */
  ghost predicate Valid(t: Tree) {
    && IsDir(t, [])
    && forall p :: p in t && p != [] ==> IsDir(t, Parent(p))
  }

  /** p names an entry directly inside d. */
  predicate InFolder(p: Path, d: Path) {
    |p| == |d| + 1 && p[..|d|] == d
  }

  /** The entries directly inside d. */
  function Children(t: Tree, d: Path): set<Path> {
    set p | p in t && InFolder(p, d)
  }

  predicate Distinct<T(==)>(s: seq<T>) {
    forall i, j :: 0 <= i < j < |s| ==> s[i] != s[j]
  }

  /** A state together with whether the call that produced it raised. */
  datatype Run = Run(tree: Tree, outcome: Outcome<Error>)

  /** What opening p for writing reports when p is not a directory itself. */
  function ParentCheck(t: Tree, p: Path): Outcome<Error>
    requires p != []
  {
    if Parent(p) !in t then Fail(FileNotFound(p))
    else if !IsDir(t, Parent(p)) then Fail(NotADirectory(p))
    else Pass
  }

  /** os.mkdir(p) */
  function AfterMkdir(t: Tree, p: Path): Run {
    if p == [] || p in t then Run(t, Fail(FileExists(p)))
    else if ParentCheck(t, p).Fail? then Run(t, ParentCheck(t, p))
    else Run(t[p := Dir], Pass)
  }

  /** shutil.copyfile(src, dst) */
  function AfterCopy(t: Tree, src: Path, dst: Path): Run {
    if src == dst && src in t then Run(t, Fail(SameFile(src)))
    else if src !in t then Run(t, Fail(FileNotFound(src)))
    else if t[src].Dir? then Run(t, Fail(IsADirectory(src)))
    else if dst == [] || IsDir(t, dst) then Run(t, Fail(IsADirectory(dst)))
    else if ParentCheck(t, dst).Fail? then Run(t, ParentCheck(t, dst))
    else Run(t[dst := File(t[src].data)], Pass)
  }

  /** os.remove(p) */
  function AfterRemove(t: Tree, p: Path): Run {
    if p !in t then Run(t, Fail(FileNotFound(p)))
    else if t[p].Dir? then Run(t, Fail(IsADirectory(p)))
    else Run(t - {p}, Pass)
  }

  /** Writing a whole file at p, as an image library's save does. */
  function AfterWrite(t: Tree, p: Path, data: Content): Run {
    if p == [] || IsDir(t, p) then Run(t, Fail(IsADirectory(p)))
    else if ParentCheck(t, p).Fail? then Run(t, ParentCheck(t, p))
    else Run(t[p := File(data)], Pass)
  }

  /** Whether opening p for reading raises. */
  function ReadCheck(t: Tree, p: Path): Outcome<Error> {
    if p !in t then Fail(FileNotFound(p))
    else if t[p].Dir? then Fail(IsADirectory(p))
    else Pass
  }

  /** Whether listing d (Path.iterdir) raises. */
  function ListCheck(t: Tree, d: Path): Outcome<Error> {
    if d !in t then Fail(FileNotFound(d))
    else if t[d].File? then Fail(NotADirectory(d))
    else Pass
  }

  lemma {:induction false} OperationsPreserveValid(t: Tree, p: Path, q: Path, data: Content)
    requires Valid(t)
    ensures Valid(AfterMkdir(t, p).tree)
    ensures Valid(AfterCopy(t, p, q).tree)
    ensures Valid(AfterRemove(t, p).tree)
    ensures Valid(AfterWrite(t, p, data).tree)
  {
    // Removing a file never orphans an entry: no entry has a file as parent.
    var r := AfterRemove(t, p).tree;
    forall x | x in r && x != []
      ensures IsDir(r, Parent(x))
    {
      assert IsDir(t, Parent(x));
    }
  }

  /**
   * A script loop over jobs: each step runs on the state left by the previous
   * one, and the first step that raises ends the loop with its state.
   */
  function Apply<J>(t: Tree, jobs: seq<J>, step: (Tree, J) -> Run): (r: Run)
    decreases |jobs|
  {
    if jobs == [] then Run(t, Pass)
    else
      var before := Apply(t, jobs[..|jobs| - 1], step);
      if before.outcome.Fail? then before else step(before.tree, jobs[|jobs| - 1])
  }

  /** One more loop iteration, the shape every loop invariant below needs. */
  lemma ApplyStep<J>(t: Tree, jobs: seq<J>, i: nat, step: (Tree, J) -> Run)
    requires i < |jobs|
    requires Apply(t, jobs[..i], step).outcome.Pass?
    ensures Apply(t, jobs[..i + 1], step) == step(Apply(t, jobs[..i], step).tree, jobs[i])
  {
    assert jobs[..i + 1][..i] == jobs[..i];
  }

  /** Once a step has raised, the remaining jobs change nothing. */
  lemma {:induction false} ApplyStopsAtFailure<J>(t: Tree, jobs: seq<J>, k: nat, step: (Tree, J) -> Run)
    requires k <= |jobs|
    requires Apply(t, jobs[..k], step).outcome.Fail?
    ensures Apply(t, jobs, step) == Apply(t, jobs[..k], step)
  {
    if k < |jobs| {
      assert jobs[..|jobs| - 1][..k] == jobs[..k];
      ApplyStopsAtFailure(t, jobs[..|jobs| - 1], k, step);
    } else {
      assert jobs[..k] == jobs;
    }
  }

  /** Running a then b is running a, then b from where a left off unless a raised. */
  lemma {:induction false} ApplyAppend<J>(t: Tree, a: seq<J>, b: seq<J>, step: (Tree, J) -> Run)
    ensures Apply(t, a + b, step)
            == (var m := Apply(t, a, step); if m.outcome.Fail? then m else Apply(m.tree, b, step))
    decreases |b|
  {
    if b == [] {
      assert a + b == a;
    } else {
      assert (a + b)[..|a + b| - 1] == a + b[..|b| - 1];
      ApplyAppend(t, a, b[..|b| - 1], step);
    }
  }

  /** The process-wide file system the scripts run against. */
  class FileSystem {
    var tree: Tree

    constructor (t: Tree)
      ensures tree == t
    {
      tree := t;
    }

    /** Path.exists() */
    function Exists(p: Path): bool
      reads this
    {
      p in tree
    }

    method Mkdir(p: Path) returns (r: Outcome<Error>)
      modifies this
      ensures Run(tree, r) == AfterMkdir(old(tree), p)
    {
      var after := AfterMkdir(tree, p);
      tree, r := after.tree, after.outcome;
    }

    method CopyFile(src: Path, dst: Path) returns (r: Outcome<Error>)
      modifies this
      ensures Run(tree, r) == AfterCopy(old(tree), src, dst)
    {
      var after := AfterCopy(tree, src, dst);
      tree, r := after.tree, after.outcome;
    }

    method Remove(p: Path) returns (r: Outcome<Error>)
      modifies this
      ensures Run(tree, r) == AfterRemove(old(tree), p)
    {
      var after := AfterRemove(tree, p);
      tree, r := after.tree, after.outcome;
    }

    method WriteFile(p: Path, data: Content) returns (r: Outcome<Error>)
      modifies this
      ensures Run(tree, r) == AfterWrite(old(tree), p, data)
    {
      var after := AfterWrite(tree, p, data);
      tree, r := after.tree, after.outcome;
    }

    /** Reading the whole of p, as an image library's open does. */
    method ReadFile(p: Path) returns (r: Outcome<Error>, data: Content)
      ensures r == ReadCheck(tree, p)
      ensures r.Pass? ==> p in tree && data == tree[p].data
    {
      r := ReadCheck(tree, p);
      data := [];
      if r.Pass? {
        data := tree[p].data;
      }
    }

    /**
     * Path.iterdir(): the entries of d in an order the platform chooses,
     * each exactly once.
     */
    method ListDir(d: Path) returns (r: Outcome<Error>, entries: seq<Path>)
      ensures r == ListCheck(tree, d)
      ensures r.Fail? ==> entries == []
      ensures r.Pass? ==> Distinct(entries)
      ensures r.Pass? ==> forall e :: e in entries <==> e in Children(tree, d)
    {
      r := ListCheck(tree, d);
      entries := [];
      if r.Fail? {
        return;
      }
      var rest := Children(tree, d);
      while rest != {}
        invariant Distinct(entries)
        invariant forall e :: e in entries ==> e !in rest
        invariant forall e :: e in entries || e in rest <==> e in Children(tree, d)
        decreases rest
      {
        var e :| e in rest;
        entries := entries + [e];
        rest := rest - {e};
      }
    }
  }
}
