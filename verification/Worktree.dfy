/** The live tree: regular files addressed by their components, and the writes `revert` performs on it. */
module Worktrees {
  import opened Core
  import opened Paths

  type Tree = map<Comps, Bytes>

  /** Modification times, as far as they can be read. */
  type Stamps = map<Comps, (nat, nat)>

  ghost function Stamp(stamps: Stamps, c: Comps): (nat, nat) {
    if c in stamps then stamps[c] else (0, 0)
  }

  /** A file is not a directory: no file's path runs through another file. */
  ghost predicate ProperTree(t: Tree) {
    && (forall c :: c in t ==> GoodComps(c))
    && (forall c, d :: c in t && d in t ==> !ProperPrefix(c, d))
  }

  predicate SameAt(a: Tree, b: Tree, c: Comps) { Lookup(a, c) == Lookup(b, c) }

  /** The files of the fabric directory are the same in both trees. */
  ghost predicate SameFabric(before: Tree, after: Tree) {
    forall c :: InFabric(c) ==> SameAt(after, before, c)
  }

  /** Some directory on the way to `c` is a file. */
  predicate Blocked(t: Tree, c: Comps) {
    exists d :: d in t.Keys && ProperPrefix(d, c)
  }

  /** `c` is a directory with something in it. */
  predicate IsDirectory(t: Tree, c: Comps) {
    exists d :: d in t.Keys && ProperPrefix(c, d)
  }

  class Worktree {
    var files: Tree
    const faulty: bool
    ghost var trail: seq<Tree>

    ghost predicate Valid()
      reads this
    {
      ProperTree(files) && trail != [] && trail[|trail| - 1] == files
    }

    constructor (t: Tree, faulty: bool)
      requires ProperTree(t)
      ensures Valid() && files == t && this.faulty == faulty
    {
      files := t;
      this.faulty := faulty;
      trail := [t];
    }

    /** Rename a finished temporary file over `dest`. */
    method Replace(dest: Comps, data: Bytes) returns (r: Result<()>)
      requires Valid() && GoodComps(dest)
      modifies this
      ensures Valid() && trail == old(trail) + [files]
      ensures files == if r.Ok? then old(files)[dest := data] else old(files)
      ensures !faulty && !Blocked(old(files), dest) && !IsDirectory(old(files), dest) ==> r.Ok?
    {
      var fails := Fault(faulty);
      if fails || Blocked(files, dest) || IsDirectory(files, dest) {
        trail := trail + [files];
        return Err(Io);
      }
      files := files[dest := data];
      trail := trail + [files];
      return Ok(());
    }

    method Remove(c: Comps) returns (r: Result<()>)
      requires Valid() && c in files
      modifies this
      ensures Valid() && trail == old(trail) + [files]
      ensures files == if r.Ok? then old(files) - {c} else old(files)
      ensures !faulty ==> r.Ok?
    {
      var fails := Fault(faulty);
      if !fails {
        files := files - {c};
      }
      trail := trail + [files];
      return if fails then Err(Io) else Ok(());
    }

    /** Anything another program does to the tree. */
    method Overwrite(t: Tree)
      requires Valid() && ProperTree(t)
      modifies this
      ensures Valid() && files == t && trail == old(trail) + [t]
    {
      files := t;
      trail := trail + [t];
    }
  }
}
