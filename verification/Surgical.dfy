/** `revert --actor`: surgical undo from the stored history to the tree on disk. */
module Surgical {
  import opened Core
  import opened Ordering
  import opened Paths
  import opened Storage
  import opened Worktrees
  import opened Snapshots
  import opened Drift
  import opened Revert
  import opened RevertTheorems
  import opened Undo
  import opened UndoTheorems

  ghost function UndoMessage(actor: string): string { "surgical undo of actor '" + actor + "'" }

  /** HEAD has an ancestry in which the actor touched something. */
  ghost predicate Involved(d: Disk, actor: string) {
    exists c, p :: Walkable(d, c) && Touched(c, actor, p)
  }

  lemma InvolvedIn(d: Disk, chain: seq<Manifest>, actor: string)
    requires Walkable(d, chain)
    ensures Involved(d, actor) <==> exists p :: Touched(chain, actor, p)
  {
    forall c | Walkable(d, c) ensures c == chain {
      ChainUnique(d, d.head, c, chain);
    }
  }

  ghost function UndoneManifest(chain: seq<Manifest>, actor: string, files: seq<FileEntry>): Manifest
    requires chain != []
  {
    chain[|chain| - 1].(files := files, message := UndoMessage(actor))
  }

  /** The manifest HEAD would have without `actor`, and the paths the actor touched, in ascending order. */
  method SurgicalManifest(store: Store, actor: string) returns (r: Result<(Manifest, seq<string>)>, ghost chain: seq<Manifest>)
    ensures r.Ok? ==>
              && chain != [] && IsChain(store.Now(), store.head, chain)
              && UndoneList(chain, actor, r.value.0.files) && SortedByPath(r.value.0.files)
              && (forall p :: UndoneTo(chain, actor, p, LastAt(r.value.0.files, p)))
              && r.value.0 == UndoneManifest(chain, actor, r.value.0.files)
              && Ascending(r.value.1) && r.value.1 != []
              && (forall p :: p in r.value.1 <==> Touched(chain, actor, p))
    ensures r.Ok? <==> Involved(store.Now(), actor)
  {
    chain := [];
    var snapshots :- HeadChain(store);
    chain := snapshots;
    InvolvedIn(store.Now(), chain, actor);
    if snapshots == [] {
      r := Err(Corrupt);
      return;
    }
    var head := snapshots[|snapshots| - 1];
    var touched, pre, effective := Replay(snapshots, actor);
    if touched == {} {
      r := Err(Corrupt);
      return;
    }
    var files := Rebuild(snapshots, actor, head, touched, pre, effective);
    var paths := InOrder(touched);
    UndoneListMeans(chain, actor, files);
    r := Ok((head.(files := files, message := "surgical undo of actor '" + actor + "'"), paths));
  }

  // ---------------------------------------------------------------------------------------------
  // The virtual manifest looks like one `create` would make
  // ---------------------------------------------------------------------------------------------

  ghost predicate ShapedChain(chain: seq<Manifest>) {
    forall i: nat :: i < |chain| ==> CreateShaped(chain[i].files)
  }

  /** A plain, canonical, non-excluded path. */
  ghost predicate PlainPath(p: string) {
    Canonical(p) && !Excluded(Sanitize(p).value)
  }

  lemma UndoneIsShaped(chain: seq<Manifest>, actor: string, files: seq<FileEntry>)
    requires chain != [] && ShapedChain(chain) && IsUndo(chain, actor, files) && DistinctPaths(files)
    ensures CreateShaped(files)
  {
    forall e | e in files ensures PlainPath(e.path) {
      LastAtDistinct(files, e);
      assert UndoneTo(chain, actor, e.path, LastAt(files, e.path));
      if Touched(chain, actor, e.path) {
        var i: nat, k: nat :| Foreign(chain, actor, e.path, i, k) && chain[i].files[k] == e;
        assert CreateShaped(chain[i].files);
      } else {
        assert CreateShaped(chain[|chain| - 1].files);
      }
    }
  }

  lemma TouchedIsPlain(chain: seq<Manifest>, actor: string, p: string)
    requires ShapedChain(chain) && Touched(chain, actor, p)
    ensures PlainPath(p)
  {
    var i: nat :| i < |chain| && TouchedAt(chain, actor, i, p);
    assert CreateShaped(chain[i].files);
    if LastAt(chain[i].files, p).None? {
      assert CreateShaped(chain[i - 1].files);
      assert LastAt(chain[i - 1].files, p).Some?;
    }
  }

  // ---------------------------------------------------------------------------------------------
  // Removing what the actor created
  // ---------------------------------------------------------------------------------------------

  /** One of the first `n` paths, and not one of the virtual manifest's, denotes `c`. */
  ghost predicate RemovedBy(touched: seq<string>, vmPaths: set<string>, n: nat, c: Comps)
    requires n <= |touched|
  {
    exists j :: 0 <= j < n && touched[j] !in vmPaths && Sanitize(touched[j]) == Ok(c)
  }

  ghost predicate Cleared(mid: Tree, now: Tree, touched: seq<string>, vmPaths: set<string>, n: nat)
    requires n <= |touched|
  {
    && (forall c :: c in now <==> c in mid && !RemovedBy(touched, vmPaths, n, c))
    && (forall c :: c in now ==> now[c] == mid[c])
  }

  /** A file at `d` keeps `p` from being looked up: it is above the place, or at it when the string cannot be
      a file's. */
  predicate Obstructs(d: Comps, p: string)
    requires Sanitize(p).Ok?
  {
    ProperPrefix(d, Sanitize(p).value) || (d == Sanitize(p).value && !EndsInName(p))
  }

  /** `p` is a safe path, and no file keeps it from being looked up. */
  ghost predicate Reachable(t: Tree, p: string) {
    Sanitize(p).Ok? && forall d :: d in t ==> !Obstructs(d, p)
  }

  /** Unlinking `p` takes a file of the store's own. */
  ghost predicate IsFabricFile(t: Tree, p: string) {
    Sanitize(p).Ok? && InFabric(Sanitize(p).value) && Sanitize(p).value in t
  }

  /** Path `n` can be reached when its turn comes: whatever file is above it has been removed by then. */
  ghost predicate ReachedInTurn(mid: Tree, touched: seq<string>, vmPaths: set<string>, n: nat)
    requires n < |touched|
  {
    touched[n] !in vmPaths ==>
      && Sanitize(touched[n]).Ok?
      && forall d :: d in mid && Obstructs(d, touched[n]) ==> RemovedBy(touched, vmPaths, n, d)
  }

  lemma ReachedIff(mid: Tree, now: Tree, touched: seq<string>, vmPaths: set<string>, n: nat)
    requires n < |touched| && touched[n] !in vmPaths && Cleared(mid, now, touched, vmPaths, n)
    ensures ReachedInTurn(mid, touched, vmPaths, n) <==> Reachable(now, touched[n])
  {
    if Reachable(now, touched[n]) {
      forall d | d in mid && Obstructs(d, touched[n]) ensures RemovedBy(touched, vmPaths, n, d) {
        assert d !in now;
      }
    }
  }

  lemma ClearedMore(mid: Tree, now: Tree, now': Tree, touched: seq<string>, vmPaths: set<string>, n: nat)
    requires n < |touched| && Cleared(mid, now, touched, vmPaths, n)
    requires if touched[n] in vmPaths then now' == now else Sanitize(touched[n]).Ok? && now' == now - {Sanitize(touched[n]).value}
    ensures Cleared(mid, now', touched, vmPaths, n + 1)
  {
    forall c ensures RemovedBy(touched, vmPaths, n + 1, c) <==>
                       RemovedBy(touched, vmPaths, n, c) || (touched[n] !in vmPaths && Sanitize(touched[n]) == Ok(c))
    {
      if touched[n] !in vmPaths && Sanitize(touched[n]) == Ok(c) {
        assert n < n + 1;
      }
    }
  }

  /** Unlink the file at `p`, if there is one.  Nothing keeps it from being a file of the store's. */
  method RemovePath(store: Store, tree: Worktree, p: string) returns (r: Result<nat>)
    requires store.Valid() && tree.Valid()
    modifies store, tree
    ensures store.Valid() && tree.Valid()
    ensures !IsFabricFile(old(tree.files), p) ==> store.Now() == old(store.Now())
    ensures r.Ok? ==>
              && Sanitize(p).Ok? && tree.files == old(tree.files) - {Sanitize(p).value}
              && |tree.files| + r.value == |old(tree.files)|
    ensures r.Ok? ==> Reachable(old(tree.files), p)
    ensures !tree.faulty && Reachable(old(tree.files), p) ==> r.Ok?
  {
    var dest :- ResolveDest(tree.files, p);
    if dest !in tree.files {
      assert tree.files - {dest} == tree.files;
      return Ok(0);
    }
    if !EndsInName(p) {
      return Err(Io);
    }
    var gone :- tree.Remove(dest);
    if dest[0] == FABRIC_DIR {
      store.Clobber();
    }
    return Ok(1);
  }

  /** Path `n` in its turn. */
  method RemoveNext(store: Store, tree: Worktree, touched: seq<string>, vmPaths: set<string>, n: nat, ghost mid: Tree)
    returns (r: Result<nat>)
    requires store.Valid() && tree.Valid() && n < |touched| && Cleared(mid, tree.files, touched, vmPaths, n)
    modifies store, tree
    ensures store.Valid() && tree.Valid()
    ensures touched[n] in vmPaths || !IsFabricFile(mid, touched[n]) ==> store.Now() == old(store.Now())
    ensures r.Ok? ==> Cleared(mid, tree.files, touched, vmPaths, n + 1) && |tree.files| + r.value == |old(tree.files)|
    ensures r.Ok? ==> ReachedInTurn(mid, touched, vmPaths, n)
    ensures !tree.faulty && ReachedInTurn(mid, touched, vmPaths, n) ==> r.Ok?
  {
    ghost var was := tree.files;
    if touched[n] in vmPaths {
      r := Ok(0);
    } else {
      ReachedIff(mid, was, touched, vmPaths, n);
      r := RemovePath(store, tree, touched[n]);
    }
    if r.Ok? {
      ClearedMore(mid, was, tree.files, touched, vmPaths, n);
    }
  }

  /** All of the first `n` paths can be reached in their turn. */
  ghost predicate AllReached(mid: Tree, touched: seq<string>, vmPaths: set<string>, n: nat)
    requires n <= |touched|
  {
    forall i: nat :: i < n ==> ReachedInTurn(mid, touched, vmPaths, i)
  }

  /** One of the removed paths is a file of the store's own. */
  ghost predicate RemovesFabric(mid: Tree, touched: seq<string>, vmPaths: set<string>) {
    exists p :: p in touched && p !in vmPaths && IsFabricFile(mid, p)
  }

  /** Unlink, in order, the touched paths that the virtual manifest lacks. */
  method RemoveTouched(store: Store, tree: Worktree, touched: seq<string>, vmPaths: set<string>) returns (r: Result<nat>)
    requires store.Valid() && tree.Valid()
    modifies store, tree
    ensures store.Valid() && tree.Valid()
    ensures !RemovesFabric(old(tree.files), touched, vmPaths) ==> store.Now() == old(store.Now())
    ensures r.Ok? ==> Cleared(old(tree.files), tree.files, touched, vmPaths, |touched|)
    ensures r.Ok? ==> |tree.files| + r.value == |old(tree.files)|
    ensures r.Ok? ==> AllReached(old(tree.files), touched, vmPaths, |touched|)
    ensures !tree.faulty && AllReached(old(tree.files), touched, vmPaths, |touched|) ==> r.Ok?
  {
    ghost var mid, d := tree.files, store.Now();
    var removed := 0;
    for n := 0 to |touched|
      invariant store.Valid() && tree.Valid() && Cleared(mid, tree.files, touched, vmPaths, n)
      invariant !RemovesFabric(mid, touched, vmPaths) ==> store.Now() == d
      invariant |tree.files| + removed == |mid|
      invariant AllReached(mid, touched, vmPaths, n)
    {
      assert touched[n] in touched;
      var gone :- RemoveNext(store, tree, touched, vmPaths, n, mid);
      removed := removed + gone;
    }
    return Ok(removed);
  }

  // ---------------------------------------------------------------------------------------------
  // What that means for a history
  // ---------------------------------------------------------------------------------------------

  /** The actor touched `p`, and the virtual manifest does not have it. */
  ghost predicate Dropped(chain: seq<Manifest>, actor: string, vm: seq<FileEntry>, p: string) {
    Touched(chain, actor, p) && !Names(vm, p)
  }

  /** Some dropped path denotes `c`. */
  ghost predicate Doomed(chain: seq<Manifest>, actor: string, vm: seq<FileEntry>, c: Comps) {
    exists p :: Dropped(chain, actor, vm, p) && Sanitize(p) == Ok(c)
  }

  /** The arguments of the removal pass. */
  ghost predicate PassesOver(chain: seq<Manifest>, actor: string, vm: seq<FileEntry>, touched: seq<string>, vmPaths: set<string>) {
    && Ascending(touched)
    && (forall p :: p in touched <==> Touched(chain, actor, p))
    && (forall p :: p in vmPaths <==> Names(vm, p))
  }

  lemma DoomedIsRemoved(chain: seq<Manifest>, actor: string, vm: seq<FileEntry>, touched: seq<string>, vmPaths: set<string>, c: Comps)
    requires PassesOver(chain, actor, vm, touched, vmPaths)
    ensures RemovedBy(touched, vmPaths, |touched|, c) <==> Doomed(chain, actor, vm, c)
  {
    if Doomed(chain, actor, vm, c) {
      var p :| Dropped(chain, actor, vm, p) && Sanitize(p) == Ok(c);
      assert p in touched;
    }
    if RemovedBy(touched, vmPaths, |touched|, c) {
      var j :| 0 <= j < |touched| && touched[j] !in vmPaths && Sanitize(touched[j]) == Ok(c);
      assert touched[j] in touched;
      assert Dropped(chain, actor, vm, touched[j]);
    }
  }

  /** Some dropped path before `p` denotes `c`. */
  ghost predicate DoomedBefore(chain: seq<Manifest>, actor: string, vm: seq<FileEntry>, p: string, c: Comps) {
    exists q :: Dropped(chain, actor, vm, q) && q != p && InByteOrder(q, p) && Sanitize(q) == Ok(c)
  }

  /** Every file that keeps a dropped path from being looked up is itself dropped, by a path that comes
      before it. */
  ghost predicate ClearsInOrder(chain: seq<Manifest>, actor: string, before: Tree, vm: seq<FileEntry>) {
    forall p :: Dropped(chain, actor, vm, p) ==> ClearsAt(chain, actor, before, vm, p)
  }

  ghost predicate ClearsAt(chain: seq<Manifest>, actor: string, before: Tree, vm: seq<FileEntry>, p: string) {
    && Sanitize(p).Ok?
    && forall d :: Occupied(before, vm, d) && Obstructs(d, p) ==> DoomedBefore(chain, actor, vm, p, d)
  }

  lemma RemovedBeforeIff(chain: seq<Manifest>, actor: string, vm: seq<FileEntry>, touched: seq<string>, vmPaths: set<string>,
                         i: nat, d: Comps)
    requires PassesOver(chain, actor, vm, touched, vmPaths) && i < |touched|
    ensures RemovedBy(touched, vmPaths, i, d) <==> DoomedBefore(chain, actor, vm, touched[i], d)
  {
    if RemovedBy(touched, vmPaths, i, d) {
      var j :| 0 <= j < i && touched[j] !in vmPaths && Sanitize(touched[j]) == Ok(d);
      assert touched[j] in touched;
      assert Dropped(chain, actor, vm, touched[j]);
    }
    if DoomedBefore(chain, actor, vm, touched[i], d) {
      var q :| Dropped(chain, actor, vm, q) && q != touched[i] && InByteOrder(q, touched[i]) && Sanitize(q) == Ok(d);
      assert q in touched;
      var j :| 0 <= j < |touched| && touched[j] == q;
      LessMeans(q, touched[i]);
      LessMeans(touched[i], q);
      LessTotal(q, touched[i]);
      assert j < i;
    }
  }

  /** The old tree overridden by the virtual manifest, nothing removed. */
  ghost predicate LaidOver(before: Tree, mid: Tree, vm: seq<FileEntry>) {
    && (forall c :: c in mid <==> c != [] && Occupied(before, vm, c))
    && (forall c :: c in mid ==> Holds(before, mid, vm, c))
  }

  /** The removal pass gets through exactly when the dropped paths clear in order. */
  lemma PassIff(chain: seq<Manifest>, actor: string, before: Tree, mid: Tree, vm: seq<FileEntry>, touched: seq<string>, vmPaths: set<string>)
    requires PassesOver(chain, actor, vm, touched, vmPaths)
    requires LaidOver(before, mid, vm) && [] !in before
    ensures AllReached(mid, touched, vmPaths, |touched|) <==> ClearsInOrder(chain, actor, before, vm)
  {
    forall i: nat, d | i < |touched|
      ensures RemovedBy(touched, vmPaths, i, d) <==> DoomedBefore(chain, actor, vm, touched[i], d)
    {
      RemovedBeforeIff(chain, actor, vm, touched, vmPaths, i, d);
    }
    forall i: nat | i < |touched|
      ensures ReachedInTurn(mid, touched, vmPaths, i) <==>
                (Dropped(chain, actor, vm, touched[i]) ==> ClearsAt(chain, actor, before, vm, touched[i]))
    {
      assert touched[i] in touched;
    }
    if AllReached(mid, touched, vmPaths, |touched|) {
      forall p | Dropped(chain, actor, vm, p) ensures ClearsAt(chain, actor, before, vm, p) {
        assert p in touched;
        var i: nat :| i < |touched| && touched[i] == p;
        assert ReachedInTurn(mid, touched, vmPaths, i);
      }
    }
  }

  /** A place's path string comes after those of all places above it: they are where it begins. */
  lemma {:induction false} AboveComesFirst(d: Comps, c: Comps)
    requires d != [] && ProperPrefix(d, c)
    ensures Join(d) < Join(c) && InByteOrder(Join(d), Join(c))
  {
    if |d| > 1 {
      AboveComesFirst(d[1..], c[1..]);
    }
  }

  /** The file at `d` stands above the dropped path `p`. */
  ghost predicate StandsAbove(chain: seq<Manifest>, actor: string, before: Tree, vm: seq<FileEntry>, p: string, d: Comps) {
    && Dropped(chain, actor, vm, p) && Sanitize(p).Ok?
    && Occupied(before, vm, d) && ProperPrefix(d, Sanitize(p).value)
  }

  /** Where all touched paths are plain, their order takes care of itself: what counts is that every file
      above a dropped path is dropped as well. */
  lemma PlainPathsClear(chain: seq<Manifest>, actor: string, before: Tree, vm: seq<FileEntry>)
    requires forall p :: Touched(chain, actor, p) ==> PlainPath(p)
    requires [] !in before
    ensures ClearsInOrder(chain, actor, before, vm) <==>
              forall p, d :: StandsAbove(chain, actor, before, vm, p, d) ==> Doomed(chain, actor, vm, d)
  {
    forall p, d | StandsAbove(chain, actor, before, vm, p, d)
      ensures DoomedBefore(chain, actor, vm, p, d) <==> Doomed(chain, actor, vm, d)
    {
      if q :| Dropped(chain, actor, vm, q) && Sanitize(q) == Ok(d) {
        assert PlainPath(p) && PlainPath(q);
        SanitizeGood(p);
        AboveComesFirst(d, Sanitize(p).value);
      }
    }
    forall p | Dropped(chain, actor, vm, p)
      ensures ClearsAt(chain, actor, before, vm, p) <==>
                forall d :: StandsAbove(chain, actor, before, vm, p, d) ==> DoomedBefore(chain, actor, vm, p, d)
    {
      CanonicalEndsInName(p);
      forall d | Occupied(before, vm, d) && Obstructs(d, p) ensures StandsAbove(chain, actor, before, vm, p, d) {
      }
    }
  }

  function Holding(actor: Option<string>, path: string, h: Hash): Manifest { Snapshot(actor, [Plain(path, h)]) }

  /** The actor puts `q` in the place of somebody else's file `p`, and puts a file `p` back. */
  function ThereAndBack(p: string, q: string, h: Hash, k: Hash, g: Hash): seq<Manifest> {
    [Holding(None, p, h), Holding(Some("alice"), q, k), Holding(Some("alice"), p, g)]
  }

  lemma TwoPaths(d: string, x: string)
    requires GoodName(d) && GoodName(x) && |Join([d, x])| <= MAX_PATH
    ensures Sanitize(d) == Ok([d]) && Sanitize(Join([d, x])) == Ok([d, x]) && EndsInName(d) && EndsInName(Join([d, x]))
    ensures d != Join([d, x]) && InByteOrder(d, Join([d, x])) && d == Join([d]) && |d| <= MAX_PATH && Obstructs([d], Join([d, x]))
  {
    assert Join([d]) == d && [d, x][1..] == [x];
    SanitizeJoin([d]);
    SanitizeJoin([d, x]);
    JoinEndsInName([d]);
    JoinEndsInName([d, x]);
    AboveComesFirst([d], [d, x]);
  }

  lemma HoldingAt(actor: Option<string>, path: string, h: Hash, q: string)
    ensures LastAt(Holding(actor, path, h).files, q) == if q == path then Some(Plain(path, h)) else None
  {
    assert [Plain(path, h)][..0] == [];
  }

  lemma ThereAndBackTouched(p: string, q: string, h: Hash, k: Hash, g: Hash, x: string)
    requires p != q
    ensures Touched(ThereAndBack(p, q, h, k, g), "alice", x) <==> x == p || x == q
  {
    var chain := ThereAndBack(p, q, h, k, g);
    HoldingAt(None, p, h, x);
    HoldingAt(Some("alice"), q, k, x);
    HoldingAt(Some("alice"), p, g, x);
    assert x == p || x == q <==> TouchedAt(chain, "alice", 1, x);
  }

  lemma ThereAndBackForeign(p: string, q: string, h: Hash, k: Hash, g: Hash)
    requires p != q
    ensures NoForeign(ThereAndBack(p, q, h, k, g), "alice", 3, 0, q)
    ensures NewestForeign(ThereAndBack(p, q, h, k, g), "alice", 3, 0, p, Plain(p, h))
  {
    var chain := ThereAndBack(p, q, h, k, g);
    assert Foreign(chain, "alice", p, 0, 0) && Earlier(0, 0, 3, 0);
    assert forall i: nat, j: nat :: Foreign(chain, "alice", p, i, j) ==> i == 0 && j == 0;
  }

  lemma ThereAndBackAt(p: string, q: string, h: Hash, k: Hash, g: Hash, x: string, r: Option<FileEntry>)
    requires p != q && UndoneTo(ThereAndBack(p, q, h, k, g), "alice", x, r)
    ensures r == if x == p then Some(Plain(p, h)) else None
  {
    ThereAndBackTouched(p, q, h, k, g, x);
    HoldingAt(Some("alice"), p, g, x);
    ThereAndBackForeign(p, q, h, k, g);
    if x == p {
      FallbackUnique(ThereAndBack(p, q, h, k, g), "alice", 3, 0, p, r, Some(Plain(p, h)));
    }
  }

  /** The undo keeps the file as it was, and drops what the actor had in its place. */
  lemma ThereAndBackUndone(p: string, q: string, h: Hash, k: Hash, g: Hash, vm: seq<FileEntry>)
    requires p != q && UndoneList(ThereAndBack(p, q, h, k, g), "alice", vm)
    ensures vm == [Plain(p, h)]
    ensures forall x :: Dropped(ThereAndBack(p, q, h, k, g), "alice", vm, x) <==> x == q
  {
    forall x ensures Touched(ThereAndBack(p, q, h, k, g), "alice", x) <==> x == p || x == q {
      ThereAndBackTouched(p, q, h, k, g, x);
    }
    forall x, r | UndoneTo(ThereAndBack(p, q, h, k, g), "alice", x, r) ensures r == if x == p then Some(Plain(p, h)) else None {
      ThereAndBackAt(p, q, h, k, g, x, r);
    }
    OneKeptOneDropped(ThereAndBack(p, q, h, k, g), vm, Plain(p, h), q);
  }

  lemma OneKeptOneDropped(chain: seq<Manifest>, vm: seq<FileEntry>, e: FileEntry, q: string)
    requires chain != [] && UndoneList(chain, "alice", vm) && |HeadFiles(chain)| <= 1 && e.path != q
    requires forall x :: Touched(chain, "alice", x) <==> x == e.path || x == q
    requires forall x, r :: UndoneTo(chain, "alice", x, r) ==> r == if x == e.path then Some(e) else None
    ensures vm == [e] && forall x :: Dropped(chain, "alice", vm, x) <==> x == q
  {
    UndoneListMeans(chain, "alice", vm);
    DistinctAt(HeadFiles(chain));
    StrictIffDistinct(vm);
    SingleEntry(vm, e);
  }

  lemma SingleEntry(files: seq<FileEntry>, e: FileEntry)
    requires DistinctPaths(files) && LastAt(files, e.path) == Some(e)
    requires forall x :: x != e.path ==> LastAt(files, x) == None
    ensures files == [e]
  {
    forall k | 0 <= k < |files| ensures files[k] == e {
      LastAtDistinct(files, files[k]);
    }
    assert e in files;
    assert |files| <= 1 || files[1].path == files[0].path;
  }

  /** A tree that matches HEAD, over which the undo can be laid, and which the undo changes if the actor put
      back another content. */
  lemma ThereAndBackApplies(p: string, q: string, h: Hash, k: Hash, g: Hash, c: Comps, data: Bytes, objects: map<Hash, Bytes>)
    requires p != q && GoodComps(c) && p == Join(c) && |p| <= MAX_PATH
    requires HashBytes(data) == g && Tracked(map[c := data], c) && Restores(objects, Plain(p, h))
    ensures ProperTree(map[c := data])
    ensures Clean(map[c := data], HeadFiles(ThereAndBack(p, q, h, k, g)))
    ensures Admits([], UndoneManifest(ThereAndBack(p, q, h, k, g), "alice", [Plain(p, h)]))
    ensures CanRestore(objects, map[c := data], [Plain(p, h)]) && !WritesFabric([Plain(p, h)])
    ensures g != h ==> forall mid :: LaidOver(map[c := data], mid, [Plain(p, h)]) ==> mid != map[c := data]
  {
    var before: Tree, vm := map[c := data], [Plain(p, h)];
    SanitizeJoin(c);
    JoinEndsInName(c);
    assert vm[..0] == [] && LastPlaced(vm, c) == Some(Plain(p, h));
    assert TotalChunks(vm) == 0;
    forall x ensures Live(before, x) == ContentAt(HeadFiles(ThereAndBack(p, q, h, k, g)), x) {
      HoldingAt(Some("alice"), p, g, x);
      LiveAt(before, c);
    }
    assert Available(objects, before, vm, 0);
    forall mid | LaidOver(before, mid, vm) && g != h ensures mid != before {
      assert c in mid && Holds(before, mid, vm, c);
    }
  }

  lemma ThereAndBackStops(p: string, q: string, h: Hash, k: Hash, g: Hash, c: Comps, data: Bytes, objects: map<Hash, Bytes>, vm: seq<FileEntry>)
    requires GoodComps(c) && p == Join(c) && |p| <= MAX_PATH && p != q && Sanitize(q).Ok? && Obstructs(c, q)
    requires UndoneList(ThereAndBack(p, q, h, k, g), "alice", vm)
    requires HashBytes(data) == g && Tracked(map[c := data], c) && Restores(objects, Plain(p, h))
    ensures StopsMidway(ThereAndBack(p, q, h, k, g), map[c := data], objects, vm)
    ensures g != h ==> forall mid :: LaidOver(map[c := data], mid, vm) ==> mid != map[c := data]
  {
    ThereAndBackUndone(p, q, h, k, g, vm);
    ThereAndBackApplies(p, q, h, k, g, c, data, objects);
    Obstructed(ThereAndBack(p, q, h, k, g), map[c := data], vm, q, c);
  }

  /** Undoing an actor that put a directory in the place of somebody else's file, and put a file back: all
      of it goes through and the tree is rewritten, but the path below the file cannot be looked up. */
  lemma StopsBelowFile(d: string, x: string, h: Hash, k: Hash, g: Hash, data: Bytes, objects: map<Hash, Bytes>, vm: seq<FileEntry>)
    requires GoodName(d) && GoodName(x) && |Join([d, x])| <= MAX_PATH
    requires UndoneList(ThereAndBack(d, Join([d, x]), h, k, g), "alice", vm)
    requires HashBytes(data) == g && Tracked(map[[d] := data], [d]) && Restores(objects, Plain(d, h))
    ensures StopsMidway(ThereAndBack(d, Join([d, x]), h, k, g), map[[d] := data], objects, vm)
    ensures g != h ==> forall mid :: LaidOver(map[[d] := data], mid, vm) ==> mid != map[[d] := data]
  {
    var q := Join([d, x]);
    TwoPaths(d, x);
    ThereAndBackStops(d, q, h, k, g, [d], data, objects, vm);
  }

  /** The same with a path that only differs from the file's by "/" or "/." behind it. */
  lemma StopsAtSlashedName(d: string, last: string, h: Hash, k: Hash, g: Hash, data: Bytes, objects: map<Hash, Bytes>, vm: seq<FileEntry>)
    requires GoodName(d) && (last == "" || last == ".") && |d| + 1 + |last| <= MAX_PATH
    requires UndoneList(ThereAndBack(d, d + ("/" + last), h, k, g), "alice", vm)
    requires HashBytes(data) == g && Tracked(map[[d] := data], [d]) && Restores(objects, Plain(d, h))
    ensures StopsMidway(ThereAndBack(d, d + ("/" + last), h, k, g), map[[d] := data], objects, vm)
    ensures g != h ==> forall mid :: LaidOver(map[[d] := data], mid, vm) ==> mid != map[[d] := data]
  {
    var q := d + ("/" + last);
    assert Join([d]) == d;
    SlashedPath([d], last);
    ThereAndBackStops(d, q, h, k, g, [d], data, objects, vm);
  }

  /** The gate is open and the undo can be laid over the tree, but the removal pass does not get through. */
  ghost predicate StopsMidway(chain: seq<Manifest>, before: Tree, objects: map<Hash, Bytes>, vm: seq<FileEntry>)
    requires chain != []
  {
    && ProperTree(before) && Clean(before, HeadFiles(chain))
    && Admits([], UndoneManifest(chain, "alice", vm)) && CanRestore(objects, before, vm)
    && !ClearsInOrder(chain, "alice", before, vm)
  }

  lemma Obstructed(chain: seq<Manifest>, before: Tree, vm: seq<FileEntry>, q: string, c: Comps)
    requires Dropped(chain, "alice", vm, q) && Sanitize(q).Ok? && Obstructs(c, q) && c in before
    requires forall x :: Dropped(chain, "alice", vm, x) ==> x == q
    ensures !ClearsInOrder(chain, "alice", before, vm)
  {
    LessIrreflexive(q);
    assert Occupied(before, vm, c) && !DoomedBefore(chain, "alice", vm, q, c);
    assert !ClearsAt(chain, "alice", before, vm, q);
  }

  /** The same with a file of the actor's own. */
  function OwnThereAndBack(d: string, x: string, h: Hash, k: Hash): seq<Manifest> {
    [Snapshot(None, []), Holding(Some("alice"), Join([d, x]), k), Holding(Some("alice"), d, h)]
  }

  lemma OwnThereAndBackTouched(d: string, x: string, h: Hash, k: Hash, q: string)
    requires d != Join([d, x])
    ensures Touched(OwnThereAndBack(d, x, h, k), "alice", q) <==> q == d || q == Join([d, x])
  {
    var chain, p := OwnThereAndBack(d, x, h, k), Join([d, x]);
    HoldingAt(Some("alice"), p, k, q);
    HoldingAt(Some("alice"), d, h, q);
    assert q == p <==> TouchedAt(chain, "alice", 1, q);
    assert q == p || q == d <==> TouchedAt(chain, "alice", 2, q);
  }

  lemma OwnThereAndBackPaths(d: string, x: string, h: Hash, k: Hash, vm: seq<FileEntry>)
    requires d != Join([d, x])
    requires IsUndo(OwnThereAndBack(d, x, h, k), "alice", vm)
    ensures forall q :: Dropped(OwnThereAndBack(d, x, h, k), "alice", vm, q) <==> q == Join([d, x]) || q == d
    ensures vm == []
  {
    var chain := OwnThereAndBack(d, x, h, k);
    forall q
      ensures Touched(chain, "alice", q) <==> q == d || q == Join([d, x])
      ensures LastAt(vm, q).None?
    {
      OwnThereAndBackTouched(d, x, h, k, q);
      HoldingAt(Some("alice"), d, h, q);
      assert UndoneTo(chain, "alice", q, LastAt(vm, q));
    }
    assert vm != [] ==> LastAt(vm, vm[|vm| - 1].path).Some?;
  }

  /** Then the file is dropped before the path below it, and all goes well. */
  lemma OwnFileClears(d: string, x: string, h: Hash, k: Hash, before: Tree, vm: seq<FileEntry>)
    requires GoodName(d) && GoodName(x) && |Join([d, x])| <= MAX_PATH && ProperTree(before)
    requires IsUndo(OwnThereAndBack(d, x, h, k), "alice", vm)
    ensures ClearsInOrder(OwnThereAndBack(d, x, h, k), "alice", before, vm)
  {
    var chain, p := OwnThereAndBack(d, x, h, k), Join([d, x]);
    TwoPaths(d, x);
    OwnThereAndBackPaths(d, x, h, k, vm);
    forall q | Dropped(chain, "alice", vm, q) ensures ClearsAt(chain, "alice", before, vm, q) {
      assert EndsInName(q);
      forall e | Occupied(before, vm, e) && Obstructs(e, q) ensures DoomedBefore(chain, "alice", vm, q, e) {
        assert e != [];
        assert e == [d] && q == p && Dropped(chain, "alice", vm, d);
      }
    }
  }

  // ---------------------------------------------------------------------------------------------
  // keep_extra and then removing, against not keeping
  // ---------------------------------------------------------------------------------------------

  /** No dropped path hits a file that a plain revert would leave alone. */
  ghost predicate NoStray(chain: seq<Manifest>, actor: string, before: Tree, vm: seq<FileEntry>) {
    forall c :: c != [] && Occupied(before, vm, c) && Doomed(chain, actor, vm, c) ==> !Excluded(c) && !Names(vm, Join(c))
  }

  /** A plain revert takes `c` although drift detection does not know it under that name. */
  ghost predicate Overlooked(before: Tree, vm: seq<FileEntry>, c: Comps)
    requires c != []
  {
    (LastPlaced(vm, c).Some? || Ignored(before, Join(c))) && !Excluded(c) && !Names(vm, Join(c))
  }

  /** Every ignored file, and every file written under a name no walk prints, that a plain revert would
      take is dropped. */
  ghost predicate NoOrphan(chain: seq<Manifest>, actor: string, before: Tree, vm: seq<FileEntry>) {
    forall c :: c != [] && Occupied(before, vm, c) && Overlooked(before, vm, c) ==> Doomed(chain, actor, vm, c)
  }

  /** The tree that is left: the old one overridden by the virtual manifest, less what is doomed. */
  ghost predicate AfterUndo(chain: seq<Manifest>, actor: string, before: Tree, after: Tree, vm: seq<FileEntry>) {
    && (forall c :: c in after <==> c != [] && Occupied(before, vm, c) && !Doomed(chain, actor, vm, c))
    && (forall c :: c in after ==> Holds(before, after, vm, c))
  }

  /** On a tree whose contents match HEAD, applying the virtual manifest with `keep_extra` and then
      removing the dropped paths is the same as applying it without `keep_extra`, exactly when no dropped
      path strays and nothing is orphaned. */
  lemma KeepExtraThenRemove(chain: seq<Manifest>, actor: string, before: Tree, after: Tree, vm: seq<FileEntry>)
    requires ProperTree(before) && chain != [] && IsUndo(chain, actor, vm)
    requires Clean(before, HeadFiles(chain)) && forall e :: e in HeadFiles(chain) ==> Sanitize(e.path).Ok?
    requires AfterUndo(chain, actor, before, after, vm)
    ensures Applied(before, after, vm, false) <==> NoStray(chain, actor, before, vm) && NoOrphan(chain, actor, before, vm)
  {
    forall c | c != [] && Occupied(before, vm, c) ensures SettledAt(chain, actor, before, vm, c) {
      SettledEverywhere(chain, actor, before, vm, c);
    }
    SameIff(chain, actor, before, after, vm);
    FineEverywhere(chain, actor, before, vm);
  }

  /** At `c` a plain revert and the removal pass agree exactly when all is fine there. */
  ghost predicate SettledAt(chain: seq<Manifest>, actor: string, before: Tree, vm: seq<FileEntry>, c: Comps)
    requires c != []
  {
    (Doomed(chain, actor, vm, c) <==> !Spared(vm, false, c)) <==> FineAt(chain, actor, before, vm, c)
  }

  lemma SettledEverywhere(chain: seq<Manifest>, actor: string, before: Tree, vm: seq<FileEntry>, c: Comps)
    requires ProperTree(before) && chain != [] && IsUndo(chain, actor, vm)
    requires Clean(before, HeadFiles(chain)) && forall e :: e in HeadFiles(chain) ==> Sanitize(e.path).Ok?
    requires c != [] && Occupied(before, vm, c)
    ensures SettledAt(chain, actor, before, vm, c)
  {
    TrackedIsDropped(chain, actor, before, vm, c);
  }

  lemma SameIff(chain: seq<Manifest>, actor: string, before: Tree, after: Tree, vm: seq<FileEntry>)
    requires ProperTree(before)
    requires AfterUndo(chain, actor, before, after, vm)
    requires forall c :: c != [] && Occupied(before, vm, c) ==> SettledAt(chain, actor, before, vm, c)
    ensures Applied(before, after, vm, false) <==> forall c :: c != [] && Occupied(before, vm, c) ==> FineAt(chain, actor, before, vm, c)
  {
    if Applied(before, after, vm, false) {
      forall c | c != [] && Occupied(before, vm, c) ensures FineAt(chain, actor, before, vm, c) {
        assert SettledAt(chain, actor, before, vm, c);
        assert c in after <==> Spared(vm, false, c);
      }
    }
    if forall c :: c != [] && Occupied(before, vm, c) ==> FineAt(chain, actor, before, vm, c) {
      forall c ensures c in after <==> (c in before || LastPlaced(vm, c).Some?) && c != [] && Spared(vm, false, c) {
        assert c != [] && Occupied(before, vm, c) ==> SettledAt(chain, actor, before, vm, c);
      }
    }
  }

  /** What `NoStray` and `NoOrphan` ask of one place. */
  ghost predicate FineAt(chain: seq<Manifest>, actor: string, before: Tree, vm: seq<FileEntry>, c: Comps)
    requires c != []
  {
    if Doomed(chain, actor, vm, c) then !Excluded(c) && !Names(vm, Join(c)) else !Overlooked(before, vm, c)
  }

  lemma FineEverywhere(chain: seq<Manifest>, actor: string, before: Tree, vm: seq<FileEntry>)
    ensures NoStray(chain, actor, before, vm) && NoOrphan(chain, actor, before, vm) <==>
              forall c :: c != [] && Occupied(before, vm, c) ==> FineAt(chain, actor, before, vm, c)
  {
  }

  lemma AfterPass(chain: seq<Manifest>, actor: string, before: Tree, mid: Tree, after: Tree,
                  vm: seq<FileEntry>, touched: seq<string>, vmPaths: set<string>)
    requires PassesOver(chain, actor, vm, touched, vmPaths)
    requires LaidOver(before, mid, vm) && Cleared(mid, after, touched, vmPaths, |touched|)
    ensures AfterUndo(chain, actor, before, after, vm)
  {
    forall c ensures c in after <==> c != [] && Occupied(before, vm, c) && !Doomed(chain, actor, vm, c) {
      DoomedIsRemoved(chain, actor, vm, touched, vmPaths, c);
    }
    forall c | c in after ensures Holds(before, after, vm, c) {
      assert Holds(before, mid, vm, c);
    }
  }

  lemma TrackedIsDropped(chain: seq<Manifest>, actor: string, before: Tree, vm: seq<FileEntry>, c: Comps)
    requires ProperTree(before) && chain != [] && IsUndo(chain, actor, vm)
    requires Clean(before, HeadFiles(chain)) && forall e :: e in HeadFiles(chain) ==> Sanitize(e.path).Ok?
    requires c != []
    ensures c in before && Tracked(before, c) && !Names(vm, Join(c)) ==> Doomed(chain, actor, vm, c)
  {
    if c in before && Tracked(before, c) && !Names(vm, Join(c)) {
      var p := Join(c);
      LiveAt(before, c);
      assert Live(before, p) == ContentAt(HeadFiles(chain), p);
      assert UndoneTo(chain, actor, p, LastAt(vm, p));
      SanitizeJoin(c);
      assert Dropped(chain, actor, vm, p) && Sanitize(p) == Ok(c);
    }
  }

  /** A clean tree all of whose files are looked at, in a history of created snapshots. */
  ghost predicate Orderly(chain: seq<Manifest>, before: Tree)
    requires ProperTree(before) && chain != []
  {
    ShapedChain(chain) && Clean(before, HeadFiles(chain)) && NothingIgnored(before)
  }

  lemma OrderlyIsFine(chain: seq<Manifest>, actor: string, before: Tree, vm: seq<FileEntry>)
    requires ProperTree(before) && chain != [] && Orderly(chain, before) && CreateShaped(vm)
    ensures NoStray(chain, actor, before, vm) && NoOrphan(chain, actor, before, vm)
  {
    forall c | c != [] && Occupied(before, vm, c) && Doomed(chain, actor, vm, c) ensures !Excluded(c) && !Names(vm, Join(c)) {
      var p :| Dropped(chain, actor, vm, p) && Sanitize(p) == Ok(c);
      TouchedIsPlain(chain, actor, p);
    }
    forall c | c != [] && LastPlaced(vm, c).Some? ensures Names(vm, Join(c)) {
      assert PlainPath(LastPlaced(vm, c).value.path);
    }
  }

  lemma RecordedIsListed(before: Tree, after: Tree, files: seq<FileEntry>, tombstones: seq<Tombstone>, m: Manifest, e: FileEntry)
    requires ProperTree(before) && ProperTree(after) && Applied(before, after, files, false)
    requires RecordsTree(m, after, tombstones) && e in m.files
    ensures LastAt(files, e.path).Some?
  {
    assert Origin(after, tombstones, after.Keys, e);
    var c :| c in after && Captured(after, tombstones, c) && Join(c) == e.path;
    assert Spared(files, false, c);
  }

  /** The snapshot taken of the undone tree records the virtual manifest's contents, exactly when nothing is
      ignored in that tree: the undo may have brought back the ignore file. */
  lemma UndoneTreeRecorded(before: Tree, after: Tree, files: seq<FileEntry>, tombstones: seq<Tombstone>, m: Manifest)
    requires ProperTree(before) && ProperTree(after)
    requires CreateShaped(files) && Applied(before, after, files, false)
    requires forall f :: f in files ==> !Purged(tombstones, f)
    requires RecordsTree(m, after, tombstones)
    ensures SameContents(m.files, files) <==> NothingIgnored(after)
  {
    if NothingIgnored(after) {
      forall p ensures ContentAt(m.files, p) == ContentAt(files, p) {
        if LastAt(files, p).Some? {
          ListedIsCaptured(before, after, files, tombstones, LastAt(files, p).value);
        }
        if LastAt(m.files, p).Some? {
          RecordedIsListed(before, after, files, tombstones, m, LastAt(m.files, p).value);
        }
      }
    }
    if SameContents(m.files, files) {
      forall c | c in after && !Excluded(c) ensures !Ignored(after, Join(c)) {
        var e :| e in files && e.path == Join(c);
        LastAtDistinct(files, e);
        assert ContentAt(m.files, e.path).Some?;
        IgnoredIsNotRecorded(after, tombstones, m, c);
      }
    }
  }

  lemma IgnoredIsNotRecorded(after: Tree, tombstones: seq<Tombstone>, m: Manifest, c: Comps)
    requires ProperTree(after) && RecordsTree(m, after, tombstones) && c in after && ContentAt(m.files, Join(c)).Some?
    ensures !Ignored(after, Join(c))
  {
    assert Origin(after, tombstones, after.Keys, LastAt(m.files, Join(c)).value);
    var b :| b in after && Captured(after, tombstones, b) && Join(b) == Join(c);
    JoinInjective(b, c);
  }

  lemma ListedIsCaptured(before: Tree, after: Tree, files: seq<FileEntry>, tombstones: seq<Tombstone>, e: FileEntry)
    requires ProperTree(before) && ProperTree(after) && NothingIgnored(after)
    requires CreateShaped(files) && Applied(before, after, files, false) && LastAt(files, e.path) == Some(e)
    requires forall f :: f in files ==> !Purged(tombstones, f)
    ensures Sanitize(e.path).Ok? && Join(Sanitize(e.path).value) == e.path
    ensures var c := Sanitize(e.path).value; c in after && Captured(after, tombstones, c) && HashBytes(after[c]) == e.content
  {
    assert PlainPath(e.path);
    var c := Sanitize(e.path).value;
    SanitizeGood(e.path);
    ShapedLookup(files, c);
    assert c in after && Holds(before, after, files, c);
  }

  /** Bob has had `f` ignored, by the file `i`, and dropped; alice has taken `f` back and `i` away. */
  function IgnoreHistory(f: string, i: string, h: Hash, g: Hash): seq<Manifest> {
    [Holding(None, f, h), Holding(Some("bob"), i, g), Holding(Some("alice"), f, h)]
  }

  /** Undoing alice brings back the ignore file and keeps `f`, so the snapshot of what is left lacks `f`. */
  lemma UndoneTreeIgnores(f: string, i: string, h: Hash, data: Bytes, before: Tree, after: Tree, vm: seq<FileEntry>)
    requires CollisionFree() && GoodName(f) && !Excluded([f]) && IGNORE_FILE == [i] && GoodName(i) && f != i
    requires f in ParsePatterns(data)
    requires IsUndo(IgnoreHistory(f, i, h, HashBytes(data)), "alice", vm) && CreateShaped(vm)
    requires ProperTree(after) && AfterUndo(IgnoreHistory(f, i, h, HashBytes(data)), "alice", before, after, vm)
    ensures !NothingIgnored(after)
  {
    IgnoreHistoryUndone(f, i, h, HashBytes(data), vm);
    IgnoredAfterwards(IgnoreHistory(f, i, h, HashBytes(data)), before, after, vm, f, i, h, data);
  }

  lemma IgnoredAfterwards(chain: seq<Manifest>, before: Tree, after: Tree, vm: seq<FileEntry>, f: string, i: string, h: Hash, data: Bytes)
    requires CollisionFree() && GoodName(f) && !Excluded([f]) && IGNORE_FILE == [i] && GoodName(i) && f in ParsePatterns(data)
    requires ProperTree(after) && AfterUndo(chain, "alice", before, after, vm) && CreateShaped(vm)
    requires LastAt(vm, f) == Some(Plain(f, h)) && LastAt(vm, i) == Some(Plain(i, HashBytes(data)))
    requires forall p :: !Dropped(chain, "alice", vm, p)
    ensures !NothingIgnored(after)
  {
    StaysListed(chain, before, after, vm, f, Plain(f, h));
    StaysListed(chain, before, after, vm, i, Plain(i, HashBytes(data)));
    NameIgnored(after, f, data);
  }

  lemma NameIgnored(t: Tree, f: string, data: Bytes)
    requires CollisionFree() && ProperTree(t) && [f] in t && !Excluded([f])
    requires IGNORE_FILE in t && HashBytes(t[IGNORE_FILE]) == HashBytes(data) && f in ParsePatterns(data)
    ensures !NothingIgnored(t)
  {
    assert t[IGNORE_FILE] == data && Contains(f, f);
    assert Join([f]) == f;
  }

  lemma StaysListed(chain: seq<Manifest>, before: Tree, after: Tree, vm: seq<FileEntry>, f: string, e: FileEntry)
    requires AfterUndo(chain, "alice", before, after, vm) && CreateShaped(vm)
    requires GoodName(f) && LastAt(vm, f) == Some(e) && forall p :: !Dropped(chain, "alice", vm, p)
    ensures [f] in after && HashBytes(after[[f]]) == e.content
  {
    assert Join([f]) == f;
    ShapedLookup(vm, [f]);
    assert [f] in after && Holds(before, after, vm, [f]);
  }

  lemma IgnoreHistoryUndone(f: string, i: string, h: Hash, g: Hash, vm: seq<FileEntry>)
    requires f != i && IsUndo(IgnoreHistory(f, i, h, g), "alice", vm)
    ensures LastAt(vm, f) == Some(Plain(f, h)) && LastAt(vm, i) == Some(Plain(i, g))
    ensures forall p :: !Dropped(IgnoreHistory(f, i, h, g), "alice", vm, p)
  {
    var chain := IgnoreHistory(f, i, h, g);
    forall p ensures Touched(chain, "alice", p) <==> p == f || p == i {
      IgnoreHistoryTouched(f, i, h, g, p);
    }
    assert UndoneTo(chain, "alice", f, LastAt(vm, f)) && UndoneTo(chain, "alice", i, LastAt(vm, i));
    IgnoreHistoryForeign(f, i, h, g);
    FallbackUnique(chain, "alice", 3, 0, f, LastAt(vm, f), Some(Plain(f, h)));
    FallbackUnique(chain, "alice", 3, 0, i, LastAt(vm, i), Some(Plain(i, g)));
  }

  lemma IgnoreHistoryTouched(f: string, i: string, h: Hash, g: Hash, p: string)
    requires f != i
    ensures Touched(IgnoreHistory(f, i, h, g), "alice", p) <==> p == f || p == i
  {
    HoldingAt(Some("bob"), i, g, p);
    HoldingAt(Some("alice"), f, h, p);
    assert p == f || p == i <==> TouchedAt(IgnoreHistory(f, i, h, g), "alice", 2, p);
  }

  lemma IgnoreHistoryForeign(f: string, i: string, h: Hash, g: Hash)
    requires f != i
    ensures NewestForeign(IgnoreHistory(f, i, h, g), "alice", 3, 0, f, Plain(f, h))
    ensures NewestForeign(IgnoreHistory(f, i, h, g), "alice", 3, 0, i, Plain(i, g))
  {
    var chain := IgnoreHistory(f, i, h, g);
    assert Foreign(chain, "alice", f, 0, 0) && Earlier(0, 0, 3, 0);
    assert Foreign(chain, "alice", i, 1, 0) && Earlier(1, 0, 3, 0);
  }

  // ---------------------------------------------------------------------------------------------
  // The command
  // ---------------------------------------------------------------------------------------------

  /** The gate is open, the virtual manifest can be applied, and the dropped paths clear in order. */
  ghost predicate WayOpen(d: Disk, before: Tree, chain: seq<Manifest>, actor: string, vm: seq<FileEntry>, force: bool)
    requires ProperTree(before) && chain != []
  {
    Appliable(d, before, UndoneManifest(chain, actor, vm), force) && ClearsInOrder(chain, actor, before, vm)
  }

  /** What `revert --actor` finds in the store. */
  ghost predicate UndoFound(d: Disk, chain: seq<Manifest>, actor: string, vm: seq<FileEntry>) {
    chain != [] && IsChain(d, d.head, chain) && UndoneList(chain, actor, vm)
  }

  /** What `revert --actor` has done to the tree when it gets through. */
  ghost predicate UndoneOnDisk(d: Disk, before: Tree, after: Tree, chain: seq<Manifest>, actor: string, vm: seq<FileEntry>, force: bool)
    requires ProperTree(before) && chain != []
  {
    && AfterUndo(chain, actor, before, after, vm)
    && Admits(d.tombstones, UndoneManifest(chain, actor, vm))
    && (force || Clean(before, HeadFiles(chain)))
  }

  lemma FoundIsShaped(d: Disk, chain: seq<Manifest>, actor: string, vm: seq<FileEntry>)
    requires UndoFound(d, chain, actor, vm)
    ensures IsUndo(chain, actor, vm) && forall e :: e in HeadFiles(chain) ==> Sanitize(e.path).Ok?
    ensures ShapedChain(chain) ==> CreateShaped(vm) && !WritesFabric(vm)
  {
    UndoneListMeans(chain, actor, vm);
    assert Acceptable(chain[|chain| - 1]);
    if ShapedChain(chain) {
      assert CreateShaped(HeadFiles(chain));
      DistinctAt(HeadFiles(chain));
      StrictIffDistinct(vm);
      UndoneIsShaped(chain, actor, vm);
      ShapedKeepsOut(vm);
    }
  }

  /** In an orderly case the command leaves what a plain revert to the virtual manifest would, and the
      snapshot it takes records the virtual manifest's contents exactly when nothing is ignored in it. */
  lemma OrderlyUndo(d: Disk, d': Disk, before: Tree, after: Tree, chain: seq<Manifest>, actor: string, vm: seq<FileEntry>,
                    force: bool, id: Hash, m: Manifest)
    requires ProperTree(before) && ProperTree(after) && UndoFound(d, chain, actor, vm)
    requires UndoneOnDisk(d, before, after, chain, actor, vm, force) && Snapped(d, d', id, m, after)
    requires Orderly(chain, before)
    ensures Applied(before, after, vm, false)
    ensures SameContents(m.files, vm) <==> NothingIgnored(after)
  {
    FoundIsShaped(d, chain, actor, vm);
    OrderlyIsFine(chain, actor, before, vm);
    KeepExtraThenRemove(chain, actor, before, after, vm);
    UndoneTreeRecorded(before, after, vm, d.tombstones, m);
  }

  /** The gate, and the virtual manifest over whatever else is there. */
  method ApplyOver(store: Store, tree: Worktree, undone: Manifest, force: bool) returns (r: Result<()>)
    requires store.Valid() && tree.Valid() && HeadManifest(store.Now()).Ok?
    modifies store, tree
    ensures store.Valid() && tree.Valid()
    ensures !WritesFabric(undone.files) ==> store.Now() == old(store.Now())
    ensures r.Ok? ==>
              && Admits(old(store.tombstones), undone) && LaidOver(old(tree.files), tree.files, undone.files)
              && (force || Clean(old(tree.files), HeadManifest(old(store.Now())).value.files))
    ensures !WritesFabric(undone.files) && r.Ok? ==> Appliable(old(store.Now()), old(tree.files), undone, force)
    ensures !WritesFabric(undone.files) && !tree.faulty && Appliable(old(store.Now()), old(tree.files), undone, force) ==> r.Ok?
  {
    var checked :- CheckThenApply(store, tree, undone, true, force);
    r := if checked.1.None? then Err(Corrupt) else Ok(());
  }

  /** The dropped path `p` denotes a file of the store's own. */
  ghost predicate TakenFromFabric(before: Tree, vm: seq<FileEntry>, p: string) {
    Sanitize(p).Ok? && InFabric(Sanitize(p).value) && Occupied(before, vm, Sanitize(p).value)
  }

  /** The removal pass takes a file of the store's own. */
  ghost predicate TakesFabric(chain: seq<Manifest>, actor: string, before: Tree, vm: seq<FileEntry>) {
    exists p :: Dropped(chain, actor, vm, p) && TakenFromFabric(before, vm, p)
  }

  /** Neither the apply nor the removal pass reaches the store's own files. */
  ghost predicate SparesStore(chain: seq<Manifest>, actor: string, before: Tree, vm: seq<FileEntry>) {
    !WritesFabric(vm) && !TakesFabric(chain, actor, before, vm)
  }

  lemma NoneTaken(chain: seq<Manifest>, actor: string, before: Tree, mid: Tree, vm: seq<FileEntry>, touched: seq<string>, vmPaths: set<string>)
    requires PassesOver(chain, actor, vm, touched, vmPaths) && LaidOver(before, mid, vm)
    ensures RemovesFabric(mid, touched, vmPaths) ==> TakesFabric(chain, actor, before, vm)
  {
    if p :| p in touched && p !in vmPaths && IsFabricFile(mid, p) {
      assert Dropped(chain, actor, vm, p) && TakenFromFabric(before, vm, p);
    }
  }

  /** The files of the fabric directory are left alone, exactly when no dropped path denotes one that is there
      and every entry placed among them says what is there already. */
  lemma UndoLeavesFabricAlone(chain: seq<Manifest>, actor: string, before: Tree, after: Tree, vm: seq<FileEntry>)
    requires CollisionFree() && ProperTree(before) && AfterUndo(chain, actor, before, after, vm)
    ensures SameFabric(before, after) <==> forall c :: InFabric(c) ==> FabricKept(chain, actor, before, vm, c)
    ensures !WritesFabric(vm) ==> (SameFabric(before, after) <==> !TakesFabric(chain, actor, before, vm))
  {
    forall c | InFabric(c) ensures SameAt(after, before, c) <==> FabricKept(chain, actor, before, vm, c) {
      if c in after { assert Holds(before, after, vm, c); }
    }
    if p :| Dropped(chain, actor, vm, p) && TakenFromFabric(before, vm, p) {
      assert Doomed(chain, actor, vm, Sanitize(p).value);
      assert !WritesFabric(vm) ==> !FabricKept(chain, actor, before, vm, Sanitize(p).value);
    }
    if !WritesFabric(vm) && !TakesFabric(chain, actor, before, vm) {
      forall c | InFabric(c) ensures FabricKept(chain, actor, before, vm, c) {
        assert LastPlaced(vm, c).None?;
        if Doomed(chain, actor, vm, c) {
          var p :| Dropped(chain, actor, vm, p) && Sanitize(p) == Ok(c);
          assert !TakenFromFabric(before, vm, p);
        }
      }
    }
  }

  ghost predicate FabricKept(chain: seq<Manifest>, actor: string, before: Tree, vm: seq<FileEntry>, c: Comps) {
    if Doomed(chain, actor, vm, c) then c !in before else KeepsExcludedAt(before, vm, c)
  }

  /** The actor put a file among the store's own, and somebody else's snapshot is without it. */
  function FabricHistory(p: string, h: Hash): seq<Manifest> {
    [Snapshot(None, []), Holding(Some("alice"), p, h), Snapshot(Some("bob"), [])]
  }

  /** Such snapshots pass `validate`.  On a tree that matches HEAD, undoing the actor writes nothing, drops
      that one path, gets through, and takes the store's file. */
  lemma FabricIsTaken(c: Comps, h: Hash, data: Bytes, vm: seq<FileEntry>)
    requires GoodComps(c) && InFabric(c) && |Join(c)| <= MAX_PATH
    requires IsUndo(FabricHistory(Join(c), h), "alice", vm)
    ensures forall m :: m in FabricHistory(Join(c), h) ==> Acceptable(m)
    ensures vm == [] && !WritesFabric(vm)
    ensures ProperTree(map[c := data]) && Clean(map[c := data], HeadFiles(FabricHistory(Join(c), h)))
    ensures ClearsInOrder(FabricHistory(Join(c), h), "alice", map[c := data], vm)
    ensures TakesFabric(FabricHistory(Join(c), h), "alice", map[c := data], vm)
  {
    SanitizeJoin(c);
    JoinEndsInName(c);
    FabricHistoryAdmitted(Join(c), h);
    FabricHistoryUndone(Join(c), h, vm);
    NothingLives(map[c := data], c);
    TakenAlone(FabricHistory(Join(c), h), map[c := data], vm, Join(c));
  }

  lemma FabricHistoryAdmitted(p: string, h: Hash)
    requires Sanitize(p).Ok?
    ensures forall m :: m in FabricHistory(p, h) ==> Acceptable(m)
  {
    assert TotalChunks([Plain(p, h)]) == 0 by { assert [Plain(p, h)][..0] == []; }
    assert Acceptable(Snapshot(None, [])) && Acceptable(Holding(Some("alice"), p, h)) && Acceptable(Snapshot(Some("bob"), []));
  }

  lemma NoChunks(files: seq<FileEntry>, e: FileEntry)
    requires e.chunks == []
    ensures TotalChunks(files + [e]) == TotalChunks(files)
  {
    assert (files + [e])[..|files + [e]| - 1] == files;
  }

  /** Snapshots that name a path twice pass `validate` as well. */
  lemma DoubledHistoryAdmitted(p: string, h: Hash, k: Hash)
    requires Sanitize(p).Ok?
    ensures forall m :: m in DoubledHistory(p, h, k) ==> Acceptable(m)
  {
    var one, two := [Plain(p, h)], [Plain(p, h), Plain(p, k)];
    NoChunks([], Plain(p, h));
    NoChunks(one, Plain(p, k));
    assert [] + one == one && one + [Plain(p, k)] == two;
    assert Acceptable(Snapshot(None, one)) && Acceptable(Snapshot(Some("alice"), [])) && Acceptable(Snapshot(None, two));
  }

  lemma NothingLives(t: Tree, c: Comps)
    requires GoodComps(c) && InFabric(c) && t.Keys == {c}
    ensures ProperTree(t) && Clean(t, [])
  {
    assert Excluded(c);
  }

  lemma TakenAlone(chain: seq<Manifest>, before: Tree, vm: seq<FileEntry>, p: string)
    requires forall q :: Dropped(chain, "alice", vm, q) <==> q == p
    requires Sanitize(p).Ok? && EndsInName(p) && InFabric(Sanitize(p).value) && before.Keys == {Sanitize(p).value} && vm == []
    ensures ClearsInOrder(chain, "alice", before, vm) && TakesFabric(chain, "alice", before, vm)
  {
    assert Dropped(chain, "alice", vm, p) && TakenFromFabric(before, vm, p);
    assert ClearsAt(chain, "alice", before, vm, p);
  }

  lemma FabricHistoryUndone(p: string, h: Hash, vm: seq<FileEntry>)
    requires IsUndo(FabricHistory(p, h), "alice", vm)
    ensures vm == [] && forall q :: Dropped(FabricHistory(p, h), "alice", vm, q) <==> q == p
  {
    var chain := FabricHistory(p, h);
    forall q
      ensures Touched(chain, "alice", q) <==> q == p
      ensures LastAt(vm, q).None?
    {
      HoldingAt(Some("alice"), p, h, q);
      assert q == p <==> TouchedAt(chain, "alice", 1, q);
      assert UndoneTo(chain, "alice", q, LastAt(vm, q));
    }
    assert vm != [] ==> LastAt(vm, vm[|vm| - 1].path).Some?;
  }

  /** The removal pass, once the virtual manifest is in place. */
  method RemoveDropped(store: Store, tree: Worktree, touched: seq<string>, vm: seq<FileEntry>, ghost before: Tree,
                       ghost chain: seq<Manifest>, ghost actor: string)
    returns (r: Result<()>)
    requires store.Valid() && tree.Valid() && [] !in before && LaidOver(before, tree.files, vm)
    requires Ascending(touched) && forall p :: p in touched <==> Touched(chain, actor, p)
    modifies store, tree
    ensures store.Valid() && tree.Valid()
    ensures !TakesFabric(chain, actor, before, vm) ==> store.Now() == old(store.Now())
    ensures r.Ok? ==> AfterUndo(chain, actor, before, tree.files, vm)
    ensures r.Ok? ==> ClearsInOrder(chain, actor, before, vm)
    ensures !tree.faulty && ClearsInOrder(chain, actor, before, vm) ==> r.Ok?
  {
    ghost var mid := tree.files;
    var vmPaths := set f | f in vm :: f.path;
    PassIff(chain, actor, before, mid, vm, touched, vmPaths);
    NoneTaken(chain, actor, before, mid, vm, touched, vmPaths);
    var removed :- RemoveTouched(store, tree, touched, vmPaths);
    AfterPass(chain, actor, before, mid, tree.files, vm, touched, vmPaths);
    return Ok(());
  }

  /** Gate, apply, remove. */
  method ApplyUndone(store: Store, tree: Worktree, undone: Manifest, touched: seq<string>, force: bool,
                     ghost chain: seq<Manifest>, ghost actor: string, ghost d: Disk, ghost before: Tree)
    returns (r: Result<()>)
    requires store.Valid() && tree.Valid() && store.Now() == d && tree.files == before
    requires UndoFound(d, chain, actor, undone.files) && undone == UndoneManifest(chain, actor, undone.files)
    requires Ascending(touched) && forall p :: p in touched <==> Touched(chain, actor, p)
    modifies store, tree
    ensures store.Valid() && tree.Valid()
    ensures SparesStore(chain, actor, before, undone.files) ==> store.Now() == d
    ensures r.Ok? ==> UndoneOnDisk(d, before, tree.files, chain, actor, undone.files, force)
    ensures r.Ok? && !WritesFabric(undone.files) ==> WayOpen(d, before, chain, actor, undone.files, force)
    ensures !WritesFabric(undone.files) && !tree.faulty ==>
              (WayOpen(d, before, chain, actor, undone.files, force) ==> r.Ok?)
  {
    HeadOfChain(d, chain);
    var over :- ApplyOver(store, tree, undone, force);
    r := RemoveDropped(store, tree, touched, undone.files, before, chain, actor);
  }

  lemma HeadOfChain(d: Disk, chain: seq<Manifest>)
    requires chain != [] && IsChain(d, d.head, chain)
    ensures HeadManifest(d) == Ok(chain[|chain| - 1])
  {
  }

  /** The part of `revert --actor` that changes the tree. */
  method UndoOnDisk(store: Store, tree: Worktree, actor: string, force: bool)
    returns (r: Result<()>, ghost chain: seq<Manifest>, ghost vm: seq<FileEntry>)
    requires store.Valid() && tree.Valid()
    modifies store, tree
    ensures store.Valid() && tree.Valid()
    ensures SparesStore(chain, actor, old(tree.files), vm) ==> store.Now() == old(store.Now())
    ensures r.Ok? ==> Involved(old(store.Now()), actor)
    ensures Involved(old(store.Now()), actor) ==> UndoFound(old(store.Now()), chain, actor, vm)
    ensures r.Ok? ==> UndoneOnDisk(old(store.Now()), old(tree.files), tree.files, chain, actor, vm, force)
    ensures r.Ok? && !WritesFabric(vm) ==> WayOpen(old(store.Now()), old(tree.files), chain, actor, vm, force)
    ensures Involved(old(store.Now()), actor) && !WritesFabric(vm) && !tree.faulty ==>
              (WayOpen(old(store.Now()), old(tree.files), chain, actor, vm, force) ==> r.Ok?)
  {
    chain, vm := [], [];
    var surgical, walked := SurgicalManifest(store, actor);
    chain := walked;
    if surgical.Err? {
      r := Err(surgical.error);
      return;
    }
    vm := surgical.value.0.files;
    r := ApplyUndone(store, tree, surgical.value.0, surgical.value.1, force, chain, actor, store.Now(), tree.files);
  }

  /** The snapshot of the undone tree, whatever its files' times are. */
  method RecordUndone(store: Store, t: Tree, actor: string, now: nat) returns (r: Result<Hash>, ghost m: Manifest)
    requires store.Valid() && ProperTree(t)
    modifies store
    ensures store.Valid()
    ensures r.Ok? ==> Snapped(old(store.Now()), store.Now(), r.value, m, t)
    ensures r.Ok? ==> m.actor == None && m.message == UndoMessage(actor) && m.timestamp == now
    ensures r.Ok? ==> Recordable(t, old(store.tombstones))
    ensures !store.faulty && Recordable(t, old(store.tombstones)) ==> r.Ok?
  {
    var stamps: Stamps := *;
    r, m := Create(store, t, stamps, "surgical undo of actor '" + actor + "'", None, now);
  }

  /** Whatever tree the undo leaves, a snapshot can record it. */
  ghost predicate WillRecord(d: Disk, before: Tree, chain: seq<Manifest>, actor: string, vm: seq<FileEntry>) {
    forall after :: ProperTree(after) && AfterUndo(chain, actor, before, after, vm) ==> Recordable(after, d.tombstones)
  }

  /** The undo leaves one tree. */
  lemma AfterUndoUnique(chain: seq<Manifest>, actor: string, before: Tree, after: Tree, after': Tree, vm: seq<FileEntry>)
    requires CollisionFree()
    requires AfterUndo(chain, actor, before, after, vm) && AfterUndo(chain, actor, before, after', vm)
    ensures after == after'
  {
    forall c | c in after ensures after[c] == after'[c] {
      assert Holds(before, after, vm, c) && Holds(before, after', vm, c);
    }
  }

  lemma WillRecordIff(d: Disk, before: Tree, after: Tree, chain: seq<Manifest>, actor: string, vm: seq<FileEntry>)
    requires CollisionFree() && ProperTree(after) && AfterUndo(chain, actor, before, after, vm)
    ensures WillRecord(d, before, chain, actor, vm) <==> Recordable(after, d.tombstones)
  {
    forall after' | ProperTree(after') && AfterUndo(chain, actor, before, after', vm) ensures after' == after {
      AfterUndoUnique(chain, actor, before, after, after', vm);
    }
  }

  /** `revert --actor`. */
  method RevertActor(store: Store, tree: Worktree, actor: string, force: bool, now: nat)
    returns (r: Result<Hash>, ghost chain: seq<Manifest>, ghost vm: seq<FileEntry>, ghost m: Manifest)
    requires store.Valid() && tree.Valid()
    modifies store, tree
    ensures store.Valid() && tree.Valid()
    ensures r.Ok? ==> Involved(old(store.Now()), actor)
    ensures Involved(old(store.Now()), actor) ==> UndoFound(old(store.Now()), chain, actor, vm)
    ensures CollisionFree() && Involved(old(store.Now()), actor) && SparesStore(chain, actor, old(tree.files), vm) ==>
              !store.faulty && !tree.faulty ==>
                (r.Ok? <==> WayOpen(old(store.Now()), old(tree.files), chain, actor, vm, force)
                            && WillRecord(old(store.Now()), old(tree.files), chain, actor, vm))
    ensures r.Ok? && SparesStore(chain, actor, old(tree.files), vm) ==>
              Snapped(old(store.Now()), store.Now(), r.value, m, tree.files)
    ensures r.Ok? ==> m.actor == None && m.message == UndoMessage(actor) && m.timestamp == now
    ensures r.Ok? ==> UndoneOnDisk(old(store.Now()), old(tree.files), tree.files, chain, actor, vm, force)
  {
    m := Manifest(MANIFEST_VERSION, None, 0, "", [], [], None);
    ghost var d, before := store.Now(), tree.files;
    var undone;
    undone, chain, vm := UndoOnDisk(store, tree, actor, force);
    if undone.Err? {
      r := Err(undone.error);
      return;
    }
    if CollisionFree() {
      WillRecordIff(d, before, tree.files, chain, actor, vm);
    }
    r, m := RecordUndone(store, tree.files, actor, now);
  }

  lemma ShapedKeepsOut(files: seq<FileEntry>)
    requires CreateShaped(files)
    ensures !WritesFabric(files)
  {
    forall e | e in files ensures !PlacedInFabric(e) {
      assert !Excluded(Sanitize(e.path).value);
    }
  }

  // ---------------------------------------------------------------------------------------------
  // Running it twice
  // ---------------------------------------------------------------------------------------------

  lemma {:induction false} ChainSurvives(d: Disk, d': Disk, id: Option<Hash>, chain: seq<Manifest>)
    requires IsChain(d, id, chain)
    requires forall h :: h in d.manifests ==> h in d'.manifests && d'.manifests[h] == d.manifests[h]
    ensures IsChain(d', id, chain)
    decreases |chain|
  {
    if id.Some? {
      ChainSurvives(d, d', chain[|chain| - 1].parent, chain[..|chain| - 1]);
    }
  }

  /** Running `revert --actor` again finds the same touched paths and the same contents. */
  lemma UndoneTwice(d: Disk, d': Disk, id: Hash, m: Manifest, chain: seq<Manifest>, chain': seq<Manifest>,
                    actor: string, vm: seq<FileEntry>, again: seq<FileEntry>)
    requires IsChain(d, d.head, chain) && chain != [] && IsUndo(chain, actor, vm)
    requires NamesSnapshot(d, d', id, m) && Load(d', id) == Ok(m)
    requires m.parent == d.head && m.actor == None && DistinctPaths(m.files) && SameContents(m.files, vm)
    requires IsChain(d', d'.head, chain') && chain' != [] && IsUndo(chain', actor, again)
    ensures SameContents(again, vm)
    ensures forall p :: Touched(chain', actor, p) <==> Touched(chain, actor, p)
  {
    ChainSurvives(d, d', d.head, chain);
    assert (chain + [m])[..|chain|] == chain;
    ChainUnique(d', d'.head, chain', chain + [m]);
    UndoIdempotent(chain, actor, vm, m, again);
  }
}
