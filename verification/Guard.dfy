/** `guard::run`: snapshot, run a command, report what it changed, and put the tree back if asked to. */
module Guard {
  import opened Core
  import opened Paths
  import opened Storage
  import opened Worktrees
  import opened Snapshots
  import opened Drift
  import opened Revert
  import opened RevertTheorems

  datatype RevertPolicy = Never | OnFail | Always

  /** What the command did: it never started, or it left the tree as `after`, with these times. */
  datatype Child = NotSpawned | Ran(after: Tree, stamps: Stamps, failed: bool)

  datatype GuardReport = GuardReport(snapshot: Hash, drift: Report, reverted: bool)

  /** Outside the excluded names `t` is as `before`; inside them it is as the child left it. */
  ghost predicate PutBack(before: Tree, after: Tree, t: Tree) {
    forall c :: PutBackAt(before, after, t, c)
  }

  ghost predicate PutBackAt(before: Tree, after: Tree, t: Tree, c: Comps) {
    Lookup(t, c) == Lookup(if Excluded(c) then after else before, c)
  }

  /** A snapshot of `t` records every file outside the excluded names. */
  ghost predicate LeavesNothingOut(t: Tree, tombstones: seq<Tombstone>)
    requires ProperTree(t)
  {
    forall c :: c in t && !Excluded(c) ==> Captured(t, tombstones, c)
  }

  /** A restored snapshot gives back the tree it was taken of, exactly when it left no file out. */
  lemma RestoredSnapshot(before: Tree, after: Tree, t: Tree, tombstones: seq<Tombstone>, m: Manifest)
    requires CollisionFree()
    requires ProperTree(before) && ProperTree(after)
    requires RecordsTree(m, before, tombstones) && Applied(after, t, m.files, false)
    ensures PutBack(before, after, t) <==> LeavesNothingOut(before, tombstones)
  {
    if LeavesNothingOut(before, tombstones) {
      ManifestsAreShaped(m, before, tombstones);
      forall c ensures PutBackAt(before, after, t, c) {
        if c in before || c in after || c in t {
          RestoredAt(before, after, t, tombstones, m, c);
        }
      }
    } else {
      var c :| c in before && !Excluded(c) && !Captured(before, tombstones, c);
      LeftOutIsLost(before, after, t, tombstones, m, c);
      assert !PutBackAt(before, after, t, c);
    }
  }

  lemma LeftOutIsLost(before: Tree, after: Tree, t: Tree, tombstones: seq<Tombstone>, m: Manifest, c: Comps)
    requires ProperTree(before) && ProperTree(after)
    requires RecordsTree(m, before, tombstones) && Applied(after, t, m.files, false)
    requires c in before && !Excluded(c) && !Captured(before, tombstones, c)
    ensures c !in t
  {
    if f :| f in m.files && f.path == Join(c) {
      assert Origin(before, tombstones, before.Keys, f);
      var d :| d in before && Captured(before, tombstones, d) && Join(d) == f.path;
      JoinInjective(c, d);
    } else {
      assert !Spared(m.files, false, c);
    }
  }

  lemma RestoredAt(before: Tree, after: Tree, t: Tree, tombstones: seq<Tombstone>, m: Manifest, c: Comps)
    requires CollisionFree()
    requires ProperTree(before) && ProperTree(after)
    requires RecordsTree(m, before, tombstones) && Applied(after, t, m.files, false)
    requires CreateShaped(m.files)
    requires LeavesNothingOut(before, tombstones)
    requires c in before || c in after || c in t
    ensures PutBackAt(before, after, t, c)
  {
    if LastPlaced(m.files, c).Some? {
      SanitizeGood(LastPlaced(m.files, c).value.path);
    }
    assert GoodComps(c);
    ShapedLookup(m.files, c);
    if Excluded(c) {
      assert LastPlaced(m.files, c).None?;
      if c in t { assert Holds(after, t, m.files, c); }
    } else if c in before {
      assert ContentAt(m.files, Join(c)) == Some(HashBytes(before[c]));
      assert c in t && Holds(after, t, m.files, c);
    } else if c in t {
      assert Spared(m.files, false, c);
      var f :| f in m.files && f.path == Join(c);
      assert Origin(before, tombstones, before.Keys, f);
      var d :| d in before && Captured(before, tombstones, d) && Join(d) == f.path;
      JoinInjective(c, d);
    }
  }

  /** No file the snapshot recorded is, or has been given, an ancestor among the files of `after`. */
  ghost predicate NoSwap(before: Tree, tombstones: seq<Tombstone>, after: Tree)
    requires ProperTree(before)
  {
    forall c, d :: c in before && Captured(before, tombstones, c) && d in after ==> !ProperPrefix(c, d) && !ProperPrefix(d, c)
  }

  /** A snapshot fits over whatever the command left, exactly when no recorded file has become a
      directory and no directory with a recorded file in it has become a file. */
  lemma SnapshotFits(m: Manifest, before: Tree, after: Tree, tombstones: seq<Tombstone>)
    requires ProperTree(before) && ProperTree(after) && RecordsTree(m, before, tombstones)
    ensures Fits(after, m.files) <==> NoSwap(before, tombstones, after)
  {
    ManifestsAreShaped(m, before, tombstones);
    forall c ensures LastPlaced(m.files, c).Some? <==> c in before && Captured(before, tombstones, c) {
      if LastPlaced(m.files, c).Some? {
        SnapshotPlace(m, before, tombstones, LastPlaced(m.files, c).value);
      }
      if c in before && Captured(before, tombstones, c) {
        ShapedLookup(m.files, c);
      }
    }
    if NoSwap(before, tombstones, after) {
      forall c, d | Occupied(after, m.files, c) && Occupied(after, m.files, d) ensures !ProperPrefix(c, d) {
      }
    }
    if Fits(after, m.files) {
      forall c, d | c in before && Captured(before, tombstones, c) && d in after
        ensures !ProperPrefix(c, d) && !ProperPrefix(d, c)
      {
        assert Occupied(after, m.files, c) && Occupied(after, m.files, d);
      }
    }
  }

  /** The manifest survives being written and loaded again. */
  ghost predicate Loads(m: Manifest) {
    Acceptable(m) && |SerializeManifest(m)| <= 268_435_456
  }

  /** `m` is what a guard run records. */
  ghost predicate GuardManifest(m: Manifest, d: Disk, before: Tree, command: string, actor: Option<string>, now: nat)
    requires ProperTree(before)
  {
    && RecordsTree(m, before, d.tombstones)
    && m.parent == d.head && m.message == "guard: " + command && m.actor == actor && m.timestamp == now
  }

  /** The tree is small enough for its snapshot to load again. */
  ghost predicate WithinCaps(d: Disk, before: Tree, command: string, actor: Option<string>, now: nat)
    requires ProperTree(before)
  {
    forall m :: GuardManifest(m, d, before, command, actor, now) ==> Loads(m)
  }

  /** Judged before the call: the tree can be recorded within the caps, and the command swaps no recorded
      file with a directory and leaves the store's own files alone. */
  ghost predicate Calm(d: Disk, before: Tree, child: Child, command: string, actor: Option<string>, now: nat)
    requires ProperTree(before)
  {
    && Codecs(d) && child.Ran? && !Meddles(before, child) && Recordable(before, d.tombstones)
    && WithinCaps(d, before, command, actor, now) && NoSwap(before, d.tombstones, child.after)
  }

  ghost predicate Codecs(d: Disk) { CollisionFree() && ManifestRoundTrip() && Intact(d) }

  lemma SnapshotLoads(d: Disk, d': Disk, id: Hash, m: Manifest, t: Tree)
    requires ManifestRoundTrip() && ProperTree(t) && Snapped(d, d', id, m, t) && d'.manifests[id] == SerializeManifest(m)
    ensures Load(d', id).Ok? <==> Loads(m)
    ensures Load(d', id).Ok? ==> Load(d', id).value == m
  {
  }

  /** Over the tree the command left, the loaded snapshot can be applied exactly when it fits. */
  lemma SnapshotApplies(m: Manifest, before: Tree, after: Tree, d: Disk)
    requires CollisionFree() && Intact(d)
    requires ProperTree(before) && ProperTree(after) && RecordsTree(m, before, d.tombstones)
    requires ChunksPresent(d.objects, m.files) && Acceptable(m)
    ensures !WritesFabric(m.files)
    ensures Admits(d.tombstones, m) && CanRestore(d.objects, after, m.files) <==> NoSwap(before, d.tombstones, after)
  {
    RecordedRestores(m, before, d.tombstones, d);
    SnapshotIsRestorable(m, before, d.tombstones, d.objects);
    SnapshotFits(m, before, after, d.tombstones);
    forall n: nat | n < |m.files| ensures Available(d.objects, after, m.files, n) {
      SnapshotPlace(m, before, d.tombstones, m.files[n]);
    }
  }

  /** The command wrote among the store's own files. */
  ghost predicate Meddles(before: Tree, child: Child) { child.Ran? && !SameFabric(before, child.after) }

  /** Nothing but the disk keeps the run from ending well, with snapshot `id` in the store `d`. */
  ghost predicate Finishable(d: Disk, id: Hash, child: Child, policy: RevertPolicy)
    requires child.Ran?
  {
    && Load(d, id).Ok?
    && var m := Load(d, id).value;
       policy.Always? || (policy.OnFail? && child.failed) ==> Admits(d.tombstones, m) && CanRestore(d.objects, child.after, m.files)
  }

  /** Everything after the command: load the snapshot, report, and put the tree back if asked to. */
  method Finish(store: Store, tree: Worktree, id: Hash, child: Child, policy: RevertPolicy, fullDrift: bool)
    returns (r: Result<GuardReport>)
    requires store.Valid() && tree.Valid() && child.Ran? && tree.files == child.after
    modifies store, tree
    ensures store.Valid() && tree.Valid()
    ensures r.Ok? ==> r.value.snapshot == id
    ensures r.Ok? && policy.Never? ==> !r.value.reverted && tree.files == child.after
    ensures r.Ok? && policy.OnFail? ==> (r.value.reverted <==> child.failed)
    ensures r.Ok? && policy.Always? ==> r.value.reverted
    ensures r.Ok? ==> Load(old(store.Now()), id).Ok?
    ensures r.Ok? ==> Reports(r.value.drift, child.after, child.stamps, Load(old(store.Now()), id).value.files, fullDrift)
    ensures r.Ok? && !r.value.reverted ==> tree.files == child.after && store.Now() == old(store.Now())
    ensures r.Ok? && r.value.reverted ==>
              store.head == Some(id) && Applied(child.after, tree.files, Load(old(store.Now()), id).value.files, false)
    ensures Load(old(store.Now()), id).Err? || !WritesFabric(Load(old(store.Now()), id).value.files) ==>
              !store.faulty && !tree.faulty ==> (r.Ok? <==> Finishable(old(store.Now()), id, child, policy))
  {
    var m :- Load(Disk(store.objects, store.manifests, store.head, store.tombstones), id);
    var drift := Detect(tree.files, child.stamps, m, fullDrift);
    var shouldRevert := match policy case Always => true case OnFail => child.failed case Never => false;
    if !shouldRevert {
      return Ok(GuardReport(id, drift, false));
    }
    var applied :- Apply(store, tree, m, false);
    var moved :- store.SetHead(Some(id));
    return Ok(GuardReport(id, drift, true));
  }

  /** With the snapshot of `before` in the store, the run ends well exactly when it loads and, where the tree
      is to be put back, nothing was swapped. */
  lemma FinishableIff(d: Disk, d': Disk, id: Hash, m: Manifest, before: Tree, child: Child, policy: RevertPolicy)
    requires Codecs(d) && ProperTree(before) && child.Ran? && ProperTree(child.after)
    requires Snapped(d, d', id, m, before) && d'.manifests[id] == SerializeManifest(m)
    ensures Load(d', id).Err? || (Load(d', id) == Ok(m) && !WritesFabric(m.files))
    ensures Finishable(d', id, child, policy) <==>
              Loads(m) && (policy.Always? || (policy.OnFail? && child.failed) ==> NoSwap(before, d.tombstones, child.after))
  {
    SnapshotLoads(d, d', id, m, before);
    if Loads(m) {
      SnapshotApplies(m, before, child.after, d');
    }
  }

  /** Whatever the child does to the tree, a guard run that reports `reverted` has put it back, unless the
      child wrote among the store's own files. */
  method Run(store: Store, tree: Worktree, command: string, actor: Option<string>, child: Child,
             policy: RevertPolicy, fullDrift: bool, now: nat)
    returns (r: Result<GuardReport>, ghost m: Manifest)
    requires store.Valid() && tree.Valid()
    requires child.Ran? ==> ProperTree(child.after)
    modifies store, tree
    ensures store.Valid() && tree.Valid()
    ensures r.Ok? ==> child.Ran?
    ensures r.Ok? && policy.Never? ==> !r.value.reverted && tree.files == child.after
    ensures r.Ok? && policy.OnFail? ==> (r.value.reverted <==> child.failed)
    ensures r.Ok? && policy.Always? ==> r.value.reverted
    ensures r.Ok? && (r.value.reverted || !Meddles(old(tree.files), child)) ==> store.head == Some(r.value.snapshot)
    ensures r.Ok? && !Meddles(old(tree.files), child) && Codecs(old(store.Now())) ==>
              Reports(r.value.drift, child.after, child.stamps, m.files, fullDrift)
    ensures r.Ok? && !r.value.reverted ==> tree.files == child.after
    ensures r.Ok? && r.value.reverted && !Meddles(old(tree.files), child) && Codecs(old(store.Now())) ==>
              (PutBack(old(tree.files), child.after, tree.files) <==> LeavesNothingOut(old(tree.files), old(store.tombstones)))
    ensures !store.faulty && Recordable(old(tree.files), old(store.tombstones)) ==>
              GuardManifest(m, old(store.Now()), old(tree.files), command, actor, now)
    ensures !store.faulty && !tree.faulty && !Meddles(old(tree.files), child) && Codecs(old(store.Now())) ==>
              (r.Ok? <==>
                && child.Ran? && Recordable(old(tree.files), old(store.tombstones)) && Loads(m)
                && (policy.Always? || (policy.OnFail? && child.failed) ==> NoSwap(old(tree.files), old(store.tombstones), child.after)))
    ensures !store.faulty && !tree.faulty && Calm(old(store.Now()), old(tree.files), child, command, actor, now) ==> r.Ok?
    ensures child.NotSpawned? ==> r.Err? && tree.files == old(tree.files)
    ensures child.NotSpawned? && !store.faulty ==> store.head == old(store.head)
  {
    var prevHead := store.head;
    ghost var before, d0 := tree.files, store.Now();
    var stamps: Stamps := *;
    var snap;
    snap, m := Create(store, tree.files, stamps, "guard: " + command, actor, now);
    if snap.Err? {
      r := Err(snap.error);
      return;
    }
    if child.NotSpawned? {
      var back := store.SetHead(prevHead);
      r := Err(Io);
      return;
    }
    if exists c :: c in tree.files.Keys + child.after.Keys && c != [] && c[0] == FABRIC_DIR && !SameAt(child.after, tree.files, c) {
      store.Clobber();
    } else if Codecs(d0) {
      FinishableIff(d0, store.Now(), snap.value, m, before, child, policy);
    }
    tree.Overwrite(child.after);
    r := Finish(store, tree, snap.value, child, policy, fullDrift);
    if r.Ok? && r.value.reverted && !Meddles(before, child) && Codecs(d0) {
      RestoredSnapshot(before, child.after, tree.files, d0.tombstones, m);
    }
  }
}
