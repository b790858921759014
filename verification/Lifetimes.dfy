/** Whole runs of a fabric: what snapshots, purges and pulls, finished or cut short, in any order never
    lose or bring back. */
module Lifetimes {
  import opened Core
  import opened Paths
  import opened Storage
  import opened Worktrees
  import opened Snapshots
  import opened Revert
  import opened RevertTheorems
  import opened History
  import opened Purge
  import Audit
  import Anchor
  import opened Sync
  import opened SyncTheorems

  /** What may be missing: the files of a path in the snapshots there were when its erasure was cut short,
      and manifests whose arrival was. */
  datatype Excuse = Excuse(entries: set<(Hash, string)>, ids: set<Hash>)

  /** Every file of every loadable snapshot can be rebuilt, but for purged paths and the excused. */
  ghost predicate NothingLost(d: Disk, ex: Excuse) {
    forall h, e :: Owed(d, ex, h, e) ==> Restores(d.objects, e)
  }

  ghost predicate Owed(d: Disk, ex: Excuse, h: Hash, e: FileEntry) {
    && Loadable(d, h) && e in Load(d, h).value.files
    && h !in ex.ids && (h, e.path) !in ex.entries && !PathPurged(d.tombstones, e.path)
  }

  datatype Step =
    | Snap(id: Hash, m: Manifest, t: Tree)
    | CutSnap(m: Manifest, t: Tree)
    | Erase(rel: string, content: Hash, t: Tree)
    | CutErase(rel: string, content: Hash)
    | Pull(remote: Remote, report: PullReport, visited: set<Hash>, needed: set<Hash>, denied: set<Hash>)
    | CutPull
    | MoveHead(head: Option<Hash>)

  /** The tree of a purge is the one it starts from: a purge that takes a file of the store's own is no step
      that anything can be said of.  A revert moves HEAD. */
  ghost predicate Steps(d: Disk, d': Disk, step: Step) {
    match step
    case Snap(id, m, t) => ProperTree(t) && Snapped(d, d', id, m, t)
    case CutSnap(m, t) => ProperTree(t) && CutShort(d, d', m, t)
    case Erase(rel, content, t) => !HitsFabric(t, rel) && Purges(d, d', rel, content)
    case CutErase(rel, content) => PartlyPurged(d, d', rel, content)
    case Pull(remote, report, visited, needed, denied) =>
      PulledFrom(remote, d, d', report, visited, needed, denied) && Rebuildable(remote.d)
    case CutPull => Grows(d, d')
    case MoveHead(head) => d' == d.(head := head)
  }

  /** A run: `ds[i + 1]` follows from `ds[i]` by `steps[i]`. */
  ghost predicate IsRun(ds: seq<Disk>, steps: seq<Step>) {
    |ds| == |steps| + 1 && forall i :: 0 <= i < |steps| ==> Steps(ds[i], ds[i + 1], steps[i])
  }

  /** What the step from `d` to `d'` adds to the excuses. */
  function Excusing(d: Disk, d': Disk, step: Step, ex: Excuse): Excuse {
    match step
    case CutErase(rel, content) => ex.(entries := ex.entries + set h | h in d.manifests :: (h, rel))
    case CutPull => ex.(ids := ex.ids + (d'.manifests.Keys - d.manifests.Keys))
    case _ => ex
  }

  /** The excuses after the first `n` steps. */
  function Excused(ds: seq<Disk>, steps: seq<Step>, n: nat): Excuse
    requires |ds| == |steps| + 1 && n <= |steps|
  {
    if n == 0 then Excuse({}, {}) else Excusing(ds[n - 1], ds[n], steps[n - 1], Excused(ds, steps, n - 1))
  }

  // ---------------------------------------------------------------------------------------------
  // Step by step
  // ---------------------------------------------------------------------------------------------

  /** A purge, finished or not, leaves every file at another path as it was. */
  lemma OtherPathsStay(d: Disk, d': Disk, rel: string, content: Hash, h: Hash, e: FileEntry)
    requires PartlyPurged(d, d', rel, content)
    requires Loadable(d, h) && e in Load(d, h).value.files && e.path != rel && Restores(d.objects, e)
    ensures Restores(d'.objects, e)
  {
    AssembledChunks(d.objects, e.chunks);
    forall ch | ch in e.chunks ensures ReadObject(d'.objects, ch) == ReadObject(d.objects, ch) {
      assert NamedElsewhere(d, rel, ch);
      assert !Doomed(d, rel, ch);
    }
    AssembleSame(d.objects, d'.objects, e.chunks);
  }

  lemma PurgesPartly(d: Disk, d': Disk, rel: string, content: Hash)
    requires Purges(d, d', rel, content)
    ensures PartlyPurged(d, d', rel, content) && PathPurged(d'.tombstones, rel)
  {
    assert Tombstone(rel, content) in d'.tombstones;
  }

  lemma PurgeLosesNothing(d: Disk, d': Disk, rel: string, content: Hash, ex: Excuse, ex': Excuse)
    requires Intact(d) && NothingLost(d, ex) && PartlyPurged(d, d', rel, content)
    requires ex'.ids == ex.ids && ex.entries <= ex'.entries
    requires PathPurged(d'.tombstones, rel) || forall h :: h in d.manifests ==> (h, rel) in ex'.entries
    ensures NothingLost(d', ex') && Intact(d')
  {
    forall h, e | Owed(d', ex', h, e) ensures Restores(d'.objects, e) {
      assert Loadable(d, h) && Load(d', h) == Load(d, h);
      assert forall t :: t in d.tombstones ==> t in d'.tombstones;
      assert Owed(d, ex, h, e);
      OtherPathsStay(d, d', rel, content, h, e);
    }
  }

  lemma OldFilesStay(d: Disk, d': Disk, ex: Excuse, h: Hash, e: FileEntry)
    requires NothingLost(d, ex) && h in d.manifests && Owed(d', ex, h, e)
    requires Grows(d, d'.(head := d.head))
    ensures Restores(d'.objects, e)
  {
    assert Owed(d, ex, h, e);
    RestoresMonotone(d, d'.(head := d.head), e);
  }

  lemma SnapLosesNothing(d: Disk, d': Disk, m: Manifest, t: Tree, ex: Excuse)
    requires CollisionFree() && ManifestRoundTrip()
    requires Intact(d) && NothingLost(d, ex) && ProperTree(t)
    requires Grows(d, d'.(head := d.head))
    requires d'.manifests != d.manifests ==>
               RecordsTree(m, t, d.tombstones) && ChunksPresent(d'.objects, m.files) &&
               d'.manifests == WithManifest(d, SerializeManifest(m)).manifests
    ensures NothingLost(d', ex) && Intact(d')
  {
    forall h, e | Owed(d', ex, h, e) ensures Restores(d'.objects, e) {
      if h in d.manifests {
        OldFilesStay(d, d', ex, h, e);
      } else {
        assert d'.manifests[h] == SerializeManifest(m) && Load(d', h).value == m;
        RecordedRestores(m, t, d.tombstones, d');
      }
    }
  }

  lemma SnappedStores(d: Disk, d': Disk, id: Hash, m: Manifest, t: Tree)
    requires CollisionFree() && Intact(d) && ProperTree(t) && Snapped(d, d', id, m, t)
    ensures d'.manifests == WithManifest(d, SerializeManifest(m)).manifests
  {
    forall h | h in d'.manifests ensures h in WithManifest(d, SerializeManifest(m)).manifests &&
                                         d'.manifests[h] == WithManifest(d, SerializeManifest(m)).manifests[h]
    {
      if h !in d.manifests {
        assert HashBytes(d'.manifests[h]) == h;
      }
    }
  }

  lemma PullLosesNothing(d: Disk, d': Disk, remote: Remote, report: PullReport, visited: set<Hash>, needed: set<Hash>,
                         denied: set<Hash>, ex: Excuse)
    requires CollisionFree() && PulledFrom(remote, d, d', report, visited, needed, denied) && Rebuildable(remote.d)
    requires Intact(d) && NothingLost(d, ex)
    ensures NothingLost(d', ex) && Intact(d')
  {
    PulledRestores(remote, d, d', report, visited, needed, denied);
    forall h, e | Owed(d', ex, h, e) ensures Restores(d'.objects, e) {
      if h in d.manifests {
        OldFilesStay(d, d', ex, h, e);
      }
    }
  }

  lemma CutPullLosesNothing(d: Disk, d': Disk, ex: Excuse)
    requires Intact(d) && NothingLost(d, ex) && Grows(d, d')
    ensures NothingLost(d', Excusing(d, d', CutPull, ex)) && Intact(d')
  {
    var ex' := Excusing(d, d', CutPull, ex);
    forall h, e | Owed(d', ex', h, e) ensures Restores(d'.objects, e) {
      assert Owed(d', ex, h, e);
      OldFilesStay(d, d', ex, h, e);
    }
  }

  lemma OtherHeadLosesNothing(d: Disk, d': Disk, ex: Excuse)
    requires Intact(d) && NothingLost(d, ex) && d' == d.(head := d'.head)
    ensures NothingLost(d', ex) && Intact(d')
  {
    forall h, e | Owed(d', ex, h, e) ensures Restores(d'.objects, e) {
      assert Owed(d, ex, h, e);
    }
  }

  // ---------------------------------------------------------------------------------------------
  // Whole runs
  // ---------------------------------------------------------------------------------------------

  /** Over every run, every file of every loadable snapshot can be rebuilt, unless its path was purged, a
      purge of it was cut short when the snapshot was there, or the pull that brought the snapshot was. */
  lemma RunsLoseNothing(ds: seq<Disk>, steps: seq<Step>, n: nat)
    requires CollisionFree() && ManifestRoundTrip()
    requires IsRun(ds, steps) && n < |ds|
    requires Intact(ds[0]) && NothingLost(ds[0], Excuse({}, {}))
    ensures Intact(ds[n]) && NothingLost(ds[n], Excused(ds, steps, n))
  {
    var ex := Excuse({}, {});
    for k := 0 to n
      invariant ex == Excused(ds, steps, k) && Intact(ds[k]) && NothingLost(ds[k], ex)
    {
      var d, d', step, ex0 := ds[k], ds[k + 1], steps[k], ex;
      assert Steps(d, d', step);
      ex := Excusing(d, d', step, ex0);
      match step
      case Snap(id, m, t) =>
        SnappedStores(d, d', id, m, t);
        SnapLosesNothing(d, d', m, t, ex0);
      case CutSnap(m, t) => SnapLosesNothing(d, d', m, t, ex0);
      case Erase(rel, content, t) =>
        PurgesPartly(d, d', rel, content);
        PurgeLosesNothing(d, d', rel, content, ex0, ex);
      case CutErase(rel, content) => PurgeLosesNothing(d, d', rel, content, ex0, ex);
      case Pull(remote, report, visited, needed, denied) =>
        PullLosesNothing(d, d', remote, report, visited, needed, denied, ex0);
      case CutPull => CutPullLosesNothing(d, d', ex0);
      case MoveHead(head) => OtherHeadLosesNothing(d, d', ex0);
    }
  }

  lemma {:induction false} TombstonesStay(ds: seq<Disk>, steps: seq<Step>, i: nat, j: nat)
    requires IsRun(ds, steps) && i <= j < |ds|
    ensures ds[i].tombstones <= ds[j].tombstones
  {
    if i < j {
      TombstonesStay(ds, steps, i, j - 1);
      assert Steps(ds[j - 1], ds[j], steps[j - 1]);
    }
  }

  /** Once a path and a content are purged, no later snapshot of the run names either of them, and
      no manifest that names either is ever restored again. */
  lemma PurgedStaysPurged(ds: seq<Disk>, steps: seq<Step>, i: nat, j: nat)
    requires IsRun(ds, steps) && i < j < |steps|
    requires steps[i].Erase? && steps[j].Snap?
    ensures forall e :: e in steps[j].m.files ==> e.path != steps[i].rel && e.content != steps[i].content
    ensures forall m, e :: Admits(ds[j].tombstones, m) && e in m.files ==> e.path != steps[i].rel && e.content != steps[i].content
  {
    var tomb := Tombstone(steps[i].rel, steps[i].content);
    assert Steps(ds[i], ds[i + 1], steps[i]);
    TombstonesStay(ds, steps, i + 1, j);
    assert tomb in ds[j].tombstones by {
      assert ds[i + 1].tombstones[|ds[i].tombstones|] == tomb;
      assert ds[j].tombstones[|ds[i].tombstones|] == tomb;
    }
    assert Steps(ds[j], ds[j + 1], steps[j]);
    var m, t := steps[j].m, steps[j].t;
    forall e | e in m.files ensures e.path != tomb.path && e.content != tomb.content {
      assert Origin(t, ds[j].tombstones, t.Keys, e);
    }
    forall m, e | Admits(ds[j].tombstones, m) && e in m.files ensures e.path != tomb.path && e.content != tomb.content {
      assert !Purged(ds[j].tombstones, e);
    }
  }

  /** A purge buries one content.  Whatever else the path held before is recorded again under another name,
      exactly as if it had never been there: "a rename is not a resurrection" holds of the buried bytes. */
  lemma OlderBytesReturn(d: Disk, d': Disk, d'': Disk, rel: string, content: Hash, id: Hash, m: Manifest, t: Tree, c: Comps)
    requires Purges(d, d', rel, content)
    requires ProperTree(t) && Snapped(d', d'', id, m, t) && c in t && Tracked(t, c)
    ensures ContentAt(m.files, Join(c)) == Some(HashBytes(t[c])) <==>
              Join(c) != rel && HashBytes(t[c]) != content && !Tombstoned(t, d.tombstones, c)
  {
    var tomb := Tombstone(rel, content);
    assert Tombstoned(t, d'.tombstones, c) <==> Join(c) == rel || HashBytes(t[c]) == content || Tombstoned(t, d.tombstones, c) by {
      assert forall x :: x in d'.tombstones <==> x in d.tombstones || x == tomb;
    }
    if LastAt(m.files, Join(c)).Some? {
      var e := LastAt(m.files, Join(c)).value;
      assert Origin(t, d'.tombstones, t.Keys, e);
      var b :| b in t && Captured(t, d'.tombstones, b) && Join(b) == e.path;
      JoinInjective(b, c);
    }
  }

  /** Chunks are another matter: a chunk that is gone, purged or not, returns with a snapshot exactly when
      the snapshot opens a file that is cut into it, and the new manifest names it exactly when such a file
      is recorded.  A tombstone speaks of a path and a whole content, so a new file that shares a chunk with
      a purged one brings the chunk back. */
  lemma ChunkReturnsIff(d: Disk, d': Disk, id: Hash, m: Manifest, t: Tree, ch: Hash)
    requires ProperTree(t) && Snapped(d, d', id, m, t) && ch !in d.objects
    ensures ch in d'.objects <==> exists c :: c in t && Walked(t, d.tombstones, c) && ch in ChunksOf(t[c])
    ensures (exists e :: e in m.files && ch in e.chunks) <==>
              exists c :: c in t && Captured(t, d.tombstones, c) && ch in ChunksOf(t[c])
  {
    if e :| e in m.files && ch in e.chunks {
      assert Origin(t, d.tombstones, t.Keys, e);
    }
    if c :| c in t && Captured(t, d.tombstones, c) && ch in ChunksOf(t[c]) {
      var e := LastAt(m.files, Join(c)).value;
      assert Origin(t, d.tombstones, t.Keys, e);
      var b :| b in t && Captured(t, d.tombstones, b) && Join(b) == e.path && Describes(e, t[b]);
      JoinInjective(b, c);
    }
  }

  /** A certificate vouches for the tombstone, not for the absence of chunks: it goes on verifying after a
      snapshot, which brings back a chunk the purge removed exactly when it opens a file cut into it. */
  lemma CertOutlivesChunks(d: Disk, d1: Disk, d2: Disk, key: Anchor.Key, cert: Cert, claim: Claim, content: Hash, fabricId: string,
                           id: Hash, m: Manifest, t: Tree, ch: Hash)
    requires Audit.Binding() && Attests(cert, key, claim)
    requires claim.kind == "respawn-purge" && claim.fabricId == fabricId && claim.content == Audit.Hex(content)
    requires Purges(d, d1, claim.path, content) && Doomed(d, claim.path, ch)
    requires ProperTree(t) && Snapped(d1, d2, id, m, t)
    ensures VerifyCert(d2.tombstones, fabricId, cert, Some(Anchor.PublicHex(key))).Ok?
    ensures ch !in d1.objects
    ensures ch in d2.objects <==> exists c :: c in t && Walked(t, d1.tombstones, c) && ch in ChunksOf(t[c])
  {
    CertOutlivesPurge(d, d1, d2.tombstones, key, cert, claim, content, fabricId, Some(Anchor.PublicHex(key)));
    ChunkReturnsIff(d1, d2, id, m, t, ch);
  }

  /** A purge goes by the path string it is given.  Under a name with a superfluous dot it takes the file
      from the tree, and no chunk of it from the store. */
  lemma PurgeByAnotherName(d: Disk, d': Disk, a: string, b: string, content: Hash)
    requires GoodName(a) && GoodName(b) && |Dotted(a, b)| <= MAX_PATH
    requires forall h, e :: Loadable(d, h) && e in Load(d, h).value.files ==> Canonical(e.path)
    requires Purges(d, d', Dotted(a, b), content)
    ensures Sanitize(Dotted(a, b)) == Ok([a, b]) && d'.objects == d.objects
  {
    DottedPath(a, b);
    assert |Join([a, b])| == |Dotted(a, b)| - 2 by { assert [a, b][1..] == [b]; }
    assert forall ch :: !NamedAt(d, Dotted(a, b), ch);
  }
}
