/** What restoring guarantees: exactness, and the way back through the drift gate. */
module RevertTheorems {
  import opened Core
  import opened Paths
  import opened Storage
  import opened Worktrees
  import opened Snapshots
  import opened Drift
  import opened Revert

  /** Outside the excluded names, `after` holds the files of the manifest and nothing else. */
  ghost predicate ExactlyHolds(after: Tree, files: seq<FileEntry>) {
    forall c :: GoodComps(c) && !Excluded(c) ==>
      (c in after <==> LastPlaced(files, c).Some?) &&
      (c in after && LastPlaced(files, c).Some? ==> HashBytes(after[c]) == LastPlaced(files, c).value.content)
  }

  /** Every place the manifest writes is also listed under the name a directory walk prints. */
  ghost predicate ListsItsPlaces(files: seq<FileEntry>) {
    forall e :: e in files && Sanitize(e.path).Ok? && !Excluded(Sanitize(e.path).value) ==>
      Names(files, Join(Sanitize(e.path).value))
  }

  /** A revert without `keep_extra` is exact, precisely when the manifest lists its places under their
      canonical names; `validate` does not ask for that. */
  lemma RevertIsExact(before: Tree, after: Tree, files: seq<FileEntry>)
    requires ProperTree(before) && Applied(before, after, files, false)
    requires forall e :: e in files ==> Sanitize(e.path).Ok?
    ensures ExactlyHolds(after, files) <==> ListsItsPlaces(files)
  {
    if ListsItsPlaces(files) {
      forall c | GoodComps(c) && !Excluded(c)
        ensures c in after <==> LastPlaced(files, c).Some?
        ensures c in after && LastPlaced(files, c).Some? ==> HashBytes(after[c]) == LastPlaced(files, c).value.content
      {
        if c in after {
          assert Spared(files, false, c) && Holds(before, after, files, c);
          var f :| f in files && f.path == Join(c);
          SanitizeJoin(c);
          assert Sanitize(f.path) == Ok(c);
        }
      }
    }
    if ExactlyHolds(after, files) {
      forall e | e in files && Sanitize(e.path).Ok? && !Excluded(Sanitize(e.path).value)
        ensures Names(files, Join(Sanitize(e.path).value))
      {
        var c := Sanitize(e.path).value;
        SanitizeGood(e.path);
        assert LastPlaced(files, c).Some?;
        assert c in after;
        assert Spared(files, false, c);
      }
    }
  }

  function Dotted(a: string, b: string): string {
    a + "/" + ("." + "/" + b)
  }

  /** Manifests that pass `validate` and are lost entirely on revert: they name `b` in `a` with a
      superfluous dot, so the removal pass does not recognise the file just written. */
  lemma DottedPathIsLost(a: string, b: string, h: Hash, after: Tree)
    requires GoodName(a) && GoodName(b) && |Dotted(a, b)| <= MAX_PATH && !Excluded([a, b])
    requires Applied(map[], after, [FileEntry(Dotted(a, b), 0, 0, 0, 0, h, [])], false)
    ensures Acceptable(Manifest(3, None, 0, "", [FileEntry(Dotted(a, b), 0, 0, 0, 0, h, [])], [], None))
    ensures after == map[]
  {
    var e := FileEntry(Dotted(a, b), 0, 0, 0, 0, h, []);
    DottedPath(a, b);
    assert TotalChunks([e]) == 0 by { assert [e][..0] == []; }
    assert |Join([a, b])| == |e.path| - 2 by { assert [a, b][1..] == [b]; }
    assert !Spared([e], false, [a, b]);
    forall c ensures c !in after {
      assert LastPlaced([e], c).Some? ==> c == [a, b];
    }
  }

  lemma DottedPath(a: string, b: string)
    requires GoodName(a) && GoodName(b) && |Dotted(a, b)| <= MAX_PATH
    ensures Sanitize(Dotted(a, b)) == Ok([a, b])
  {
    SplitLast(b);
    SplitPiece(".", b);
    SplitPiece(a, "." + "/" + b);
    assert Split(Dotted(a, b)) == [a] + (["."] + [b]);
    DotIsDropped(a, b);
  }

  lemma DotIsDropped(a: string, b: string)
    requires GoodName(a) && GoodName(b)
    ensures Named([a] + (["."] + [b])) == [a, b]
  {
    var pieces := [a] + (["."] + [b]);
    assert pieces[1..] == ["."] + [b] && (["."] + [b])[1..] == [b] && [b][1..] == [];
    assert Named([b]) == [b] + Named([]);
  }

  /** A manifest as `create` makes them: one entry a path, canonical names, none excluded. */
  ghost predicate CreateShaped(files: seq<FileEntry>) {
    && DistinctPaths(files)
    && forall e :: e in files ==> Canonical(e.path) && !Excluded(Sanitize(e.path).value)
  }

  lemma ShapedLookup(files: seq<FileEntry>, c: Comps)
    requires CreateShaped(files) && GoodComps(c)
    ensures LastPlaced(files, c) == LastAt(files, Join(c))
  {
    SanitizeJoin(c);
    var e := LastPlaced(files, c);
    if e.Some? {
      assert Canonical(e.value.path);
      LastAtDistinct(files, e.value);
    } else if LastAt(files, Join(c)).Some? {
      var f := LastAt(files, Join(c)).value;
      assert Canonical(f.path);
      CanonicalPlace(f.path, c);
    }
  }

  lemma CanonicalPlace(p: string, c: Comps)
    requires Canonical(p) && GoodComps(c) && p == Join(c)
    ensures Sanitize(p) == Ok(c)
  {
    SanitizeGood(p);
    JoinInjective(Sanitize(p).value, c);
  }

  lemma ManifestsAreShaped(m: Manifest, t: Tree, tombstones: seq<Tombstone>)
    requires ProperTree(t) && RecordsTree(m, t, tombstones)
    ensures CreateShaped(m.files)
  {
    forall e | e in m.files ensures Canonical(e.path) && !Excluded(Sanitize(e.path).value) {
      assert Origin(t, tombstones, t.Keys, e);
      var c :| c in t && Captured(t, tombstones, c) && Join(c) == e.path;
      assert AcceptableEntry(e);
      SanitizeJoin(c);
    }
  }

  /** No file is skipped because of a `.fabricignore`. */
  ghost predicate NothingIgnored(t: Tree)
    requires ProperTree(t)
  {
    forall c :: c in t && !Excluded(c) ==> !Ignored(t, Join(c))
  }

  /** Every excluded place that `files` writes holds the content already. */
  ghost predicate KeepsExcluded(t: Tree, files: seq<FileEntry>) {
    forall e :: e in files && Sanitize(e.path).Ok? && Excluded(Sanitize(e.path).value) ==>
      KeepsExcludedAt(t, files, Sanitize(e.path).value)
  }

  predicate KeepsExcludedAt(t: Tree, files: seq<FileEntry>, c: Comps) {
    LastPlaced(files, c).Some? ==> c in t && HashBytes(t[c]) == LastPlaced(files, c).value.content
  }

  /** The gate makes unforced reverts reversible: if the tree was clean against `head`, then after any
      successful revert a successful revert to `head` brings every original byte back, exactly when no
      file was ignored and the first revert left the excluded places alone.  Drift detection overlooks
      ignored and excluded files; the removal pass takes the one, and a manifest may write the other. */
  lemma UnforcedRevertIsReversible(t0: Tree, t1: Tree, t2: Tree, head: seq<FileEntry>, target: seq<FileEntry>, keepExtra: bool)
    requires CollisionFree()
    requires ProperTree(t0) && ProperTree(t1)
    requires Clean(t0, head) && forall e :: e in head ==> Sanitize(e.path).Ok?
    requires Applied(t0, t1, target, keepExtra)
    requires Applied(t1, t2, head, false)
    ensures t2 == t0 <==> NothingIgnored(t0) && KeepsExcluded(t0, target)
  {
    forall c ensures SameAt(t2, t0, c) <==> BackCondition(t0, target, c) {
      BackAt(t0, t1, t2, head, target, keepExtra, c);
    }
    BackEverywhere(t0, t2, target);
  }

  /** From a clean tree there is always a way back: whatever was applied, HEAD fits over it, and nothing but
      a content that is neither in place nor can be rebuilt keeps HEAD from being restored. */
  lemma WayBackFits(t0: Tree, t1: Tree, head: seq<FileEntry>, target: seq<FileEntry>, keepExtra: bool, objects: map<Hash, Bytes>)
    requires ProperTree(t0) && ProperTree(t1)
    requires Clean(t0, head) && forall e :: e in head ==> Sanitize(e.path).Ok?
    requires Fits(t0, target) && Applied(t0, t1, target, keepExtra)
    ensures Fits(t1, head)
    ensures CanRestore(objects, t1, head) <==> forall n: nat :: n < |head| ==> InPlaceOrRestores(objects, t1, head, n)
  {
    forall c | Occupied(t1, head, c) ensures Occupied(t0, target, c) {
      if LastPlaced(head, c).Some? {
        SanitizeGood(LastPlaced(head, c).value.path);
        CleanHeadAt(t0, head, c);
      }
    }
    forall n: nat | n < |head| ensures EndsInName(head[n].path) {
      CleanPathIsCanonical(t0, head, head[n]);
    }
    forall n: nat | n < |head| ensures Available(objects, t1, head, n) <==> InPlaceOrRestores(objects, t1, head, n) {
      assert head[n] in head;
    }
  }

  predicate InPlace(t: Tree, files: seq<FileEntry>, n: nat)
    requires n < |files| && Sanitize(files[n].path).Ok?
  {
    HashThere(t, files[..n], Sanitize(files[n].path).value) == Some(files[n].content)
  }

  /** The content of entry `n` is there when its turn comes, or can be rebuilt. */
  ghost predicate InPlaceOrRestores(objects: map<Hash, Bytes>, t: Tree, files: seq<FileEntry>, n: nat)
    requires n < |files| && forall e :: e in files ==> Sanitize(e.path).Ok?
  {
    InPlace(t, files, n) || Restores(objects, files[n])
  }

  lemma CleanPathIsCanonical(t0: Tree, head: seq<FileEntry>, e: FileEntry)
    requires ProperTree(t0) && Clean(t0, head) && e in head
    ensures EndsInName(e.path)
  {
    assert Live(t0, e.path) == ContentAt(head, e.path);
    var c :| c in t0 && Tracked(t0, c) && Join(c) == e.path;
    JoinEndsInName(c);
  }

  lemma BackEverywhere(t0: Tree, t2: Tree, target: seq<FileEntry>)
    requires ProperTree(t0) && forall c :: SameAt(t2, t0, c) <==> BackCondition(t0, target, c)
    ensures t2 == t0 <==> NothingIgnored(t0) && KeepsExcluded(t0, target)
  {
    if NothingIgnored(t0) && KeepsExcluded(t0, target) {
      forall c ensures SameAt(t2, t0, c) {
        assert BackCondition(t0, target, c);
      }
      SameLookups(t2, t0);
    }
    if t2 == t0 {
      forall c ensures BackCondition(t0, target, c) { assert SameAt(t2, t0, c); }
      forall e | e in target && Sanitize(e.path).Ok? && Excluded(Sanitize(e.path).value)
        ensures KeepsExcludedAt(t0, target, Sanitize(e.path).value)
      {
        assert BackCondition(t0, target, Sanitize(e.path).value);
      }
      forall c | c in t0 && !Excluded(c) ensures !Ignored(t0, Join(c)) {
        assert BackCondition(t0, target, c);
      }
    }
  }

  ghost predicate BackCondition(t0: Tree, target: seq<FileEntry>, c: Comps)
    requires ProperTree(t0)
  {
    if Excluded(c) then KeepsExcludedAt(t0, target, c) else c in t0 ==> !Ignored(t0, Join(c))
  }

  lemma SameLookups(a: Tree, b: Tree)
    requires forall c :: SameAt(a, b, c)
    ensures a == b
  {
    forall c ensures c in a <==> c in b {
      assert SameAt(a, b, c);
    }
    forall c | c in a ensures a[c] == b[c] {
      assert SameAt(a, b, c);
    }
  }

  /** A clean tree's HEAD names what a walk finds, under the names a walk prints. */
  lemma CleanHeadAt(t0: Tree, head: seq<FileEntry>, c: Comps)
    requires ProperTree(t0) && Clean(t0, head) && forall e :: e in head ==> Sanitize(e.path).Ok?
    requires GoodComps(c)
    ensures LastPlaced(head, c).Some? <==> c in t0 && Tracked(t0, c)
    ensures Names(head, Join(c)) <==> c in t0 && Tracked(t0, c)
    ensures LastPlaced(head, c).Some? ==> LastPlaced(head, c).value.content == HashBytes(t0[c])
  {
    forall e | e in head ensures Found(t0, e.path) && ContentAt(head, e.path) == Live(t0, e.path) {
      assert Live(t0, e.path) == ContentAt(head, e.path);
    }
    PlacedIsLast(t0, head, c);
    if c in t0 && Tracked(t0, c) {
      LiveAt(t0, c);
      assert LastAt(head, Join(c)).Some?;
    }
    if Names(head, Join(c)) {
      var e :| e in head && e.path == Join(c);
      var d :| d in t0 && Tracked(t0, d) && Join(d) == e.path;
      JoinInjective(c, d);
    }
  }

  ghost predicate Found(t0: Tree, p: string)
    requires ProperTree(t0)
  {
    exists d :: d in t0 && Tracked(t0, d) && Join(d) == p
  }

  lemma {:induction false} PlacedIsLast(t0: Tree, head: seq<FileEntry>, c: Comps)
    requires ProperTree(t0) && GoodComps(c)
    requires forall e :: e in head ==> Sanitize(e.path).Ok? && Found(t0, e.path)
    ensures LastPlaced(head, c) == LastAt(head, Join(c))
  {
    if head != [] {
      var init, last := head[..|head| - 1], head[|head| - 1];
      assert last in head;
      PlacedIsLast(t0, init, c);
      var d :| d in t0 && Tracked(t0, d) && Join(d) == last.path;
      SanitizeJoin(d);
      assert last.path == Join(c) ==> d == c by { if last.path == Join(c) { JoinInjective(c, d); } }
    }
  }

  /** Back where it started, place by place. */
  lemma BackAt(t0: Tree, t1: Tree, t2: Tree, head: seq<FileEntry>, target: seq<FileEntry>, keepExtra: bool, c: Comps)
    requires CollisionFree()
    requires ProperTree(t0) && ProperTree(t1)
    requires Clean(t0, head) && forall e :: e in head ==> Sanitize(e.path).Ok?
    requires Applied(t0, t1, target, keepExtra)
    requires Applied(t1, t2, head, false)
    ensures SameAt(t2, t0, c) <==> BackCondition(t0, target, c)
  {
    if LastPlaced(target, c).Some? { SanitizeGood(LastPlaced(target, c).value.path); }
    if LastPlaced(head, c).Some? { SanitizeGood(LastPlaced(head, c).value.path); }
    if c in t0 || c in t1 || c in t2 || LastPlaced(target, c).Some? {
      assert GoodComps(c);
      CleanHeadAt(t0, head, c);
      if Excluded(c) {
        BackAtExcluded(t0, t1, t2, head, target, keepExtra, c);
      } else {
        BackAtOrdinary(t0, t1, t2, head, c);
      }
    }
  }

  lemma BackAtExcluded(t0: Tree, t1: Tree, t2: Tree, head: seq<FileEntry>, target: seq<FileEntry>, keepExtra: bool, c: Comps)
    requires CollisionFree()
    requires ProperTree(t0) && ProperTree(t1) && GoodComps(c) && Excluded(c) && LastPlaced(head, c).None?
    requires Applied(t0, t1, target, keepExtra)
    requires Applied(t1, t2, head, false)
    ensures SameAt(t2, t0, c) <==> KeepsExcludedAt(t0, target, c)
  {
    assert c in t1 <==> c in t0 || LastPlaced(target, c).Some?;
    assert c in t2 <==> c in t1;
    if c in t1 { assert Holds(t0, t1, target, c) && Holds(t1, t2, head, c); }
  }

  lemma BackAtOrdinary(t0: Tree, t1: Tree, t2: Tree, head: seq<FileEntry>, c: Comps)
    requires CollisionFree()
    requires ProperTree(t0) && ProperTree(t1) && GoodComps(c) && !Excluded(c)
    requires LastPlaced(head, c).Some? <==> c in t0 && Tracked(t0, c)
    requires Names(head, Join(c)) <==> c in t0 && Tracked(t0, c)
    requires LastPlaced(head, c).Some? ==> LastPlaced(head, c).value.content == HashBytes(t0[c])
    requires Applied(t1, t2, head, false)
    ensures SameAt(t2, t0, c) <==> (c in t0 ==> !Ignored(t0, Join(c)))
  {
    assert Spared(head, false, c) <==> Names(head, Join(c));
    if c in t2 { assert Holds(t1, t2, head, c); }
  }

  // ---------------------------------------------------------------------------------------------
  // The store under a revert
  // ---------------------------------------------------------------------------------------------

  /** A revert leaves the files of the fabric directory alone, exactly when every entry placed there says
      what is there already.  `validate` admits such entries, HEAD and objects included. */
  lemma FabricLeftAlone(before: Tree, after: Tree, files: seq<FileEntry>, keepExtra: bool)
    requires CollisionFree() && ProperTree(before) && Applied(before, after, files, keepExtra)
    ensures SameFabric(before, after) <==>
              forall e :: e in files && PlacedInFabric(e) ==> KeepsExcludedAt(before, files, Sanitize(e.path).value)
    ensures !WritesFabric(files) ==> SameFabric(before, after)
  {
    forall c | InFabric(c) ensures SameAt(after, before, c) <==> KeepsExcludedAt(before, files, c) {
      assert Excluded(c);
      if c in after { assert Holds(before, after, files, c); }
    }
    if SameFabric(before, after) {
      forall e | e in files && PlacedInFabric(e) ensures KeepsExcludedAt(before, files, Sanitize(e.path).value) {
        assert SameAt(after, before, Sanitize(e.path).value);
      }
    }
  }

  /** Manifests that name a file of the store itself, such as its HEAD, pass `validate`. */
  lemma FabricPathsAreAdmitted(name: string, h: Hash)
    requires GoodName(name) && |Join([FABRIC_DIR, name])| <= MAX_PATH
    ensures var e := FileEntry(Join([FABRIC_DIR, name]), 0, 0, 0, 0, h, []);
      Acceptable(Manifest(3, None, 0, "", [e], [], None)) && WritesFabric([e])
  {
    var c := [FABRIC_DIR, name];
    var e := FileEntry(Join(c), 0, 0, 0, 0, h, []);
    SanitizeJoin(c);
    assert TotalChunks([e]) == 0 by { assert [e][..0] == []; }
    assert PlacedInFabric(e);
  }

  /** Manifests that name a place with "/" or "/." behind it pass `validate`, and nothing can apply them. */
  lemma SlashedPathIsNeverWritten(c: Comps, last: string, h: Hash)
    requires GoodComps(c) && (last == "" || last == ".") && |Join(c)| + 1 + |last| <= MAX_PATH
    ensures var e := FileEntry(Join(c) + ("/" + last), 0, 0, 0, 0, h, []);
      && Acceptable(Manifest(3, None, 0, "", [e], [], None)) && Sanitize(e.path) == Ok(c)
      && forall objects, t :: !CanRestore(objects, t, [e])
  {
    var e := FileEntry(Join(c) + ("/" + last), 0, 0, 0, 0, h, []);
    SlashedPath(c, last);
    assert TotalChunks([e]) == 0 by { assert [e][..0] == []; }
    forall objects, t ensures !CanRestore(objects, t, [e]) {
      assert !Available(objects, t, [e], 0);
    }
  }

  /** A snapshot within the size caps can be restored over the tree it was taken of. */
  lemma SnapshotIsRestorable(m: Manifest, t: Tree, tombstones: seq<Tombstone>, objects: map<Hash, Bytes>)
    requires ProperTree(t) && RecordsTree(m, t, tombstones)
    requires forall e :: e in m.files ==> Restores(objects, e)
    requires |m.files| <= MAX_MANIFEST_FILES && TotalChunks(m.files) <= MAX_MANIFEST_CHUNKS
    ensures Admits(tombstones, m) && CanRestore(objects, t, m.files) && !WritesFabric(m.files)
  {
    forall e | e in m.files
      ensures !Purged(tombstones, e) && SettledIn(t, e) && !PlacedInFabric(e)
    {
      SnapshotPlace(m, t, tombstones, e);
    }
    forall c | Occupied(t, m.files, c) ensures c in t {
    }
    forall n: nat | n < |m.files| ensures Available(objects, t, m.files, n) {
      assert SettledIn(t, m.files[n]) && Restores(objects, m.files[n]);
    }
  }

  /** The entry's path is a file's of `t`. */
  predicate SettledIn(t: Tree, e: FileEntry) {
    Sanitize(e.path).Ok? && EndsInName(e.path) && Sanitize(e.path).value in t
  }

  lemma SnapshotPlace(m: Manifest, t: Tree, tombstones: seq<Tombstone>, e: FileEntry)
    requires ProperTree(t) && RecordsTree(m, t, tombstones) && e in m.files
    ensures SettledIn(t, e) && Captured(t, tombstones, Sanitize(e.path).value)
    ensures !Purged(tombstones, e) && !PlacedInFabric(e) && e.content == HashBytes(t[Sanitize(e.path).value])
  {
    assert Origin(t, tombstones, t.Keys, e);
    var c :| c in t && Captured(t, tombstones, c) && Join(c) == e.path && Describes(e, t[c]);
    assert AcceptableEntry(e);
    SanitizeJoin(c);
    JoinEndsInName(c);
  }
}
