/** Materializing a manifest into the worktree (`revert.rs`). */
module Revert {
  import opened Core
  import opened Paths
  import opened Storage
  import opened Worktrees
  import opened Snapshots
  import opened Drift

  datatype RevertReport = RevertReport(restored: seq<string>, removed: seq<string>)

  // ---------------------------------------------------------------------------------------------
  // What apply promises
  // ---------------------------------------------------------------------------------------------

  /** The last entry of `files` that lands on `c`. */
  function LastPlaced(files: seq<FileEntry>, c: Comps): (e: Option<FileEntry>)
    ensures e.Some? ==> e.value in files && Sanitize(e.value.path) == Ok(c)
    ensures e.None? ==> forall f :: f in files ==> Sanitize(f.path) != Ok(c)
  {
    if files == [] then None
    else
      var last := files[|files| - 1];
      if Sanitize(last.path) == Ok(c) then Some(last) else LastPlaced(files[..|files| - 1], c)
  }

  ghost predicate Names(files: seq<FileEntry>, p: string) { exists e :: e in files && e.path == p }

  /** The removal pass leaves `c` alone. */
  ghost predicate Spared(files: seq<FileEntry>, keepExtra: bool, c: Comps)
    requires c != []
  {
    keepExtra || Excluded(c) || Names(files, Join(c))
  }

  /** The tree `after` is `before` overridden by `files`, less what the removal pass takes. */
  ghost predicate Applied(before: Tree, after: Tree, files: seq<FileEntry>, keepExtra: bool)
    requires ProperTree(before)
  {
    && (forall c :: c in after <==> (c in before || LastPlaced(files, c).Some?) && c != [] && Spared(files, keepExtra, c))
    && (forall c :: c in after ==> Holds(before, after, files, c))
  }

  /** What `after` holds at `c`: the bytes the manifest names there, or else what was there before. */
  ghost predicate Holds(before: Tree, after: Tree, files: seq<FileEntry>, c: Comps)
    requires c in after
  {
    match LastPlaced(files, c)
    case Some(e) => HashBytes(after[c]) == e.content
    case None => c in before && after[c] == before[c]
  }

  /** A tree seen at a crash point: each file is untouched, or one of the manifest's, or was removed
      by the removal pass.  Nothing is half written. */
  ghost predicate Torn(before: Tree, now: Tree, files: seq<FileEntry>, keepExtra: bool)
    requires ProperTree(before)
  {
    && (forall c :: c in now ==>
          (c in before && now[c] == before[c]) || exists e :: e in files && Sanitize(e.path) == Ok(c) && HashBytes(now[c]) == e.content)
    && (forall c :: c in before && c !in now ==> !Spared(files, keepExtra, c))
  }

  ghost predicate AllTorn(before: Tree, trail: seq<Tree>, n: nat, files: seq<FileEntry>, keepExtra: bool)
    requires ProperTree(before)
  {
    forall i :: n <= i < |trail| ==> Torn(before, trail[i], files, keepExtra)
  }

  /** No file among the old ones and the manifest's is an ancestor of another. */
  ghost predicate Fits(before: Tree, files: seq<FileEntry>) {
    forall c, d :: Occupied(before, files, c) && Occupied(before, files, d) ==> !ProperPrefix(c, d)
  }

  ghost predicate Occupied(before: Tree, files: seq<FileEntry>, c: Comps) {
    c in before || LastPlaced(files, c).Some?
  }

  ghost predicate Purged(tombstones: seq<Tombstone>, f: FileEntry) {
    PathPurged(tombstones, f.path) || ContentPurged(tombstones, f.content)
  }

  // ---------------------------------------------------------------------------------------------
  // Writing the manifest's files
  // ---------------------------------------------------------------------------------------------

  /** `resolve_dest`: the place a manifest path denotes, refused when an ancestor is a file. */
  function ResolveDest(t: Tree, rel: string): (r: Result<Comps>)
    ensures r.Ok? ==> Sanitize(rel) == r && !Blocked(t, r.value)
  {
    var c :- Sanitize(rel);
    if Blocked(t, c) then Err(UnsafePath) else Ok(c)
  }

  ghost predicate PlacedInFabric(e: FileEntry) { Sanitize(e.path).Ok? && InFabric(Sanitize(e.path).value) }

  /** Applying `files` may write over the store's own files. */
  ghost predicate WritesFabric(files: seq<FileEntry>) { exists e :: e in files && PlacedInFabric(e) }

  /** The file of `fe` in `t` has the content already. */
  predicate Matches(t: Tree, fe: FileEntry)
    requires Sanitize(fe.path).Ok?
  {
    Sanitize(fe.path).value in t && HashBytes(t[Sanitize(fe.path).value]) == fe.content
  }

  /** What it takes to bring one file to the manifest's content. */
  ghost predicate Materializes(objects: map<Hash, Bytes>, t: Tree, fe: FileEntry) {
    && Sanitize(fe.path).Ok? && EndsInName(fe.path)
    && !Blocked(t, Sanitize(fe.path).value)
    && (Matches(t, fe) || (Restores(objects, fe) && !IsDirectory(t, Sanitize(fe.path).value)))
  }

  method ReadChunks(objects: map<Hash, Bytes>, chunks: seq<Hash>) returns (r: Result<Bytes>)
    ensures r == Assemble(objects, chunks)
  {
    var data: Bytes := [];
    for n := 0 to |chunks|
      invariant Assemble(objects, chunks[..n]) == Ok(data)
    {
      assert chunks[..n + 1][..n] == chunks[..n];
      var piece := ReadObject(objects, chunks[n]);
      if piece.Err? {
        AssembleStops(objects, chunks, n + 1);
        return Err(piece.error);
      }
      data := data + piece.value;
    }
    assert chunks[..|chunks|] == chunks;
    return Ok(data);
  }

  lemma {:induction false} AssembleStops(objects: map<Hash, Bytes>, chunks: seq<Hash>, n: nat)
    requires n <= |chunks| && Assemble(objects, chunks[..n]).Err?
    ensures Assemble(objects, chunks) == Assemble(objects, chunks[..n])
  {
    if n == |chunks| {
      assert chunks[..n] == chunks;
    } else {
      assert chunks[..|chunks| - 1][..n] == chunks[..n];
      AssembleStops(objects, chunks[..|chunks| - 1], n);
    }
  }

  /** Bring one file to the manifest's content, unless it has it already.  A path that cannot be a file's
      never matches and cannot be renamed to.  A rename inside the fabric directory replaces a file of the
      store's. */
  method RestoreOne(store: Store, tree: Worktree, fe: FileEntry) returns (r: Result<bool>)
    requires store.Valid() && tree.Valid()
    modifies store, tree
    ensures store.Valid() && tree.Valid()
    ensures !PlacedInFabric(fe) ==> store.Now() == old(store.Now()) && store.trail == old(store.trail)
    ensures tree.trail == old(tree.trail) || tree.trail == old(tree.trail) + [tree.files]
    ensures r.Err? ==> tree.files == old(tree.files)
    ensures r.Ok? ==> Sanitize(fe.path).Ok?
    ensures r.Ok? ==> var c := Sanitize(fe.path).value;
                      && c in tree.files && HashBytes(tree.files[c]) == fe.content
                      && tree.files == old(tree.files)[c := tree.files[c]]
                      && (r.value <==> !Matches(old(tree.files), fe))
                      && (!r.value ==> tree.files == old(tree.files))
    ensures r.Ok? ==> Materializes(old(store.objects), old(tree.files), fe)
    ensures !tree.faulty && Materializes(old(store.objects), old(tree.files), fe) ==> r.Ok?
  {
    var dest :- ResolveDest(tree.files, fe.path);
    SanitizeGood(fe.path);
    if EndsInName(fe.path) && dest in tree.files && HashBytes(tree.files[dest]) == fe.content {
      assert tree.files == tree.files[dest := tree.files[dest]];
      return Ok(false);
    }
    var data :- ReadChunks(store.objects, fe.chunks);
    if HashBytes(data) != fe.content {
      return Err(Corrupt);
    }
    if !EndsInName(fe.path) {
      return Err(Io);
    }
    var moved :- tree.Replace(dest, data);
    if dest[0] == FABRIC_DIR {
      store.Clobber();
    }
    return Ok(true);
  }

  lemma LastPlacedAppend(files: seq<FileEntry>, e: FileEntry, c: Comps)
    ensures LastPlaced(files + [e], c) == if Sanitize(e.path) == Ok(c) then Some(e) else LastPlaced(files, c)
  {
    assert (files + [e])[..|files|] == files;
  }

  /** After the first `n` entries: the old tree overridden by them. */
  ghost predicate Overridden(before: Tree, now: Tree, files: seq<FileEntry>) {
    && (forall c :: c in now <==> Occupied(before, files, c))
    && (forall c :: c in now ==> Holds(before, now, files, c))
  }

  lemma OverriddenStep(before: Tree, now: Tree, now': Tree, files: seq<FileEntry>, fe: FileEntry)
    requires Overridden(before, now, files)
    requires Sanitize(fe.path).Ok?
    requires var c := Sanitize(fe.path).value;
             c in now' && HashBytes(now'[c]) == fe.content && now' == now[c := now'[c]]
    ensures Overridden(before, now', files + [fe])
  {
    forall c ensures c in now' <==> Occupied(before, files + [fe], c) {
      LastPlacedAppend(files, fe, c);
      assert c in now <==> Occupied(before, files, c);
    }
    forall c | c in now' ensures Holds(before, now', files + [fe], c) {
      LastPlacedAppend(files, fe, c);
      if Sanitize(fe.path) != Ok(c) { assert Holds(before, now, files, c); }
    }
  }

  lemma OverriddenTorn(before: Tree, now: Tree, files: seq<FileEntry>, all: seq<FileEntry>, keepExtra: bool)
    requires ProperTree(before) && Overridden(before, now, files)
    requires forall e :: e in files ==> e in all
    ensures Torn(before, now, all, keepExtra)
  {
    forall c | c in now
      ensures (c in before && now[c] == before[c]) || exists e :: e in all && Sanitize(e.path) == Ok(c) && HashBytes(now[c]) == e.content
    {
      assert Holds(before, now, files, c);
    }
    forall c | c in before ensures c in now { assert Occupied(before, files, c); }
  }

  lemma TornTrail(before: Tree, trail: seq<Tree>, trail': seq<Tree>, now: Tree, n: nat, files: seq<FileEntry>, keepExtra: bool)
    requires ProperTree(before) && n <= |trail|
    requires AllTorn(before, trail, n, files, keepExtra) && Torn(before, now, files, keepExtra)
    requires trail' == trail || trail' == trail + [now]
    ensures AllTorn(before, trail', n, files, keepExtra)
  {
  }

  /** The content hash at `c` once `files` are in place. */
  function HashThere(before: Tree, files: seq<FileEntry>, c: Comps): Option<Hash> {
    match LastPlaced(files, c)
    case Some(e) => Some(e.content)
    case None => if c in before then Some(HashBytes(before[c])) else None
  }

  /** When its turn comes, entry `n` is in place already or can be rebuilt from its chunks. */
  ghost predicate Available(objects: map<Hash, Bytes>, before: Tree, files: seq<FileEntry>, n: nat)
    requires n < |files|
  {
    && Sanitize(files[n].path).Ok? && EndsInName(files[n].path)
    && (HashThere(before, files[..n], Sanitize(files[n].path).value) == Some(files[n].content) || Restores(objects, files[n]))
  }

  /** What it takes to materialize `files` over `before`. */
  ghost predicate CanRestore(objects: map<Hash, Bytes>, before: Tree, files: seq<FileEntry>) {
    Fits(before, files) && forall n: nat :: n < |files| ==> Available(objects, before, files, n)
  }

  /** The first `n` entries were available in their turn. */
  ghost predicate AvailableUpTo(objects: map<Hash, Bytes>, before: Tree, files: seq<FileEntry>, n: nat)
    requires n <= |files|
  {
    n == 0 || (AvailableUpTo(objects, before, files, n - 1) && Available(objects, before, files, n - 1))
  }

  lemma {:induction false} AllAvailable(objects: map<Hash, Bytes>, before: Tree, files: seq<FileEntry>, n: nat)
    requires n <= |files|
    ensures AvailableUpTo(objects, before, files, n) ==> forall k: nat :: k < n ==> Available(objects, before, files, k)
  {
    if n > 0 && AvailableUpTo(objects, before, files, n) {
      AllAvailable(objects, before, files, n - 1);
    }
  }

  lemma HashThereNow(before: Tree, now: Tree, files: seq<FileEntry>, c: Comps)
    requires Overridden(before, now, files)
    ensures HashThere(before, files, c) == if c in now then Some(HashBytes(now[c])) else None
  {
    assert c in now <==> Occupied(before, files, c);
    assert c in now ==> Holds(before, now, files, c);
  }

  lemma NextAvailable(objects: map<Hash, Bytes>, before: Tree, now: Tree, files: seq<FileEntry>, n: nat)
    requires n < |files| && Overridden(before, now, files[..n])
    ensures Materializes(objects, now, files[n]) ==> Available(objects, before, files, n)
    ensures Available(objects, before, files, n) && Fits(before, files) ==> Materializes(objects, now, files[n])
  {
    if Sanitize(files[n].path).Ok? {
      HashThereNow(before, now, files[..n], Sanitize(files[n].path).value);
      if Fits(before, files) {
        RoomFor(before, now, files, n);
      }
    }
  }

  /** Whatever was materialized did fit. */
  lemma OverriddenFits(before: Tree, now: Tree, files: seq<FileEntry>)
    requires Overridden(before, now, files) && ProperTree(now)
    ensures Fits(before, files)
  {
    forall c, d | Occupied(before, files, c) && Occupied(before, files, d) ensures !ProperPrefix(c, d) {
      assert c in now && d in now;
    }
  }

  method RestoreNext(store: Store, tree: Worktree, files: seq<FileEntry>, n: nat, keepExtra: bool, ghost before: Tree)
    returns (r: Result<bool>)
    requires store.Valid() && tree.Valid()
    requires n < |files| && ProperTree(before) && Overridden(before, tree.files, files[..n])
    modifies store, tree
    ensures store.Valid() && tree.Valid()
    ensures !WritesFabric(files) ==> store.Now() == old(store.Now()) && store.trail == old(store.trail)
    ensures tree.trail == old(tree.trail) || tree.trail == old(tree.trail) + [tree.files]
    ensures Torn(before, tree.files, files, keepExtra)
    ensures r.Ok? ==> Overridden(before, tree.files, files[..n + 1]) && Sanitize(files[n].path).Ok? && EndsInName(files[n].path)
    ensures r.Ok? ==> var c := Sanitize(files[n].path).value;
                      && c in tree.files && tree.files == old(tree.files)[c := tree.files[c]]
                      && (!r.value ==> tree.files == old(tree.files))
    ensures r.Ok? ==> Available(old(store.objects), before, files, n)
    ensures !tree.faulty && Available(old(store.objects), before, files, n) && Fits(before, files) ==> r.Ok?
  {
    var fe := files[n];
    ghost var now := tree.files;
    NextAvailable(store.objects, before, now, files, n);
    r := RestoreOne(store, tree, fe);
    if r.Ok? {
      OverriddenStep(before, now, tree.files, files[..n], fe);
      TakeOneMore(files, n);
      OverriddenTorn(before, tree.files, files[..n + 1], files, keepExtra);
    } else {
      OverriddenTorn(before, now, files[..n], files, keepExtra);
    }
  }

  /** One of the paths denotes `c`. */
  predicate Reported(paths: seq<string>, c: Comps) { exists p :: p in paths && Sanitize(p) == Ok(c) }

  /** `restored` lists paths of the manifest, among them the path of every file that was rewritten. */
  ghost predicate ListsRestored(before: Tree, now: Tree, files: seq<FileEntry>, restored: seq<string>) {
    && (forall p :: p in restored ==> Names(files, p))
    && (forall c :: c in now && (c !in before || now[c] != before[c]) ==> Reported(restored, c))
  }

  lemma RestoredOneMore(before: Tree, was: Tree, now: Tree, files: seq<FileEntry>, restored: seq<string>, fe: FileEntry, written: bool)
    requires ListsRestored(before, was, files, restored) && fe in files && Sanitize(fe.path).Ok?
    requires var c := Sanitize(fe.path).value; c in now && now == was[c := now[c]] && (!written ==> now == was)
    ensures ListsRestored(before, now, files, if written then restored + [fe.path] else restored)
  {
    if written {
      var longer := restored + [fe.path];
      assert Names(files, fe.path);
      forall c | c in now && (c !in before || now[c] != before[c]) ensures Reported(longer, c) {
        if Sanitize(fe.path) == Ok(c) {
          assert fe.path in longer;
        } else {
          assert Reported(restored, c);
          var p :| p in restored && Sanitize(p) == Ok(c);
          assert p in longer;
        }
      }
    }
  }

  /** The next entry, with the report so far. */
  method RestoreStep(store: Store, tree: Worktree, files: seq<FileEntry>, n: nat, keepExtra: bool, restored: seq<string>,
                     ghost before: Tree, ghost done: seq<FileEntry>, ghost start: nat)
    returns (r: Result<seq<string>>)
    requires store.Valid() && tree.Valid() && start <= |tree.trail|
    requires n < |files| && done == files[..n] && ProperTree(before) && Overridden(before, tree.files, done)
    requires AllTorn(before, tree.trail, start, files, keepExtra) && ListsRestored(before, tree.files, files, restored)
    modifies store, tree
    ensures store.Valid() && tree.Valid() && old(tree.trail) <= tree.trail
    ensures !WritesFabric(files) ==> store.Now() == old(store.Now()) && store.trail == old(store.trail)
    ensures AllTorn(before, tree.trail, start, files, keepExtra) && Torn(before, tree.files, files, keepExtra)
    ensures r.Ok? ==> Overridden(before, tree.files, done + [files[n]]) && ListsRestored(before, tree.files, files, r.value)
    ensures r.Ok? ==> EndsInName(files[n].path)
    ensures r.Ok? && AvailableUpTo(old(store.objects), before, files, n) ==> AvailableUpTo(old(store.objects), before, files, n + 1)
    ensures !tree.faulty && CanRestore(old(store.objects), before, files) ==> r.Ok?
  {
    ghost var was, wasFiles := tree.trail, tree.files;
    TakeOneMore(files, n);
    var written := RestoreNext(store, tree, files, n, keepExtra, before);
    TornTrail(before, was, tree.trail, tree.files, start, files, keepExtra);
    if written.Err? {
      return Err(written.error);
    }
    RestoredOneMore(before, wasFiles, tree.files, files, restored, files[n], written.value);
    return Ok(if written.value then restored + [files[n].path] else restored);
  }

  /** Every path of the manifest can be a file's. */
  predicate AllEndInNames(files: seq<FileEntry>) { forall e :: e in files ==> EndsInName(e.path) }

  /** All entries in turn. */
  method RestoreEach(store: Store, tree: Worktree, files: seq<FileEntry>, keepExtra: bool, ghost before: Tree, ghost d: Disk, ghost start: nat)
    returns (r: Result<seq<string>>, ghost done: seq<FileEntry>)
    requires store.Valid() && tree.Valid() && tree.files == before && store.Now() == d && start == |tree.trail|
    modifies store, tree
    ensures store.Valid() && tree.Valid() && old(tree.trail) <= tree.trail
    ensures !WritesFabric(files) ==> store.Now() == d && store.trail == old(store.trail)
    ensures AllTorn(before, tree.trail, start, files, keepExtra)
    ensures r.Ok? ==> done == files[..|files|] && Overridden(before, tree.files, done) && ListsRestored(before, tree.files, files, r.value)
    ensures r.Ok? ==> AllEndInNames(done)
    ensures r.Ok? && !WritesFabric(files) ==> AvailableUpTo(d.objects, before, files, |files|)
    ensures !WritesFabric(files) && !tree.faulty && CanRestore(d.objects, before, files) ==> r.Ok?
  {
    ghost var storeTrail := store.trail;
    done := [];
    var restored: seq<string> := [];
    for n := 0 to |files|
      invariant store.Valid() && tree.Valid() && old(tree.trail) <= tree.trail
      invariant !WritesFabric(files) ==> store.Now() == d && store.trail == storeTrail
      invariant !WritesFabric(files) ==> AvailableUpTo(d.objects, before, files, n)
      invariant AllTorn(before, tree.trail, start, files, keepExtra)
      invariant done == files[..n] && Overridden(before, tree.files, done) && AllEndInNames(done)
      invariant ListsRestored(before, tree.files, files, restored)
    {
      restored :- RestoreStep(store, tree, files, n, keepExtra, restored, before, done, start);
      TakeOneMore(files, n);
      done := done + [files[n]];
    }
    r := Ok(restored);
  }

  method RestoreAll(store: Store, tree: Worktree, files: seq<FileEntry>, keepExtra: bool)
    returns (r: Result<seq<string>>)
    requires store.Valid() && tree.Valid()
    modifies store, tree
    ensures store.Valid() && tree.Valid() && old(tree.trail) <= tree.trail
    ensures !WritesFabric(files) ==> store.Now() == old(store.Now()) && store.trail == old(store.trail)
    ensures AllTorn(old(tree.files), tree.trail, |old(tree.trail)|, files, keepExtra)
    ensures r.Ok? ==> Overridden(old(tree.files), tree.files, files) && Fits(old(tree.files), files) && AllEndInNames(files)
    ensures r.Ok? ==> ListsRestored(old(tree.files), tree.files, files, r.value)
    ensures !WritesFabric(files) && r.Ok? ==> CanRestore(old(store.objects), old(tree.files), files)
    ensures !WritesFabric(files) && !tree.faulty && CanRestore(old(store.objects), old(tree.files), files) ==> r.Ok?
  {
    ghost var done;
    r, done := RestoreEach(store, tree, files, keepExtra, tree.files, store.Now(), |tree.trail|);
    if r.Ok? {
      assert done == files;
      OverriddenFits(old(tree.files), tree.files, files);
      AllAvailable(old(store.objects), old(tree.files), files, |files|);
    }
  }

  lemma RoomFor(before: Tree, now: Tree, files: seq<FileEntry>, n: nat)
    requires n < |files| && Overridden(before, now, files[..n]) && Fits(before, files)
    requires Sanitize(files[n].path).Ok?
    ensures !Blocked(now, Sanitize(files[n].path).value) && !IsDirectory(now, Sanitize(files[n].path).value)
  {
    var c := Sanitize(files[n].path).value;
    assert Occupied(before, files, c);
    forall d | d in now ensures !ProperPrefix(d, c) && !ProperPrefix(c, d) {
      assert Occupied(before, files[..n], d);
      assert Occupied(before, files, d);
    }
  }

  // ---------------------------------------------------------------------------------------------
  // Removing what the manifest does not know
  // ---------------------------------------------------------------------------------------------

  ghost predicate RemovedAt(mid: Tree, now: Tree, p: string)
    requires ProperTree(mid)
  {
    exists c :: c in mid && c !in now && Join(c) == p
  }

  ghost predicate Sifted(mid: Tree, now: Tree, todo: set<Comps>, files: seq<FileEntry>, keepExtra: bool)
    requires ProperTree(mid)
  {
    && (forall c :: c in now <==> c in mid && (c in todo || Spared(files, keepExtra, c)))
    && (forall c :: c in now ==> now[c] == mid[c])
  }

  lemma SiftedTorn(before: Tree, mid: Tree, now: Tree, todo: set<Comps>, files: seq<FileEntry>, keepExtra: bool)
    requires ProperTree(before) && ProperTree(mid) && Overridden(before, mid, files)
    requires Sifted(mid, now, todo, files, keepExtra)
    ensures Torn(before, now, files, keepExtra)
  {
    OverriddenTorn(before, mid, files, files, keepExtra);
  }

  lemma SiftedApplied(before: Tree, mid: Tree, now: Tree, files: seq<FileEntry>, keepExtra: bool)
    requires ProperTree(before) && ProperTree(mid) && Overridden(before, mid, files)
    requires Sifted(mid, now, {}, files, keepExtra)
    ensures Applied(before, now, files, keepExtra)
  {
    forall c | c in now ensures Holds(before, now, files, c) {
      assert Holds(before, mid, files, c);
    }
    forall c ensures c in now <==> (c in before || LastPlaced(files, c).Some?) && c != [] && Spared(files, keepExtra, c) {
      assert c in mid <==> Occupied(before, files, c);
    }
  }

  method Unlink(tree: Worktree, c: Comps, ghost before: Tree, ghost mid: Tree, ghost todo: set<Comps>,
                ghost files: seq<FileEntry>, ghost keepExtra: bool)
    returns (r: Result<()>)
    requires tree.Valid() && ProperTree(before) && ProperTree(mid) && Overridden(before, mid, files)
    requires c in mid && c in todo && !Spared(files, keepExtra, c) && Sifted(mid, tree.files, todo, files, keepExtra)
    modifies tree
    ensures tree.Valid() && tree.trail == old(tree.trail) + [tree.files] && Torn(before, tree.files, files, keepExtra)
    ensures r.Ok? ==> Sifted(mid, tree.files, todo - {c}, files, keepExtra) && tree.files == old(tree.files) - {c}
    ensures !tree.faulty ==> r.Ok?
  {
    SiftedTorn(before, mid, tree.files, todo, files, keepExtra);
    SiftedLess(mid, tree.files, todo, files, keepExtra, c);
    SiftedTorn(before, mid, tree.files - {c}, todo - {c}, files, keepExtra);
    r := tree.Remove(c);
  }

  lemma SiftedLess(mid: Tree, now: Tree, todo: set<Comps>, files: seq<FileEntry>, keepExtra: bool, c: Comps)
    requires ProperTree(mid) && c in mid && c in todo && !Spared(files, keepExtra, c) && Sifted(mid, now, todo, files, keepExtra)
    ensures Sifted(mid, now - {c}, todo - {c}, files, keepExtra)
  {
  }

  ghost predicate ListsRemoved(mid: Tree, now: Tree, removed: seq<string>)
    requires ProperTree(mid)
  {
    forall p :: p in removed <==> RemovedAt(mid, now, p)
  }

  lemma ListsOneMore(mid: Tree, now: Tree, c: Comps, removed: seq<string>)
    requires ProperTree(mid) && c in mid && ListsRemoved(mid, now, removed)
    ensures ListsRemoved(mid, now - {c}, removed + [Join(c)])
  {
    forall p ensures p in removed + [Join(c)] <==> RemovedAt(mid, now - {c}, p) {
      if p == Join(c) {
        assert c !in now - {c};
      } else if RemovedAt(mid, now, p) {
        var d :| d in mid && d !in now && Join(d) == p;
        assert d !in now - {c};
      }
    }
  }

  /** What one step of the removal pass does at the file `c`: nothing, or remove and report it. */
  ghost predicate Swept(was: Tree, now: Tree, c: Comps, spared: bool, removed0: seq<string>, removed: seq<string>)
    requires c != []
  {
    if spared then now == was && removed == removed0 else now == was - {c} && removed == removed0 + [Join(c)]
  }

  lemma SweptLists(mid: Tree, was: Tree, now: Tree, c: Comps, spared: bool, removed0: seq<string>, removed: seq<string>)
    requires ProperTree(mid) && c in mid && ListsRemoved(mid, was, removed0)
    requires Swept(was, now, c, spared, removed0, removed)
    ensures ListsRemoved(mid, now, removed)
  {
    if !spared {
      ListsOneMore(mid, was, c, removed0);
    }
  }

  lemma SparedStaysSifted(mid: Tree, now: Tree, todo: set<Comps>, files: seq<FileEntry>, keepExtra: bool, c: Comps)
    requires ProperTree(mid) && Sifted(mid, now, todo, files, keepExtra) && c != [] && Spared(files, keepExtra, c)
    ensures Sifted(mid, now, todo - {c}, files, keepExtra)
  {
  }

  method Sweep(tree: Worktree, files: seq<FileEntry>, keepExtra: bool, c: Comps, removed0: seq<string>,
               ghost before: Tree, ghost mid: Tree, ghost todo: set<Comps>)
    returns (r: Result<seq<string>>)
    requires tree.Valid() && ProperTree(before) && ProperTree(mid) && Overridden(before, mid, files)
    requires c in mid && c in todo && Sifted(mid, tree.files, todo, files, keepExtra)
    modifies tree
    ensures tree.Valid() && (tree.trail == old(tree.trail) || tree.trail == old(tree.trail) + [tree.files])
    ensures Torn(before, tree.files, files, keepExtra)
    ensures r.Ok? ==> Sifted(mid, tree.files, todo - {c}, files, keepExtra)
    ensures r.Ok? ==> Swept(old(tree.files), tree.files, c, Spared(files, keepExtra, c), removed0, r.value)
    ensures !tree.faulty ==> r.Ok?
  {
    if keepExtra || IsExcluded(c) || exists e :: e in files && e.path == Join(c) {
      SiftedTorn(before, mid, tree.files, todo, files, keepExtra);
      SparedStaysSifted(mid, tree.files, todo, files, keepExtra, c);
      r := Ok(removed0);
    } else {
      var gone := Unlink(tree, c, before, mid, todo, files, keepExtra);
      r := if gone.Ok? then Ok(removed0 + [Join(c)]) else Err(gone.error);
    }
  }

  ghost function PathsOf(files: seq<FileEntry>): (r: seq<string>)
    ensures |r| == |files| && forall k :: 0 <= k < |r| ==> r[k] == files[k].path
  {
    seq(|files|, k requires 0 <= k < |files| => files[k].path)
  }

  /** What has one of the three names among its components stays, unless an entry of `files` denotes it. */
  ghost predicate KeepsNames(before: Tree, after: Tree, files: seq<FileEntry>) {
    forall c :: c in before && !KeptInView(c) && !Reported(PathsOf(files), c) ==> c in after && after[c] == before[c]
  }

  /** Of everything else only what is listed is left, unless extras are kept. */
  ghost predicate LeavesListed(after: Tree, files: seq<FileEntry>, keepExtra: bool) {
    forall c :: !keepExtra && c in after && c != [] && KeptInView(c) ==> Join(c) in PathsOf(files)
  }

  lemma AppliedMeans(before: Tree, after: Tree, files: seq<FileEntry>, keepExtra: bool)
    requires ProperTree(before) && Applied(before, after, files, keepExtra)
    ensures KeepsNames(before, after, files) && LeavesListed(after, files, keepExtra)
  {
    forall c | c in before && !KeptInView(c) && !Reported(PathsOf(files), c)
      ensures c in after && after[c] == before[c]
    {
      assert Excluded(c) && LastPlaced(files, c).None?;
      assert c in after && Holds(before, after, files, c);
    }
    forall c | !keepExtra && c in after && c != [] && KeptInView(c) ensures Join(c) in PathsOf(files) {
      assert !Excluded(c) && Spared(files, keepExtra, c);
    }
  }

  lemma SiftedKeepsNames(mid: Tree, now: Tree, files: seq<FileEntry>, keepExtra: bool)
    requires ProperTree(mid) && Sifted(mid, now, {}, files, keepExtra)
    ensures KeepsNames(mid, now, [])
  {
  }

  /** Remove every file the manifest does not list, in any order. */
  method RemoveExtra(tree: Worktree, files: seq<FileEntry>, keepExtra: bool, ghost before: Tree)
    returns (r: Result<seq<string>>)
    requires tree.Valid() && ProperTree(before) && Overridden(before, tree.files, files)
    modifies tree
    ensures tree.Valid() && old(tree.trail) <= tree.trail
    ensures AllTorn(before, tree.trail, |old(tree.trail)|, files, keepExtra)
    ensures r.Ok? ==> Applied(before, tree.files, files, keepExtra)
    ensures r.Ok? ==> ListsRemoved(old(tree.files), tree.files, r.value)
    ensures r.Ok? ==> KeepsNames(old(tree.files), tree.files, []) && LeavesListed(tree.files, files, keepExtra)
    ensures r.Ok? ==> forall c :: c in tree.files ==> c in old(tree.files) && tree.files[c] == old(tree.files)[c]
    ensures !tree.faulty ==> r.Ok?
  {
    var removed: seq<string> := [];
    var todo := tree.files.Keys;
    ghost var mid := tree.files;
    while todo != {}
      invariant todo <= mid.Keys
      invariant tree.Valid() && old(tree.trail) <= tree.trail
      invariant AllTorn(before, tree.trail, |old(tree.trail)|, files, keepExtra)
      invariant Sifted(mid, tree.files, todo, files, keepExtra)
      invariant ListsRemoved(mid, tree.files, removed)
    {
      var c :| c in todo;
      ghost var wasTrail, was := tree.trail, tree.files;
      var swept := Sweep(tree, files, keepExtra, c, removed, before, mid, todo);
      TornTrail(before, wasTrail, tree.trail, tree.files, |old(tree.trail)|, files, keepExtra);
      if swept.Err? {
        return Err(swept.error);
      }
      SweptLists(mid, was, tree.files, c, Spared(files, keepExtra, c), removed, swept.value);
      removed := swept.value;
      todo := todo - {c};
    }
    SiftedApplied(before, mid, tree.files, files, keepExtra);
    SiftedKeepsNames(mid, tree.files, files, keepExtra);
    AppliedMeans(before, tree.files, files, keepExtra);
    return Ok(removed);
  }

  // ---------------------------------------------------------------------------------------------
  // apply
  // ---------------------------------------------------------------------------------------------

  /** `apply` gets as far as writing. */
  ghost predicate Admits(tombstones: seq<Tombstone>, m: Manifest) {
    Acceptable(m) && forall f :: f in m.files ==> !Purged(tombstones, f)
  }

  /** The file at `p`, of the old tree or just written, is no longer there. */
  ghost predicate Gone(before: Tree, after: Tree, files: seq<FileEntry>, p: string) {
    exists c :: c != [] && Occupied(before, files, c) && c !in after && Join(c) == p
  }

  lemma RemovedIsGone(before: Tree, mid: Tree, after: Tree, files: seq<FileEntry>, removed: seq<string>)
    requires ProperTree(before) && ProperTree(mid) && Overridden(before, mid, files) && ListsRemoved(mid, after, removed)
    ensures forall p :: p in removed <==> Gone(before, after, files, p)
  {
    forall p ensures RemovedAt(mid, after, p) <==> Gone(before, after, files, p) {
      if RemovedAt(mid, after, p) {
        var c :| c in mid && c !in after && Join(c) == p;
        assert Occupied(before, files, c);
      }
      if c :| c != [] && Occupied(before, files, c) && c !in after && Join(c) == p {
        assert c in mid;
      }
    }
  }

  lemma RewrittenAtEnd(before: Tree, mid: Tree, after: Tree, files: seq<FileEntry>, restored: seq<string>)
    requires ListsRestored(before, mid, files, restored)
    requires forall c :: c in after ==> c in mid && after[c] == mid[c]
    ensures ListsRestored(before, after, files, restored)
  {
  }

  /** Materialize `m`.  The store may be corrupted in any way, and is only read, unless `m` names files
      inside the fabric directory. */
  method Apply(store: Store, tree: Worktree, m: Manifest, keepExtra: bool) returns (r: Result<RevertReport>)
    requires store.Valid() && tree.Valid()
    modifies store, tree
    ensures store.Valid() && tree.Valid() && old(tree.trail) <= tree.trail
    ensures !WritesFabric(m.files) ==> store.Now() == old(store.Now()) && store.trail == old(store.trail)
    ensures r.Ok? ==> Admits(old(store.tombstones), m) && Fits(old(tree.files), m.files) && AllEndInNames(m.files)
    ensures r.Ok? ==> Applied(old(tree.files), tree.files, m.files, keepExtra)
    ensures r.Ok? ==> KeepsNames(old(tree.files), tree.files, m.files) && LeavesListed(tree.files, m.files, keepExtra)
    ensures r.Ok? ==> ListsRestored(old(tree.files), tree.files, m.files, r.value.restored)
    ensures r.Ok? ==> forall p :: p in r.value.removed <==> Gone(old(tree.files), tree.files, m.files, p)
    ensures !Admits(old(store.tombstones), m) ==>
              r.Err? && tree.files == old(tree.files) && tree.trail == old(tree.trail) && store.Now() == old(store.Now())
    ensures AllTorn(old(tree.files), tree.trail, |old(tree.trail)|, m.files, keepExtra)
    ensures !WritesFabric(m.files) && r.Ok? ==> CanRestore(old(store.objects), old(tree.files), m.files)
    ensures !WritesFabric(m.files) && !tree.faulty ==>
              Admits(old(store.tombstones), m) && CanRestore(old(store.objects), old(tree.files), m.files) ==> r.Ok?
  {
    var valid :- Validate(m);
    var tombstones := store.tombstones;
    for n := 0 to |m.files|
      invariant forall f :: f in m.files[..n] ==> !Purged(tombstones, f)
    {
      assert m.files[..n + 1] == m.files[..n] + [m.files[n]];
      var fe := m.files[n];
      if exists b :: b in tombstones && (b.path == fe.path || b.content == fe.content) {
        assert fe in m.files && Purged(tombstones, fe);
        return Err(Corrupt);
      }
    }
    assert m.files[..|m.files|] == m.files;
    ghost var before := tree.files;
    var restored :- RestoreAll(store, tree, m.files, keepExtra);
    ghost var middle, mid := tree.trail, tree.files;
    var swept := RemoveExtra(tree, m.files, keepExtra, before);
    forall i | |old(tree.trail)| <= i < |tree.trail| ensures Torn(before, tree.trail[i], m.files, keepExtra) {
      if i < |middle| { assert tree.trail[i] == middle[i]; }
    }
    if swept.Err? {
      return Err(swept.error);
    }
    RemovedIsGone(before, mid, tree.files, m.files, swept.value);
    RewrittenAtEnd(before, mid, tree.files, m.files, restored);
    AppliedMeans(before, tree.files, m.files, keepExtra);
    return Ok(RevertReport(restored, swept.value));
  }

  // ---------------------------------------------------------------------------------------------
  // The drift gate
  // ---------------------------------------------------------------------------------------------

  /** The live contents agree with `files`, as far as drift detection can see. */
  ghost predicate Clean(t: Tree, files: seq<FileEntry>)
    requires ProperTree(t)
  {
    forall p :: Live(t, p) == ContentAt(files, p)
  }

  /** The manifest the gate compares the tree with: HEAD, or one that names nothing. */
  ghost function HeadManifest(d: Disk): Result<Manifest> {
    if d.head.None? then Ok(Manifest(3, None, 0, "", [], [], None)) else Load(d, d.head.value)
  }

  /** The gate lets `m` through and nothing but the disk can keep it from being applied. */
  ghost predicate Appliable(d: Disk, before: Tree, m: Manifest, force: bool)
    requires ProperTree(before)
  {
    && HeadManifest(d).Ok? && (force || Clean(before, HeadManifest(d).value.files))
    && Admits(d.tombstones, m) && CanRestore(d.objects, before, m.files)
  }

  /** Refuse to touch a tree that holds work HEAD does not, unless forced. */
  method CheckThenApply(store: Store, tree: Worktree, m: Manifest, keepExtra: bool, force: bool)
    returns (r: Result<(Report, Option<RevertReport>)>)
    requires store.Valid() && tree.Valid()
    modifies store, tree
    ensures store.Valid() && tree.Valid() && old(tree.trail) <= tree.trail
    ensures !WritesFabric(m.files) ==> store.Now() == old(store.Now()) && store.trail == old(store.trail)
    ensures HeadManifest(old(store.Now())).Err? ==> r.Err? && tree.files == old(tree.files)
    ensures r.Ok? ==> HeadManifest(old(store.Now())).Ok?
    ensures r.Ok? ==>
              Reports(r.value.0, old(tree.files), map[], HeadManifest(old(store.Now())).value.files, old(store.head).Some?)
    ensures r.Ok? && r.value.1.None? ==> tree.files == old(tree.files) && !force && Dirty(r.value.0)
    ensures r.Ok? && r.value.1.Some? ==>
              && Admits(old(store.tombstones), m) && Fits(old(tree.files), m.files)
              && Applied(old(tree.files), tree.files, m.files, keepExtra)
              && (force || Clean(old(tree.files), HeadManifest(old(store.Now())).value.files))
    ensures HeadManifest(old(store.Now())).Ok? ==>
              (r.Ok? && r.value.1.None? <==> !force && !Clean(old(tree.files), HeadManifest(old(store.Now())).value.files))
    ensures !WritesFabric(m.files) && r.Ok? && r.value.1.Some? ==> Appliable(old(store.Now()), old(tree.files), m, force)
    ensures !WritesFabric(m.files) && !tree.faulty && Appliable(old(store.Now()), old(tree.files), m, force) ==>
              r.Ok? && r.value.1.Some?
  {
    var report;
    if store.head.Some? {
      var cur :- Load(Disk(store.objects, store.manifests, store.head, store.tombstones), store.head.value);
      report := Detect(tree.files, map[], cur, true);
      CleanIff(tree.files, cur, report);
    } else {
      var nothing := Manifest(MANIFEST_VERSION, None, 0, "", [], [], None);
      report := Detect(tree.files, map[], nothing, false);
      CleanIff(tree.files, nothing, report);
    }
    if Dirty(report) && !force {
      return Ok((report, None));
    }
    var applied :- Apply(store, tree, m, keepExtra);
    return Ok((report, Some(applied)));
  }

  lemma CleanIff(t: Tree, m: Manifest, r: Report)
    requires ProperTree(t)
    requires forall p :: p in r.added <==> IsAdded(Live(t, p), ContentAt(m.files, p))
    requires forall p :: p in r.deleted <==> IsDeleted(Live(t, p), ContentAt(m.files, p))
    requires forall p :: p in r.modified ==> IsModified(Live(t, p), ContentAt(m.files, p))
    requires m.files == [] || forall p :: IsModified(Live(t, p), ContentAt(m.files, p)) ==> p in r.modified
    ensures Clean(t, m.files) <==> !Dirty(r)
  {
    if !Dirty(r) {
      forall p ensures Live(t, p) == ContentAt(m.files, p) {
        assert !IsAdded(Live(t, p), ContentAt(m.files, p)) && !IsDeleted(Live(t, p), ContentAt(m.files, p));
        assert !IsModified(Live(t, p), ContentAt(m.files, p));
      }
    }
    if Clean(t, m.files) {
      forall p ensures p !in r.added && p !in r.deleted && p !in r.modified {
        assert Live(t, p) == ContentAt(m.files, p);
      }
      assert r.added == {} && r.deleted == {} && r.modified == {};
    }
  }
}
